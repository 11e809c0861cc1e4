/**
  index (src/client/mbox/index.h): cuts a mapped archive of messages, each preceded by its size in
  decimal and a newline, and has a pool of threads make every message fit for SMTP.
 */
module MboxIndex {
  import opened Ascii
  import opened Fragments
  import opened Fix
  import opened ThreadPool
  import opened PoolTheorems

  const MOST_DIGITS: nat := 10

  /** A message in the archive, as parse returns it. */
  datatype Entry = Entry(size: nat, addr: nat)

  predicate Digits(s: seq<byte>) {
    forall i | 0 <= i < |s| :: IsDigit(s[i])
  }

  /** The number that a run of digits stands for. */
  function Value(s: seq<byte>): nat
    requires Digits(s)
  {
    if s == [] then 0 else 10 * Value(s[..|s| - 1]) + (s[|s| - 1] - ZERO) as nat
  }

  /** Where the digits of the size end, at most ten of them. */
  function DigitsEnd(mem: seq<byte>, from: nat, at: nat): (r: nat)
    requires from <= at <= |mem| && at <= from + MOST_DIGITS
    ensures at <= r <= |mem| && r <= from + MOST_DIGITS && Digits(mem[at..r])
    ensures r == |mem| || r == from + MOST_DIGITS || !IsDigit(mem[r])
    decreases |mem| - at
  {
    if at < |mem| && at < from + MOST_DIGITS && IsDigit(mem[at]) then
      var r := DigitsEnd(mem, from, at + 1);
      assert mem[at..r] == [mem[at]] + mem[at + 1..r];
      r
    else at
  }

  function NewlineFrom(mem: seq<byte>, at: nat): (r: nat)
    requires at <= |mem|
    ensures at <= r <= |mem| && (r < |mem| ==> mem[r] == LF)
    ensures forall i | at <= i < r :: mem[i] != LF
    decreases |mem| - at
  {
    if at == |mem| || mem[at] == LF then at else NewlineFrom(mem, at + 1)
  }

  /** The message whose size is printed at pos. Its address is past the end when no newline follows. */
  function Header(mem: seq<byte>, pos: nat): Entry
    requires pos <= |mem|
  {
    var end := DigitsEnd(mem, pos, pos);
    Entry(Value(mem[pos..end]), NewlineFrom(mem, end) + 1)
  }

  /** All messages from pos on. */
  function Entries(mem: seq<byte>, pos: nat): seq<Entry>
    decreases |mem| - pos
  {
    if pos >= |mem| then [] else
      var e := Header(mem, pos);
      [e] + Entries(mem, e.addr + e.size)
  }

  lemma ValueSnoc(s: seq<byte>, c: byte)
    requires Digits(s) && IsDigit(c)
    ensures Digits(s + [c]) && Value(s + [c]) == 10 * Value(s) + (c - ZERO) as nat
  {
    assert (s + [c])[..|s|] == s;
  }

  lemma {:induction false} DigitsEndIs(mem: seq<byte>, from: nat, at: nat, stop: nat)
    requires from <= at <= stop <= |mem| && stop <= from + MOST_DIGITS && Digits(mem[at..stop])
    requires stop == |mem| || stop == from + MOST_DIGITS || !IsDigit(mem[stop])
    ensures DigitsEnd(mem, from, at) == stop
    decreases stop - at
  {
    if at < stop {
      assert mem[at..stop][0] == mem[at];
      assert mem[at + 1..stop] == mem[at..stop][1..];
      DigitsEndIs(mem, from, at + 1, stop);
    }
  }

  lemma {:induction false} NewlineFromIs(mem: seq<byte>, at: nat, stop: nat)
    requires at <= stop <= |mem| && (stop < |mem| ==> mem[stop] == LF)
    requires forall i | at <= i < stop :: mem[i] != LF
    ensures NewlineFrom(mem, at) == stop
    decreases stop - at
  {
    if at < stop {
      NewlineFromIs(mem, at + 1, stop);
    }
  }

  /** parse: reads one size and moves past the message. */
  method Parse(mem: seq<byte>, pos: nat) returns (size: nat, addr: nat, first: nat)
    requires pos <= |mem|
    ensures Entry(size, addr) == Header(mem, pos) && first == addr + size && pos < first
  {
    size, first := 0, pos;
    while first != |mem| && first - pos < MOST_DIGITS && IsDigit(mem[first])
      invariant pos <= first <= |mem| && first <= pos + MOST_DIGITS
      invariant Digits(mem[pos..first]) && size == Value(mem[pos..first])
      decreases |mem| - first
    {
      assert mem[pos..first + 1] == mem[pos..first] + [mem[first]];
      ValueSnoc(mem[pos..first], mem[first]);
      size := size * 10;
      size := size + (mem[first] - ZERO) as nat;
      first := first + 1;
    }
    DigitsEndIs(mem, pos, pos, first);
    ghost var end := first;
    while first != |mem| && mem[first] != LF
      invariant end <= first <= |mem|
      invariant forall i | end <= i < first :: mem[i] != LF
      decreases |mem| - first
    {
      first := first + 1;
    }
    NewlineFromIs(mem, end, first);
    first := first + 1;
    addr := first;
    first := first + size;
  }

  /** The loop of open over the archive. */
  method Scan(mem: seq<byte>) returns (entries: seq<Entry>)
    ensures entries == Entries(mem, 0)
  {
    hide Entries, Header;
    entries := [];
    var pos := 0;
    while pos < |mem|
      invariant 0 <= pos && entries + Entries(mem, pos) == Entries(mem, 0)
      decreases |mem| - pos
    {
      EntriesStep(mem, pos);
      ghost var whole := Entries(mem, pos);
      var size, addr;
      size, addr, pos := Parse(mem, pos);
      assert entries + whole == (entries + [Entry(size, addr)]) + Entries(mem, pos);
      entries := entries + [Entry(size, addr)];
    }
    assert Entries(mem, pos) == [] by {
      NoEntries(mem, pos);
    }
  }

  lemma NoEntries(mem: seq<byte>, pos: nat)
    requires |mem| <= pos
    ensures Entries(mem, pos) == []
  {
  }

  lemma EntriesStep(mem: seq<byte>, pos: nat)
    requires pos < |mem|
    ensures var e := Header(mem, pos); Entries(mem, pos) == [e] + Entries(mem, e.addr + e.size)
  {
  }

  // ----- printing -----

  function Decimal(n: nat): (s: seq<byte>)
    ensures s != [] && Digits(s) && Value(s) == n
  {
    var last := ZERO + (n % 10) as byte;
    if n < 10 then
      ValueSnoc([], last);
      assert [] + [last] == [last];
      [last]
    else
      ValueSnoc(Decimal(n / 10), last);
      Decimal(n / 10) + [last]
  }

  function Pow10(k: nat): nat {
    if k == 0 then 1 else 10 * Pow10(k - 1)
  }

  lemma {:induction false} ValueBelow(s: seq<byte>)
    requires Digits(s)
    ensures Value(s) < Pow10(|s|)
  {
    if s != [] {
      ValueBelow(s[..|s| - 1]);
    }
  }

  lemma {:induction false} DecimalLength(n: nat, k: nat)
    requires 1 <= k
    ensures |Decimal(n)| <= k <==> n < Pow10(k)
    decreases k
  {
    if n >= 10 && k > 1 {
      DecimalLength(n / 10, k - 1);
    } else if k == 1 {
      assert Pow10(1) == 10;
    } else {
      PowAtLeast(k);
    }
  }

  lemma {:induction false} PowAtLeast(k: nat)
    requires 1 <= k
    ensures Pow10(k) >= 10
  {
    if k > 1 {
      PowAtLeast(k - 1);
    }
  }

  /** An archive of messages. */
  function Printed(msgs: seq<seq<byte>>): seq<byte> {
    if msgs == [] then [] else Decimal(|msgs[0]|) + [LF] + msgs[0] + Printed(msgs[1..])
  }

  predicate Shows(mem: seq<byte>, e: Entry, msg: seq<byte>) {
    e.size == |msg| && e.addr + e.size <= |mem| && mem[e.addr..e.addr + e.size] == msg
  }

  /** The entries are exactly these messages. */
  predicate Recovers(mem: seq<byte>, entries: seq<Entry>, msgs: seq<seq<byte>>) {
    |entries| == |msgs| && forall i | 0 <= i < |msgs| :: Shows(mem, entries[i], msgs[i])
  }

  predicate Fits(msg: seq<byte>) {
    |msg| < Pow10(MOST_DIGITS)
  }

  /** A printed size is read back as it is, as long as it has no more than ten digits; of a longer one
      only the first ten count. */
  lemma HeaderOfPrinted(mem: seq<byte>, pos: nat, n: nat)
    requires var d := Decimal(n);
             pos + |d| < |mem| && mem[pos..pos + |d|] == d && mem[pos + |d|] == LF
    ensures Header(mem, pos).addr == pos + |Decimal(n)| + 1
    ensures Header(mem, pos).size == n <==> n < Pow10(MOST_DIGITS)
  {
    var d := Decimal(n);
    var k := if |d| <= MOST_DIGITS then |d| else MOST_DIGITS;
    DecimalLength(n, MOST_DIGITS);
    hide Decimal, Value, Pow10;
    assert mem[pos..pos + k] == d[..k];
    DigitsEndIs(mem, pos, pos, pos + k);
    assert forall i | pos <= i < pos + |d| :: mem[i] == d[i - pos];
    NewlineFromIs(mem, pos + k, pos + |d|);
    if |d| <= MOST_DIGITS {
      assert d[..k] == d;
    } else {
      ValueBelow(d[..k]);
    }
  }

  /** Any header line: at most ten digits are the size, and the message begins behind the line end, whatever
      stands between them. */
  lemma HeaderOfLine(mem: seq<byte>, pos: nat, stop: nat, end: nat)
    requires pos <= stop <= end < |mem| && Digits(mem[pos..stop]) && mem[end] == LF
    requires stop == pos + 10 || (stop < pos + 10 && !IsDigit(mem[stop]))
    requires forall i | stop <= i < end :: mem[i] != LF
    ensures Header(mem, pos) == Entry(Value(mem[pos..stop]), end + 1)
  {
    hide Value;
    DigitsEndIs(mem, pos, pos, stop);
    NewlineFromIs(mem, stop, end);
  }

  /** Reading undoes printing exactly when every message has a size of at most ten digits. */
  lemma {:induction false} ReadsBack(mem: seq<byte>, pos: nat, msgs: seq<seq<byte>>)
    requires pos <= |mem| && mem[pos..] == Printed(msgs)
    ensures Recovers(mem, Entries(mem, pos), msgs) <==> forall m | m in msgs :: Fits(m)
    decreases |msgs|
  {
    hide Decimal, Pow10, Header, Entries, Recovers, Shows, Fits, Printed;
    if msgs == [] {
      NothingPrinted(mem, pos);
    } else {
      var msg, e := msgs[0], Header(mem, pos);
      FirstPrinted(mem, pos, msgs);
      assert msgs == [msg] + msgs[1..];
      AllFitCons(msg, msgs[1..]);
      if Fits(msg) {
        ReadsBack(mem, e.addr + e.size, msgs[1..]);
        RecoversCons(mem, e, Entries(mem, e.addr + e.size), msg, msgs[1..]);
      } else {
        WrongSize(mem, e, Entries(mem, e.addr + e.size), msg, msgs[1..]);
      }
    }
  }

  lemma NothingPrinted(mem: seq<byte>, pos: nat)
    requires pos <= |mem| && mem[pos..] == Printed([])
    ensures Recovers(mem, Entries(mem, pos), [])
  {
  }

  /** The first message of the rest of an archive. */
  lemma FirstPrinted(mem: seq<byte>, pos: nat, msgs: seq<seq<byte>>)
    requires pos <= |mem| && msgs != [] && mem[pos..] == Printed(msgs)
    ensures var e := Header(mem, pos);
            && Entries(mem, pos) == [e] + Entries(mem, e.addr + e.size)
            && if Fits(msgs[0]) then
                 && Shows(mem, e, msgs[0]) && e.addr + e.size <= |mem|
                 && mem[e.addr + e.size..] == Printed(msgs[1..])
               else e.size != |msgs[0]|
  {
    var msg := msgs[0];
    PiecesOf(mem, pos, Decimal(|msg|), msg, Printed(msgs[1..]));
    HeaderOfPrinted(mem, pos, |msg|);
    hide Decimal, Pow10, Header, Printed;
  }

  lemma AllFitCons(msg: seq<byte>, msgs: seq<seq<byte>>)
    ensures (forall m | m in [msg] + msgs :: Fits(m)) <==> Fits(msg) && forall m | m in msgs :: Fits(m)
  {
    hide Fits;
    assert msg in [msg] + msgs;
    assert forall m | m in msgs :: m in [msg] + msgs;
  }

  lemma PiecesOf(mem: seq<byte>, pos: nat, d: seq<byte>, msg: seq<byte>, rest: seq<byte>)
    requires pos <= |mem| && mem[pos..] == d + [LF] + msg + rest
    ensures var addr := pos + |d| + 1;
            && addr + |msg| <= |mem| && mem[pos..pos + |d|] == d && mem[pos + |d|] == LF
            && mem[addr..addr + |msg|] == msg && mem[addr + |msg|..] == rest
  {
    var all := d + [LF] + msg + rest;
    assert forall i | 0 <= i < |all| :: mem[pos + i] == all[i];
    assert mem[pos..pos + |d|] == all[..|d|] == d;
    assert all[|d|] == LF;
    var addr := pos + |d| + 1;
    assert mem[addr..addr + |msg|] == mem[pos..][|d| + 1..|d| + 1 + |msg|] == msg;
    assert mem[addr + |msg|..] == mem[pos..][|d| + 1 + |msg|..] == rest;
  }

  lemma WrongSize(mem: seq<byte>, e: Entry, es: seq<Entry>, msg: seq<byte>, msgs: seq<seq<byte>>)
    requires e.size != |msg|
    ensures !Recovers(mem, [e] + es, [msg] + msgs)
  {
    assert ([e] + es)[0] == e && ([msg] + msgs)[0] == msg;
  }

  lemma RecoversCons(mem: seq<byte>, e: Entry, es: seq<Entry>, msg: seq<byte>, msgs: seq<seq<byte>>)
    requires Shows(mem, e, msg)
    ensures Recovers(mem, [e] + es, [msg] + msgs) <==> Recovers(mem, es, msgs)
  {
    var all, ms := [e] + es, [msg] + msgs;
    assert forall i | 0 <= i < |es| :: es[i] == all[i + 1];
    assert forall i | 0 <= i < |msgs| :: msgs[i] == ms[i + 1];
    if Recovers(mem, all, ms) {
      forall i | 0 <= i < |msgs|
        ensures Shows(mem, es[i], msgs[i])
      {
        assert Shows(mem, all[i + 1], ms[i + 1]);
      }
    }
  }

  // ----- the tasks -----

  /** What the task of an entry does; other entries are not its business. False is its assertion that
      the size is positive failing, which comes after the work. */
  method FixEntry(mem: seq<byte>, e: Entry) returns (ok: bool, bufs: seq<Slice>)
    requires e.addr + e.size <= |mem|
    ensures ok <==> e.size > 0
    ensures Within(mem, bufs) && Shown(mem, bufs) == Fixed(mem[e.addr..e.addr + e.size])
  {
    hide Shown, Within, Transform, StateAfter;
    ShownNothing(mem);
    var fixer := new FixMessageParser();
    bufs := fixer.Parse(mem, [], e.addr, e.addr + e.size);
    bufs := fixer.ParseEnd(mem, bufs);
    ok := e.size > 0;
  }

  /** The tasks in the order in which the pool finishes them, up to the first assertion that fails. */
  method RunTasks(mem: seq<byte>, entries: seq<Entry>, order: seq<nat>) returns (ok: bool, index: seq<seq<Slice>>)
    requires forall i | 0 <= i < |entries| :: entries[i].addr + entries[i].size <= |mem|
    requires forall i | i in order :: i < |entries|
    ensures |index| == |entries|
    ensures ok <==> forall i | i in order :: entries[i].size > 0
    ensures ok ==> forall i: nat | i < |entries| ::
              && Within(mem, index[i])
              && Shown(mem, index[i]) ==
                   if i in order then Fixed(mem[entries[i].addr..entries[i].addr + entries[i].size]) else []
  {
    hide Shown, Fixed;
    ok := true;
    index := seq(|entries|, i => []);
    assert forall i: nat | i < |entries| :: index[i] == [] && Within(mem, index[i]) && Shown(mem, index[i]) == [] by {
      ShownNothing(mem);
    }
    for k := 0 to |order|
      invariant |index| == |entries| && ok
      invariant forall i | i in order[..k] :: i < |entries| && entries[i].size > 0
      invariant forall i: nat | i < |entries| ::
                  && Within(mem, index[i])
                  && Shown(mem, index[i]) ==
                       if i in order[..k] then Fixed(mem[entries[i].addr..entries[i].addr + entries[i].size]) else []
    {
      assert order[k] in order;
      var bufs;
      ok, bufs := FixEntry(mem, entries[order[k]]);
      if !ok {
        return;
      }
      index := index[order[k] := bufs];
      assert order[..k + 1] == order[..k] + [order[k]];
    }
    assert order[..|order|] == order;
  }

  lemma ShownNothing(mem: seq<byte>)
    ensures Within(mem, []) && Shown(mem, []) == []
  {
  }

  /** The jobs 0 to n. */
  function Upto(n: nat): (r: seq<nat>)
    ensures |r| == n && forall i | 0 <= i < n :: r[i] == i
  {
    seq(n, i => i)
  }

  /** open on a printed archive: one client posts a task for each message and closes the pool. Unless a
      message is empty, which fails the assertion of its task, every entry ends up with the fixed form of
      its message, whatever the interleaving of the threads. */
  method Build(msgs: seq<seq<byte>>, ghost posting: seq<Step>, ghost closing: seq<Step>, order: seq<nat>)
    returns (ok: bool, entries: seq<Entry>, index: seq<seq<Slice>>)
    requires forall m | m in msgs :: Fits(m)
    requires var s := Opened(100, 24, [Upto(|msgs|)]);
             && Legal(s, posting) && (forall step | step in posting :: !step.Close?)
             && (forall p | p in After(s, posting).posters :: p.jobs == [])
             && Legal(After(s, posting), [Step.Close(false)] + closing)
             && After(After(s, posting), [Step.Close(false)] + closing).closer.Closed?
             && multiset(order) == After(After(s, posting), [Step.Close(false)] + closing).finished
    ensures var mem := Printed(msgs);
            && Recovers(mem, entries, msgs) && |index| == |msgs|
            && (ok <==> forall m | m in msgs :: m != [])
            && (ok ==> forall i | 0 <= i < |msgs| :: Within(mem, index[i]) && Shown(mem, index[i]) == Fixed(msgs[i]))
  {
    hide Printed, Fits, Shown, Fixed, Legal, After, Opened;
    PostAllThenClose(100, 24, Upto(|msgs|), posting, closing);
    var mem := Printed(msgs);
    entries := Scan(mem);
    assert mem[0..] == mem;
    ReadsBack(mem, 0, msgs);
    EachOnce(order, |msgs|);
    assert forall i | 0 <= i < |entries| :: Shows(mem, entries[i], msgs[i]);
    AllPositive(mem, entries, msgs, order);
    ok, index := RunTasks(mem, entries, order);
  }

  lemma AllPositive(mem: seq<byte>, entries: seq<Entry>, msgs: seq<seq<byte>>, order: seq<nat>)
    requires Recovers(mem, entries, msgs) && forall i: nat :: i in order <==> i < |msgs|
    ensures (forall i | i in order :: entries[i].size > 0) <==> forall m | m in msgs :: m != []
  {
    if forall i | i in order :: entries[i].size > 0 {
      forall m | m in msgs
        ensures m != []
      {
        var i: nat :| i < |msgs| && msgs[i] == m;
        assert i in order && Shows(mem, entries[i], msgs[i]);
      }
    } else {
      var i :| i in order && entries[i].size == 0;
      assert Shows(mem, entries[i], msgs[i]) && msgs[i] in msgs;
    }
  }

  lemma EachOnce(order: seq<nat>, n: nat)
    requires multiset(order) == multiset(Upto(n))
    ensures forall i: nat :: i in order <==> i < n
  {
    forall i: nat
      ensures i in order <==> i < n
    {
      assert i in order <==> i in multiset(order);
      assert i in Upto(n) <==> i in multiset(Upto(n));
      assert i < n ==> Upto(n)[i] == i;
    }
  }
}
