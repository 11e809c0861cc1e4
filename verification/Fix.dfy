/**
  fix_message_parser (src/client/mbox/fix.h): makes a mail message fit for the DATA phase of SMTP
  without copying it, as a list of slices of the message and single inserted characters. It adds CR
  before LF where it is missing and doubles the dot at the beginning of a line.
 */
module Fix {
  import opened Ascii
  import opened Fragments

  datatype FixState = Init | Default | AfterCr
  datatype Result = Nothing | AddCr | AddDot

  /** An entry of the buffer list: bytes of the mapped file, or one of the static characters. */
  datatype Slice = Of(lo: nat, hi: nat) | Char(c: byte)

  function Bytes(mem: seq<byte>, s: Slice): seq<byte>
    requires s.Of? ==> s.lo <= s.hi <= |mem|
  {
    match s case Of(lo, hi) => mem[lo..hi] case Char(c) => [c]
  }

  predicate Within(mem: seq<byte>, bufs: seq<Slice>) {
    forall i | 0 <= i < |bufs| :: bufs[i].Of? ==> bufs[i].lo < bufs[i].hi <= |mem|
  }

  /** What the list of buffers sends. */
  function Shown(mem: seq<byte>, bufs: seq<Slice>): seq<byte>
    requires Within(mem, bufs)
  {
    if bufs == [] then [] else Shown(mem, bufs[..|bufs| - 1]) + Bytes(mem, bufs[|bufs| - 1])
  }

  lemma ShownAdd(mem: seq<byte>, bufs: seq<Slice>, s: Slice)
    requires Within(mem, bufs) && (s.Of? ==> s.lo < s.hi <= |mem|)
    ensures Within(mem, bufs + [s]) && Shown(mem, bufs + [s]) == Shown(mem, bufs) + Bytes(mem, s)
  {
    assert (bufs + [s])[..|bufs|] == bufs;
  }

  method Insert(mem: seq<byte>, bufs: seq<Slice>, b: nat, e: nat) returns (r: seq<Slice>)
    requires Within(mem, bufs) && b < e <= |mem|
    ensures Within(mem, r) && bufs <= r && Shown(mem, r) == Shown(mem, bufs) + mem[b..e]
  {
    ShownAdd(mem, bufs, Of(b, e));
    r := bufs + [Of(b, e)];
  }

  method InsertChar(mem: seq<byte>, bufs: seq<Slice>, c: byte) returns (r: seq<Slice>)
    requires Within(mem, bufs)
    ensures Within(mem, r) && bufs <= r && Shown(mem, r) == Shown(mem, bufs) + [c]
  {
    ShownAdd(mem, bufs, Char(c));
    r := bufs + [Char(c)];
  }

  // ----- what the fixer does, byte by byte -----

  function NextState(state: FixState, c: byte): FixState {
    if state == AfterCr then (if c == LF then Init else Default)
    else if state == Init && c == DOT then Default
    else if c == LF then Init
    else if c == CR then AfterCr
    else Default
  }

  function Sent(state: FixState, c: byte): seq<byte> {
    if state == Init && c == DOT then [DOT, DOT]
    else if state != AfterCr && c == LF then [CR, LF]
    else [c]
  }

  function StateAfter(state: FixState, text: seq<byte>): FixState
    decreases |text|
  {
    if text == [] then state else StateAfter(NextState(state, text[0]), text[1..])
  }

  function Transform(state: FixState, text: seq<byte>): seq<byte>
    decreases |text|
  {
    if text == [] then [] else Sent(state, text[0]) + Transform(NextState(state, text[0]), text[1..])
  }

  /** The line end that closes the last line. */
  function LineEnd(state: FixState): seq<byte> {
    match state case Init => [] case AfterCr => [LF] case Default => [CR, LF]
  }

  function Body(text: seq<byte>): seq<byte> {
    Transform(Init, text) + LineEnd(StateAfter(Init, text))
  }

  /** What is sent for a message: its lines, and the dot that ends the data. */
  function Fixed(text: seq<byte>): seq<byte> {
    Body(text) + [DOT, CR, LF]
  }

  /** Cutting the message anywhere makes no difference. */
  lemma {:induction false} TransformConcat(state: FixState, a: seq<byte>, b: seq<byte>)
    ensures StateAfter(state, a + b) == StateAfter(StateAfter(state, a), b)
    ensures Transform(state, a + b) == Transform(state, a) + Transform(StateAfter(state, a), b)
    decreases |a|
  {
    if a == [] {
      assert a + b == b;
    } else {
      assert (a + b)[1..] == a[1..] + b;
      TransformConcat(NextState(state, a[0]), a[1..], b);
    }
  }

  lemma TransformOne(state: FixState, a: seq<byte>, c: byte)
    ensures StateAfter(state, a + [c]) == NextState(StateAfter(state, a), c)
    ensures Transform(state, a + [c]) == Transform(state, a) + Sent(StateAfter(state, a), c)
  {
    TransformConcat(state, a, [c]);
    assert [c][1..] == [];
  }

  class FixMessageParser {
    var state: FixState

    constructor ()
      ensures state == Init
    {
      state := Init;
    }

    method Reset()
      modifies this
      ensures state == Init
    {
      state := Init;
    }

    method Consume(input: byte) returns (r: Result)
      modifies this
      ensures state == NextState(old(state), input)
      ensures Sent(old(state), input) == (match r case Nothing => [] case AddCr => [CR] case AddDot => [DOT]) + [input]
    {
      if state == AfterCr {
        state := if input == LF then Init else Default;
        return Nothing;
      }
      if state == Init {
        state := Default;
        if input == DOT {
          return AddDot;
        }
      }
      if input == LF {
        state := Init;
        return AddCr;
      }
      if input == CR {
        state := AfterCr;
      }
      return Nothing;
    }

    /** Adds the buffers for mem[begin..end]. */
    method Parse(mem: seq<byte>, bufs: seq<Slice>, begin: nat, end: nat) returns (r: seq<Slice>)
      requires begin <= end <= |mem| && Within(mem, bufs)
      modifies this
      ensures Within(mem, r) && bufs <= r
      ensures Shown(mem, r) == Shown(mem, bufs) + Transform(old(state), mem[begin..end])
      ensures state == StateAfter(old(state), mem[begin..end])
    {
      r := bufs;
      var from, current := begin, begin;
      while current != end
        invariant begin <= from <= current <= end && Within(mem, r) && bufs <= r
        invariant state == StateAfter(old(state), mem[begin..current])
        invariant Shown(mem, r) + mem[from..current] == Shown(mem, bufs) + Transform(old(state), mem[begin..current])
      {
        r, from := Advance(mem, r, from, current, Shown(mem, bufs), old(state), begin);
        current := current + 1;
      }
      if from != end {
        r := Insert(mem, r, from, end);
      }
    }

    /** One round of parse's loop. */
    method Advance(mem: seq<byte>, bufs: seq<Slice>, from: nat, current: nat,
                   ghost before: seq<byte>, ghost start: FixState, ghost begin: nat) returns (r: seq<Slice>, from': nat)
      requires begin <= from <= current < |mem| && Within(mem, bufs)
      requires state == StateAfter(start, mem[begin..current])
      requires Shown(mem, bufs) + mem[from..current] == before + Transform(start, mem[begin..current])
      modifies this
      ensures from <= from' <= current && Within(mem, r) && bufs <= r
      ensures state == StateAfter(start, mem[begin..current + 1])
      ensures Shown(mem, r) + mem[from'..current + 1] == before + Transform(start, mem[begin..current + 1])
    {
      hide Within, Shown, Transform, StateAfter, Sent, NextState;
      r, from' := bufs, from;
      var input := mem[current];
      assert mem[begin..current + 1] == mem[begin..current] + [input];
      TransformOne(start, mem[begin..current], input);
      var result := Consume(input);
      if result != Nothing && current != from' {
        r := Insert(mem, r, from', current);
        from' := current;
      }
      ghost var shown, pending := Shown(mem, r), mem[from'..current];
      if result == AddCr {
        r := InsertChar(mem, r, CR);
      }
      if result == AddDot {
        r := InsertChar(mem, r, DOT);
      }
      assert mem[from'..current + 1] == pending + [input];
      assert shown + pending == before + Transform(start, mem[begin..current]);
      ghost var extra := match result case Nothing => [] case AddCr => [CR] case AddDot => [DOT];
      assert Shown(mem, r) == shown + extra;
      Swap(shown, pending, extra, [input], before, Transform(start, mem[begin..current]));
    }

    lemma Swap(shown: seq<byte>, pending: seq<byte>, extra: seq<byte>, c: seq<byte>, before: seq<byte>, t: seq<byte>)
      requires shown + pending == before + t && (pending == [] || extra == [])
      ensures (shown + extra) + (pending + c) == before + (t + (extra + c))
    {
      assert (shown + extra) + (pending + c) == (shown + pending) + (extra + c);
      assert (before + t) + (extra + c) == before + (t + (extra + c));
    }

    /** The end of the message, with the end-of-data marker. */
    method ParseEnd(mem: seq<byte>, bufs: seq<Slice>) returns (r: seq<Slice>)
      requires Within(mem, bufs)
      modifies this
      ensures Within(mem, r) && state == Init
      ensures Shown(mem, r) == Shown(mem, bufs) + LineEnd(old(state)) + [DOT, CR, LF]
      ensures var sent := match old(state)
                          case Init => [DOT, CR, LF]
                          case AfterCr => [LF, DOT, CR, LF]
                          case Default => [CR, LF, DOT, CR, LF];
              Shown(mem, r) == Shown(mem, bufs) + sent
    {
      hide Within, Shown;
      r := bufs;
      if state != Init {
        if state != AfterCr {
          r := InsertChar(mem, r, CR);
        }
        r := InsertChar(mem, r, LF);
      }
      assert Shown(mem, r) == Shown(mem, bufs) + LineEnd(state);
      r := InsertChar(mem, r, DOT);
      r := InsertChar(mem, r, CR);
      r := InsertChar(mem, r, LF);
      Reset();
    }
  }

  /** A message fixed in any number of pieces, each a run of the mapped file. */
  method FixInPieces(mem: seq<byte>, cuts: seq<nat>) returns (r: seq<Slice>)
    requires cuts != [] && (forall i, j | 0 <= i < j < |cuts| :: cuts[i] <= cuts[j]) && cuts[|cuts| - 1] <= |mem|
    ensures Within(mem, r) && Shown(mem, r) == Fixed(mem[cuts[0]..cuts[|cuts| - 1]])
  {
    var fixer := new FixMessageParser();
    r := [];
    for i := 1 to |cuts|
      invariant Within(mem, r) && fixer.state == StateAfter(Init, mem[cuts[0]..cuts[i - 1]])
      invariant Shown(mem, r) == Transform(Init, mem[cuts[0]..cuts[i - 1]])
    {
      var a, b := mem[cuts[0]..cuts[i - 1]], mem[cuts[i - 1]..cuts[i]];
      assert mem[cuts[0]..cuts[i]] == a + b;
      TransformConcat(Init, a, b);
      r := fixer.Parse(mem, r, cuts[i - 1], cuts[i]);
    }
    r := fixer.ParseEnd(mem, r);
  }
}
