/** The stream buffer as its readers see it: a queue of bytes, part of it shown in the get area, and what
    underflow and xsgetn do to it. */
module Queues {
  import opened Fragments
  import opened Network

  /** The readable bytes, what the peer has yet to deliver, and how many readable bytes are shown. */
  datatype Queue = Queue(contents: seq<byte>, incoming: seq<seq<byte>>, shown: nat)
  {
    function Unread(): seq<byte> {
      Join(incoming)
    }

    /** There is nothing in front, or a byte that passes for end of file. */
    predicate AtEof() {
      contents == [] || contents[0] == 255
    }
  }

  /** What *gptr is read as: the byte in front, unsigned or as a signed char, or -1 when there is none. */
  predicate Reads(r: int, q: Queue) {
    if q.contents == [] then r == -1 else -128 <= r < 256 && r % 256 == q.contents[0] as int
  }

  /** underflow on an empty get area: asks the peer once if it finds an end of file. `drop` are the bytes
      that disappear when that was a byte 0xFF. */
  ghost predicate Underflows(allowance: int, q: Queue, drop: seq<byte>, q': Queue) {
    && (if q.AtEof() && 1024 <= allowance then ReadsOnce(q.incoming, q'.incoming, 1024) else q'.incoming == q.incoming)
    && q.contents + q.Unread() == drop + (q'.contents + q'.Unread())
    && (drop != [] ==> q.contents != [] && q.AtEof() && q.incoming != [] && 1024 <= allowance && |drop| <= |q.contents|)
    && q'.shown <= |q'.contents| && (q'.shown == 0 <==> q'.contents == [])
  }

  /** A round of xsgetn with `left` bytes to go: takes what is shown, and calls underflow if that is too little. */
  ghost predicate Round(left: nat, allowance: int, q: Queue, piece: seq<byte>, drop: seq<byte>, q': Queue) {
    && 0 < left && q.shown <= |q.contents| && piece == q.contents[..Min(left, q.shown)]
    && var rest := Queue(q.contents[|piece|..], q.incoming, q.shown - |piece|);
       if |piece| == left then drop == [] && q' == rest else Underflows(allowance, rest, drop, q')
  }

  /** A round of xsgetn: what had been taken and was gone before it, the queue then, and what it does. */
  datatype GetStep = GetStep(ret: seq<byte>, gone: seq<byte>, from: Queue, piece: seq<byte>, drop: seq<byte>)

  /** Rounds of an xsgetn of n bytes that starts from q; each but the last has shown a byte that is no end of
      file. They have taken ret, gone is gone, and the queue is now `now`. */
  ghost predicate Rounds(n: nat, allowance: int, q: Queue, steps: seq<GetStep>, ret: seq<byte>, gone: seq<byte>,
                         now: Queue)
    decreases |steps|
  {
    if steps == [] then ret == [] && gone == [] && now == q
    else
      var k := |steps| - 1;
      var r := steps[k];
      && Rounds(n, allowance, q, steps[..k], r.ret, r.gone, r.from) && (k > 0 ==> !r.from.AtEof())
      && |r.ret| < n && Round(n - |r.ret|, allowance, r.from, r.piece, r.drop, now)
      && ret == r.ret + r.piece && gone == r.gone + r.piece + r.drop
  }

  /** xsgetn of n bytes: it ends with all of them, or with the first round that has found an end of file in
      front of what it had not shown. */
  ghost predicate Gets(n: nat, allowance: int, q: Queue, ret: seq<byte>, gone: seq<byte>, q': Queue) {
    exists steps :: Rounds(n, allowance, q, steps, ret, gone, q') && Ended(n, steps, ret, q')
  }

  predicate Ended(n: nat, steps: seq<GetStep>, ret: seq<byte>, now: Queue) {
    |ret| == n || (|ret| < n && steps != [] && now.AtEof())
  }

  /** The rounds so far, from q to now; `more` says whether there may be another one. */
  ghost predicate GetsSoFar(n: nat, allowance: int, q: Queue, ret: seq<byte>, gone: seq<byte>, now: Queue,
                            steps: seq<GetStep>, more: bool) {
    && Rounds(n, allowance, q, steps, ret, gone, now)
    && (allowance < 1024 ==> now.incoming == q.incoming)
    && (steps != [] && more ==> |ret| == n || !now.AtEof())
    && (!more ==> Ended(n, steps, ret, now))
  }

  lemma GetsStart(n: nat, allowance: int, q: Queue)
    ensures GetsSoFar(n, allowance, q, [], [], q, [], true)
  {
  }

  lemma GetsGrow(n: nat, allowance: int, q: Queue, ret: seq<byte>, gone: seq<byte>, now: Queue, steps: seq<GetStep>,
                 piece: seq<byte>, drop: seq<byte>, now': Queue, more: bool)
    requires GetsSoFar(n, allowance, q, ret, gone, now, steps, true) && |ret| < n
    requires Round(n - |ret|, allowance, now, piece, drop, now')
    requires more ==> |ret + piece| == n || !now'.AtEof()
    requires !more ==> |ret + piece| == n || now'.AtEof()
    ensures GetsSoFar(n, allowance, q, ret + piece, gone + piece + drop, now',
                      steps + [GetStep(ret, gone, now, piece, drop)], more)
  {
    assert (steps + [GetStep(ret, gone, now, piece, drop)])[..|steps|] == steps;
  }

  lemma GetsEnd(n: nat, allowance: int, q: Queue, ret: seq<byte>, gone: seq<byte>, now: Queue, steps: seq<GetStep>,
                more: bool)
    requires GetsSoFar(n, allowance, q, ret, gone, now, steps, more) && q.shown <= |q.contents|
    requires |ret| == n || (|ret| < n && !more)
    ensures Gets(n, allowance, q, ret, gone, now) && Min(n, q.shown) <= |ret|
    ensures allowance < 1024 ==> now.incoming == q.incoming
  {
    hide Rounds;
    TakesShown(n, allowance, q, ret, gone, now, steps);
    assert Rounds(n, allowance, q, steps, ret, gone, now) && Ended(n, steps, ret, now);
  }

  /** A first round takes what is shown, or all that is asked for. */
  lemma {:induction false} TakesShown(n: nat, allowance: int, q: Queue, ret: seq<byte>, gone: seq<byte>, now: Queue,
                                      steps: seq<GetStep>)
    requires Rounds(n, allowance, q, steps, ret, gone, now) && q.shown <= |q.contents|
    ensures steps != [] ==>
              var k := Min(n, q.shown);
              0 <= k <= |ret| && ret[..k] == q.contents[..k]
    decreases |steps|
  {
    if steps != [] {
      var k := |steps| - 1;
      var r := steps[k];
      TakesShown(n, allowance, q, r.ret, r.gone, r.from, steps[..k]);
      hide Underflows;
    }
  }

  // ----- what is skipped -----

  ghost function Weave(pieces: seq<seq<byte>>, drops: seq<seq<byte>>): seq<byte>
    requires |pieces| == |drops|
  {
    if pieces == [] then [] else
      var n := |pieces| - 1;
      Weave(pieces[..n], drops[..n]) + pieces[n] + drops[n]
  }

  /** `taken` is `gone` without some runs of bytes, each of which begins with 0xFF. */
  ghost predicate Skips(gone: seq<byte>, taken: seq<byte>) {
    exists pieces: seq<seq<byte>>, drops: seq<seq<byte>> :: Skipping(gone, taken, pieces, drops)
  }

  ghost predicate Skipping(gone: seq<byte>, taken: seq<byte>, pieces: seq<seq<byte>>, drops: seq<seq<byte>>) {
    && |pieces| == |drops| && gone == Weave(pieces, drops) && taken == Join(pieces)
    && forall i | 0 <= i < |drops| && drops[i] != [] :: drops[i][0] == 255
  }

  lemma NothingSkipped()
    ensures Skips([], [])
  {
    assert Skipping([], [], [], []);
  }

  lemma SkipMore(gone: seq<byte>, taken: seq<byte>, piece: seq<byte>, drop: seq<byte>)
    requires Skips(gone, taken) && (drop != [] ==> drop[0] == 255)
    ensures Skips(gone + piece + drop, taken + piece)
  {
    var pieces, drops :| Skipping(gone, taken, pieces, drops);
    var ps, ds := pieces + [piece], drops + [drop];
    assert ps[..|pieces|] == pieces && ds[..|pieces|] == drops;
    JoinOne(pieces, piece);
    assert Skipping(gone + piece + drop, taken + piece, ps, ds);
  }

  lemma GoneMore(gone: seq<byte>, piece: seq<byte>, drop: seq<byte>, rest: seq<byte>)
    ensures gone + (piece + (drop + rest)) == (gone + piece + drop) + rest
  {
  }

  /** Where no 0xFF is, nothing is skipped. */
  lemma NoneSkipped(gone: seq<byte>, taken: seq<byte>)
    requires Skips(gone, taken) && 255 !in gone
    ensures gone == taken
  {
    var pieces, drops :| Skipping(gone, taken, pieces, drops);
    NoDrops(pieces, drops);
  }

  lemma DropShows(drop: seq<byte>)
    requires drop != [] ==> drop[0] == 255
    ensures drop != [] ==> 255 in drop
  {
  }

  lemma {:induction false} NoDrops(pieces: seq<seq<byte>>, drops: seq<seq<byte>>)
    requires |pieces| == |drops| && 255 !in Weave(pieces, drops)
    requires forall i | 0 <= i < |drops| && drops[i] != [] :: drops[i][0] == 255
    ensures Weave(pieces, drops) == Join(pieces)
  {
    if pieces != [] {
      var n := |pieces| - 1;
      var w := Weave(pieces[..n], drops[..n]);
      assert forall x | x in w || x in drops[n] :: x in w + pieces[n] + drops[n];
      NoDrops(pieces[..n], drops[..n]);
      DropShows(drops[n]);
      JoinOne(pieces[..n], pieces[n]);
      assert pieces == pieces[..n] + [pieces[n]];
    }
  }
}
