/** Arbitrary sequences of buffer operations: the byte queue and the safety of detached segments. */
module Runs {
  import opened Fragments
  import opened Network
  import opened Iterators
  import opened Segments
  import opened Queues
  import opened StreamBuffer
  import opened ByteQueue

  /** The put operations. */
  method Put(b: StreamBuf, op: Op) returns (ghost arrived: seq<byte>)
    requires b.Valid() && op.Puts()
    modifies b, b.list, b.Arrays(b.Pa())
    ensures b.Valid() && b.LimitsKept() && b.Onward() && b.Kept(old(b.PutArray()), old(b.put.pptr))
    ensures Moves(op, b.Allowance(), old(b.AsQueue()), arrived, [], [], 0, b.AsQueue())
    ensures b.Excess() == old(b.Excess())
  {
    hide StreamBuf.Contents, StreamBuf.Excess, Flat, FlatTo, Offset, Total, Moves;
    ghost var q := b.AsQueue();
    var ok;
    match op {
      case Sputn(s) =>
        var n;
        ok, n := b.Xsputn(s);
      case Sputc(c) =>
        var r;
        ok, r := b.Overflow(c as int);
      case Fill(s, spare) =>
        ok := PutFill(b, s, spare);
    }
    b.OnwardWhenExtended();
    arrived := if ok then op.Data() else [];
    PutMoves(op, b.Allowance(), q, ok, b.AsQueue());
  }

  lemma PutMoves(op: Op, allowance: int, q: Queue, ok: bool, q': Queue)
    requires op.Puts() && (ok <==> op.Asked() <= allowance) && q'.incoming == q.incoming && q'.shown == q.shown
    requires q'.contents == q.contents + (if ok then op.Data() else [])
    ensures Moves(op, allowance, q, if ok then op.Data() else [], [], [], 0, q')
  {
    hide Skips;
    AllTaken([]);
  }

  method PutFill(b: StreamBuf, s: seq<byte>, spare: nat) returns (ok: bool)
    requires b.Valid()
    modifies b, b.list, b.Arrays(b.Pa())
    ensures b.Valid() && b.LimitsKept() && b.GetKept() && b.Extended() && b.PutForward()
    ensures ok <==> b.totalSize + |s| + spare <= b.maxSize
    ensures b.Contents() == old(b.Contents()) + (if ok then s else []) && b.Excess() == old(b.Excess())
    ensures b.Kept(old(b.PutArray()), old(b.put.pptr))
  {
    hide StreamBuf.Contents, StreamBuf.Excess, StreamBuf.Room, StreamBuf.TrueInter, StreamBuf.PutIndex, Flat;
    hide FlatTo, Offset, Total, StreamBuf.PutBuffers, StreamBuf.FillsFragment, DistinctArrays;
    var mb;
    ok, mb := b.Prepare(|s| + spare);
    if ok {
      b.FillBuffers(mb, s);
      var _ := b.Commit(|s|);
    }
  }

  lemma GotMoves(op: Op, allowance: int, q: Queue, arrived: seq<byte>, gone: seq<byte>, taken: seq<byte>, seen: int,
                 q': Queue)
    requires op.Gets() && q.contents + q.Unread() == gone + (q'.contents + q'.Unread()) && Skips(gone, taken)
    requires IsSuffix(q.Unread(), q'.Unread()) && arrived == q.Unread()[..|q.Unread()| - |q'.Unread()|]
    requires Adds(op, allowance, q, arrived, q') && Takes(op, allowance, q, taken, gone, q')
    requires (op.Sgetc? ==> Reads(seen, q')) && (q.incoming == [] || allowance < 1024 ==> gone == taken)
    ensures Moves(op, allowance, q, arrived, gone, taken, seen, q')
  {
    hide Skips, Adds, Takes, Join;
    SplitArrival(q.contents, q.Unread(), gone, q'.contents, q'.Unread());
  }

  /** sgetn. */
  method GetMany(b: StreamBuf, n: nat) returns (ghost arrived: seq<byte>, taken: seq<byte>, ghost gone: seq<byte>)
    requires b.Valid()
    modifies b, b.list, b.socket, b.Arrays(b.Pa())
    ensures b.Valid() && b.LimitsKept() && b.Onward() && b.Kept(old(b.PutArray()), old(b.put.pptr))
    ensures Moves(Sgetn(n), b.Allowance(), old(b.AsQueue()), arrived, gone, taken, 0, b.AsQueue())
    ensures b.Excess() == old(b.Excess())
  {
    hide StreamBuf.Contents, StreamBuf.Excess, Flat, FlatTo, Offset, Total, Skips, Moves, StreamBuf.TrueInter;
    hide StreamBuf.PutIndex, Gets;
    ghost var q := b.AsQueue();
    b.socket.NothingUnread();
    var threw;
    threw, taken, gone := b.Xsgetn(n);
    b.socket.NothingUnread();
    arrived := q.Unread()[..|q.Unread()| - |b.socket.Unread()|];
    GotMoves(Sgetn(n), b.Allowance(), q, arrived, gone, taken, 0, b.AsQueue());
  }

  /** sgetc: returns the character in front, or shows more of the stream first; it takes nothing. */
  method Look(b: StreamBuf) returns (ghost arrived: seq<byte>, ghost gone: seq<byte>, seen: int)
    requires b.Valid()
    modifies b, b.list, b.socket, b.Arrays(b.Pa())
    ensures b.Valid() && b.LimitsKept() && b.Onward() && b.Kept(old(b.PutArray()), old(b.put.pptr))
    ensures Moves(Sgetc, b.Allowance(), old(b.AsQueue()), arrived, gone, [], seen, b.AsQueue())
    ensures b.Excess() == old(b.Excess())
  {
    hide StreamBuf.Contents, StreamBuf.Excess, Flat, FlatTo, Offset, Total, StreamBuf.NextShown, Moves;
    hide StreamBuf.Passes, StreamBuf.TrueInter, StreamBuf.PutIndex, Skips, StreamBuf.EofAt, ReadsOnce;
    ghost var q := b.AsQueue();
    b.socket.NothingUnread();
    gone := [];
    if b.get.gptr == b.get.egptr {
      var threw;
      threw, seen, gone := b.Underflow();
      b.socket.NothingUnread();
    } else {
      b.VisibleIsPrefix(1);
      seen := b.list.items[0].data[b.get.gptr] as int;
      assert b.Contents()[..1][0] == b.list.items[0].data[b.get.gptr..b.get.gptr + 1][0];
    }
    OnlyDropped(gone);
    arrived := q.Unread()[..|q.Unread()| - |b.socket.Unread()|];
    GotMoves(Sgetc, b.Allowance(), q, arrived, gone, [], seen, b.AsQueue());
  }

  lemma OnlyDropped(drop: seq<byte>)
    requires drop != [] ==> drop[0] == 255
    ensures Skips(drop, [])
  {
    NothingSkipped();
    SkipMore([], [], [], drop);
    assert [] + [] + drop == drop;
  }

  /** What left the socket is what the contents gained. */
  lemma SplitArrival(c: seq<byte>, u: seq<byte>, gone: seq<byte>, c': seq<byte>, v: seq<byte>)
    requires IsSuffix(u, v) && c + u == gone + (c' + v)
    ensures c + u[..|u| - |v|] == gone + c' && u == u[..|u| - |v|] + v
  {
    var a := u[..|u| - |v|];
    assert u == a + v;
    assert c + u == (c + a) + v && gone + (c' + v) == (gone + c') + v;
    assert c + a == ((c + a) + v)[..|c| + |a|];
    assert gone + c' == ((gone + c') + v)[..|gone| + |c'|];
  }

  /** prepare, one read and commit. */
  method Fetch(b: StreamBuf, n: nat) returns (ghost arrived: seq<byte>)
    requires b.Valid()
    modifies b, b.list, b.socket, b.Arrays(b.Pa())
    ensures b.Valid() && b.LimitsKept() && b.Onward() && b.Kept(old(b.PutArray()), old(b.put.pptr))
    ensures Moves(Read(n), b.Allowance(), old(b.AsQueue()), arrived, [], [], 0, b.AsQueue())
    ensures b.Excess() == old(b.Excess())
  {
    hide StreamBuf.Contents, StreamBuf.Excess, Flat, FlatTo, Offset, Total, Skips, ReadsOnce;
    ghost var u := b.socket.Unread();
    b.socket.NothingUnread();
    var reply, got := b.ReadMore(n);
    arrived := u[..got];
    assert u == arrived + u[got..];
    AllTaken([]);
  }

  /** consume or detach of at most n bytes, cut to what is there. */
  method Drop(b: StreamBuf, op: Op) returns (taken: seq<byte>, segs: seq<Segment>)
    requires b.Valid() && (op.Consume? || op.Detach?)
    modifies b, b.list
    ensures b.Valid() && b.LimitsKept() && b.Onward() && b.Kept(old(b.PutArray()), old(b.put.pptr))
    ensures Moves(op, b.Allowance(), old(b.AsQueue()), [], taken, taken, 0, b.AsQueue())
    ensures op.Consume? ==> segs == []
    ensures op.Detach? ==>
              && |segs| == 1 && fresh(segs[0]) && fresh(segs[0].list) && b.Holds(segs[0]) && segs[0].Bytes() == taken
              && b.Excess() <= old(b.Excess())
  {
    hide StreamBuf.Contents, StreamBuf.Excess, StreamBuf.Room, StreamBuf.TrueInter, StreamBuf.PutIndex;
    hide Flat, FlatTo, Offset, Total, Segment.Windows, Segment.Bytes, StreamBuf.Holds, StreamBuf.Sealed, Moves;
    ghost var q := b.AsQueue();
    segs := [];
    var n;
    taken, n := Available(b, op.n);
    assert b.Contents() == taken + b.Contents()[n..];
    if op.Consume? {
      var ok := b.Consume(n);
    } else {
      var seg := DetachBytes(b, n);
      segs := [seg];
    }
    DropMoves(op, b.Allowance(), q, taken, b.AsQueue());
  }

  lemma DropMoves(op: Op, allowance: int, q: Queue, taken: seq<byte>, q': Queue)
    requires (op.Consume? || op.Detach?) && q.contents == taken + q'.contents && q'.incoming == q.incoming
    requires |taken| == Min(op.n, |q.contents|)
    ensures Moves(op, allowance, q, [], taken, taken, 0, q')
  {
    hide Skips;
    AllTaken(taken);
  }

  method Available(b: StreamBuf, n: nat) returns (taken: seq<byte>, m: nat)
    requires b.Valid()
    ensures m == Min(n, |b.Contents()|) && taken == b.Contents()[..m]
  {
    hide StreamBuf.TrueInter, StreamBuf.PutIndex, Flat, FlatTo, Offset, Total;
    var cb := b.Data();
    var avail := Space(cb);
    m := Min(n, avail);
    taken := Collect(cb);
    taken := taken[..m];
  }

  /** detach(begin() + n), or detach(end()) for everything. */
  method DetachBytes(b: StreamBuf, n: nat) returns (seg: Segment)
    requires b.Valid() && n <= |b.Contents()|
    modifies b, b.list
    ensures b.Valid() && b.LimitsKept() && b.put.pptr == old(b.put.pptr)
    ensures b.Arrays(b.Pa()) == old(b.Arrays(b.Pa())) && b.PutArray() == old(b.PutArray())
    ensures fresh(seg) && fresh(seg.list) && b.Holds(seg)
    ensures seg.Valid() && Whole(seg.list.items) && seg.list.items != []
    ensures seg.Bytes() == old(b.Contents())[..n] && b.Contents() == old(b.Contents())[n..]
    ensures b.Excess() <= old(b.Excess())
  {
    hide StreamBuf.Contents, StreamBuf.Excess, StreamBuf.Room, StreamBuf.TrueInter, StreamBuf.PutIndex, Flat;
    hide FlatTo, Offset, Total, Segment.Windows, Segment.Bytes, StreamBuf.Holds, StreamBuf.Sealed, Spread;
    var it := SplitPoint(b, n);
    var ok;
    ok, seg := b.Detach(it);
  }

  method SplitPoint(b: StreamBuf, n: nat) returns (it: Iterator)
    requires b.Valid() && n <= |b.Contents()|
    ensures fresh(it) && it.Placed() && it.list == b.list && it.curSeg <= b.putActive
    ensures it.Index() == b.ReadIndex() + n && b.ReadIndex() <= it.Index() <= b.WriteIndex()
  {
    hide StreamBuf.Contents, StreamBuf.Excess, StreamBuf.Room, StreamBuf.TrueInter, Flat, FlatTo, Offset, Spread;
    b.PutIndexBounds();
    it := b.Begin();
    var end := b.End();
    var dist := it.DistanceTo(end);
    if n == dist {
      it := end;
    } else {
      it.Advance(n);
      b.BeforePut(it);
    }
  }

  /** detach(begin() + n), for any n. It fails exactly at the end of a put fragment that is full although
      there is another one behind it. */
  method DetachFromBegin(b: StreamBuf, n: nat) returns (ok: bool, seg: Segment)
    requires b.Valid() && n <= |b.Contents()|
    modifies b, b.list
    ensures ok <==>
              !(0 < n == |old(b.Contents())| && old(b.put.pptr == b.put.epptr && !b.list.IsLast(b.putActive)))
    ensures b.Valid() && seg.Valid() && seg.Bytes() == old(b.Contents())[..n]
    ensures b.Contents() == if ok then old(b.Contents())[n..] else old(b.Contents())
  {
    hide StreamBuf.Contents, StreamBuf.Excess, StreamBuf.Room, StreamBuf.TrueInter, StreamBuf.PutIndex, Flat;
    hide FlatTo, Offset, Total, Segment.Windows, Segment.Bytes, StreamBuf.Holds, StreamBuf.Sealed, Spread, Whole;
    var it := FromBegin(b, n);
    ok, seg := b.Detach(it);
  }

  method FromBegin(b: StreamBuf, n: nat) returns (it: Iterator)
    requires b.Valid() && n <= |b.Contents()|
    ensures fresh(it) && it.Placed() && it.list == b.list
    ensures it.Index() == b.ReadIndex() + n && b.ReadIndex() <= it.Index() <= b.WriteIndex()
    ensures it.curSeg <= b.putActive <==>
              !(0 < n == |b.Contents()| && b.put.pptr == b.put.epptr && !b.list.IsLast(b.putActive))
  {
    hide StreamBuf.Contents, StreamBuf.Excess, StreamBuf.Room, StreamBuf.TrueInter, Flat, FlatTo, Offset, Spread;
    b.PutIndexBounds();
    it := b.Begin();
    it.Advance(n);
    if it.Index() < b.WriteIndex() {
      b.BeforePut(it);
    } else if n > 0 {
      b.EndBeyondPut(it);
    }
  }

  /** One operation. `arrived` are the bytes that entered the contents, `gone` those that left it. */
  method Apply(b: StreamBuf, op: Op)
    returns (ghost arrived: seq<byte>, taken: seq<byte>, ghost gone: seq<byte>, seen: int, segs: seq<Segment>)
    requires b.Valid()
    modifies b, b.list, b.socket, b.Arrays(b.Pa())
    ensures b.Valid() && b.LimitsKept() && b.Onward() && b.Kept(old(b.PutArray()), old(b.put.pptr))
    ensures Moves(op, b.Allowance(), old(b.AsQueue()), arrived, gone, taken, seen, b.AsQueue())
    ensures !op.Consume? ==> b.Excess() <= old(b.Excess())
    ensures op.Detach? ==>
              |segs| == 1 && fresh(segs[0]) && fresh(segs[0].list) && b.Holds(segs[0]) && segs[0].Bytes() == taken
    ensures !op.Detach? ==> segs == []
  {
    hide StreamBuf.Contents, StreamBuf.Excess, StreamBuf.Room, StreamBuf.TrueInter, StreamBuf.PutIndex;
    hide Flat, FlatTo, Offset, Total, Segment.Windows, Segment.Bytes, StreamBuf.Holds, StreamBuf.Sealed, Whole, Moves;
    arrived, taken, gone, seen, segs := [], [], [], 0, [];
    match op {
      case Sputn(_) => arrived := Put(b, op);
      case Sputc(_) => arrived := Put(b, op);
      case Fill(_, _) => arrived := Put(b, op);
      case Read(n) => arrived := Fetch(b, n);
      case Sgetn(n) => arrived, taken, gone := GetMany(b, n);
      case Sgetc => arrived, gone, seen := Look(b);
      case Consume(_) => taken, segs := Drop(b, op);
      case Detach(_) => taken, segs := Drop(b, op);
    }
    if !op.Gets() {
      gone := taken;
    }
  }

  lemma AllTaken(s: seq<byte>)
    ensures Skips(s, s)
  {
    NothingSkipped();
    SkipMore([], [], s, []);
    assert [] + s + [] == s && [] + s == s;
  }

  /** Every piece cut off by the detach operations among ops still shows the bytes taken by it. */
  ghost predicate CutsIntact(b: StreamBuf, ops: seq<Op>, pieces: seq<seq<byte>>, segs: seq<seq<Segment>>)
    requires b.Shaped() && |pieces| == |segs| <= |ops|
    reads b, b.list, set i, s | 0 <= i < |segs| && s in segs[i] :: s
    reads set i, s | 0 <= i < |segs| && s in segs[i] :: s.list
    reads set i, s, j | 0 <= i < |segs| && s in segs[i] && 0 <= j < |s.list.items| :: s.list.items[j].data
  {
    forall i | 0 <= i < |segs| && ops[i].Detach? :: CutIntact(b, pieces[i], segs[i])
  }

  ghost predicate CutIntact(b: StreamBuf, piece: seq<byte>, segs: seq<Segment>)
    requires b.Shaped()
    reads b, b.list, set s | s in segs :: s, set s | s in segs :: s.list
    reads set s, j | s in segs && 0 <= j < |s.list.items| :: s.list.items[j].data
  {
    |segs| == 1 && segs[0].list != b.list && b.Holds(segs[0]) && segs[0].Bytes() == piece
  }

  /** One operation of a run, with the segments cut so far looking on. */
  method Step(b: StreamBuf, op: Op, ops: seq<Op>, pieces: seq<seq<byte>>, segs: seq<seq<Segment>>)
    returns (ghost arrived: seq<byte>, piece: seq<byte>, ghost gone: seq<byte>, seen: int, cut: seq<Segment>)
    requires b.Valid()
    requires |pieces| == |segs| <= |ops| && CutsIntact(b, ops, pieces, segs)
    modifies b, b.list, b.socket, b.Arrays(b.Pa())
    ensures b.Valid() && b.LimitsKept() && fresh(b.Arrays(b.Pa()) - old(b.Arrays(b.Pa())))
    ensures Moves(op, b.Allowance(), old(b.AsQueue()), arrived, gone, piece, seen, b.AsQueue())
    ensures !op.Consume? ==> b.Excess() <= old(b.Excess())
    ensures CutsIntact(b, ops, pieces, segs) && (op.Detach? ==> CutIntact(b, piece, cut))
  {
    hide StreamBuf.Contents, StreamBuf.Excess, StreamBuf.Room, StreamBuf.TrueInter, StreamBuf.PutIndex;
    hide Flat, FlatTo, Offset, Total, Segment.Windows, StreamBuf.Sealed, Whole, Moves;
    label before:
    arrived, piece, gone, seen, cut := Apply(b, op);
    forall i | 0 <= i < |segs| && ops[i].Detach?
      ensures CutIntact(b, pieces[i], segs[i])
    {
      assert old(CutIntact(b, pieces[i], segs[i]));
      var seg := segs[i][0];
      b.SegmentSurvives@before(seg);
    }
  }

  /** After the first |arrivals| operations: each has moved the queue as its kind does, the last state is
      that of the buffer, and every detached segment still has the bytes it was detached with. */
  ghost predicate Accounted(b: StreamBuf, ops: seq<Op>, trace: seq<Queue>, arrivals: seq<seq<byte>>,
                            gone: seq<seq<byte>>, pieces: seq<seq<byte>>, seen: seq<int>, segs: seq<seq<Segment>>)
    requires b.Valid()
    reads *
  {
    && Traced(b.Allowance(), ops, trace, arrivals, gone, pieces, seen) && trace[|arrivals|] == b.AsQueue()
    && |segs| == |pieces| && CutsIntact(b, ops, pieces, segs)
  }

  /** Any sequence of operations on any buffer. */
  method Run(b: StreamBuf, ops: seq<Op>)
    returns (ghost trace: seq<Queue>, ghost arrivals: seq<seq<byte>>, ghost gone: seq<seq<byte>>,
             pieces: seq<seq<byte>>, seen: seq<int>, segs: seq<seq<Segment>>)
    requires b.Valid()
    modifies b, b.list, b.socket, b.Arrays(b.Pa())
    ensures b.Valid() && |arrivals| == |ops|
    ensures Accounted(b, ops, trace, arrivals, gone, pieces, seen, segs) && trace[0] == old(b.AsQueue())
    ensures old(b.Contents()) + Join(arrivals) == Join(gone) + b.Contents()
    ensures old(b.socket.Unread()) == FromSocket(ops, arrivals) + b.socket.Unread()
    ensures old(b.socket.incoming) == [] ==> gone == pieces
    ensures (forall i | 0 <= i < |ops| :: !ops[i].Consume?) ==> b.Excess() <= old(b.Excess())
  {
    hide StreamBuf.Contents, StreamBuf.Excess, StreamBuf.Room, StreamBuf.TrueInter, StreamBuf.PutIndex, Flat;
    hide FlatTo, Offset, Total, Whole, Accounted, StreamBuf.Shaped, CutIntact;
    arrivals, gone, pieces, seen, segs := [], [], [], [], [];
    trace := [b.AsQueue()];
    NothingYet(b, ops);
    for k := 0 to |ops|
      invariant b.Valid() && |arrivals| == k && |trace| > 0 && trace[0] == old(b.AsQueue())
      invariant fresh(b.Arrays(b.Pa()) - old(b.Arrays(b.Pa())))
      invariant Accounted(b, ops, trace, arrivals, gone, pieces, seen, segs)
      invariant (forall i | 0 <= i < k :: !ops[i].Consume?) ==> b.Excess() <= old(b.Excess())
    {
      trace, arrivals, gone, pieces, seen, segs := RunStep(b, ops, trace, arrivals, gone, pieces, seen, segs);
    }
    RunConserves(b, old(b.AsQueue()), ops, trace, arrivals, gone, pieces, seen, segs);
  }

  lemma NothingYet(b: StreamBuf, ops: seq<Op>)
    requires b.Valid()
    ensures Accounted(b, ops, [b.AsQueue()], [], [], [], [], [])
  {
    hide StreamBuf.Valid, StreamBuf.Contents;
  }

  lemma RunConserves(b: StreamBuf, q: Queue, ops: seq<Op>, trace: seq<Queue>, arrivals: seq<seq<byte>>,
                     gone: seq<seq<byte>>, pieces: seq<seq<byte>>, seen: seq<int>, segs: seq<seq<Segment>>)
    requires b.Valid() && Accounted(b, ops, trace, arrivals, gone, pieces, seen, segs)
    requires |arrivals| == |ops| && trace[0] == q
    ensures q.contents + Join(arrivals) == Join(gone) + b.Contents()
    ensures q.Unread() == FromSocket(ops, arrivals) + b.socket.Unread()
    ensures q.incoming == [] ==> gone == pieces
  {
    hide StreamBuf.Valid, StreamBuf.Contents, CutsIntact, FromSocket, Join;
    Conservation(b.Allowance(), ops, trace, arrivals, gone, pieces, seen, |arrivals|);
    assert arrivals[..|arrivals|] == arrivals && gone[..|arrivals|] == gone;
    assert pieces[..|arrivals|] == pieces && ops[..|arrivals|] == ops;
  }

  method RunStep(b: StreamBuf, ops: seq<Op>, ghost trace: seq<Queue>, ghost arrivals: seq<seq<byte>>,
                 ghost gone: seq<seq<byte>>, pieces: seq<seq<byte>>, seen: seq<int>, segs: seq<seq<Segment>>)
    returns (ghost trace': seq<Queue>, ghost arrivals': seq<seq<byte>>, ghost gone': seq<seq<byte>>,
             pieces': seq<seq<byte>>, seen': seq<int>, segs': seq<seq<Segment>>)
    requires b.Valid() && Accounted(b, ops, trace, arrivals, gone, pieces, seen, segs) && |arrivals| < |ops|
    modifies b, b.list, b.socket, b.Arrays(b.Pa())
    ensures b.Valid() && fresh(b.Arrays(b.Pa()) - old(b.Arrays(b.Pa())))
    ensures |arrivals'| == |arrivals| + 1 && trace <= trace' && trace' != []
    ensures Accounted(b, ops, trace', arrivals', gone', pieces', seen', segs')
    ensures !ops[|arrivals|].Consume? ==> b.Excess() <= old(b.Excess())
  {
    hide StreamBuf.Contents, StreamBuf.Excess, StreamBuf.Room, StreamBuf.TrueInter, StreamBuf.PutIndex;
    hide Flat, FlatTo, Offset, Total, Segment.Windows, StreamBuf.Sealed, Whole, CutIntact, CutsIntact;
    hide StreamBuf.Holds, Moves, StreamBuf.AsQueue;
    var k := |pieces|;
    ghost var arrived, left; var piece, c, cut;
    arrived, piece, left, c, cut := Step(b, ops[k], ops, pieces, segs);
    TraceGrows(b.Allowance(), ops, trace, arrivals, gone, pieces, seen, arrived, left, piece, c, b.AsQueue());
    CutsGrow(b, ops, pieces, piece, segs, cut);
    trace', arrivals', gone' := trace + [b.AsQueue()], arrivals + [arrived], gone + [left];
    pieces', seen', segs' := pieces + [piece], seen + [c], segs + [cut];
  }

  /** Without 0xFF a run is that of a plain queue: every operation takes as many bytes as its kind does, from the
      front of what there is, and nothing else is gone. */
  lemma NothingSkippedInRun(b: StreamBuf, ops: seq<Op>, trace: seq<Queue>, arrivals: seq<seq<byte>>,
                            gone: seq<seq<byte>>, pieces: seq<seq<byte>>, seen: seq<int>, segs: seq<seq<Segment>>)
    requires b.Valid() && Accounted(b, ops, trace, arrivals, gone, pieces, seen, segs) && |arrivals| == |ops|
    requires Free(trace[0].contents) && Free(trace[0].Unread()) && forall op | op in ops :: Free(op.Data())
    ensures gone == pieces && trace[0].contents + Join(arrivals) == Join(pieces) + b.Contents()
    ensures forall i | 0 <= i < |ops| ::
              pieces[i] == (trace[i].contents + trace[i].Unread())[..Taking(ops[i], b.Allowance(), trace[i])]
  {
    hide StreamBuf.Valid, StreamBuf.Contents, CutsIntact, FromSocket, Join, Free, Taking;
    PlainQueue(b.Allowance(), ops, trace, arrivals, gone, pieces, seen, |ops|);
    RunConserves(b, trace[0], ops, trace, arrivals, gone, pieces, seen, segs);
  }

  lemma CutsGrow(b: StreamBuf, ops: seq<Op>, pieces: seq<seq<byte>>, piece: seq<byte>, segs: seq<seq<Segment>>,
                 cut: seq<Segment>)
    requires b.Shaped() && |pieces| == |segs| < |ops| && CutsIntact(b, ops, pieces, segs)
    requires ops[|segs|].Detach? ==> CutIntact(b, piece, cut)
    ensures CutsIntact(b, ops, pieces + [piece], segs + [cut])
  {
    hide CutIntact;
    forall i | 0 <= i < |segs| + 1 && ops[i].Detach?
      ensures CutIntact(b, (pieces + [piece])[i], (segs + [cut])[i])
    {
      assert i < |segs| ==> CutIntact(b, pieces[i], segs[i]);
    }
  }

  function SumOf(ns: seq<nat>): nat {
    if ns == [] then 0 else SumOf(ns[..|ns| - 1]) + ns[|ns| - 1]
  }

  /** Pieces detached one after the other and appended in the same order make up the prefix of the
      stream that they were cut from. */
  method Rebuild(b: StreamBuf, ns: seq<nat>) returns (whole: Segment)
    requires b.Valid()
    modifies b, b.list
    ensures b.Valid() && whole.Valid() && fresh(whole)
    ensures whole.Bytes() + b.Contents() == old(b.Contents())
    ensures |whole.Bytes()| == Min(SumOf(ns), |old(b.Contents())|)
  {
    hide StreamBuf.Contents, StreamBuf.Excess, StreamBuf.Room, StreamBuf.TrueInter, StreamBuf.PutIndex, Flat;
    hide FlatTo, Offset, Total, Segment.Windows, Segment.Bytes, StreamBuf.Holds, StreamBuf.Sealed;
    whole := new Segment();
    assert [] + b.Contents() == b.Contents() && ns[..0] == [];
    for k := 0 to |ns|
      invariant b.Valid() && whole.Valid() && fresh(whole) && fresh(whole.list)
      invariant whole.Bytes() + b.Contents() == old(b.Contents())
      invariant |whole.Bytes()| == Min(SumOf(ns[..k]), |old(b.Contents())|)
    {
      assert ns[..k + 1][..k] == ns[..k];
      CutAndAppend(b, ns[k], whole);
    }
    assert ns[..|ns|] == ns;
  }

  /** Moves the next n bytes from the buffer to the segment. */
  method CutAndAppend(b: StreamBuf, n: nat, whole: Segment)
    requires b.Valid() && whole.Valid() && whole.list != b.list
    modifies b, b.list, whole, whole.list
    ensures b.Valid() && whole.Valid()
    ensures whole.Bytes() + b.Contents() == old(whole.Bytes() + b.Contents())
    ensures |whole.Bytes()| == |old(whole.Bytes())| + Min(n, |old(b.Contents())|)
  {
    hide StreamBuf.Contents, StreamBuf.Excess, StreamBuf.Room, StreamBuf.TrueInter, StreamBuf.PutIndex, Flat;
    hide FlatTo, Offset, Total, Segment.Windows, Segment.Bytes, StreamBuf.Holds, StreamBuf.Sealed, Spread;
    ghost var c, w := b.Contents(), whole.Bytes();
    var taken, m := Available(b, n);
    var seg := DetachBytes(b, m);
    assert seg.Bytes() == c[..m] && b.Contents() == c[m..] && whole.Bytes() == w;
    AppendPiece(whole, seg);
    assert (w + c[..m]) + c[m..] == w + c;
  }

  /** A piece that was cut off by detach is appended whole. */
  method AppendPiece(whole: Segment, seg: Segment)
    requires whole.Valid() && seg.Valid() && Whole(seg.list.items) && seg.list.items != []
    requires whole != seg && whole.list != seg.list
    modifies whole, whole.list
    ensures whole.Valid() && whole.Bytes() == old(whole.Bytes()) + seg.Bytes() && seg.Bytes() == old(seg.Bytes())
  {
    hide Flat, FlatTo, Offset, Total, Segment.Windows, Segment.Bytes, Whole, Spread, NonEmpty;
    if seg.head == seg.tail {
      NothingCut(seg);
      assert whole.Bytes() + [] == whole.Bytes();
    }
    var ok := whole.Append(seg);
  }

  lemma NothingCut(seg: Segment)
    requires seg.Valid() && Whole(seg.list.items) && seg.list.items != [] && seg.head == seg.tail
    ensures seg.Bytes() == []
  {
    WholeIsSpread(seg.list.items);
    seg.DroppedIsEmpty();
  }

  /** basic_streambuf with all its defaults. */
  method DefaultBuffer(s: Socket) returns (b: StreamBuf)
    requires s.Valid()
    ensures b.Valid() && fresh(b) && b.socket == s && b.Contents() == [] && b.Excess() == 0
    ensures |b.list.items| == 1 && b.list.items[0].Size() == 512 && b.totalSize == b.PutSize() == 512
    ensures b.minFragmentation == 512 && b.maxFragmentation == 1048576 && b.maxSize == 18446744073709551615
  {
    hide StreamBuf.Contents, StreamBuf.Excess;
    b := new StreamBuf(0, 0, 0, 0, 0, s);
    assert b.list.items[0] in b.list.items;
    b.PutIndexBounds();
  }

  /** A byte 0xFF that fills its fragment, and a read that delivers: underflow drops the byte. */
  method UnderflowLosesByte() returns (b: StreamBuf, threw: bool, r: int, ghost drop: seq<byte>)
    ensures b.Valid() && !threw && drop == [255] && b.Pending() == [7]
  {
    hide StreamBuf.Excess, StreamBuf.Room, StreamBuf.TrueInter, Flat, FlatTo, Underflows, StreamBuf.ShowsAll;
    hide StreamBuf.AsQueue, IsSuffix;
    b := SmallBuffer(1, 0, [[7]]);
    label empty:
    assert b.socket.Unread() == [7] by {
      DropUnread([[7]], 1);
    }
    var ok, n := b.Xsputn([255]);
    b.OnwardWhenExtended@empty();
    assert b.Contents() == [255];
    assert b.ShowsWhole() && b.NextShown() == 1 by {
      b.PutIndexBounds();
      assert Offset(b.list.items, 0) == 0 && b.list.items[0].hi == 1;
    }
    assert b.Pending() == [255] + [7];
    threw, r, drop := b.Underflow();
    assert b.Pending() == ([255] + [7])[1..];
  }

  /** A byte put by overflow that fills its fragment, with another one behind: begin() + size() cannot be
      a split point. */
  method DetachEndFails() returns (b: StreamBuf, ok: bool, seg: Segment)
    ensures b.Valid() && b.Contents() == [7] && !ok
  {
    hide StreamBuf.Excess, StreamBuf.Room, StreamBuf.TrueInter, Flat, FlatTo;
    b := SmallBuffer(2, 0, []);
    label empty:
    var r;
    ok, r := b.Overflow(7);
    b.OnwardWhenExtended@empty();
    assert b.put.pptr == b.put.epptr && !b.list.IsLast(b.putActive) by {
      b.PutIndexBounds();
      assert Offset(b.list.items, 0) == 0 && Offset(b.list.items, 1) == 1;
      if b.Pa() > 0 {
        OffsetMono(b.list.items, 1, b.Pa());
      }
    }
    ok, seg := DetachFromBegin(b, 1);
  }

  /** A buffer whose counter a first consume has left too large: consume(size()) passes the assertion
      of the code there and then runs beyond the bytes that there are. */
  method Overcounted() returns (b: StreamBuf)
    ensures fresh(b) && b.Valid() && |b.Contents()| < b.Size()
  {
    hide StreamBuf.Room, StreamBuf.TrueInter, Flat, FlatTo;
    b := SmallBuffer(2, 0, []);
    label empty:
    var put, k := b.Xsputn([1, 2]);
    b.OnwardWhenExtended@empty();
    assert 0 < b.Pa() && b.list.items[0].hi == 1 by {
      b.PutIndexBounds();
      assert Offset(b.list.items, 0) == 0;
    }
    var ok := b.Consume(1);
    b.SizeIsContents();
  }

  /** A buffer at its size limit: a commit that fills the first of two fragments publishes its byte, and then
      throws. */
  method CommitThrows() returns (b: StreamBuf, ok: bool)
    ensures b.Valid() && b.Contents() == [7] && !ok
  {
    hide StreamBuf.Excess, StreamBuf.TrueInter, Flat, FlatTo, StreamBuf.Contents, StreamBuf.Room, Offset;
    b := SmallBuffer(2, 2, []);
    AtFirst(b);
    assert b.list.items[0].data in b.Arrays(0);
    b.Store([7], 0, 0);
    ok := b.Commit(1);
  }

  lemma AtFirst(b: StreamBuf)
    requires b.Valid() && b.PutIndex() == 0 && |b.list.items| > 1 && b.list.items[0].hi == 1
    ensures b.put.pptr == b.Pa() == 0 && b.FillsFragment(1)
  {
    assert Offset(b.list.items, 0) == 0 && Offset(b.list.items, 1) == 1;
  }

  /** An empty buffer whose fragments have room for one byte each. */
  method SmallBuffer(fragments: nat, max: nat, pieces: seq<seq<byte>>) returns (b: StreamBuf)
    requires 0 < fragments && forall c | c in pieces :: c != []
    ensures fresh(b) && fresh(b.list) && fresh(b.socket) && fresh(b.Arrays(0))
    ensures b.Valid() && b.socket.incoming == pieces
    ensures b.Contents() == [] && b.get.gptr == b.get.egptr == 0
    ensures |b.list.items| == fragments && forall i | 0 <= i < fragments :: b.list.items[i].hi == 1
    ensures b.PutIndex() == 0 && b.totalSize == b.PutSize() == fragments
    ensures b.maxSize == OrElse(max, 0xFFFF_FFFF_FFFF_FFFF)
  {
    hide StreamBuf.Excess, StreamBuf.Room, Flat, FlatTo, StreamBuf.Arrays;
    var s := new Socket(pieces);
    b := new StreamBuf(1, 1, fragments, 1, max, s);
    assert forall i | 0 <= i < fragments :: b.list.items[i] in b.list.items;
    OneByteEach(b.list.items, fragments);
    b.PutIndexBounds();
  }

  lemma {:induction false} OneByteEach(fs: seq<Fragment>, k: nat)
    requires AllValid(fs) && k <= |fs| && forall i | 0 <= i < |fs| :: fs[i].Size() == 1
    ensures Offset(fs, k) == k
  {
    if k > 0 {
      OneByteEach(fs, k - 1);
    }
  }
}
