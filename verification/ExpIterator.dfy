/** The expanding iterator (src/zerocopy/exp_iterator.h): reaching the end of the buffer asks the
    underflow handler for more before comparing equal to the end. */
module ExpIterators {
  import opened Fragments
  import opened Network
  import opened Iterators
  import opened StreamBuffer

  class ExpIterator {
    const it: Iterator?         // null in the end iterator
    const buf: StreamBuf
    const end: bool

    constructor (i: Iterator, b: StreamBuf)
      ensures it == i && buf == b && !end
    {
      it, buf, end := i, b, false;
    }

    constructor AtEnd(b: StreamBuf)
      ensures it == null && buf == b && end
    {
      it, buf, end := null, b, true;
    }

    /** A position in the readable bytes of the buffer. */
    ghost predicate Valid()
      reads this, it, buf, buf.list, buf.socket
    {
      && buf.Valid() && (it == null <==> end)
      && (it != null ==>
            && it.list == buf.list && it.Valid()
            && buf.ReadIndex() <= it.Index() <= buf.WriteIndex())
    }

    /** Number of bytes before this position. */
    ghost function Position(): nat
      requires Valid() && !end
      reads this, it, buf, buf.list, buf.socket
    {
      it.Index() - buf.ReadIndex()
    }

    method Get() returns (r: Iterator)
      requires Valid()
      ensures r.Valid() && r.list == buf.list && r.Index() == if end then buf.WriteIndex() else it.Index()
    {
      if end {
        r := buf.End();
      } else {
        r := it;
      }
    }

    /** Whether this position is the end of what has arrived so far. */
    method AtBufferEnd() returns (b: bool)
      requires Valid() && !end
      ensures b <==> Position() == |buf.Contents()|
    {
      hide StreamBuf.TrueInter, StreamBuf.PutIndex, Flat, FlatTo, Offset, Total, Spread, Whole;
      var e := buf.End();
      it.EqualIffSameIndex(e);
      b := it.Equal(e);
    }

    /** Asks the handler for more when nothing is left to look at. Every iterator stays where it is. */
    method Pull() returns (threw: bool)
      requires Valid() && !end
      modifies buf, buf.list, buf.socket, buf.Arrays(buf.Pa())
      ensures Valid() && Position() == old(Position()) && buf.GetKept() && buf.LimitsKept()
      ensures fresh(buf.Arrays(buf.Pa()) - old(buf.Arrays(buf.Pa())))
      ensures old(buf.Contents()) <= buf.Contents() && buf.Pending() == old(buf.Pending())
      ensures threw <==> old(Position() == |buf.Contents()|) && !buf.MayFetch()
      ensures if old(Position() == |buf.Contents()|) then buf.Fetched()
              else buf.socket.incoming == old(buf.socket.incoming)
      ensures old(Position() < |buf.Contents()|) || !buf.MayFetch() ==> buf.Contents() == old(buf.Contents())
      ensures !threw && Position() == |buf.Contents()| ==> buf.socket.incoming == []
    {
      hide StreamBuf.Contents, StreamBuf.Excess, StreamBuf.TrueInter, Flat, FlatTo, Offset, Total, StreamBuf.Pa;
      hide Spread;
      threw := false;
      var atEnd := AtBufferEnd();
      if atEnd {
        threw := CallHandler();
      }
    }

    /** Growth of the buffer moves no iterator. */
    twostate lemma StaysPut()
      requires old(Valid()) && !end && unchanged(it) && buf.Valid() && buf.GetKept() && buf.Extended()
      requires old(|buf.Contents()|) <= |buf.Contents()|
      ensures Valid() && Position() == old(Position())
    {
      hide StreamBuf.Excess, StreamBuf.TrueInter, StreamBuf.PutIndex, StreamBuf.Contents, Flat, FlatTo, Offset, Total;
      WholeIsSpread(buf.list.items);
      it.SurvivesGrowth();
    }

    method CallHandler() returns (threw: bool)
      requires Valid() && !end
      modifies buf, buf.list, buf.socket, buf.Arrays(buf.Pa())
      ensures Valid() && Position() == old(Position()) && buf.GetKept() && buf.LimitsKept()
      ensures fresh(buf.Arrays(buf.Pa()) - old(buf.Arrays(buf.Pa())))
      ensures old(buf.Contents()) <= buf.Contents() && buf.Pending() == old(buf.Pending())
      ensures (threw <==> !buf.MayFetch()) && (threw ==> buf.Contents() == old(buf.Contents()))
      ensures buf.Fetched()
      ensures !threw && buf.Contents() == old(buf.Contents()) ==> buf.socket.incoming == []
    {
      hide StreamBuf.Contents, StreamBuf.Excess, StreamBuf.TrueInter, StreamBuf.PutIndex, Flat, FlatTo, Offset;
      hide Total, Spread, Whole, Position, StreamBuf.Pending, StreamBuf.Extended, StreamBuf.Arrays;
      var reply, got := buf.InvokeUnderflowHandler();
      threw := reply == LengthError;
      StaysPut();
    }

    /** The comparison itself, an end iterator standing for the end of the buffer as it is now. */
    method SamePosition(other: ExpIterator) returns (eq: bool)
      requires Valid() && other.Valid() && other.buf == buf
      ensures eq <==> (if end then |buf.Contents()| else Position())
                      == (if other.end then |buf.Contents()| else other.Position())
      ensures !end ==> Position() <= |buf.Contents()|
    {
      hide StreamBuf.TrueInter, StreamBuf.PutIndex, Flat, FlatTo, Offset, Total, Spread, Whole;
      var lh := Get();
      var rh := other.Get();
      lh.EqualIffSameIndex(rh);
      eq := lh.Equal(rh);
    }

    /** equal: comparing with the end iterator at the end of the buffer asks the handler first. */
    method Equal(other: ExpIterator) returns (threw: bool, eq: bool)
      requires Valid() && other.Valid() && other.buf == buf
      modifies buf, buf.list, buf.socket, buf.Arrays(buf.Pa())
      ensures Valid() && other.Valid() && buf.Valid() && buf.GetKept() && buf.LimitsKept()
      ensures fresh(buf.Arrays(buf.Pa()) - old(buf.Arrays(buf.Pa())))
      ensures !end ==> Position() == old(Position())
      ensures !other.end ==> other.Position() == old(other.Position())
      ensures old(buf.Contents()) <= buf.Contents() && buf.Pending() == old(buf.Pending())
      ensures threw <==> !end && other.end && old(Position() == |buf.Contents()|) && !buf.MayFetch()
      ensures if !end && other.end && old(Position() == |buf.Contents()|) then buf.Fetched()
              else buf.socket.incoming == old(buf.socket.incoming)
      ensures !buf.MayFetch() ==> buf.Contents() == old(buf.Contents())
      ensures !threw && !end && other.end ==> (eq <==> Position() == |buf.Pending()|)
      ensures !threw && !end && other.end && !eq ==> Position() < |buf.Contents()|
      ensures !threw && !end && !other.end ==> (eq <==> Position() == other.Position())
      ensures !threw && end && !other.end ==> (eq <==> other.Position() == |buf.Contents()|)
      ensures !threw && end && other.end ==> eq
    {
      hide StreamBuf.Contents, StreamBuf.Excess, StreamBuf.TrueInter, Flat, FlatTo, Offset, Total, StreamBuf.Pa;
      hide Spread;
      threw, eq := false, false;
      if !end && other.end {
        threw := Pull();
        buf.socket.NothingUnread();
      }
      if !threw {
        eq := SamePosition(other);
      }
    }

    /** increment: arriving at the end of the buffer asks the handler for more. */
    method Increment() returns (threw: bool)
      requires Valid() && !end && Position() < |buf.Contents()|
      modifies it, buf, buf.list, buf.socket, buf.Arrays(buf.Pa())
      ensures Valid() && Position() == old(Position()) + 1 && buf.GetKept() && buf.LimitsKept()
      ensures fresh(buf.Arrays(buf.Pa()) - old(buf.Arrays(buf.Pa())))
      ensures old(buf.Contents()) <= buf.Contents() && buf.Pending() == old(buf.Pending())
      ensures threw <==> old(Position() + 1 == |buf.Contents()|) && !buf.MayFetch()
      ensures if old(Position() + 1 == |buf.Contents()|) then buf.Fetched()
              else buf.socket.incoming == old(buf.socket.incoming)
      ensures old(Position() + 1 < |buf.Contents()|) || !buf.MayFetch() ==> buf.Contents() == old(buf.Contents())
      ensures !threw && Position() == |buf.Contents()| ==> buf.socket.incoming == []
    {
      hide StreamBuf.Contents, StreamBuf.Excess, StreamBuf.TrueInter, Flat, FlatTo, Offset, Total, StreamBuf.Pa;
      it.Increment();
      threw := Pull();
    }

    method Dereference() returns (b: byte)
      requires Valid() && !end && Position() < |buf.Contents()|
      ensures b == buf.Contents()[Position()]
    {
      hide StreamBuf.Excess, StreamBuf.TrueInter, Flat, FlatTo, Offset;
      b := it.Dereference();
      assert Flat(buf.list.items)[buf.get.gptr + Position()] == b;
    }
  }

  lemma OneMore(s: seq<byte>, b: byte, p: seq<byte>)
    requires |s| < |p| && s <= p && b == p[|s|]
    ensures s + [b] <= p
  {
  }

  /** One round of the walk: look, step on, and ask whether that was the last byte. */
  method Visit(i: ExpIterator, last: ExpIterator) returns (threw: bool, eq: bool, b: byte)
    requires i.Valid() && last.Valid() && i.buf == last.buf && !i.end && last.end
    requires i.Position() < |i.buf.Contents()|
    modifies i.it, i.buf, i.buf.list, i.buf.socket, i.buf.Arrays(i.buf.Pa())
    ensures i.Valid() && last.Valid() && i.buf.Valid() && i.buf.LimitsKept()
    ensures fresh(i.buf.Arrays(i.buf.Pa()) - old(i.buf.Arrays(i.buf.Pa())))
    ensures old(i.buf.Contents()) <= i.buf.Contents() && i.buf.Pending() == old(i.buf.Pending())
    ensures b == i.buf.Pending()[old(i.Position())] && i.Position() == old(i.Position()) + 1 <= |i.buf.Contents()|
    ensures threw ==> !i.buf.MayFetch() && i.Position() == |i.buf.Contents()|
    ensures !i.buf.MayFetch() ==> i.buf.Contents() == old(i.buf.Contents())
    ensures !threw && eq ==> i.buf.MayFetch()
    ensures !threw ==> (eq <==> i.Position() == |i.buf.Pending()|)
    ensures !threw && !eq ==> i.Position() < |i.buf.Contents()|
  {
    hide StreamBuf.Contents, StreamBuf.Excess, StreamBuf.TrueInter, Flat, FlatTo, Offset, Total, StreamBuf.Pa;
    hide Spread, ExpIterator.Position, StreamBuf.PutIndex, Iterator.Valid, Iterator.Index;
    b := i.Dereference();
    threw := i.Increment();
    eq := false;
    if !threw {
      threw, eq := i.Equal(last);
    }
  }

  /** Walking from exp_begin to exp_end shows the buffered bytes and then everything the handler
      delivers, in order, none skipped or repeated, and takes nothing out of the buffer. */
  method Walk(buf: StreamBuf) returns (threw: bool, visited: seq<byte>)
    requires buf.Valid()
    modifies buf, buf.list, buf.socket, buf.Arrays(buf.Pa())
    ensures buf.Valid() && old(buf.Contents()) <= buf.Contents()
    ensures buf.Pending() == old(buf.Pending())
    ensures threw <==> !buf.MayFetch()
    ensures visited == buf.Contents() == if threw then old(buf.Contents()) else old(buf.Pending())
  {
    hide StreamBuf.Contents, StreamBuf.Excess, StreamBuf.TrueInter, Flat, FlatTo, Offset, Total, StreamBuf.Pa;
    hide Spread, StreamBuf.PutIndex, ExpIterator.Position, Iterator.Valid, Iterator.Index;
    var i, last, eq;
    visited := [];
    ghost var p := buf.Pending();
    i, last, threw, eq := FirstLook(buf);
    while !threw && !eq
      invariant i.Valid() && last.Valid() && buf.Valid() && buf.LimitsKept()
      invariant fresh(buf.Arrays(buf.Pa()) - old(buf.Arrays(buf.Pa())))
      invariant old(buf.Contents()) <= buf.Contents() && buf.Pending() == p
      invariant i.Position() == |visited| <= |buf.Contents()| && visited <= p
      invariant threw ==> !buf.MayFetch() && i.Position() == |buf.Contents()|
      invariant !buf.MayFetch() ==> buf.Contents() == old(buf.Contents())
      invariant !threw && eq ==> buf.MayFetch()
      invariant !threw ==> (eq <==> i.Position() == |buf.Pending()|)
      invariant !threw && !eq ==> i.Position() < |buf.Contents()|
      decreases |p| - |visited|
    {
      var b;
      threw, eq, b := Visit(i, last);
      OneMore(visited, b, p);
      visited := visited + [b];
    }
  }

  /** Whether there is anything to walk over. */
  method FirstLook(buf: StreamBuf) returns (i: ExpIterator, last: ExpIterator, threw: bool, eq: bool)
    requires buf.Valid()
    modifies buf, buf.list, buf.socket, buf.Arrays(buf.Pa())
    ensures i.Valid() && last.Valid() && i.buf == last.buf == buf && !i.end && last.end && fresh(i.it)
    ensures fresh(i) && fresh(last) && i.Position() == 0
    ensures buf.LimitsKept() && fresh(buf.Arrays(buf.Pa()) - old(buf.Arrays(buf.Pa())))
    ensures old(buf.Contents()) <= buf.Contents() && buf.Pending() == old(buf.Pending())
    ensures threw ==> !buf.MayFetch() && |buf.Contents()| == 0
    ensures !buf.MayFetch() ==> buf.Contents() == old(buf.Contents())
    ensures !threw && eq ==> buf.MayFetch()
    ensures !threw ==> (eq <==> |buf.Pending()| == 0) && (!eq ==> 0 < |buf.Contents()|)
  {
    hide StreamBuf.Contents, StreamBuf.Excess, StreamBuf.TrueInter, Flat, FlatTo, Offset, Total, StreamBuf.Pa;
    hide Spread, StreamBuf.PutIndex, ExpIterator.Position, Iterator.Valid, Iterator.Index;
    i, last := Ends(buf);
    threw, eq := i.Equal(last);
  }

  /** exp_begin and exp_end. */
  method Ends(buf: StreamBuf) returns (i: ExpIterator, last: ExpIterator)
    requires buf.Valid()
    ensures i.Valid() && last.Valid() && i.buf == last.buf == buf && !i.end && last.end && fresh(i.it)
    ensures fresh(i) && fresh(last) && i.Position() == 0
  {
    hide StreamBuf.Contents, StreamBuf.TrueInter, StreamBuf.PutIndex, Flat, FlatTo, Offset, Total, Spread, Whole;
    var first := buf.Begin();
    buf.PutIndexBounds();
    i := new ExpIterator(first, buf);
    last := new ExpIterator.AtEnd(buf);
  }
}
