/**
  basic_segment (src/zerocopy/segment.h): a run of bytes that shares the fragments of the buffer it
  was detached from. `head` points into the first fragment and `tail` into the last one.
 */
module Segments {
  import opened Fragments
  import opened Iterators

  class Segment {
    const list: FragmentList
    var head: Ptr
    var tail: Ptr

    ghost predicate Valid()
      reads this, list
    {
      && AllValid(list.items) && list.first == 0 && list.base == 0
      && (list.items != [] ==>
            && list.items[0].Contains(head) && list.items[|list.items| - 1].Contains(tail)
            && (|list.items| == 1 ==> head.off <= tail.off))
    }

    /** The windows that hold the segment's bytes. */
    ghost function Windows(): (r: seq<Fragment>)
      requires Valid()
      reads this, list
      ensures |r| == |list.items| && AllValid(r)
    {
      if list.items == [] then [] else Trim(list.items, head.off, tail.off)
    }

    ghost function Bytes(): seq<byte>
      requires Valid()
      reads this, list, set i | 0 <= i < |list.items| :: list.items[i].data
    {
      Flat(Windows())
    }

    /** Positions of head and tail in the flattened fragments. */
    ghost function HeadIndex(): nat
      requires Valid() && list.items != []
      reads this, list
    {
      head.off - list.items[0].lo
    }

    ghost function TailIndex(): nat
      requires Valid() && list.items != []
      reads this, list
    {
      var n := |list.items| - 1;
      Offset(list.items, n) + tail.off - list.items[n].lo
    }

    lemma BytesAreSlice()
      requires Valid() && list.items != []
      ensures HeadIndex() <= TailIndex() <= Total(list.items)
      ensures Bytes() == Flat(list.items)[HeadIndex()..TailIndex()]
    {
      TrimIsSlice(list.items, head.off, tail.off);
    }

    constructor ()
      ensures Valid() && fresh(list) && list.items == [] && head == tail == Null && Bytes() == []
    {
      list := new FragmentList();
      head, tail := Null, Null;
    }

    constructor Of(frags: seq<Fragment>, h: Ptr, t: Ptr)
      requires AllValid(frags) && frags != []
      requires frags[0].Contains(h) && frags[|frags| - 1].Contains(t) && (|frags| == 1 ==> h.off <= t.off)
      ensures Valid() && fresh(list) && list.items == frags && head == h && tail == t
    {
      list := new FragmentList();
      head, tail := h, t;
      new;
      list.items := frags;
    }

    method Size() returns (result: nat)
      requires Valid()
      ensures result == |Bytes()|
    {
      result := 0;
      var i, end := 0, |list.items|;
      while i != end
        invariant 0 <= i <= end && result == Offset(Windows(), i)
      {
        var f, next := list.items[i], i + 1;
        if i == 0 || next == end {
          var dataBegin := if i == 0 then head.off else f.lo;
          var dataEnd := if next == end then tail.off else f.hi;
          result := result + (dataEnd - dataBegin);
        } else {
          result := result + f.Size();
        }
        assert Windows()[i].Size() == result - Offset(Windows(), i);
        i := next;
      }
    }

    /** append: shares x's fragments. When x.head_ == x.tail_ nothing is appended. A fragment of which
        nothing is shown becomes an empty one in the middle of the list. False is a look at the front of
        x's empty list. */
    method Append(x: Segment) returns (ok: bool)
      requires Valid() && x.Valid() && x != this && x.list != list
      modifies this, list
      ensures Valid() && x.Valid() && x.Bytes() == old(x.Bytes())
      ensures ok <==> x.head == x.tail || old(list.items) == [] || x.list.items != []
      ensures var added := ok && x.head != x.tail;
              && Windows() == old(Windows()) + (if added then x.Windows() else [])
              && Bytes() == old(Bytes()) + (if added then x.Bytes() else [])
              && (added && old(list.items) != [] ==>
                    (NonEmpty(list.items) <==>
                       && old(NonEmpty(list.items)) && NonEmpty(x.list.items)
                       && old(list.items[|list.items| - 1].lo < tail.off) && x.head.off < x.list.items[0].hi))
    {
      hide Trim, Flat, FlatTo, Offset;
      ok := true;
      assert Bytes() + [] == Bytes() && Windows() + [] == Windows();
      if x.head == x.tail {
        return;
      }
      if list.items == [] {
        assert Windows() == [] && [] + x.Windows() == x.Windows();
        Concat([], x.Windows());
        list.items, head, tail := x.list.items, x.head, x.tail;
        return;
      }
      if x.list.items == [] {
        return false;
      }
      AppendFragments(x);
    }

    /** Cuts the last fragment and x's first one where the segments do, and joins the lists. */
    method AppendFragments(x: Segment)
      requires Valid() && x.Valid() && x != this && x.list != list && list.items != [] && x.list.items != []
      modifies this, list
      ensures Valid() && x.Valid() && Windows() == old(Windows()) + x.Windows()
      ensures Bytes() == old(Bytes()) + x.Bytes() && x.Bytes() == old(x.Bytes())
      ensures NonEmpty(list.items) <==>
                && old(NonEmpty(list.items)) && NonEmpty(x.list.items)
                && old(list.items[|list.items| - 1].lo < tail.off) && x.head.off < x.list.items[0].hi
    {
      hide Trim, Flat, FlatTo, Offset, NonEmpty, Total;
      Concat(Windows(), x.Windows());
      var front, back := list.items[..|list.items| - 1], list.items[|list.items| - 1];
      var xFront, xRest := x.list.items[0], x.list.items[1..];
      TrimAppend(list.items, head.off, tail.off, x.list.items, x.head.off, x.tail.off);
      NonEmptyAppend(list.items, tail.off, x.list.items, x.head.off);
      if tail != back.End() {
        back := back.(hi := tail.off);
      }
      if x.head != xFront.Begin() {
        xFront := xFront.(lo := x.head.off);
      }
      list.items := front + [back] + [xFront] + xRest;
      tail := x.tail;
    }

    /** What append drops is empty when the segment has no more than two fragments, and not otherwise. */
    lemma DroppedIsEmpty()
      requires Valid() && Spread(list.items) && head == tail && list.items != []
      ensures Bytes() == [] <==> |list.items| <= 2
    {
      var n := |list.items| - 1;
      if n > 0 {
        assert list.items[0].data == list.items[n].data;
      }
      assert Offset(list.items, 1) == list.items[0].Size();
      if n > 1 {
        assert Offset(list.items, 2) == Offset(list.items, 1) + list.items[1].Size();
        OffsetMono(list.items, 2, n);
      }
      BytesAreSlice();
      hide Offset, Flat, Trim, Bytes;
    }

    // ----- iterators -----

    method Begin() returns (it: Iterator)
      requires Valid() && Spread(list.items)
      ensures fresh(it) && it.list == list && it.curVal == head
      ensures if list.items == [] then it.Homeless() else it.Valid() && it.Index() == HeadIndex()
    {
      it := new Iterator.Find(list, head, false);
    }

    /** The end iterator looks for the first fragment that contains tail. That is the right position if
        and only if no fragment before the last two contains it. */
    method End() returns (it: Iterator)
      requires Valid() && Spread(list.items)
      ensures fresh(it) && it.list == list && it.curVal == tail
      ensures if list.items == [] then it.Homeless() else it.Valid() && it.Index() <= TailIndex()
      ensures list.items != [] ==> (it.Index() == TailIndex() <==> TailIsLate())
    {
      it := new Iterator.Find(list, tail, true);
      if list.items != [] {
        EndFound(it);
      }
    }

    ghost predicate TailIsLate()
      requires Valid()
      reads this, list
    {
      forall i | 0 <= i < |list.items| - 2 :: !list.items[i].Contains(tail)
    }

    lemma EndFound(it: Iterator)
      requires Valid() && Spread(list.items) && list.items != []
      requires it.Valid() && it.list == list && it.curVal == tail
      requires forall i | 0 <= i < it.curSeg - list.first :: !list.items[i].Contains(tail)
      ensures it.Index() <= TailIndex() && (it.Index() == TailIndex() <==> TailIsLate())
    {
      var n, k := |list.items| - 1, it.curSeg - list.first;
      assert list.items[k].Contains(tail);
      if k < n {
        assert tail.off == list.items[k].hi == list.items[n].lo;
        OffsetMono(list.items, k + 1, n);
        if k + 1 < n {
          OffsetStrict(list.items, k + 1, n);
        }
      }
    }

    /** In a segment cut off by detach every fragment has its own allocation. */
    lemma DetachedTailIsLate()
      requires Valid() && DistinctArrays(list.items)
      ensures TailIsLate()
    {
    }

    /** Walking from begin to end. It shows the bytes of the segment if and only if end is in the right place;
        false is the assertion of increment at the end of the last fragment. Over an empty list the two
        are equal as the pointers are. */
    method Walk() returns (ok: bool, visited: seq<byte>)
      requires Valid() && Spread(list.items)
      ensures list.items != [] ==> (ok && visited == Bytes() <==> TailIsLate())
      ensures list.items == [] ==> visited == Bytes() == [] && (ok <==> head == tail)
    {
      hide Spread, Flat, FlatTo, Offset, Trim, Total, Bytes, Iterator.Index;
      var it := Begin();
      var end := End();
      if list.items == [] {
        NoFragments();
        return it.Equal(end), [];
      }
      ok, visited := WalkBetween(it, end);
      BytesAreSlice();
      if ok {
        WhichSlice(Flat(list.items), HeadIndex(), end.Index(), TailIndex());
      }
    }

    lemma NoFragments()
      requires Valid() && list.items == []
      ensures Bytes() == []
    {
    }

    lemma WhichSlice(all: seq<byte>, h: nat, e: nat, t: nat)
      requires h <= e <= t <= |all|
      ensures all[h..e] == all[h..t] <==> e == t
    {
    }

    method WalkBetween(it: Iterator, end: Iterator) returns (ok: bool, visited: seq<byte>)
      requires Valid() && it.Valid() && end.Valid() && it.list == end.list == list && it != end
      modifies it
      ensures 0 <= old(it.Index()) <= Total(list.items) && 0 <= end.Index() <= Total(list.items)
      ensures end.Valid() && end.Index() == old(end.Index()) && (ok <==> old(it.Index()) <= end.Index())
      ensures ok ==> visited == Flat(list.items)[old(it.Index())..end.Index()]
    {
      hide Spread, Flat, FlatTo, Offset, Total, Iterator.Equal, Iterator.Index;
      it.AtEnd();
      end.AtEnd();
      ghost var all, h, e := Flat(list.items), it.Index(), end.Index();
      visited := [];
      it.EqualIffSameIndex(end);
      var more := !it.Equal(end);
      while more
        invariant it.Valid() && end.Valid() && it.list == end.list == list && it != end
        invariant e == end.Index() && h <= it.Index() <= |all| && (more <==> it.Index() != e)
        invariant Flat(list.items) == all && visited == all[h..it.Index()] && (it.Index() <= e || e < h)
        decreases |all| - it.Index()
      {
        it.AtEnd();
        if it.afterLastFrag && it.IsLastFragment() {
          return false, visited;
        }
        ghost var i := it.Index();
        var b;
        b, more := Show(it, end);
        visited := visited + [b];
        SliceSnoc(all, h, i);
      }
      ok := true;
    }

    /** One round of a walk. */
    method Show(it: Iterator, end: Iterator) returns (b: byte, more: bool)
      requires it.Valid() && end.Valid() && it.list == end.list == list && it != end && list.base == 0
      requires it.Index() < Total(list.items)
      modifies it
      ensures it.Valid() && it.Index() == old(it.Index()) + 1 && end.Valid() && end.Index() == old(end.Index())
      ensures 0 <= old(it.Index()) && b == Flat(list.items)[old(it.Index())]
      ensures more <==> it.Index() != end.Index()
    {
      hide Flat, FlatTo, Offset, Total;
      b := it.Dereference();
      it.Increment();
      it.EqualIffSameIndex(end);
      more := !it.Equal(end);
    }

    method GetPart(begin: Iterator, end: Iterator) returns (ret: Segment)
      requires Valid() && list.items != [] && begin.list == end.list == list
      requires begin.Placed() && end.Placed() && begin.Index() <= end.Index()
      ensures ret.Valid() && fresh(ret) && fresh(ret.list)
      ensures end.Index() <= Total(list.items)
      ensures ret.list.items == [] <==> begin.curSeg > end.curSeg
      ensures ret.head == begin.curVal && ret.tail == end.curVal
      ensures ret.Bytes() == Flat(list.items)[begin.Index()..end.Index()]
    {
      hide Flat, FlatTo, Offset, Trim, Spread;
      var i, j := begin.curSeg, end.curSeg;
      PartInOrder(begin, end);
      ret := new Segment();
      ret.list.items := list.items[i..j + 1];
      ret.head, ret.tail := begin.curVal, end.curVal;
      PartBytes(begin, end, ret);
    }

    lemma PartBytes(begin: Iterator, end: Iterator, ret: Segment)
      requires Valid() && list.items != [] && begin.list == end.list == list
      requires begin.Placed() && end.Placed() && begin.Index() <= end.Index() <= Total(list.items)
      requires begin.curSeg <= end.curSeg + 1 && (begin.curSeg > end.curSeg ==> begin.Index() == end.Index())
      requires ret.Valid() && ret.list.items == list.items[begin.curSeg..end.curSeg + 1]
      requires ret.head == begin.curVal && ret.tail == end.curVal
      ensures ret.Bytes() == Flat(list.items)[begin.Index()..end.Index()]
    {
      hide Flat, FlatTo, Offset, Trim, Spread;
      if begin.curSeg <= end.curSeg {
        PartIsSlice(list.items, begin.curSeg, end.curSeg, begin.curVal.off, end.curVal.off);
      } else {
        NothingFlat(ret.Windows());
      }
    }

    lemma NothingFlat(fs: seq<Fragment>)
      requires fs == []
      ensures Flat(fs) == []
    {
    }

    lemma PartInOrder(begin: Iterator, end: Iterator)
      requires Valid() && begin.list == end.list == list
      requires begin.Placed() && end.Placed() && begin.Index() <= end.Index()
      ensures begin.curSeg <= end.curSeg + 1 && end.Index() <= Total(list.items)
      ensures begin.curSeg > end.curSeg ==> begin.Index() == end.Index()
      ensures begin.curSeg == end.curSeg ==> begin.curVal.off <= end.curVal.off
    {
      var i, j := begin.curSeg, end.curSeg;
      OffsetMono(list.items, j + 1, |list.items|);
      if j < i {
        OffsetMono(list.items, j + 1, i);
      }
    }
  }

  lemma SliceSnoc(s: seq<byte>, h: nat, i: nat)
    requires h <= i < |s|
    ensures s[h..i + 1] == s[h..i] + [s[i]]
  {
  }

  predicate NonEmpty(fs: seq<Fragment>) {
    forall i | 0 <= i < |fs| :: fs[i].lo < fs[i].hi
  }

  lemma NonEmptyAppend(fs: seq<Fragment>, hi: nat, gs: seq<Fragment>, xlo: nat)
    requires AllValid(fs) && fs != [] && AllValid(gs) && gs != []
    requires hi <= fs[|fs| - 1].hi && gs[0].lo <= xlo
    ensures var n := |fs| - 1;
            NonEmpty(fs[..n] + [fs[n].(hi := hi)] + [gs[0].(lo := xlo)] + gs[1..]) <==>
              NonEmpty(fs) && NonEmpty(gs) && fs[n].lo < hi && xlo < gs[0].hi
  {
    var n := |fs| - 1;
    var all := fs[..n] + [fs[n].(hi := hi)] + [gs[0].(lo := xlo)] + gs[1..];
    assert forall i | 0 <= i < n :: all[i] == fs[i];
    assert all[n].lo == fs[n].lo && all[n].hi == hi && all[n + 1].lo == xlo && all[n + 1].hi == gs[0].hi;
    assert forall i | 1 <= i < |gs| :: gs[i] == all[n + 1 + i];
    if NonEmpty(all) {
      forall i | 0 <= i < |gs|
        ensures gs[i].lo < gs[i].hi
      {
        assert all[n + 1 + i].lo < all[n + 1 + i].hi;
      }
    }
  }

  /** A run of three pieces whose head and tail meet: append drops the byte between them. */
  method AppendLosesByte() returns (s: Segment, x: Segment)
    ensures s.Valid() && x.Valid() && Spread(x.list.items)
    ensures x.Bytes() != [] && s.Bytes() == []
  {
    var a := new byte[2];
    var b := new byte[1];
    s := new Segment();
    x := new Segment.Of([Fragment(a, 0, 1), Fragment(b, 0, 1), Fragment(a, 1, 2)], At(a, 1), At(a, 1));
    hide Flat, FlatTo, Offset, Trim, Total;
    x.DroppedIsEmpty();
    var ok := s.Append(x);
  }

  /** The part between two equal positions, at the end of one fragment and at the beginning of the next,
      has no fragments and unequal pointers: append cannot take it. */
  method AppendFails() returns (s: Segment, x: Segment, ok: bool)
    ensures x.Valid() && x.list.items == [] && !ok
  {
    hide Trim, Flat, FlatTo, Total, Spread;
    var a := new byte[1];
    var b := new byte[1];
    var fs := [Fragment(a, 0, 1), Fragment(b, 0, 1)];
    s := new Segment.Of(fs, At(a, 0), At(b, 1));
    assert s.list.Frag(0) == fs[0] && s.list.Frag(1) == fs[1];
    var begin := new Iterator(s.list, 1, At(b, 0));
    var end := new Iterator(s.list, 0, At(a, 1));
    assert Offset(fs, 1) == 1;
    x := s.GetPart(begin, end);
    ok := s.Append(x);
  }

  /** Cutting the joined list is joining the cut ones. */
  lemma TrimAppend(fs: seq<Fragment>, lo: nat, hi: nat, gs: seq<Fragment>, xlo: nat, xhi: nat)
    requires AllValid(fs) && fs != [] && AllValid(gs) && gs != []
    requires fs[0].lo <= lo <= fs[0].hi && fs[|fs| - 1].lo <= hi <= fs[|fs| - 1].hi && (|fs| == 1 ==> lo <= hi)
    requires gs[0].lo <= xlo <= gs[0].hi && gs[|gs| - 1].lo <= xhi <= gs[|gs| - 1].hi && (|gs| == 1 ==> xlo <= xhi)
    ensures var n := |fs| - 1;
            var all := fs[..n] + [fs[n].(hi := hi)] + [gs[0].(lo := xlo)] + gs[1..];
            && AllValid(all) && all[0].lo == fs[0].lo && lo <= all[0].hi
            && all[|all| - 1].lo <= xhi <= all[|all| - 1].hi
            && Trim(all, lo, xhi) == Trim(fs, lo, hi) + Trim(gs, xlo, xhi)
  {
    var n := |fs| - 1;
    var all := fs[..n] + [fs[n].(hi := hi)] + [gs[0].(lo := xlo)] + gs[1..];
    var l, r := Trim(all, lo, xhi), Trim(fs, lo, hi) + Trim(gs, xlo, xhi);
    assert |l| == |r|;
    forall i | 0 <= i < |l|
      ensures l[i] == r[i]
    {
      if i > n {
        assert all[i] == if i == n + 1 then gs[0].(lo := xlo) else gs[i - n - 1];
      }
    }
  }

  lemma PartIsSlice(fs: seq<Fragment>, i: nat, j: nat, lo: nat, hi: nat)
    requires AllValid(fs) && i <= j < |fs| && fs[i].lo <= lo <= fs[i].hi && fs[j].lo <= hi <= fs[j].hi
    requires i == j ==> lo <= hi
    ensures var p, q := Offset(fs, i) + lo - fs[i].lo, Offset(fs, j) + hi - fs[j].lo;
            p <= q <= Total(fs) && Flat(Trim(fs[i..j + 1], lo, hi)) == Flat(fs)[p..q]
  {
    var run := fs[i..j + 1];
    RunFacts(fs, i, j, run);
    hide Flat, FlatTo, Offset, Trim, Total;
    var x, y := CutOfRun(Flat(fs), Offset(fs, i), Flat(run), run, lo, hi);
    assert Offset(fs, i) + x == Offset(fs, i) + lo - fs[i].lo;
    assert Offset(fs, i) + y == Offset(fs, j) + hi - fs[j].lo;
  }

  lemma RunFacts(fs: seq<Fragment>, i: nat, j: nat, run: seq<Fragment>)
    requires AllValid(fs) && i <= j < |fs| && run == fs[i..j + 1]
    ensures AllValid(run) && |run| > 0 && run[0] == fs[i] && run[|run| - 1] == fs[j] && |run| == j - i + 1
    ensures Offset(fs, i) <= Offset(fs, j) && Offset(run, |run| - 1) == Offset(fs, j) - Offset(fs, i)
    ensures Offset(fs, i) + Total(run) <= Total(fs)
    ensures Flat(run) == Flat(fs)[Offset(fs, i)..Offset(fs, i) + Total(run)]
  {
    RunIsSlice(fs, i, j + 1);
    RunOffset(fs, i, j + 1, j);
    RunOffset(fs, i, j + 1, j + 1);
  }

  lemma CutOfRun(b: seq<byte>, p: nat, fr: seq<byte>, run: seq<Fragment>, lo: nat, hi: nat) returns (x: nat, y: nat)
    requires AllValid(run) && run != [] && fr == Flat(run) && p + |fr| <= |b| && fr == b[p..p + |fr|]
    requires run[0].lo <= lo <= run[0].hi && run[|run| - 1].lo <= hi <= run[|run| - 1].hi
    requires |run| == 1 ==> lo <= hi
    ensures x == lo - run[0].lo && y == Offset(run, |run| - 1) + hi - run[|run| - 1].lo
    ensures x <= y <= |fr| && Flat(Trim(run, lo, hi)) == b[p + x..p + y]
  {
    hide Flat, FlatTo, Offset, Trim, Total;
    TrimIsSlice(run, lo, hi);
    x, y := lo - run[0].lo, Offset(run, |run| - 1) + hi - run[|run| - 1].lo;
    assert Flat(Trim(run, lo, hi)) == fr[x..y];
    SliceOfSlice(b, p, |fr|, x, y);
  }
}
