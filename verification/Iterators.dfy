/**
  The iterator over a list of fragments (src/zerocopy/iterator.h): a fragment number and a pointer
  into that fragment. `Index()` is its position in the whole stream of bytes, popped ones included.
 */
module Iterators {
  import opened Fragments

  /** Non-empty windows; pieces of one allocation follow each other without overlap. */
  ghost predicate Spread(fs: seq<Fragment>) {
    && AllValid(fs)
    && (forall i | 0 <= i < |fs| :: fs[i].lo < fs[i].hi)
    && (forall i, j | 0 <= i < j < |fs| && fs[i].data == fs[j].data :: fs[i].hi <= fs[j].lo)
  }

  class Iterator {
    const list: FragmentList
    var curSeg: nat
    var curVal: Ptr
    var afterLastFrag: bool

    /** The pointer lies in the current fragment, its end included. */
    ghost predicate Placed()
      reads this, list
    {
      Spread(list.items) && list.Has(curSeg) && list.Frag(curSeg).Contains(curVal)
    }

    ghost predicate Valid()
      reads this, list
    {
      Placed() && (afterLastFrag <==> curVal == list.Frag(curSeg).End())
    }

    ghost function Index(): nat
      requires Placed()
      reads this, list
    {
      list.base + Offset(list.items, curSeg - list.first) + curVal.off - list.Frag(curSeg).lo
    }

    ghost function EndIndex(): nat
      requires AllValid(list.items)
      reads this, list
    {
      list.base + Total(list.items)
    }

    /** Appending fragments leaves an iterator valid and where it is. */
    twostate lemma SurvivesGrowth()
      requires old(Valid()) && unchanged(this) && Spread(list.items)
      requires list.first == old(list.first) && list.base == old(list.base) && old(list.items) <= list.items
      ensures Valid() && Index() == old(Index())
    {
      SameOffsets(old(list.items), list.items, curSeg - list.first);
    }

    /** So does popping fragments before its own: the popped bytes move from the offsets into `base`. */
    twostate lemma SurvivesPops(new gone: nat)
      requires old(Valid()) && unchanged(this) && gone <= curSeg - old(list.first) && Spread(list.items)
      requires list.first == old(list.first) + gone && list.items == old(list.items)[gone..]
      requires list.base == old(list.base) + Offset(old(list.items), gone)
      ensures Valid() && Index() == old(Index())
    {
      hide Offset, FlatTo;
      DropMany(old(list.items), gone, curSeg - old(list.first));
    }

    /** Over an empty list there is no fragment to stand in: the flag is set, and the pointer tells
        iterators apart. */
    ghost predicate Homeless()
      reads this, list
    {
      list.items == [] && afterLastFrag
    }

    constructor (l: FragmentList, seg: nat, val: Ptr)
      requires l.items != [] ==> Spread(l.items) && l.Has(seg) && l.Frag(seg).Contains(val)
      ensures (if l.items == [] then Homeless() else Valid()) && list == l && curSeg == seg && curVal == val
    {
      list, curSeg, curVal := l, seg, val;
      afterLastFrag := l.items == [] || val == l.Frag(seg).End();
    }

    /** The constructor from a bare pointer: with `end` set it looks for the first fragment that contains it. */
    constructor Find(l: FragmentList, val: Ptr, end: bool)
      requires Spread(l.items)
      requires || l.items == []
               || if end then exists i :: 0 <= i < |l.items| && l.items[i].Contains(val) else l.items[0].Contains(val)
      ensures (if l.items == [] then Homeless() else Valid()) && list == l && curVal == val
      ensures end && l.items != [] ==> forall i | 0 <= i < curSeg - l.first :: !l.items[i].Contains(val)
      ensures !end ==> curSeg == l.first
    {
      list, curVal := l, val;
      curSeg := l.first;
      afterLastFrag := l.items == [];
      new;
      if list.items == [] {
        return;
      }
      if end {
        while !list.Frag(curSeg).Contains(curVal)
          invariant list.Has(curSeg) && curVal == val
          invariant forall i | 0 <= i < curSeg - list.first :: !list.items[i].Contains(val)
          decreases list.EndNumber() - curSeg
        {
          assert list.Frag(curSeg) == list.items[curSeg - list.first];
          curSeg := curSeg + 1;
        }
      }
      afterLastFrag := curVal == list.Frag(curSeg).End();
    }

    predicate IsLastFragment()
      requires list.Has(curSeg)
      reads this, list
    {
      list.IsLast(curSeg)
    }

    function NextVal(): Ptr
      requires list.Has(curSeg) && !IsLastFragment()
      reads this, list
    {
      list.Frag(curSeg + 1).Begin()
    }

    predicate Equal(other: Iterator)
      requires afterLastFrag != other.afterLastFrag ==> list.Has(curSeg) && other.list.Has(other.curSeg)
      reads this, list, other, other.list
    {
      if afterLastFrag != other.afterLastFrag then
        var thisVal := if afterLastFrag && !IsLastFragment() then NextVal() else curVal;
        var otherVal := if other.afterLastFrag && !other.IsLastFragment() then other.NextVal() else other.curVal;
        thisVal == otherVal && list == other.list
      else
        curVal == other.curVal && list == other.list
    }

    /** A boundary between two fragments has two representations; both are the same position. */
    lemma EqualIffSameIndex(other: Iterator)
      requires Valid() && other.Valid() && list == other.list
      ensures Equal(other) <==> Index() == other.Index()
    {
      hide Total, Spread;
      var i, j := curSeg - list.first, other.curSeg - list.first;
      if afterLastFrag && !other.afterLastFrag {
        AfterAgainstInner(list.items, i, j, other.curVal.off);
      } else if !afterLastFrag && other.afterLastFrag {
        AfterAgainstInner(list.items, j, i, curVal.off);
      } else if i < j {
        SameFlag(list.items, i, curVal.off, j, other.curVal.off);
      } else if j < i {
        SameFlag(list.items, j, other.curVal.off, i, curVal.off);
      }
    }

    lemma AtEnd()
      requires Valid()
      ensures list.base <= Index() <= EndIndex()
      ensures afterLastFrag && IsLastFragment() <==> Index() == EndIndex()
    {
      SpreadFacts();
      var k := curSeg - list.first;
      if !IsLastFragment() {
        OffsetStrict(list.items, k + 1, |list.items|);
      }
    }

    method Increment()
      requires Valid() && Index() < EndIndex()
      modifies this
      ensures Valid() && Index() == old(Index()) + 1
      ensures afterLastFrag ==> Index() == EndIndex()
    {
      SpreadFacts();
      hide Spread, Offset;
      if afterLastFrag {
        ToNextFragment();
      }
      StepVal();
    }

    /** ++cur_val_, leaving the fragment when that reaches its end. */
    method StepVal()
      requires Valid() && !afterLastFrag
      modifies this
      ensures Valid() && Index() == old(Index()) + 1
      ensures afterLastFrag ==> Index() == EndIndex()
    {
      SpreadFacts();
      hide Spread, Offset;
      curVal := At(curVal.data, curVal.off + 1);
      if curVal == list.Frag(curSeg).End() {
        LeaveFragment();
      }
    }

    /** At the end of a fragment: to the beginning of the next one, if there is one. */
    method LeaveFragment()
      requires Placed() && !afterLastFrag && curVal == list.Frag(curSeg).End()
      modifies this
      ensures Valid() && Index() == old(Index()) && (afterLastFrag ==> Index() == EndIndex())
    {
      SpreadFacts();
      hide Spread, Offset;
      if IsLastFragment() {
        afterLastFrag := true;
      } else {
        ToNextFragment();
      }
    }

    lemma SpreadFacts()
      requires Placed()
      ensures AllValid(list.items) && (forall k | 0 <= k < |list.items| :: list.items[k].Size() > 0)
      ensures var k := curSeg - list.first;
              Offset(list.items, k + 1) == Offset(list.items, k) + list.Frag(curSeg).Size() <= Total(list.items)
    {
      OffsetMono(list.items, curSeg - list.first + 1, |list.items|);
    }

    method ToNextFragment()
      requires Placed() && !IsLastFragment() && curVal == list.Frag(curSeg).End()
      modifies this
      ensures Valid() && curSeg == old(curSeg) + 1 && curVal == list.Frag(curSeg).Begin() && !afterLastFrag
      ensures Index() == old(Index())
    {
      SpreadFacts();
      hide Spread;
      curSeg := curSeg + 1;
      curVal := list.Frag(curSeg).Begin();
      afterLastFrag := false;
    }

    method Dereference() returns (b: byte)
      requires Valid() && Index() < EndIndex()
      ensures list.base <= Index() && b == Flat(list.items)[Index() - list.base]
    {
      var k := curSeg - list.first;
      SpreadFacts();
      hide Spread;
      if afterLastFrag {
        FlatAtByte(list.items, k + 1, list.items[k + 1].lo);
        b := NextVal().data[NextVal().off];
      } else {
        FlatAtByte(list.items, k, curVal.off);
        b := curVal.data[curVal.off];
      }
    }

    /** decrement subtracts one if and only if the position is inside a fragment. At the end of one it only
        drops the flag. At the beginning of one it asserts that there is no fragment before, assigns nothing
        where it should go to the end of that one, and leaves the fragment: the answer is false. */
    method Decrement() returns (ok: bool)
      requires Valid()
      modifies this
      ensures Placed()
      ensures ok <==> old(list.Frag(curSeg).lo < curVal.off)
      ensures Valid() && Index() == old(Index()) - 1 <==> ok && !old(afterLastFrag)
      ensures old(afterLastFrag) ==> Index() == old(Index())
    {
      ok := true;
      if afterLastFrag {
        afterLastFrag := false;
        return;
      }
      if curVal == list.Frag(curSeg).Begin() {
        return false;
      }
      curVal := At(curVal.data, curVal.off - 1);
    }

    /** Forward moves, and backward moves from inside a fragment, are index arithmetic. A non-positive
        move from the end of a fragment goes one step less, and not at all for n >= -1. */
    method Advance(n: int)
      requires Valid() && list.base <= Index() + n <= EndIndex()
      modifies this
      ensures Placed()
      ensures Index() == old(Index()) + n <==> n >= 0 || !old(afterLastFrag)
      ensures n < 0 && old(afterLastFrag) ==> Index() == old(Index()) + n + 1
      ensures n > 0 && afterLastFrag ==> Index() == EndIndex()
      ensures n == 0 ==> curSeg == old(curSeg)
      ensures Valid() <==> !old(afterLastFrag) || n > 0 || n < -1
    {
      if n > 0 {
        AdvanceForward(n);
      } else if afterLastFrag {
        afterLastFrag := false;
        AdvanceBackward(n + 1);
      } else {
        AdvanceBackward(n);
      }
    }

    method AdvanceForward(n: int)
      requires Valid() && 0 < n && Index() + n <= EndIndex()
      modifies this
      ensures Valid() && Index() == old(Index()) + n && (afterLastFrag ==> Index() == EndIndex())
    {
      var m := n;
      if afterLastFrag {
        Increment();
        m := m - 1;
      }
      while m > 0
        invariant Valid() && 0 <= m && Index() + m == old(Index()) + n
        invariant m > 0 ==> !afterLastFrag
        invariant m < n && afterLastFrag ==> Index() == EndIndex()
        decreases m
      {
        m := AdvanceStep(m);
      }
    }

    /** One round of advance's forward loop. */
    method AdvanceStep(m: int) returns (rest: int)
      requires Valid() && !afterLastFrag && 0 < m && Index() + m <= EndIndex()
      modifies this
      ensures Valid() && 0 <= rest < m && Index() + rest == old(Index()) + m
      ensures rest > 0 ==> !afterLastFrag
      ensures afterLastFrag ==> Index() == EndIndex()
    {
      SpreadFacts();
      hide Spread, Offset;
      var room := list.Frag(curSeg).hi - curVal.off;
      if m < room {
        curVal := At(curVal.data, curVal.off + m);
        return 0;
      }
      rest := m - room;
      curVal := list.Frag(curSeg).End();
      LeaveFragment();
    }

    method AdvanceBackward(n: int)
      requires Placed() && !afterLastFrag && n <= 1 && list.base <= Index() + (if n < 0 then n else 0)
      modifies this
      ensures Placed() && !afterLastFrag && Index() == old(Index()) + (if n < 0 then n else 0)
      ensures n < 0 ==> Valid()
      ensures n >= 0 ==> curSeg == old(curSeg) && curVal == old(curVal)
    {
      var m := n;
      while m < 0
        invariant Placed() && !afterLastFrag && n <= m
        invariant n < 0 ==> m <= 0 && Index() + m == old(Index()) + n && (n < m ==> Valid())
        invariant n >= 0 ==> m == n && curSeg == old(curSeg) && curVal == old(curVal)
        decreases -m
      {
        m := RetreatStep(m);
      }
    }

    /** One round of advance's backward loop. */
    method RetreatStep(m: int) returns (rest: int)
      requires Placed() && !afterLastFrag && m < 0 && list.base <= Index() + m
      modifies this
      ensures Valid() && !afterLastFrag && m < rest <= 0 && Index() + rest == old(Index()) + m
    {
      SpreadFacts();
      hide Spread, Total;
      var back := curVal.off - list.Frag(curSeg).lo;
      if -m > back {
        assert list.first < curSeg;
        curSeg := curSeg - 1;
        curVal := list.Frag(curSeg).End();
        curVal := At(curVal.data, curVal.off - 1);
        rest := m + back + 1;
      } else {
        curVal := At(curVal.data, curVal.off + m);
        rest := 0;
      }
    }

    method DistanceTo(other: Iterator) returns (r: int)
      requires Placed() && other.Placed() && list == other.list
      ensures r == other.Index() - Index()
    {
      hide Total, Spread;
      if curSeg == other.curSeg {
        return other.curVal.off - curVal.off;
      }
      if !IsLastFragment() {
        var found;
        found, r := DistanceForward(other);
        if found {
          return;
        }
      }
      r := DistanceBackward(other);
    }

    /** The sizes up to other's fragment, when that comes later. */
    method DistanceForward(other: Iterator) returns (found: bool, r: int)
      requires Placed() && other.Placed() && list == other.list && curSeg != other.curSeg && !IsLastFragment()
      ensures found <==> curSeg < other.curSeg
      ensures found ==> r == other.Index() - Index()
    {
      hide Total;
      r := list.Frag(curSeg).hi - curVal.off;
      var seg := curSeg + 1;
      while seg != other.curSeg && seg != list.EndNumber()
        invariant curSeg < seg <= list.EndNumber()
        invariant curSeg < other.curSeg ==> seg <= other.curSeg
        invariant r == list.base + Offset(list.items, seg - list.first) - Index()
        decreases list.EndNumber() - seg
      {
        r := r + list.Frag(seg).Size();
        seg := seg + 1;
      }
      found := seg == other.curSeg;
      if found {
        r := r + (other.curVal.off - list.Frag(seg).lo);
      }
    }

    method DistanceBackward(other: Iterator) returns (r: int)
      requires Placed() && other.Placed() && list == other.list && other.curSeg < curSeg
      ensures r == other.Index() - Index()
    {
      hide Total;
      r := curVal.off - list.Frag(curSeg).lo;
      var seg := curSeg - 1;
      while seg != other.curSeg
        invariant other.curSeg <= seg < curSeg
        invariant r == Index() - (list.base + Offset(list.items, seg + 1 - list.first))
        decreases seg - other.curSeg
      {
        r := r + list.Frag(seg).Size();
        seg := seg - 1;
      }
      r := r + (list.Frag(seg).hi - other.curVal.off);
      return -r;
    }
  }

  lemma FlatAtByte(fs: seq<Fragment>, k: nat, off: nat)
    requires AllValid(fs) && k < |fs| && fs[k].lo <= off < fs[k].hi
    ensures Offset(fs, k) + off - fs[k].lo < Total(fs)
    ensures Flat(fs)[Offset(fs, k) + off - fs[k].lo] == fs[k].data[off]
  {
    FlatAt(fs, k, |fs|);
    hide Flat, FlatTo, Offset;
    assert fs[k].Bytes()[off - fs[k].lo] == fs[k].data[off];
  }

  /** Two positions of the same kind in different fragments differ, as pointers and as indices. */
  lemma SameFlag(fs: seq<Fragment>, i: nat, v: nat, j: nat, w: nat)
    requires Spread(fs) && i < j < |fs| && fs[i].lo <= v <= fs[i].hi && fs[j].lo <= w <= fs[j].hi
    requires v == fs[i].hi <==> w == fs[j].hi
    ensures At(fs[i].data, v) != At(fs[j].data, w)
    ensures Offset(fs, i) + v - fs[i].lo < Offset(fs, j) + w - fs[j].lo
  {
    OffsetMono(fs, i, j);
  }

  /** The end of fragment i against a position inside fragment j. */
  lemma AfterAgainstInner(fs: seq<Fragment>, i: nat, j: nat, w: nat)
    requires Spread(fs) && i < |fs| && j < |fs| && fs[j].lo <= w < fs[j].hi
    ensures var p := if i + 1 < |fs| then fs[i + 1].Begin() else fs[i].End();
            p == At(fs[j].data, w) <==> Offset(fs, i + 1) == Offset(fs, j) + w - fs[j].lo
  {
    if i + 1 < |fs| {
      if i + 1 < j {
        SameFlag(fs, i + 1, fs[i + 1].lo, j, w);
      } else if j < i + 1 {
        SameFlag(fs, j, w, i + 1, fs[i + 1].lo);
      }
    } else {
      OffsetMono(fs, j, i + 1);
    }
  }
}
