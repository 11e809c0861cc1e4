/**
  Byte fragments and lists of fragments (src/zerocopy/fragment.h and the
  std::list / std::vector of fragments that streambuf.h and segment.h keep).

  A raw character pointer is modelled by `Ptr`: an array and an offset into it,
  so that ends and beginnings of different allocations never coincide.
 */
module Fragments {

  newtype byte = b: int | 0 <= b < 256

  datatype Ptr = Null | At(data: array<byte>, off: nat)

  /** The window data[lo..hi) of an allocation: a whole buffer fragment, or a wrapper around a part of one. */
  datatype Fragment = Fragment(data: array<byte>, lo: nat, hi: nat) {
    ghost predicate Valid() {
      lo <= hi <= data.Length
    }

    function Size(): nat
      requires Valid()
    {
      hi - lo
    }

    function Begin(): Ptr {
      At(data, lo)
    }

    function End(): Ptr {
      At(data, hi)
    }

    predicate Contains(p: Ptr) {
      p.At? && p.data == data && lo <= p.off <= hi
    }

    ghost function Bytes(): seq<byte>
      requires Valid()
      reads data
    {
      data[lo..hi]
    }
  }

  ghost predicate AllValid(fs: seq<Fragment>) {
    forall i | 0 <= i < |fs| :: fs[i].Valid()
  }

  /** Every fragment has its own allocation. */
  ghost predicate DistinctArrays(fs: seq<Fragment>) {
    forall i, j | 0 <= i < j < |fs| :: fs[i].data != fs[j].data
  }

  /** Number of bytes in the first k fragments. */
  ghost function Offset(fs: seq<Fragment>, k: nat): nat
    requires AllValid(fs) && k <= |fs|
  {
    if k == 0 then 0 else Offset(fs, k - 1) + fs[k - 1].Size()
  }

  /** Concatenation of the bytes of the first k fragments. */
  ghost function FlatTo(fs: seq<Fragment>, k: nat): (r: seq<byte>)
    requires AllValid(fs) && k <= |fs|
    reads set i | 0 <= i < k :: fs[i].data
    ensures |r| == Offset(fs, k)
  {
    if k == 0 then [] else FlatTo(fs, k - 1) + fs[k - 1].Bytes()
  }

  ghost function Total(fs: seq<Fragment>): nat
    requires AllValid(fs)
  {
    Offset(fs, |fs|)
  }

  ghost function Flat(fs: seq<Fragment>): (r: seq<byte>)
    requires AllValid(fs)
    reads set i | 0 <= i < |fs| :: fs[i].data
    ensures |r| == Total(fs)
  {
    FlatTo(fs, |fs|)
  }

  lemma {:induction false} OffsetMono(fs: seq<Fragment>, j: nat, k: nat)
    requires AllValid(fs) && j <= k <= |fs|
    ensures Offset(fs, j) <= Offset(fs, k)
    ensures j < k ==> Offset(fs, j) + fs[j].Size() <= Offset(fs, k)
    decreases k
  {
    if j < k {
      OffsetMono(fs, j, k - 1);
    }
  }

  /** With no empty fragment, a longer prefix holds strictly more bytes. */
  lemma {:induction false} OffsetStrict(fs: seq<Fragment>, j: nat, k: nat)
    requires AllValid(fs) && j < k <= |fs|
    requires forall i | 0 <= i < |fs| :: fs[i].Size() > 0
    ensures Offset(fs, j) < Offset(fs, k)
  {
    OffsetMono(fs, j, k);
  }

  /** Lists that agree on their first k fragments agree on offsets and bytes there. */
  lemma {:induction false} SamePrefix(fs: seq<Fragment>, gs: seq<Fragment>, k: nat)
    requires AllValid(fs) && AllValid(gs) && k <= |fs| && k <= |gs|
    requires forall i | 0 <= i < k :: fs[i] == gs[i]
    ensures Offset(fs, k) == Offset(gs, k)
    ensures FlatTo(fs, k) == FlatTo(gs, k)
  {
    if k > 0 {
      SamePrefix(fs, gs, k - 1);
    }
  }

  lemma {:induction false} SameOffsets(fs: seq<Fragment>, gs: seq<Fragment>, k: nat)
    requires AllValid(fs) && AllValid(gs) && k <= |fs| && k <= |gs|
    requires forall i | 0 <= i < k :: fs[i] == gs[i]
    ensures Offset(fs, k) == Offset(gs, k)
  {
    if k > 0 {
      SameOffsets(fs, gs, k - 1);
    }
  }

  lemma {:induction false} FlatPrefix(fs: seq<Fragment>, j: nat, k: nat)
    requires AllValid(fs) && j <= k <= |fs|
    ensures Offset(fs, j) <= Offset(fs, k)
    ensures FlatTo(fs, j) == FlatTo(fs, k)[..Offset(fs, j)]
    decreases k
  {
    if j < k {
      FlatPrefix(fs, j, k - 1);
    }
  }

  /** Dropping the first fragment drops its bytes. */
  lemma {:induction false} DropFirst(fs: seq<Fragment>, k: nat)
    requires AllValid(fs) && 1 <= k <= |fs|
    ensures Offset(fs, k) == fs[0].Size() + Offset(fs[1..], k - 1)
    ensures FlatTo(fs, k) == fs[0].Bytes() + FlatTo(fs[1..], k - 1)
  {
    if k == 1 {
      assert FlatTo(fs, 1) == FlatTo(fs, 0) + fs[0].Bytes();
    } else {
      DropFirst(fs, k - 1);
      assert fs[1..][k - 2] == fs[k - 1];
    }
  }

  /** Dropping the first j fragments drops their bytes. */
  lemma {:induction false} DropMany(fs: seq<Fragment>, j: nat, k: nat)
    requires AllValid(fs) && j <= k <= |fs|
    ensures Offset(fs, k) == Offset(fs, j) + Offset(fs[j..], k - j)
    ensures FlatTo(fs, k) == FlatTo(fs, j) + FlatTo(fs[j..], k - j)
    decreases k
  {
    if j < k {
      DropMany(fs, j, k - 1);
      assert fs[j..][k - 1 - j] == fs[k - 1];
    }
  }

  lemma DropLeft(all: seq<byte>, a: seq<byte>, b: seq<byte>)
    requires all == a + b
    ensures all[|a|..] == b
  {
  }

  lemma FlatOfRest(fs: seq<Fragment>, j: nat)
    requires AllValid(fs) && j <= |fs|
    ensures Offset(fs, j) <= Total(fs) && Flat(fs[j..]) == Flat(fs)[Offset(fs, j)..]
  {
    FlatSplit(fs, j);
    hide *;
    DropLeft(Flat(fs), FlatTo(fs, j), Flat(fs[j..]));
  }

  lemma FlatSplit(fs: seq<Fragment>, j: nat)
    requires AllValid(fs) && j <= |fs|
    ensures AllValid(fs[j..]) && Offset(fs, j) == |FlatTo(fs, j)| <= Total(fs)
    ensures Flat(fs) == FlatTo(fs, j) + Flat(fs[j..])
  {
    hide FlatTo, Offset;
    DropMany(fs, j, |fs|);
  }

  /** A run of fragments flattens to the corresponding slice. */
  lemma RunIsSlice(fs: seq<Fragment>, i: nat, k: nat)
    requires AllValid(fs) && i <= k <= |fs|
    ensures Offset(fs, i) <= Offset(fs, k) <= Total(fs)
    ensures Flat(fs[i..k]) == Flat(fs)[Offset(fs, i)..Offset(fs, k)]
  {
    hide FlatTo, Offset;
    var front := fs[..k];
    assert front[i..] == fs[i..k];
    FlatOfRest(front, i);
    assert Flat(front) == Flat(fs)[..Offset(fs, k)] && Offset(fs, k) <= Total(fs) by {
      SamePrefix(front, fs, k);
      FlatPrefix(fs, k, |fs|);
    }
    assert Offset(front, i) == Offset(fs, i) by {
      SameOffsets(front, fs, i);
    }
    OffsetMono(fs, i, k);
    hide Flat, Total;
    TakeThenDrop(Flat(fs), Offset(fs, i), Offset(fs, k));
  }

  lemma SliceOfSlice(b: seq<byte>, p: nat, n: nat, lo: nat, hi: nat)
    requires lo <= hi <= n && p + n <= |b|
    ensures b[p..p + n][lo..hi] == b[p + lo..p + hi]
  {
    var l, r := b[p..p + n][lo..hi], b[p + lo..p + hi];
    assert |l| == |r|;
    forall i | 0 <= i < |l|
      ensures l[i] == r[i]
    {
    }
  }

  lemma TakeThenDrop(b: seq<byte>, i: nat, k: nat)
    requires i <= k <= |b|
    ensures b[..k][i..] == b[i..k]
  {
  }

  /** Offsets inside a run are differences of offsets. */
  lemma RunOffset(fs: seq<Fragment>, i: nat, k: nat, m: nat)
    requires AllValid(fs) && i <= m <= k <= |fs|
    ensures Offset(fs[i..k], m - i) == Offset(fs, m) - Offset(fs, i)
  {
    DropMany(fs, i, m);
    SameOffsets(fs[i..k], fs[i..], m - i);
  }

  lemma {:induction false} ConcatTo(fs: seq<Fragment>, gs: seq<Fragment>, k: nat)
    requires AllValid(fs) && AllValid(gs) && k <= |gs|
    ensures AllValid(fs + gs)
    ensures Offset(fs + gs, |fs| + k) == Total(fs) + Offset(gs, k)
    ensures FlatTo(fs + gs, |fs| + k) == Flat(fs) + FlatTo(gs, k)
  {
    if k == 0 {
      SamePrefix(fs + gs, fs, |fs|);
    } else {
      ConcatTo(fs, gs, k - 1);
      assert (fs + gs)[|fs| + k - 1] == gs[k - 1];
    }
  }

  lemma Concat(fs: seq<Fragment>, gs: seq<Fragment>)
    requires AllValid(fs) && AllValid(gs)
    ensures AllValid(fs + gs)
    ensures Total(fs + gs) == Total(fs) + Total(gs)
    ensures Flat(fs + gs) == Flat(fs) + Flat(gs)
  {
    ConcatTo(fs, gs, |gs|);
  }

  /** The byte at offset o of fragment k sits at Offset(k) + o of the flattening. */
  lemma {:induction false} FlatAt(fs: seq<Fragment>, k: nat, n: nat)
    requires AllValid(fs) && k < n <= |fs|
    ensures Offset(fs, k) + fs[k].Size() <= Offset(fs, n)
    ensures FlatTo(fs, n)[Offset(fs, k)..Offset(fs, k) + fs[k].Size()] == fs[k].Bytes()
    decreases n
  {
    if k < n - 1 {
      FlatAt(fs, k, n - 1);
      OffsetMono(fs, k, n - 1);
    }
  }

  /** Fragments whose bytes did not change flatten to the same bytes. */
  twostate lemma FlatUnchanged(fs: seq<Fragment>, new k: nat)
    requires AllValid(fs) && k <= |fs|
    requires forall i | 0 <= i < k :: fs[i].Bytes() == old(fs[i].Bytes())
    ensures FlatTo(fs, k) == old(FlatTo(fs, k))
  {
    for i := 0 to k
      invariant FlatTo(fs, i) == old(FlatTo(fs, i))
    {
    }
  }

  /** fs with its first fragment starting at lo and its last one ending at hi. */
  ghost function Trim(fs: seq<Fragment>, lo: nat, hi: nat): (r: seq<Fragment>)
    requires AllValid(fs) && |fs| > 0
    requires fs[0].lo <= lo <= fs[0].hi && fs[|fs| - 1].lo <= hi <= fs[|fs| - 1].hi
    requires |fs| == 1 ==> lo <= hi
    ensures |r| == |fs| && AllValid(r)
  {
    var n := |fs| - 1;
    var gs := fs[n := fs[n].(hi := hi)];
    gs[0 := gs[0].(lo := lo)]
  }

  lemma TakeInto(a: seq<byte>, b: seq<byte>, m: nat)
    requires m <= |b|
    ensures (a + b)[..|a| + m] == a + b[..m]
  {
  }

  lemma DropInto(a: seq<byte>, b: seq<byte>, c: seq<byte>, m: nat)
    requires m <= |b|
    ensures (a + b + c)[|a| + m..] == b[m..] + c
  {
  }

  /** A smaller window shows the corresponding slice. */
  lemma WindowOf(f: Fragment, lo: nat, hi: nat)
    requires f.Valid() && f.lo <= lo <= hi <= f.hi
    ensures f.(lo := lo, hi := hi).Bytes() == f.Bytes()[lo - f.lo..hi - f.lo]
  {
    var small, big := f.data[lo..hi], f.data[f.lo..f.hi];
    assert |small| == hi - lo;
    forall i | 0 <= i < hi - lo
      ensures small[i] == big[lo - f.lo..hi - f.lo][i]
    {
      assert small[i] == f.data[lo + i];
    }
  }

  lemma TrimLast(fs: seq<Fragment>, hi: nat)
    requires AllValid(fs) && |fs| > 0
    requires fs[|fs| - 1].lo <= hi <= fs[|fs| - 1].hi
    ensures var n := |fs| - 1;
            var gs := fs[n := fs[n].(hi := hi)];
            AllValid(gs) && Flat(gs) == Flat(fs)[..Offset(fs, n) + hi - fs[n].lo]
  {
    var n := |fs| - 1;
    var f := fs[n];
    var gs := fs[n := f.(hi := hi)];
    assert Flat(gs) == FlatTo(fs, n) + gs[n].Bytes() by {
      SamePrefix(fs, gs, n);
    }
    WindowOf(f, f.lo, hi);
    TakeInto(FlatTo(fs, n), f.Bytes(), hi - f.lo);
  }

  lemma TrimFirst(fs: seq<Fragment>, lo: nat)
    requires AllValid(fs) && |fs| > 0
    requires fs[0].lo <= lo <= fs[0].hi
    ensures var gs := fs[0 := fs[0].(lo := lo)];
            AllValid(gs) && lo - fs[0].lo <= Total(fs) && Flat(gs) == Flat(fs)[lo - fs[0].lo..]
  {
    var f, rest := fs[0], fs[1..];
    var cut := f.(lo := lo);
    var gs := fs[0 := cut];
    assert fs == [f] + rest;
    assert gs == [cut] + rest;
    PrependFlat(f, rest);
    PrependFlat(cut, rest);
    WindowOf(f, lo, f.hi);
    DropInto([], f.Bytes(), Flat(rest), lo - f.lo);
    assert [] + f.Bytes() == f.Bytes();
  }

  /** A trimmed list flattens to the corresponding slice of the whole list. */
  lemma TrimIsSlice(fs: seq<Fragment>, lo: nat, hi: nat)
    requires AllValid(fs) && |fs| > 0
    requires fs[0].lo <= lo <= fs[0].hi && fs[|fs| - 1].lo <= hi <= fs[|fs| - 1].hi
    requires |fs| == 1 ==> lo <= hi
    ensures lo - fs[0].lo <= Offset(fs, |fs| - 1) + hi - fs[|fs| - 1].lo <= Total(fs)
    ensures Flat(Trim(fs, lo, hi)) == Flat(fs)[lo - fs[0].lo..Offset(fs, |fs| - 1) + hi - fs[|fs| - 1].lo]
  {
    var n := |fs| - 1;
    var gs := fs[n := fs[n].(hi := hi)];
    OffsetMono(fs, 0, n);
    TrimLast(fs, hi);
    TrimFirst(gs, lo);
  }

  /** The non-empty windows from offset off of fragment k to the end. */
  ghost function RestFrom(fs: seq<Fragment>, k: nat, off: nat): (r: seq<Fragment>)
    requires AllValid(fs) && k < |fs| && fs[k].lo <= off <= fs[k].hi
    ensures AllValid(r)
  {
    if off == fs[k].hi then fs[k + 1..] else [fs[k].(lo := off)] + fs[k + 1..]
  }

  lemma RestFromIsSlice(fs: seq<Fragment>, k: nat, off: nat)
    requires AllValid(fs) && k < |fs| && fs[k].lo <= off <= fs[k].hi
    ensures Offset(fs, k) + off - fs[k].lo <= Total(fs)
    ensures Flat(RestFrom(fs, k, off)) == Flat(fs)[Offset(fs, k) + off - fs[k].lo..]
  {
    hide FlatTo, Offset, Total, RestFrom;
    var f, back, m := fs[k], fs[k + 1..], off - fs[k].lo;
    assert Flat(fs) == FlatTo(fs, k) + f.Bytes() + Flat(back) by {
      SplitAround(fs, k);
    }
    RestFromBytes(fs, k, off);
    DropInto(FlatTo(fs, k), f.Bytes(), Flat(back), m);
    assert |FlatTo(fs, k)| + m == Offset(fs, k) + off - f.lo;
  }

  lemma RestFromBytes(fs: seq<Fragment>, k: nat, off: nat)
    requires AllValid(fs) && k < |fs| && fs[k].lo <= off <= fs[k].hi
    ensures Flat(RestFrom(fs, k, off)) == fs[k].Bytes()[off - fs[k].lo..] + Flat(fs[k + 1..])
  {
    var f, back := fs[k], fs[k + 1..];
    WindowOf(f, off, f.hi);
    if off < f.hi {
      PrependFlat(f.(lo := off), back);
    }
  }

  lemma PrependFlat(f: Fragment, fs: seq<Fragment>)
    requires f.Valid() && AllValid(fs)
    ensures AllValid([f] + fs) && Flat([f] + fs) == f.Bytes() + Flat(fs)
  {
    DropFirst([f] + fs, 1 + |fs|);
    assert ([f] + fs)[1..] == fs;
  }

  lemma AppendFlat(fs: seq<Fragment>, f: Fragment)
    requires AllValid(fs) && f.Valid()
    ensures AllValid(fs + [f]) && Flat(fs + [f]) == Flat(fs) + f.Bytes()
  {
    SamePrefix(fs + [f], fs, |fs|);
  }

  lemma SplitAround(fs: seq<Fragment>, k: nat)
    requires AllValid(fs) && k < |fs|
    ensures Flat(fs) == FlatTo(fs, k) + fs[k].Bytes() + Flat(fs[k + 1..])
  {
    var front, back := fs[..k + 1], fs[k + 1..];
    assert Flat(fs) == Flat(front) + Flat(back) by {
      assert front + back == fs;
      Concat(front, back);
    }
    assert Flat(front) == FlatTo(fs, k + 1) by {
      SamePrefix(front, fs, k + 1);
    }
  }

  /** std::list / std::vector of fragments. `first` is the absolute number of items[0], so that
      an iterator keeps its fragment number when earlier fragments are popped; `base` counts
      the bytes of the popped fragments. */
  class FragmentList {
    var first: nat
    var items: seq<Fragment>
    ghost var base: nat

    constructor ()
      ensures items == [] && first == 0 && base == 0
    {
      first, items, base := 0, [], 0;
    }

    function EndNumber(): nat
      reads this
    {
      first + |items|
    }

    predicate Has(k: nat)
      reads this
    {
      first <= k < EndNumber()
    }

    function Frag(k: nat): Fragment
      requires Has(k)
      reads this
    {
      items[k - first]
    }

    predicate IsLast(k: nat)
      requires Has(k)
      reads this
    {
      k + 1 == EndNumber()
    }

    method PushBack(f: Fragment)
      modifies this
      ensures items == old(items) + [f] && first == old(first) && base == old(base)
    {
      items := items + [f];
    }

    method PopFront()
      requires items != [] && items[0].Valid()
      modifies this
      ensures items == old(items[1..]) && first == old(first) + 1
      ensures base == old(base + items[0].Size())
    {
      base := base + items[0].Size();
      items, first := items[1..], first + 1;
    }
  }
}
