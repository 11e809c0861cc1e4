/**
  basic_streambuf (src/zerocopy/streambuf.h): a byte queue kept in a list of fragments.

  The get pointers (eback, gptr, egptr) are offsets into the first fragment, the put pointers
  (pbase, pptr, epptr) offsets into fragment number `putActive`. The abstract value is
  `Contents()`, the slice of the flattened fragments from gptr to pptr.
 */
module StreamBuffer {
  import opened Fragments
  import opened Network
  import opened Iterators
  import opened Segments
  import opened Queues

  /** The pointers that std::streambuf::setg and setp set. */
  datatype GetArea = GetArea(eback: nat, gptr: nat, egptr: nat)
  datatype PutArea = PutArea(pbase: nat, pptr: nat, epptr: nat)

  const EOF: int := -1

  /** What a read handler reports; LengthError stands for the exception of reserve. */
  datatype Reply = More | NoMore | LengthError

  /** C++'s `x ? x : y` on sizes. */
  function OrElse(x: nat, y: nat): (r: nat)
    ensures x > 0 ==> r == x
    ensures x == 0 ==> r == y
  {
    if x == 0 then y else x
  }

  /** Non-empty fragments, each a whole allocation of its own. */
  ghost predicate Whole(fs: seq<Fragment>) {
    && (forall i | 0 <= i < |fs| :: fs[i].lo == 0 && fs[i].hi == fs[i].data.Length > 0)
    && DistinctArrays(fs)
  }

  lemma WholeIsSpread(fs: seq<Fragment>)
    requires Whole(fs)
    ensures Spread(fs)
  {
  }

  lemma WholeTake(fs: seq<Fragment>, n: nat)
    requires Whole(fs) && n <= |fs|
    ensures Whole(fs[..n]) && AllValid(fs[..n])
    ensures AllValid(fs) && forall i | 0 <= i < |fs| :: fs[i].lo == 0
  {
  }

  lemma RestFromDistinct(fs: seq<Fragment>, k: nat, off: nat)
    requires Whole(fs) && k < |fs| && off <= fs[k].hi
    ensures DistinctArrays(RestFrom(fs, k, off))
  {
    var r := RestFrom(fs, k, off);
    var shift := if off == fs[k].hi then k + 1 else k;
    assert forall i | 0 <= i < |r| :: r[i].data == fs[shift + i].data;
    hide RestFrom;
    forall i, j | 0 <= i < j < |r|
      ensures r[i].data != r[j].data
    {
      assert fs[shift + i].data != fs[shift + j].data;
    }
  }

  lemma LaterStarts(fs: seq<Fragment>, k: nat, j: nat)
    requires Whole(fs) && k < j < |fs|
    ensures Offset(fs, k + 1) <= Offset(fs, j) && (k + 1 < j ==> Offset(fs, k + 1) < Offset(fs, j))
  {
    OffsetMono(fs, k + 1, j);
    if k + 1 < j {
      OffsetMono(fs, k + 2, j);
    }
  }

  lemma RestFromMembers(fs: seq<Fragment>, k: nat, off: nat, f: Fragment)
    requires Whole(fs) && k < |fs| && off <= fs[k].hi && f in RestFrom(fs, k, off)
    ensures f.Size() > 0 && (f.data == fs[k].data ==> f.lo == off)
    ensures exists i :: k <= i < |fs| && fs[i].data == f.data
  {
    if f != fs[k].(lo := off) {
      var i :| 0 <= i < |fs| - k - 1 && fs[k + 1..][i] == f;
      assert fs[k + 1 + i] == f;
    }
  }

  class StreamBuf {
    const list: FragmentList
    const socket: Socket          // what the underflow handler reads from
    const minFragmentation: nat
    const maxFragmentation: nat

    var maxSize: nat
    var totalSize: nat            // set once by Init and never maintained

    var interSize: nat            // meant to be the bytes between egptr and pbase
    var tailSize: nat             // bytes after epptr

    var putActive: nat
    var get: GetArea
    var put: PutArea

    // ----- representation invariant and abstract value -----

    ghost predicate Shaped()
      reads this, list
    {
      Whole(list.items) && list.Has(putActive)
    }

    /** Position of the put fragment in the list. */
    function Pa(): nat
      requires list.first <= putActive
      reads this, list
    {
      putActive - list.first
    }

    ghost predicate Valid()
      reads this, list, socket
    {
      && Shaped()
      && get.eback <= get.gptr <= get.egptr <= list.items[0].hi
      && put.pbase <= put.pptr <= put.epptr == list.items[Pa()].hi
      && (Pa() == 0 ==> get.egptr <= put.pbase)
      && TrueInter() <= interSize
      && tailSize == Total(list.items) - Offset(list.items, Pa() + 1)
      && 1 <= minFragmentation <= maxFragmentation
      && socket.Valid()
    }

    /** The bytes between egptr and pbase. */
    ghost function TrueInter(): int
      requires Shaped()
      reads this, list
    {
      Offset(list.items, Pa()) + put.pbase - get.egptr
    }

    /** By how much inter_size_ is too large. */
    ghost function Excess(): nat
      requires Valid()
      reads this, list, socket
    {
      interSize - TrueInter()
    }

    /** Index of pptr in the flattened fragments. */
    ghost function PutIndex(): nat
      requires Shaped()
      reads this, list
    {
      Offset(list.items, Pa()) + put.pptr
    }

    lemma PutIndexBounds()
      requires Valid()
      ensures get.gptr <= get.egptr <= Offset(list.items, Pa()) + put.pbase <= PutIndex() <= Total(list.items)
      ensures Total(list.items) - PutIndex() == PutSize()
    {
      OffsetMono(list.items, Pa(), |list.items|);
      OffsetMono(list.items, Pa() + 1, |list.items|);
      OffsetMono(list.items, 0, Pa());
    }

    ghost function Arrays(from: nat): set<array<byte>>
      reads list
    {
      set i | from <= i < |list.items| :: list.items[i].data
    }

    lemma PublishedIsPrefix()
      requires Valid()
      ensures PutIndex() <= Total(list.items)
      ensures FlatTo(list.items, Pa()) + list.items[Pa()].data[..put.pptr] == Flat(list.items)[..PutIndex()]
    {
      var p := Pa();
      FlatPrefix(list.items, p + 1, |list.items|);
      assert FlatTo(list.items, p + 1) == FlatTo(list.items, p) + list.items[p].Bytes();
    }

    /** The bytes a reader can still get, in order. */
    ghost function Contents(): (r: seq<byte>)
      requires Valid()
      reads this, list, socket, Arrays(0)
      ensures get.gptr <= get.egptr <= PutIndex() <= Total(list.items)
      ensures r == Flat(list.items)[get.gptr..PutIndex()]
    {
      PutIndexBounds();
      PublishedIsPrefix();
      var r := (FlatTo(list.items, Pa()) + list.items[Pa()].data[..put.pptr])[get.gptr..];
      assert r == Flat(list.items)[..PutIndex()][get.gptr..];
      r
    }

    /** Everything still to come: the contents, then what the socket has not delivered yet. */
    ghost function Pending(): seq<byte>
      requires Valid()
      reads this, list, socket, Arrays(0)
    {
      Contents() + socket.Unread()
    }

    /** The buffer as its readers see it. */
    ghost function AsQueue(): Queue
      requires Valid()
      reads this, list, socket, Arrays(0)
    {
      Queue(Contents(), socket.incoming, get.egptr - get.gptr)
    }

    function Allowance(): int
      reads this
    {
      maxSize - totalSize
    }

    /** The get area shows all that is published in the first fragment. */
    ghost predicate ShowsAll()
      requires Shaped()
      reads this, list
    {
      get.egptr == if PutIndex() <= list.items[0].hi then PutIndex() else list.items[0].hi
    }

    /** What is in the space after pptr: the bytes the next commits will publish. */
    ghost function Room(): (r: seq<byte>)
      requires Valid()
      reads this, list, socket, Arrays(0)
      ensures |r| == PutSize()
    {
      PutIndexBounds();
      Flat(list.items)[PutIndex()..]
    }

    function PutSize(): nat
      requires put.pptr <= put.epptr
      reads this
    {
      tailSize + (put.epptr - put.pptr)
    }

    function Size(): nat
      requires get.gptr <= get.egptr && put.pbase <= put.pptr
      reads this
    {
      interSize + (get.egptr - get.gptr) + (put.pptr - put.pbase)
    }

    // ----- two-state relations -----

    /** The get side did not move. */
    twostate predicate GetKept()
      reads this, list
    {
      get == old(get) && list.first == old(list.first) && list.base == old(list.base)
    }

    twostate predicate LimitsKept()
      reads this
    {
      maxSize == old(maxSize) && totalSize == old(totalSize)
    }

    /** The fragments are the old ones followed by newly allocated ones. */
    twostate predicate Extended()
      reads list
    {
      && old(list.items) <= list.items
      && (forall i | |old(list.items)| <= i < |list.items| :: fresh(list.items[i].data))
    }

    function PutArray(): array<byte>
      requires list.Has(putActive)
      reads this, list
    {
      list.Frag(putActive).data
    }

    /** The first n bytes of a are as they were. */
    twostate predicate Kept(a: array<byte>, n: nat)
      reads a
    {
      n <= a.Length && a[..n] == old(a[..n])
    }

    /** What may still be written is what could be written before, less what lies before the new put
        pointer, plus new allocations. */
    twostate predicate Onward()
      requires old(list.Has(putActive)) && list.Has(putActive)
      reads this, list
    {
      && fresh(Arrays(Pa()) - old(Arrays(Pa())))
      && (old(PutArray()) in Arrays(Pa()) ==> PutArray() == old(PutArray()) && old(put.pptr) <= put.pptr)
    }

    twostate lemma OnwardWhenExtended()
      requires old(Valid()) && Valid() && Extended() && PutForward() && list.first == old(list.first)
      ensures Onward()
    {
      var n := |old(list.items)|;
      forall i | Pa() <= i < |list.items|
        ensures fresh(list.items[i].data) || list.items[i].data in old(Arrays(Pa()))
        ensures list.items[i].data == old(PutArray()) ==> putActive == old(putActive)
      {
        if i < n {
          assert list.items[i] == old(list.items)[i];
        }
      }
    }

    /** The put pointer does not go back. */
    twostate predicate PutForward()
      reads this
    {
      old(putActive) <= putActive && (putActive == old(putActive) ==> old(put.pptr) <= put.pptr)
    }

    // ----- construction -----

    constructor (minFrag: nat, maxFrag: nat, startFragments: nat, startLen: nat, max: nat, s: Socket)
      requires s.Valid()
      ensures Valid() && fresh(list) && fresh(Arrays(0)) && socket == s
      ensures Contents() == [] && get.gptr == get.egptr == 0 && Excess() == 0 && list.base == 0
      ensures minFragmentation == if minFrag > 0 then minFrag else 512
      ensures maxFrag > 0 ==> maxFragmentation == if minFragmentation <= maxFrag then maxFrag else minFragmentation
      ensures maxFrag == 0 ==>
                maxFragmentation == if minFragmentation <= 1024 * 1024 then 1024 * 1024 else minFragmentation
      ensures |list.items| == if startFragments > 0 then startFragments else 1
      ensures forall f | f in list.items :: f.Size() == if startLen > 0 then startLen else minFragmentation
      ensures totalSize == PutSize() && maxSize == if max > 0 then max else 0xFFFF_FFFF_FFFF_FFFF
    {
      list := new FragmentList();
      socket := s;
      interSize, tailSize := 0, 0;
      minFragmentation := OrElse(minFrag, 512);
      maxFragmentation := Max(OrElse(minFrag, 512), OrElse(maxFrag, Max(OrElse(minFrag, 512), 1024 * 1024)));
      put := PutArea(0, 0, 0);
      new;
      Init(startFragments, startLen, max);
    }

    method Init(startFragments: nat, startLen: nat, max: nat)
      requires list.items == [] && list.first == 0 && interSize == tailSize == 0 && put == PutArea(0, 0, 0)
      requires 1 <= minFragmentation <= maxFragmentation && socket.Valid()
      modifies this, list
      ensures Valid() && fresh(Arrays(0)) && list.base == old(list.base)
      ensures get.gptr == get.egptr == PutIndex() == 0 && Excess() == 0
      ensures |list.items| == if startFragments > 0 then startFragments else 1
      ensures forall f | f in list.items :: f.Size() == if startLen > 0 then startLen else minFragmentation
      ensures totalSize == PutSize() && maxSize == if max > 0 then max else 0xFFFF_FFFF_FFFF_FFFF
    {
      maxSize := OrElse(max, 0xFFFF_FFFF_FFFF_FFFF);
      AddFragments(OrElse(startFragments, 1), OrElse(startLen, minFragmentation));
      totalSize := PutSize();
      putActive := list.first;
      get := GetArea(0, 0, 0);
      put := PutArea(0, 0, list.items[0].hi);
      OffsetMono(list.items, 0, |list.items|);
      tailSize := tailSize - (put.epptr - put.pbase);
    }

    method AddFragments(count: nat, len: nat)
      requires list.items == [] && tailSize == 0 && len > 0
      modifies list, this`tailSize
      ensures |list.items| == count && list.first == old(list.first) && list.base == old(list.base)
      ensures Whole(list.items) && tailSize == Total(list.items)
      ensures forall i | 0 <= i < |list.items| :: list.items[i].hi == len && fresh(list.items[i].data)
    {
      var n := count;
      while n > 0
        invariant 0 <= n && n + |list.items| == count
        invariant list.first == old(list.first) && list.base == old(list.base)
        invariant Whole(list.items) && tailSize == Total(list.items)
        invariant forall i | 0 <= i < |list.items| :: list.items[i].hi == len && fresh(list.items[i].data)
      {
        var _ := AddFragment(len);
        n := n - 1;
      }
    }

    /** Appends a newly allocated fragment of sz bytes. */
    method AddFragment(sz: nat) returns (ghost f: Fragment)
      requires Whole(list.items) && sz > 0
      modifies list, this`tailSize
      ensures list.items == old(list.items) + [f] && fresh(f.data) && f.lo == 0 && f.hi == f.data.Length == sz
      ensures Whole(list.items) && list.first == old(list.first) && list.base == old(list.base)
      ensures Total(list.items) == old(Total(list.items)) + sz
      ensures tailSize == old(tailSize) + sz
    {
      var data := new byte[sz];
      ghost var was := list.items;
      f := Fragment(data, 0, sz);
      list.PushBack(Fragment(data, 0, sz));
      SameOffsets(was, list.items, |was|);
      tailSize := tailSize + sz;
    }

    // ----- put side -----

    /** Makes room for n bytes in total; false is the length_error of the size check. */
    method Reserve(n: nat) returns (ok: bool)
      requires Valid()
      modifies list, this`tailSize
      ensures Valid() && LimitsKept() && GetKept() && Extended()
      ensures ok <==> totalSize + n <= maxSize
      ensures !ok || n <= old(PutSize()) ==> list.items == old(list.items) && PutSize() == old(PutSize())
      ensures ok ==> n <= PutSize()
      ensures ok && old(PutSize()) < n ==>
                JustEnough(old(PutSize()), n, PutSize(), |list.items| - |old(list.items)|)
      ensures forall i | |old(list.items)| <= i < |list.items| ::
                minFragmentation <= list.items[i].Size() <= maxFragmentation
      ensures forall i | |old(list.items)| <= i < |list.items| - 1 :: list.items[i].Size() == maxFragmentation
      ensures PutIndex() == old(PutIndex()) && Excess() == old(Excess())
      ensures Contents() == old(Contents()) && old(Room()) <= Room()
    {
      hide Flat, FlatTo, Contents, Room, Offset, TrueInter;
      if totalSize + n > maxSize {
        return false;
      }
      if PutSize() < n {
        ReserveMore(n);
      }
      SameWhenExtended();
      return true;
    }

    method ReserveMore(n: nat)
      requires Valid() && PutSize() < n
      modifies list, this`tailSize
      ensures Valid() && GetKept() && Extended() && TrueInter() == old(TrueInter())
      ensures n <= PutSize() && JustEnough(old(PutSize()), n, PutSize(), |list.items| - |old(list.items)|)
      ensures forall i | |old(list.items)| <= i < |list.items| ::
                minFragmentation <= list.items[i].Size() <= maxFragmentation
      ensures forall i | |old(list.items)| <= i < |list.items| - 1 :: list.items[i].Size() == maxFragmentation
    {
      hide Flat, FlatTo, Contents, Room, Offset, Total, JustEnough;
      ghost var p := PutSize();
      while PutSize() < n
        invariant Valid() && GetKept() && Extended() && TrueInter() == old(TrueInter())
        invariant PutSize() < n ==> PutSize() == p + (|list.items| - |old(list.items)|) * maxFragmentation
        invariant PutSize() >= n ==> JustEnough(p, n, PutSize(), |list.items| - |old(list.items)|)
        invariant forall i | |old(list.items)| <= i < |list.items| ::
                    minFragmentation <= list.items[i].Size() <= maxFragmentation
        invariant forall i | |old(list.items)| <= i < |list.items| - (if PutSize() < n then 0 else 1) ::
                    list.items[i].Size() == maxFragmentation
        decreases n - PutSize()
      {
        ghost var q, k := PutSize(), |list.items| - |old(list.items)|;
        ReserveOne(n);
        JustEnoughStep(p, n, q, PutSize(), k);
      }
    }

    /** k new fragments brought the put size from p to q: no fewer would reach n, and the excess is small. */
    ghost predicate JustEnough(p: nat, n: nat, q: nat, k: int)
      reads this
    {
      && (k - 1) * maxFragmentation < n - p <= k * maxFragmentation && n <= q < n + minFragmentation
      && q == Max(n, p + (k - 1) * maxFragmentation + minFragmentation)
    }

    lemma JustEnoughStep(p: nat, n: nat, q: nat, q': nat, k: nat)
      requires q == p + k * maxFragmentation < n && 1 <= minFragmentation <= maxFragmentation
      requires q' == q + Min(Max(n - q, minFragmentation), maxFragmentation)
      ensures q' < n ==> q' == p + (k + 1) * maxFragmentation
      ensures q' >= n ==> JustEnough(p, n, q', k + 1)
    {
      assert (k + 1) * maxFragmentation == k * maxFragmentation + maxFragmentation;
    }

    method ReserveOne(n: nat)
      requires Valid() && PutSize() < n
      modifies list, this`tailSize
      ensures Valid() && GetKept() && Extended() && |list.items| == |old(list.items)| + 1
      ensures TrueInter() == old(TrueInter())
      ensures PutSize() == old(PutSize()) + Min(Max(n - old(PutSize()), minFragmentation), maxFragmentation)
      ensures list.items[|old(list.items)|].Size() == PutSize() - old(PutSize())
    {
      var needed := n - PutSize();
      var sz := Min(Max(needed, minFragmentation), maxFragmentation);
      ghost var was := list.items;
      var _ := AddFragment(sz);
      SameOffsets(was, list.items, Pa() + 1);
      SameOffsets(was, list.items, Pa());
    }

    /** New fragments at the end leave the bytes seen through the pointers alone. */
    twostate lemma SameWhenExtended()
      requires old(Valid()) && Valid() && old(list.items) <= list.items && list.first == old(list.first)
      requires forall i | 0 <= i < |old(list.items)| :: unchanged(old(list.items)[i].data)
      requires get.gptr == old(get.gptr) && putActive == old(putActive) && put.pptr == old(put.pptr)
      ensures Contents() == old(Contents()) && old(Room()) <= Room()
      ensures PutIndex() == old(PutIndex())
    {
      FlatWhenExtended(old(list.items), list.items);
      SameOffsets(old(list.items), list.items, Pa());
      PutIndexBounds();
      SlicesOfPrefix(old(Flat(list.items)), Flat(list.items), get.gptr, PutIndex());
    }

    /** Makes the next fragment the put area; false is the length_error of its reserve. */
    method PromotePut() returns (ok: bool)
      requires Valid() && put.pptr == put.epptr
      modifies this`interSize, this`tailSize, this`putActive, this`put, list
      ensures Valid() && LimitsKept() && GetKept() && Extended()
      ensures ok <==> totalSize + 1 <= maxSize
      ensures !ok ==> list.items == old(list.items) && putActive == old(putActive) && put == old(put)
      ensures ok ==> putActive == old(putActive) + 1 && put.pbase == put.pptr == 0
      ensures old(tailSize) > 0 ==> list.items == old(list.items)
      ensures PutIndex() == old(PutIndex()) && Excess() == old(Excess())
    {
      hide Flat, FlatTo, Contents, Room, Offset, TrueInter;
      ok := Reserve(1);
      if ok {
        PromoteOnto();
      }
    }

    /** The pointer moves of promote_put, once a next fragment is there. */
    method PromoteOnto()
      requires Valid() && put.pptr == put.epptr && tailSize > 0
      modifies this`interSize, this`tailSize, this`putActive, this`put
      ensures Valid() && putActive == old(putActive) + 1 && put.pbase == put.pptr == 0
      ensures PutIndex() == old(PutIndex()) && Excess() == old(Excess())
    {
      OffsetMono(list.items, Pa() + 1, |list.items|);
      interSize := interSize + (list.Frag(putActive).hi - put.pbase);
      putActive := putActive + 1;
      put := PutArea(0, 0, list.Frag(putActive).hi);
      tailSize := tailSize - (put.epptr - put.pbase);
    }

    method PromotePutIfExist() returns (ok: bool)
      requires Valid()
      modifies this`interSize, this`tailSize, this`putActive, this`put, list
      ensures Valid() && LimitsKept() && GetKept() && list.items == old(list.items) && PutForward()
      ensures put.pptr < put.epptr || list.IsLast(putActive) || !ok
      ensures ok <==> totalSize < maxSize || old(put.pptr < put.epptr) || old(list.IsLast(putActive))
      ensures !ok ==> put.pptr == put.epptr && !list.IsLast(putActive)
      ensures PutIndex() == old(PutIndex()) && Excess() == old(Excess())
    {
      if put.epptr > put.pptr || list.IsLast(putActive) {
        return true;
      }
      OffsetMono(list.items, Pa() + 2, |list.items|);
      ok := PromotePut();
    }

    /** Whether n bytes more end where the put fragment or one behind it ends, and there is another one. */
    ghost predicate FillsFragment(n: nat)
      requires Shaped()
      reads this, list
    {
      IsBeginning(list.items, Pa(), PutIndex() + n)
    }

    /** Publishes n bytes of the put area. The bytes are in even when false (the length_error of
        promoting the put area afterwards) is the outcome. */
    method Commit(n: nat) returns (ok: bool)
      requires Valid() && n <= PutSize()
      modifies this`interSize, this`tailSize, this`putActive, this`put, list
      ensures Valid() && LimitsKept() && GetKept() && list.items == old(list.items) && PutForward()
      ensures ok <==> totalSize < maxSize || !old(FillsFragment(n))
      ensures ok ==> put.pptr < put.epptr || list.IsLast(putActive)
      ensures !ok ==> put.pptr == put.epptr && !list.IsLast(putActive)
      ensures Contents() == old(Contents()) + old(Room())[..n] && Room() == old(Room())[n..]
      ensures Excess() == old(Excess())
    {
      hide Flat, FlatTo, Contents, Room, Offset, TrueInter;
      AdvancePut(n);
      assert old(FillsFragment(n)) <==> put.pptr == put.epptr && !list.IsLast(putActive) by {
        FullIff(list.items, old(Pa()), Pa(), put.pptr);
      }
      ok := PromotePutIfExist();
      PutIndexMoved(n);
    }

    method AdvancePut(n: nat)
      requires Valid() && n <= PutSize()
      modifies this`interSize, this`tailSize, this`putActive, this`put
      ensures Valid() && PutForward() && (putActive == old(putActive) || 0 < put.pptr)
      ensures PutIndex() == old(PutIndex()) + n && Excess() == old(Excess())
    {
      if put.epptr - put.pptr >= n {
        put := put.(pptr := put.pptr + n);
      } else {
        CommitAcross(n);
      }
    }

    /** commit when the put fragment is too small: walks to the fragment where the n bytes end. */
    method CommitAcross(count: nat)
      requires Valid() && put.epptr - put.pptr < count <= PutSize()
      modifies this`interSize, this`tailSize, this`putActive, this`put
      ensures Valid() && old(putActive) < putActive && 0 < put.pptr
      ensures PutIndex() == old(PutIndex()) + count && Excess() == old(Excess())
    {
      var n := count - (put.epptr - put.pptr);
      PutIndexBounds();
      interSize := interSize + (list.Frag(putActive).hi - put.pbase);
      putActive := putActive + 1;
      n := SkipFull(n);
      LandPut(n);
    }

    /** The end of commit: the put area is what follows the n bytes in the fragment reached. */
    method LandPut(n: nat)
      requires Shaped() && 0 < Pa() && n <= list.items[Pa()].hi && socket.Valid()
      requires get.eback <= get.gptr <= get.egptr <= list.items[0].hi && 1 <= minFragmentation <= maxFragmentation
      requires Offset(list.items, Pa()) - get.egptr <= interSize
      requires tailSize == Total(list.items) - Offset(list.items, Pa())
      modifies this`interSize, this`tailSize, this`put
      ensures Valid() && put.pptr == n && PutIndex() == Offset(list.items, Pa()) + n
      ensures Excess() == old(interSize) - (Offset(list.items, Pa()) - get.egptr)
    {
      OffsetMono(list.items, Pa(), |list.items|);
      interSize := interSize + n;
      tailSize := tailSize - list.Frag(putActive).hi;
      put := PutArea(n, n, list.Frag(putActive).hi);
    }

    /** The loop of commit: steps over the fragments that the n bytes fill up. */
    method SkipFull(count: nat) returns (n: nat)
      requires Shaped() && 0 < count && Offset(list.items, Pa()) + count <= Total(list.items)
      requires tailSize == Total(list.items) - Offset(list.items, Pa())
      modifies this`interSize, this`tailSize, this`putActive
      ensures Shaped() && old(putActive) <= putActive && 0 < n <= list.items[Pa()].hi
      ensures Offset(list.items, Pa()) + n == old(Offset(list.items, Pa())) + count
      ensures interSize - Offset(list.items, Pa()) == old(interSize - Offset(list.items, Pa()))
      ensures tailSize == Total(list.items) - Offset(list.items, Pa())
    {
      n := count;
      while list.Frag(putActive).hi < n
        invariant Shaped() && n > 0 && old(putActive) <= putActive
        invariant Offset(list.items, Pa()) + n == old(Offset(list.items, Pa())) + count
        invariant interSize - Offset(list.items, Pa()) == old(interSize - Offset(list.items, Pa()))
        invariant tailSize == Total(list.items) - Offset(list.items, Pa())
        decreases n
      {
        var sz := list.Frag(putActive).hi;
        n := n - sz;
        tailSize := tailSize - sz;
        interSize := interSize + sz;
        assert Offset(list.items, Pa() + 1) == Offset(list.items, Pa()) + sz;
        putActive := putActive + 1;
      }
    }

    /** With the fragments and their bytes unchanged, moving pptr by n publishes n bytes. */
    twostate lemma PutIndexMoved(n: nat)
      requires old(Valid()) && Valid() && list.items == old(list.items)
      requires forall i | 0 <= i < |list.items| :: unchanged(list.items[i].data)
      requires get.gptr == old(get.gptr) && PutIndex() == old(PutIndex()) + n
      ensures n <= |old(Room())|
      ensures Contents() == old(Contents()) + old(Room())[..n] && Room() == old(Room())[n..]
    {
      PutIndexBounds();
      assert |old(Contents())| == old(PutIndex()) - get.gptr;
      SlicesMoved(Flat(list.items), get.gptr, old(PutIndex()), n);
    }

    /** Pointer bookkeeping that leaves gptr and the index of pptr alone changes no contents. */
    twostate lemma SamePointers()
      requires old(Valid()) && Valid() && list.items == old(list.items)
      requires forall i | 0 <= i < |list.items| :: unchanged(list.items[i].data)
      requires get.gptr == old(get.gptr) && PutIndex() == old(PutIndex())
      ensures Contents() == old(Contents()) && Room() == old(Room())
    {
    }

    // ----- writing into the put area -----

    /** The put area as prepare hands it out: non-empty windows, in order. */
    ghost function PutBuffers(): (r: seq<Fragment>)
      requires Shaped() && put.pptr <= list.items[Pa()].hi
      reads this, list
      ensures AllValid(r)
    {
      RestFrom(list.items, Pa(), put.pptr)
    }

    lemma RoomIsPutBuffers()
      requires Valid()
      ensures Flat(PutBuffers()) == Room()
    {
      RestFromIsSlice(list.items, Pa(), put.pptr);
    }

    /** Writes that stay behind pptr do not touch what is published. */
    twostate lemma PublishedKept()
      requires old(Valid()) && Valid() && unchanged(this) && unchanged(list)
      requires forall i | 0 <= i < Pa() :: unchanged(list.items[i].data)
      requires list.items[Pa()].data[..put.pptr] == old(list.items[Pa()].data[..put.pptr])
      ensures Contents() == old(Contents())
    {
    }

    /** Copies s behind pptr (the memcpy and the single store of the put functions). The first m
        bytes of fragment k stand for any bytes that are published already. */
    method Store(s: seq<byte>, ghost k: nat, ghost m: nat)
      requires Valid() && |s| <= put.epptr - put.pptr
      requires k <= Pa() && m <= list.items[k].hi && (k == Pa() ==> m <= put.pptr)
      modifies list.items[Pa()].data
      ensures Valid() && s <= Room() && Contents() == old(Contents())
      ensures Kept(old(list.items[k].data), m)
    {
      var f := list.Frag(putActive);
      CopyInto(f.data, put.pptr, s);
      PublishedKept();
      if k == Pa() {
        assert f.data[..m] == f.data[..put.pptr][..m];
      }
      WindowHasPrefix(f, put.pptr, s);
      RoomStartsAtPut(s);
    }

    lemma RoomStartsAtPut(s: seq<byte>)
      requires Valid() && s <= list.items[Pa()].data[put.pptr..put.epptr]
      ensures s <= Room()
    {
      RoomIsPutBuffers();
      if s != [] {
        PrependFlat(list.items[Pa()].(lo := put.pptr), list.items[Pa() + 1..]);
      }
    }

    /** Stores s and publishes it. */
    method PutHere(s: seq<byte>, ghost k: nat, ghost m: nat)
      requires Valid() && |s| <= put.epptr - put.pptr && totalSize < maxSize
      requires k <= Pa() && m <= list.items[k].hi && (k == Pa() ==> m <= put.pptr)
      modifies this`interSize, this`tailSize, this`putActive, this`put, list, list.items[Pa()].data
      ensures Valid() && LimitsKept() && GetKept() && list.items == old(list.items) && PutForward()
      ensures PutSize() == old(PutSize()) - |s|
      ensures Contents() == old(Contents()) + s && Excess() == old(Excess())
      ensures Kept(old(list.items[k].data), m)
    {
      hide Flat, FlatTo, Contents, Room, Offset, TrueInter;
      Store(s, k, m);
      assert Room()[..|s|] == s;
      var _ := Commit(|s|);
    }

    /** One round of xsputn's loop. */
    method PutSome(s: seq<byte>, ghost k: nat, ghost m: nat) returns (frag: nat)
      requires Valid() && 0 < |s| <= PutSize() && totalSize < maxSize
      requires k <= Pa() && m <= list.items[k].hi && (k == Pa() ==> m <= put.pptr)
      modifies this`interSize, this`tailSize, this`putActive, this`put, list, Arrays(Pa())
      ensures Valid() && LimitsKept() && GetKept() && list.items == old(list.items) && PutForward()
      ensures 0 < frag <= |s| && |s| - frag <= PutSize()
      ensures Contents() + s[frag..] == old(Contents()) + s && Excess() == old(Excess())
      ensures Kept(old(list.items[k].data), m)
    {
      hide Flat, FlatTo, Contents, Room, Offset, TrueInter;
      MakeRoomAtPut();
      frag := Min(put.epptr - put.pptr, |s|);
      MoveOver(Contents(), s, frag);
      PutHere(s[..frag], k, m);
    }

    /** Moves on to the next fragment when the put area is full. */
    method MakeRoomAtPut()
      requires Valid() && 0 < PutSize() && totalSize < maxSize
      modifies this`interSize, this`tailSize, this`putActive, this`put, list
      ensures Valid() && LimitsKept() && GetKept() && list.items == old(list.items) && PutForward()
      ensures put.pptr < put.epptr && PutSize() == old(PutSize())
      ensures Contents() == old(Contents()) && Excess() == old(Excess())
    {
      hide Flat, FlatTo, Contents, Room, Offset, TrueInter;
      if put.epptr == put.pptr {
        var _ := PromotePut();
        PutIndexMoved(0);
      }
    }

    /** sputn's virtual function; false is the length_error of its reserve. */
    method Xsputn(s: seq<byte>) returns (ok: bool, n: nat)
      requires Valid()
      modifies this`interSize, this`tailSize, this`putActive, this`put, list, Arrays(Pa())
      ensures Valid() && LimitsKept() && GetKept() && Extended() && PutForward()
      ensures ok <==> totalSize + |s| <= maxSize
      ensures n == if ok then |s| else 0
      ensures Contents() == old(Contents()) + (if ok then s else []) && Excess() == old(Excess())
      ensures Kept(old(PutArray()), old(put.pptr))
    {
      hide Flat, FlatTo, Contents, Room, Offset, TrueInter;
      n := 0;
      ok := Reserve(|s|);
      if ok {
        assert list.items[Pa()].data == old(list.items[Pa()].data);
        PutAll(s, Pa(), put.pptr);
        n := |s|;
      }
    }

    /** xsputn's loop. */
    method PutAll(s: seq<byte>, ghost k: nat, ghost m: nat)
      requires Valid() && |s| <= PutSize() && (s == [] || totalSize < maxSize)
      requires k <= Pa() && m <= list.items[k].hi && (k == Pa() ==> m <= put.pptr)
      modifies this`interSize, this`tailSize, this`putActive, this`put, list, Arrays(Pa())
      ensures Valid() && LimitsKept() && GetKept() && list.items == old(list.items) && PutForward()
      ensures Contents() == old(Contents()) + s && Excess() == old(Excess())
      ensures Kept(old(list.items[k].data), m)
    {
      hide Flat, FlatTo, Contents, Room, Offset, TrueInter;
      var rest := s;
      while rest != []
        invariant Valid() && LimitsKept() && GetKept() && list.items == old(list.items) && PutForward()
        invariant |rest| <= PutSize() && (rest == [] || totalSize < maxSize)
        invariant k <= Pa() && (k == Pa() ==> m <= put.pptr)
        invariant Contents() + rest == old(Contents()) + s && Excess() == old(Excess())
        invariant Kept(old(list.items[k].data), m)
        decreases |rest|
      {
        var frag := PutSome(rest, k, m);
        rest := rest[frag..];
      }
    }

    /** sputc's virtual function. The stored byte is published without promoting the put area. */
    method Overflow(c: int) returns (ok: bool, r: int)
      requires Valid() && EOF <= c < 256
      modifies this`interSize, this`tailSize, this`putActive, this`put, list, Arrays(Pa())
      ensures Valid() && LimitsKept() && GetKept() && Extended() && PutForward()
      ensures ok <==> totalSize + 1 <= maxSize
      ensures r == if ok then c else EOF
      ensures ok && c != EOF ==> put.pbase < put.pptr
      ensures Contents() == old(Contents()) + (if ok && c != EOF then [c as byte] else [])
      ensures Excess() == old(Excess())
      ensures Kept(old(PutArray()), old(put.pptr))
    {
      hide Flat, FlatTo, Contents, Room, Offset, TrueInter;
      r := EOF;
      ok := Reserve(1);
      if ok {
        r := c;
        assert list.items[Pa()].data == old(list.items[Pa()].data);
        if c == EOF {
          MakeRoomAtPut();
        } else {
          PutOne(c as byte, Pa(), put.pptr);
        }
      }
    }

    method PutOne(c: byte, ghost k: nat, ghost m: nat)
      requires Valid() && 0 < PutSize() && totalSize < maxSize
      requires k <= Pa() && m <= list.items[k].hi && (k == Pa() ==> m <= put.pptr)
      modifies this`interSize, this`tailSize, this`putActive, this`put, list, Arrays(Pa())
      ensures Valid() && LimitsKept() && GetKept() && list.items == old(list.items) && PutForward()
      ensures Contents() == old(Contents()) + [c] && Excess() == old(Excess()) && put.pbase < put.pptr
      ensures Kept(old(list.items[k].data), m)
    {
      hide Flat, FlatTo, Contents, Room, Offset, TrueInter;
      MakeRoomAtPut();
      StoreOne(c, k, m);
    }

    method StoreOne(c: byte, ghost k: nat, ghost m: nat)
      requires Valid() && put.pptr < put.epptr
      requires k <= Pa() && m <= list.items[k].hi && (k == Pa() ==> m <= put.pptr)
      modifies this`put, list.items[Pa()].data
      ensures Valid() && Contents() == old(Contents()) + [c] && Excess() == old(Excess())
      ensures put == old(put).(pptr := old(put.pptr) + 1)
      ensures Kept(old(list.items[k].data), m)
    {
      hide Flat, FlatTo, Contents, Room, Offset, TrueInter;
      Store([c], k, m);
      assert Room()[..1] == [c];
      BumpOne();
    }

    /** pbump(1). */
    method BumpOne()
      requires Valid() && put.pptr < put.epptr
      modifies this`put
      ensures Valid() && put == old(put).(pptr := old(put.pptr) + 1)
      ensures Contents() == old(Contents()) + old(Room())[..1] && Excess() == old(Excess())
    {
      put := put.(pptr := put.pptr + 1);
      PutIndexMoved(1);
    }

    /** The put area, extended to n bytes, as a list of buffers to write into. */
    method Prepare(n: nat) returns (ok: bool, mb: seq<Fragment>)
      requires Valid()
      modifies list, this`tailSize
      ensures Valid() && LimitsKept() && GetKept() && Extended()
      ensures ok <==> totalSize + n <= maxSize
      ensures Contents() == old(Contents()) && Excess() == old(Excess())
      ensures ok ==> n <= PutSize() && mb == PutBuffers() && Flat(mb) == Room()
      ensures !ok ==> mb == [] && list.items == old(list.items)
      ensures n <= old(PutSize()) ==> PutSize() == old(PutSize()) && list.items == old(list.items)
    {
      hide Flat, FlatTo, Contents, Room, Offset, TrueInter;
      mb := [];
      ok := Reserve(n);
      if ok {
        mb := CollectBuffers();
      }
    }

    method CollectBuffers() returns (mb: seq<Fragment>)
      requires Valid()
      ensures mb == PutBuffers() && Flat(mb) == Room()
    {
      hide Flat, FlatTo, Contents, Room, Offset, TrueInter;
      RoomIsPutBuffers();
      hide Total, PutIndex;
      var iter := putActive;
      mb := [];
      if list.Frag(iter).hi - put.pptr > 0 {
        mb := [list.Frag(iter).(lo := put.pptr)];
      }
      ghost var here := mb;
      iter := iter + 1;
      while iter != list.EndNumber()
        invariant putActive < iter <= list.EndNumber()
        invariant mb == here + list.items[Pa() + 1..iter - list.first]
      {
        ghost var i := iter - list.first;
        assert list.items[Pa() + 1..i + 1] == list.items[Pa() + 1..i] + [list.items[i]];
        if list.Frag(iter).Size() > 0 {
          mb := mb + [list.Frag(iter)];
        }
        iter := iter + 1;
      }
    }

    /** Fills the first |s| bytes of the buffers that prepare handed out. */
    method FillBuffers(mb: seq<Fragment>, s: seq<byte>)
      requires Valid() && mb == PutBuffers() && |s| <= PutSize()
      modifies Arrays(Pa())
      ensures Valid() && Contents() == old(Contents()) && |s| <= |Room()| && Room()[..|s|] == s
      ensures Kept(old(PutArray()), put.pptr)
    {
      hide FlatTo;
      RoomIsPutBuffers();
      RestFromDistinct(list.items, Pa(), put.pptr);
      forall f | f in mb
        ensures f.data in Arrays(Pa())
      {
        RestFromMembers(list.items, Pa(), put.pptr, f);
      }
      Scatter(mb, s);
      ReadBehindPut(mb);
      PublishedKept();
      RoomIsPutBuffers();
    }

    // ----- the underflow handler -----

    /** One read into the put area. */
    method ReadInto(mb: seq<Fragment>, ghost k: nat, ghost m: nat) returns (got: nat)
      requires Valid() && mb == PutBuffers()
      requires k <= Pa() && m <= list.items[k].hi && (k == Pa() ==> m <= put.pptr)
      modifies socket, Arrays(Pa())
      ensures Valid() && Contents() == old(Contents()) && Excess() == old(Excess()) && got <= PutSize()
      ensures Arrived(got)
      ensures Room()[..got] == old(socket.Unread())[..got]
      ensures Kept(old(list.items[k].data), m)
    {
      hide Flat, FlatTo, Contents, Room, Offset, TrueInter;
      got := ReadRaw(mb);
      assert Room()[..got] == old(socket.Unread())[..got] by {
        RoomIsPutBuffers();
      }
      PublishedKept();
      if k == Pa() {
        assert list.items[k].data[..m] == list.items[k].data[..put.pptr][..m];
      }
    }

    /** How many bytes the next read brings. */
    function NextRead(): nat
      requires put.pptr <= put.epptr
      reads this, socket
    {
      if socket.incoming == [] then 0 else Min(|socket.incoming[0]|, PutSize())
    }

    /** The socket delivered `got` bytes of its next piece, as many as fit. */
    twostate predicate Arrived(got: nat)
      requires put.pptr <= put.epptr && old(put.pptr <= put.epptr)
      reads this, socket
    {
      && got == old(NextRead()) && ReadsOnce(old(socket.incoming), socket.incoming, PutSize())
      && socket.incoming == AfterRead(old(socket.incoming), got)
      && got <= |old(socket.Unread())| && socket.Unread() == old(socket.Unread())[got..]
      && (got == 0 <==> old(socket.incoming) == [] || PutSize() == 0)
      && (old(socket.incoming) == [] ==> socket.incoming == [])
      && (old(socket.incoming) != [] && |old(socket.incoming)[0]| <= PutSize() ==>
            got == |old(socket.incoming)[0]| && socket.incoming == old(socket.incoming)[1..])
    }

    method ReadRaw(mb: seq<Fragment>) returns (got: nat)
      requires Valid() && mb == PutBuffers()
      modifies socket, Arrays(Pa())
      ensures Valid() && got <= PutSize() == |Flat(mb)| && Arrived(got)
      ensures Flat(mb)[..got] == old(socket.Unread())[..got]
      ensures list.items[Pa()].data[..put.pptr] == old(list.items[Pa()].data[..put.pptr])
    {
      RoomIsPutBuffers();
      RestFromDistinct(list.items, Pa(), put.pptr);
      forall f | f in mb
        ensures f.data in Arrays(Pa())
      {
        RestFromMembers(list.items, Pa(), put.pptr, f);
      }
      got := socket.ReadSome(mb);
      ReadBehindPut(mb);
    }

    /** Filling the put buffers leaves what is before pptr alone. */
    twostate lemma ReadBehindPut(mb: seq<Fragment>)
      requires old(Valid()) && unchanged(this) && unchanged(list) && mb == PutBuffers()
      requires forall f | f in mb :: HeadKept(f)
      requires (forall f | f in mb :: f.data != list.items[Pa()].data) ==> unchanged(list.items[Pa()].data)
      ensures list.items[Pa()].data[..put.pptr] == old(list.items[Pa()].data[..put.pptr])
    {
      if f :| f in mb && f.data == list.items[Pa()].data {
        RestFromMembers(list.items, Pa(), put.pptr, f);
      }
    }

    /** What a read handler does with the buffer: prepare(n), one read, commit. */
    method ReadMore(n: nat) returns (reply: Reply, got: nat)
      requires Valid()
      modifies this`interSize, this`tailSize, this`putActive, this`put, list, socket, Arrays(Pa())
      ensures Valid() && LimitsKept() && GetKept() && Extended() && PutForward() && Onward()
      ensures totalSize + n > maxSize ==> reply == LengthError && got == 0 && socket.incoming == old(socket.incoming)
      ensures totalSize + n <= maxSize ==> ReadsOnce(old(socket.incoming), socket.incoming, n)
      ensures totalSize + n <= maxSize && 0 < n ==> (reply == NoMore <==> got == 0) && reply != LengthError
      ensures totalSize + n <= maxSize && 0 < n ==> (got == 0 <==> old(socket.incoming) == [])
      ensures old(socket.incoming) == [] ==> socket.incoming == []
      ensures got <= |old(socket.Unread())| && socket.Unread() == old(socket.Unread())[got..]
      ensures totalSize + n <= maxSize && old(socket.incoming) != [] && |old(socket.incoming)[0]| <= n ==>
                got == |old(socket.incoming)[0]| && socket.incoming == old(socket.incoming)[1..]
      ensures Contents() == old(Contents()) + old(socket.Unread())[..got] && Excess() == old(Excess())
      ensures Kept(old(PutArray()), old(put.pptr))
    {
      hide Flat, FlatTo, Contents, Room, Offset, TrueInter, FillsFragment, Total;
      reply, got := LengthError, 0;
      var ok, mb := Prepare(n);
      if ok {
        assert list.items[Pa()].data == old(list.items[Pa()].data);
        ok, got := ReadAndCommit(mb, Pa(), put.pptr);
        reply := if !ok then LengthError else if got > 0 then More else NoMore;
      }
      OnwardWhenExtended();
    }

    method ReadAndCommit(mb: seq<Fragment>, ghost k: nat, ghost m: nat) returns (ok: bool, got: nat)
      requires Valid() && mb == PutBuffers()
      requires k <= Pa() && m <= list.items[k].hi && (k == Pa() ==> m <= put.pptr)
      modifies this`interSize, this`tailSize, this`putActive, this`put, list, socket, Arrays(Pa())
      ensures Valid() && LimitsKept() && GetKept() && list.items == old(list.items) && PutForward()
      ensures totalSize < maxSize ==> ok
      ensures got <= |old(socket.Unread())| && socket.Unread() == old(socket.Unread())[got..]
      ensures got == 0 <==> old(socket.incoming) == [] || old(PutSize()) == 0
      ensures ReadsOnce(old(socket.incoming), socket.incoming, old(PutSize()))
      ensures old(socket.incoming) == [] ==> socket.incoming == []
      ensures old(socket.incoming) != [] && |old(socket.incoming)[0]| <= old(PutSize()) ==>
                got == |old(socket.incoming)[0]| && socket.incoming == old(socket.incoming)[1..]
      ensures Contents() == old(Contents()) + old(socket.Unread())[..got] && Excess() == old(Excess())
      ensures Kept(old(list.items[k].data), m)
    {
      hide Flat, FlatTo, Contents, Room, Offset, TrueInter;
      got := ReadInto(mb, k, m);
      ok := Commit(got);
    }

    // ----- get side -----

    /** Moves pbase up to pptr: a valid buffer stays valid, with the same bytes and the same counter's error. */
    method CompactPutArea() returns (moved: bool)
      requires put.pbase <= put.pptr
      modifies this`interSize, this`put
      ensures old(Valid()) ==> Valid() && Contents() == old(Contents()) && Excess() == old(Excess())
      ensures old(Valid()) ==> Size() == old(Size())
      ensures moved <==> old(put.pbase < put.pptr)
      ensures interSize == old(interSize) + (old(put.pptr) - old(put.pbase))
      ensures put == old(put).(pbase := old(put.pptr))
    {
      if put.pptr == put.pbase {
        return false;
      }
      interSize := interSize + (put.pptr - put.pbase);
      put := PutArea(put.pptr, put.pptr, put.epptr);
      return true;
    }

    /** Moves egptr up to pbase when both areas share a fragment. */
    method ExtendGetArea() returns (moved: bool)
      requires Valid() && Pa() == 0
      modifies this`interSize, this`get
      ensures Valid() && get == old(get).(egptr := put.pbase) && Excess() == old(Excess())
    {
      if get.egptr == put.pbase {
        return false;
      }
      interSize := interSize - (put.pbase - get.egptr);
      get := GetArea(get.eback, get.gptr, put.pbase);
      return true;
    }

    /** The value of *gptr as an int, where char is signed: the byte 0xFF reads as EOF. */
    static function SignedChar(b: byte): (r: int)
      ensures -128 <= r < 128 && r % 256 == b as int
      ensures r == EOF <==> b == 255
    {
      if b < 128 then b as int else b as int - 256
    }

    ghost function Front(): (r: int)
      requires Valid()
      reads this, list, socket, Arrays(0)
      ensures if Contents() == [] then r == -1 else -128 <= r < 128 && r % 256 == Contents()[0] as int
    {
      if Contents() == [] then EOF else SignedChar(Contents()[0])
    }

    /** The value read at the front is EOF at the end of the contents, and before 0xFF. */
    lemma FrontIsEof()
      requires Valid()
      ensures Front() == EOF <==> EofAt(0)
    {
      hide Contents;
    }

    lemma AtEofIs()
      requires Valid()
      ensures AsQueue().AtEof() <==> EofAt(0)
    {
      hide Contents;
    }

    /** What do_underflow shows next reaches to the end of its fragment: there is no put space left in it. */
    ghost predicate ShowsWhole()
      requires Valid()
      reads this, list, socket
    {
      var k := if Pa() > 0 && get.egptr == list.items[0].hi then 1 else 0;
      k < Pa() || put.pptr == list.items[k].hi
    }

    /** How many bytes that is. */
    ghost function NextShown(): nat
      requires Valid()
      reads this, list, socket
    {
      if Pa() > 0 && get.egptr == list.items[0].hi then list.items[1].hi else list.items[0].hi - get.egptr
    }

    /** do_underflow: makes more of the contents visible between gptr and egptr. If the whole first
        fragment was visible already, it is dropped, together with any bytes not yet taken from it. */
    method DoUnderflow() returns (r: int)
      requires Valid()
      modifies this`interSize, this`get, this`put, list
      ensures Valid() && put.pptr == old(put.pptr) && Excess() == old(Excess())
      ensures var full := old(Pa() > 0 && get.egptr == list.items[0].hi);
              && list.first == old(list.first) + (if full then 1 else 0)
              && list.items == (if full then old(list.items)[1..] else old(list.items))
              && Contents() == if full then old(Contents())[old(get.egptr) - old(get.gptr)..] else old(Contents())
      ensures get.gptr == get.egptr <==> Contents() == []
      ensures Contents() != [] ==> (get.egptr == list.items[0].hi <==> old(ShowsWhole()))
      ensures Contents() != [] && old(get.gptr == get.egptr && ShowsWhole()) ==>
                get.egptr - get.gptr == old(NextShown()) > 0
      ensures ShowsAll() && r == Front()
      ensures if Contents() == [] then r == -1 else -128 <= r < 128 && r % 256 == Contents()[0] as int
    {
      hide FlatTo, Flat, Offset, Total, TrueInter, PutIndex;
      ShowMore();
      r := CurrentByte();
    }

    method ShowMore()
      requires Valid()
      modifies this`interSize, this`get, this`put, list
      ensures Valid() && put.pptr == old(put.pptr) && Excess() == old(Excess())
      ensures Contents() != [] ==> (get.egptr == list.items[0].hi <==> old(ShowsWhole()))
      ensures Contents() != [] && old(get.gptr == get.egptr && ShowsWhole()) ==>
                get.egptr - get.gptr == old(NextShown()) > 0
      ensures var full := old(Pa() > 0 && get.egptr == list.items[0].hi);
              && list.first == old(list.first) + (if full then 1 else 0)
              && list.items == (if full then old(list.items)[1..] else old(list.items))
              && Contents() == if full then old(Contents())[old(get.egptr) - old(get.gptr)..] else old(Contents())
      ensures ShowsAll() && (get.gptr == get.egptr <==> Contents() == [])
    {
      hide Flat, FlatTo, TrueInter, Contents;
      if Pa() == 0 {
        if get.gptr != put.pptr {
          ShowPublished();
        }
      } else if get.egptr != list.items[0].hi {
        ExtendToFragmentEnd();
      } else {
        PopGetFragment();
        if Pa() == 0 {
          ShowPublished();
        } else {
          ExtendToFragmentEnd();
        }
      }
    }

    method CurrentByte() returns (r: int)
      requires Valid() && (get.gptr == get.egptr <==> Contents() == [])
      ensures r == Front()
    {
      if get.gptr == get.egptr {
        return EOF;
      }
      FlatAt(list.items, 0, |list.items|);
      assert Contents()[0] == Flat(list.items)[get.gptr] == list.items[0].Bytes()[get.gptr];
      return SignedChar(list.items[0].data[get.gptr]);
    }

    method ShowPublished()
      requires Valid() && Pa() == 0
      modifies this`interSize, this`get, this`put
      ensures Valid() && put.pptr == old(put.pptr) && Excess() == old(Excess())
      ensures get == old(get).(egptr := put.pptr) && Contents() == old(Contents())
      ensures get.gptr == get.egptr <==> Contents() == []
    {
      var _ := CompactPutArea();
      var _ := ExtendGetArea();
    }

    method ExtendToFragmentEnd()
      requires Valid() && 0 < Pa()
      modifies this`interSize, this`get
      ensures Valid() && get == old(get).(egptr := list.items[0].hi) && Excess() == old(Excess())
      ensures Contents() == old(Contents())
      ensures old(get.egptr) < list.items[0].hi || get.gptr == 0 ==> Contents() != [] && get.gptr < get.egptr
    {
      OffsetMono(list.items, 1, Pa());
      interSize := interSize - (list.items[0].hi - get.egptr);
      get := GetArea(get.eback, get.gptr, list.items[0].hi);
    }

    /** Drops the first fragment; the get area is empty, at the start of the next one. */
    method PopGetFragment()
      requires Valid() && 0 < Pa() && get.egptr == list.items[0].hi
      modifies this`get, list
      ensures Valid() && get == GetArea(0, 0, 0) && Excess() == old(Excess())
      ensures list.items == old(list.items)[1..] && list.first == old(list.first) + 1
      ensures Contents() == old(Contents())[old(get.egptr) - old(get.gptr)..]
    {
      PopOnly();
      PublishedAfterDrop();
    }

    method PopOnly()
      requires Valid() && 0 < Pa() && get.egptr == list.items[0].hi
      modifies this`get, list
      ensures Valid() && get == GetArea(0, 0, 0) && interSize == old(interSize) && TrueInter() == old(TrueInter())
      ensures list.items == old(list.items)[1..] && list.first == old(list.first) + 1
      ensures PutIndex() == old(PutIndex()) - old(get.egptr)
      ensures Flat(list.items) == old(Flat(list.items))[old(get.egptr)..]
    {
      DroppedFirst();
      list.PopFront();
      get := GetArea(0, 0, 0);
    }

    twostate lemma PublishedAfterDrop()
      requires old(Valid()) && old(Pa()) > 0 && old(get.egptr) == old(list.items)[0].hi
      requires Valid() && get.gptr == 0 && PutIndex() == old(PutIndex()) - old(get.egptr)
      requires Flat(list.items) == old(Flat(list.items))[old(get.egptr)..]
      ensures Contents() == old(Contents())[old(get.egptr) - old(get.gptr)..]
    {
      SliceOfDropped(old(Flat(list.items)), old(get.gptr), old(get.egptr), old(PutIndex()));
    }

    /** What the list looks like without its first fragment. */
    lemma DroppedFirst()
      requires Shaped() && 0 < Pa()
      ensures var rest, k := list.items[1..], list.items[0].hi;
              && Whole(rest) && Offset(list.items, Pa()) == k + Offset(rest, Pa() - 1)
              && Offset(list.items, Pa() + 1) == k + Offset(rest, Pa())
              && Total(list.items) == k + Total(rest) && Flat(rest) == Flat(list.items)[k..]
    {
      DropFirst(list.items, Pa());
      DropFirst(list.items, Pa() + 1);
      DropFirst(list.items, |list.items|);
    }

    /** Popping a fragment before the put fragment leaves the put arrays as they are. */
    twostate lemma SamePutArrays()
      requires old(list.Has(putActive)) && putActive == old(putActive) && list.first <= putActive
      requires var gone := list.first - old(list.first);
               0 <= gone <= |old(list.items)| && list.items == old(list.items)[gone..]
      ensures Arrays(Pa()) == old(Arrays(Pa())) && PutArray() == old(PutArray())
    {
      var gone := list.first - old(list.first);
      forall i | old(Pa()) <= i < |old(list.items)|
        ensures old(list.items)[i].data in Arrays(Pa())
      {
        assert list.items[i - gone] == old(list.items)[i];
      }
    }

    /** The size check of the handler's prepare. */
    predicate MayFetch()
      reads this
    {
      totalSize + 1024 <= maxSize
    }

    /** Position i of the contents is their end, or the byte there passes for end of file. */
    ghost predicate EofAt(i: nat)
      requires Valid()
      reads this, list, socket, Arrays(0)
    {
      i < |Contents()| ==> Contents()[i] == 255
    }

    /** The byte at position i of the contents passes for end of file although more arrives then, and
        nothing will be put into its fragment any more. */
    ghost predicate Passes(i: nat)
      requires Valid()
      reads this, list, socket, Arrays(0)
    {
      i < |Contents()| && EofAt(i) && socket.incoming != [] && MayFetch() && ShowsWhole()
    }

    /** underflow, called when gptr == egptr. `drop` are the bytes that disappear when 0xFF at the front
        passes for end of file and the handler then does deliver. */
    method Underflow() returns (threw: bool, r: int, ghost drop: seq<byte>)
      requires Valid() && get.gptr == get.egptr
      modifies this`interSize, this`tailSize, this`putActive, this`get, this`put, list, socket, Arrays(Pa())
      ensures Valid() && LimitsKept() && Onward() && Excess() == old(Excess())
      ensures old(Pending()) == drop + Pending()
      ensures |drop| == if old(Passes(0)) then old(NextShown()) else 0
      ensures drop != [] <==> old(Passes(0))
      ensures drop != [] ==> drop[0] == 255 && MayFetch() && old(socket.incoming) != []
      ensures ShowsAll() && Underflows(Allowance(), old(AsQueue()), drop, AsQueue())
      ensures if Contents() == [] then r == -1 else -128 <= r < 128 && r % 256 == Contents()[0] as int
      ensures get.gptr == get.egptr <==> Contents() == []
      ensures (threw <==> !MayFetch() && old(EofAt(0))) && (threw <==> !MayFetch() && r == EOF)
      ensures old(socket.incoming) == [] ==> socket.incoming == []
      ensures !MayFetch() ==> socket.Unread() == old(socket.Unread())
      ensures r == Front() && (Contents() == [] && MayFetch() ==> socket.incoming == [])
      ensures IsSuffix(old(socket.Unread()), socket.Unread())
      ensures Kept(old(PutArray()), old(put.pptr))
    {
      hide Flat, FlatTo, Contents, Offset, Total, Excess, TrueInter, PutIndex, Passes, EofAt, NextShown, Doomed;
      hide ShowsWhole, Front, Arrays, Underflows, ReadsOnce, ShowsAll;
      ghost var a, n := PutArray(), put.pptr;
      ghost var arrays := Arrays(Pa());
      assert n <= a.Length;
      ghost var q, passed, whole, shown := AsQueue(), Passes(0), ShowsWhole(), NextShown();
      ghost var lost;
      PassesWhen();
      FrontIsEof();
      var r0;
      r0, lost := Refill();
      assert Kept(a, n);
      label refilled:
      threw, r, drop := FetchAtEof(r0, passed, whole, shown, q);
      forall x | x in Arrays(Pa()) && x !in arrays
        ensures fresh(x)
      {
        assert fresh@refilled(x);
      }
    }

    lemma UnderflowsWhen(q: Queue, r0: int, drop: seq<byte>)
      requires Valid() && (get.gptr == get.egptr <==> Contents() == []) && (r0 == EOF <==> q.AtEof())
      requires if r0 == EOF && MayFetch() then ReadsOnce(q.incoming, socket.incoming, 1024)
               else socket.incoming == q.incoming
      requires q.contents + q.Unread() == drop + Pending()
      requires drop != [] ==> r0 == EOF && q.contents != [] && MayFetch() && q.incoming != [] && |drop| <= |q.contents|
      ensures Underflows(Allowance(), q, drop, AsQueue())
    {
      hide ReadsOnce, Flat, FlatTo, Offset;
    }

    /** What underflow does after its first do_underflow has returned r0. */
    method FetchAtEof(r0: int, ghost passed: bool, ghost whole: bool, ghost shown: nat, ghost q: Queue)
      returns (threw: bool, r: int, ghost drop: seq<byte>)
      requires Valid() && ShowsAll() && r0 == Front() && (get.gptr == get.egptr <==> Contents() == [])
      requires Contents() != [] ==> (get.egptr == list.items[0].hi <==> whole)
      requires Contents() != [] && whole ==> get.egptr - get.gptr == shown > 0
      requires passed <==> Contents() != [] && r0 == EOF && socket.incoming != [] && MayFetch() && whole
      requires q.contents == Contents() && q.incoming == socket.incoming
      modifies this`interSize, this`tailSize, this`putActive, this`get, this`put, list, socket, Arrays(Pa())
      ensures Valid() && LimitsKept() && Onward() && Excess() == old(Excess()) && ShowsAll()
      ensures Underflows(Allowance(), q, drop, AsQueue())
      ensures old(Pending()) == drop + Pending() && |drop| == (if passed then shown else 0)
      ensures drop != [] <==> passed
      ensures drop != [] ==>
                drop[0] == 255 && MayFetch() && old(socket.incoming) != [] && |drop| <= |old(Contents())|
      ensures get.gptr == get.egptr <==> Contents() == []
      ensures (threw <==> !MayFetch() && r0 == EOF) && (threw <==> !MayFetch() && r == EOF)
      ensures old(socket.incoming) == [] ==> socket.incoming == []
      ensures !MayFetch() ==> socket.Unread() == old(socket.Unread())
      ensures r == Front() && (Contents() == [] && MayFetch() ==> socket.incoming == [])
      ensures IsSuffix(old(socket.Unread()), socket.Unread())
      ensures Kept(old(PutArray()), old(put.pptr))
    {
      hide Flat, FlatTo, Contents, Offset, Total, Excess, TrueInter, PutIndex, Passes, EofAt, NextShown, Doomed;
      hide Underflows, ReadsOnce, ShowsAll;
      threw, r, drop := false, r0, [];
      if r == EOF {
        DoomedWhen(passed, whole, shown);
        threw, r, drop := Retry();
      }
      UnderflowsWhen(q, r0, drop);
    }

    /** The second half of underflow, with the bytes that it drops. */
    method Retry() returns (threw: bool, r: int, ghost drop: seq<byte>)
      requires Valid() && ShowsAll() && Front() == EOF && (get.gptr == get.egptr <==> Contents() == [])
      modifies this`interSize, this`tailSize, this`putActive, this`get, this`put, list, socket, Arrays(Pa())
      ensures Valid() && LimitsKept() && Onward() && Excess() == old(Excess()) && ShowsAll() && Fetched()
      ensures old(Pending()) == drop + Pending() && |drop| == old(Doomed())
      ensures drop != [] ==> drop[0] == 255 && |drop| <= |old(Contents())|
      ensures get.gptr == get.egptr <==> Contents() == []
      ensures (threw <==> !MayFetch()) && (threw ==> r == EOF)
      ensures old(socket.incoming) == [] ==> socket.incoming == []
      ensures !MayFetch() ==> socket.Unread() == old(socket.Unread())
      ensures r == Front() && (Contents() == [] && MayFetch() ==> socket.incoming == [])
      ensures IsSuffix(old(socket.Unread()), socket.Unread())
      ensures Kept(old(PutArray()), old(put.pptr))
    {
      hide Flat, FlatTo, Contents, Offset, Total, Excess, TrueInter, PutIndex, EofAt, Doomed;
      ghost var c, u, lost := Contents(), socket.Unread(), 0;
      threw, r, lost := HandleAndRetry();
      drop := c[..lost];
      CutFront(c, u, lost);
    }

    /** The bytes that a further do_underflow drops, once the handler has delivered. */
    ghost function Doomed(): (r: nat)
      requires Valid()
      reads this, list, socket
      ensures r > 0 ==> MayFetch() && socket.incoming != []
    {
      if MayFetch() && socket.incoming != [] && get.egptr == list.items[0].hi then get.egptr - get.gptr else 0
    }

    lemma PassesWhen()
      requires Valid()
      ensures Passes(0) <==> Contents() != [] && Front() == EOF && socket.incoming != [] && MayFetch() && ShowsWhole()
    {
      hide Contents, ShowsWhole;
    }

    /** Those are the bytes just shown, when the one in front passed for end of file. */
    lemma DoomedWhen(passed: bool, whole: bool, shown: nat)
      requires Valid() && Front() == EOF && (get.gptr == get.egptr <==> Contents() == [])
      requires Contents() != [] ==> (get.egptr == list.items[0].hi <==> whole)
      requires Contents() != [] && whole ==> get.egptr - get.gptr == shown > 0
      requires passed <==> Contents() != [] && socket.incoming != [] && MayFetch() && whole
      ensures Doomed() == (if passed then shown else 0) && (passed ==> shown > 0)
    {
      hide Contents;
    }

    /** do_underflow, seen from the whole stream. */
    method Refill() returns (r: int, ghost lost: nat)
      requires Valid()
      modifies this`interSize, this`get, this`put, list
      ensures Valid() && Excess() == old(Excess())
      ensures Arrays(Pa()) == old(Arrays(Pa())) && PutArray() == old(PutArray()) && put.pptr == old(put.pptr)
      ensures lost == if old(Pa() > 0 && get.egptr == list.items[0].hi) then old(get.egptr - get.gptr) else 0
      ensures lost <= |old(Contents())| && Contents() == old(Contents())[lost..]
      ensures lost == 0 ==> Contents() == old(Contents()) && r == old(Front())
      ensures get.gptr == get.egptr <==> Contents() == []
      ensures Contents() != [] ==> (get.egptr == list.items[0].hi <==> old(ShowsWhole()))
      ensures Contents() != [] && old(get.gptr == get.egptr && ShowsWhole()) ==>
                get.egptr - get.gptr == old(NextShown()) > 0
      ensures ShowsAll() && r == Front()
    {
      hide Flat, FlatTo, Contents, Offset, Total, Excess, TrueInter, PutIndex;
      lost := if Pa() > 0 && get.egptr == list.items[0].hi then get.egptr - get.gptr else 0;
      r := DoUnderflow();
      SamePutArrays();
    }

    /** The second half of underflow. */
    method HandleAndRetry() returns (threw: bool, r: int, ghost lost: nat)
      requires Valid() && ShowsAll() && Front() == EOF && (get.gptr == get.egptr <==> Contents() == [])
      modifies this`interSize, this`tailSize, this`putActive, this`get, this`put, list, socket, Arrays(Pa())
      ensures Valid() && LimitsKept() && Onward() && Excess() == old(Excess()) && ShowsAll() && Fetched()
      ensures lost <= |old(Contents())| && Pending() == old(Pending())[lost..]
      ensures lost == old(Doomed())
      ensures get.gptr == get.egptr <==> Contents() == []
      ensures (threw <==> !MayFetch()) && (threw ==> r == EOF)
      ensures old(socket.incoming) == [] ==> socket.incoming == []
      ensures !MayFetch() ==> socket.Unread() == old(socket.Unread())
      ensures r == Front() && (Contents() == [] && MayFetch() ==> socket.incoming == [])
      ensures IsSuffix(old(socket.Unread()), socket.Unread())
      ensures Kept(old(PutArray()), old(put.pptr))
    {
      hide Flat, FlatTo, Contents, Offset, Total, Excess, TrueInter, PutIndex, Extended, GetKept, Whole;
      hide ShowsWhole, Arrays, ReadsOnce, ShowsAll, IsSuffix;
      r, lost := EOF, 0;
      ghost var a, n := PutArray(), put.pptr;
      var reply, got := InvokeUnderflowHandler();
      threw := reply == LengthError;
      ShowsAllKept();
      if reply == More {
        PutMovedOn();
        r, lost := RefillPending();
        assert Kept(a, n);
      }
    }

    method RefillPending() returns (r: int, ghost lost: nat)
      requires Valid()
      modifies this`interSize, this`get, this`put, list
      ensures Valid() && Excess() == old(Excess())
      ensures Arrays(Pa()) == old(Arrays(Pa())) && PutArray() == old(PutArray()) && put.pptr == old(put.pptr)
      ensures lost == if old(Pa() > 0 && get.egptr == list.items[0].hi) then old(get.egptr - get.gptr) else 0
      ensures lost <= |old(Contents())| && (get.gptr == get.egptr <==> Contents() == []) && r == Front()
      ensures ShowsAll() && Pending() == old(Pending())[lost..]
    {
      hide Flat, FlatTo, Contents, Offset, Total, Excess, TrueInter, PutIndex, Arrays, PutArray, ShowsWhole;
      ghost var c, u := Contents(), socket.Unread();
      r, lost := Refill();
      DropFromConcat(c, u, lost);
    }

    twostate lemma ShowsAllKept()
      requires old(Valid()) && Valid() && GetKept() && Extended() && old(ShowsAll())
      ensures |Contents()| == old(|Contents()|) ==> ShowsAll()
    {
      hide Flat, FlatTo, Contents, Total, Offset;
    }

    /** Bytes published behind a first fragment that is shown to its end lie in a later one. */
    twostate lemma PutMovedOn()
      requires old(Valid()) && Valid() && GetKept() && Extended() && |Contents()| > old(|Contents()|)
      ensures list.items[0] == old(list.items[0]) && (get.egptr == list.items[0].hi ==> 0 < Pa())
    {
      hide Flat, FlatTo, Contents, Total;
    }

    /** What one call of the handler leaves to come. */
    twostate predicate Fetched()
      reads this, socket
    {
      if MayFetch() then ReadsOnce(old(socket.incoming), socket.incoming, 1024)
      else socket.incoming == old(socket.incoming)
    }

    /** Moves bytes from the socket to the contents, with one read. */
    method InvokeUnderflowHandler() returns (reply: Reply, got: nat)
      requires Valid()
      modifies this`interSize, this`tailSize, this`putActive, this`put, list, socket, Arrays(Pa())
      ensures Valid() && LimitsKept() && GetKept() && Extended() && Onward() && Excess() == old(Excess())
      ensures Pending() == old(Pending()) && old(Contents()) <= Contents() && |Contents()| == old(|Contents()|) + got
      ensures reply == LengthError <==> totalSize + 1024 > maxSize
      ensures reply == More <==> got > 0
      ensures reply == NoMore <==> totalSize + 1024 <= maxSize && old(socket.incoming) == []
      ensures Fetched()
      ensures MayFetch() && old(socket.incoming) != [] && |old(socket.incoming)[0]| <= 1024 ==>
                got == |old(socket.incoming)[0]| && socket.incoming == old(socket.incoming)[1..]
      ensures MayFetch() && old(socket.incoming) != [] && |old(socket.incoming)[0]| > 1024 ==>
                1024 <= got <= |old(socket.incoming)[0]|
      ensures old(socket.incoming) == [] ==> socket.incoming == []
      ensures IsSuffix(old(socket.Unread()), socket.Unread())
      ensures Kept(old(PutArray()), old(put.pptr))
    {
      hide Flat, FlatTo, Contents, Room, Offset, TrueInter;
      reply, got := ReadMore(1024);
      PendingAfterRead(old(Contents()), old(socket.Unread()), got, 0);
    }

    /** Takes up to n bytes of the get area. */
    method TakeVisible(n: nat) returns (s: seq<byte>)
      requires Valid()
      modifies this`get
      ensures Valid() && Excess() == old(Excess())
      ensures |s| == Min(n, old(get.egptr - get.gptr)) && get == old(get).(gptr := old(get.gptr) + |s|)
      ensures old(Contents()) == s + Contents()
      ensures (EofAt(0) <==> old(EofAt(|s|))) && (Passes(0) <==> old(Passes(|s|))) && NextShown() == old(NextShown())
    {
      var sz := Min(n, get.egptr - get.gptr);
      s := list.items[0].data[get.gptr..get.gptr + sz];
      VisibleIsPrefix(sz);
      get := get.(gptr := get.gptr + sz);
    }

    /** The same, seen from the whole stream. */
    method TakeShown(n: nat) returns (s: seq<byte>)
      requires Valid()
      modifies this`get
      ensures Valid() && LimitsKept() && Onward() && Excess() == old(Excess())
      ensures |s| == Min(n, old(get.egptr - get.gptr)) && get == old(get).(gptr := old(get.gptr) + |s|)
      ensures old(Pending()) == s + Pending() && old(AsQueue()).shown <= |old(AsQueue()).contents|
      ensures s == old(AsQueue()).contents[..|s|]
      ensures AsQueue() == Queue(old(AsQueue()).contents[|s|..], old(AsQueue()).incoming, old(AsQueue()).shown - |s|)
      ensures (EofAt(0) <==> old(EofAt(|s|))) && (Passes(0) <==> old(Passes(|s|))) && NextShown() == old(NextShown())
      ensures Kept(old(PutArray()), old(put.pptr))
    {
      hide Flat, FlatTo, Contents, Offset, Total, Excess, TrueInter, PutIndex, Passes, EofAt, NextShown;
      s := TakeVisible(n);
      assert old(Pending()) == s + Pending();
    }

    lemma VisibleIsPrefix(sz: nat)
      requires Valid() && get.gptr + sz <= get.egptr
      ensures sz <= |Contents()| && Contents()[..sz] == list.items[0].data[get.gptr..get.gptr + sz]
    {
      FlatAt(list.items, 0, |list.items|);
      var b := list.items[0].Bytes();
      assert b == list.items[0].data[..list.items[0].hi] == Flat(list.items)[..|b|];
      PutIndexBounds();
      hide Flat, FlatTo, Offset, Total, TrueInter, PutIndex, Contents;
      StartOfSlice(Flat(list.items), b, get.gptr, sz, PutIndex());
      assert b[get.gptr..get.gptr + sz] == list.items[0].data[get.gptr..get.gptr + sz];
    }

    lemma StartOfSlice(all: seq<byte>, b: seq<byte>, g: nat, n: nat, p: nat)
      requires b <= all && g + n <= |b| && g + n <= p <= |all|
      ensures all[g..p][..n] == b[g..g + n]
    {
    }

    /** sgetn's virtual function: the bytes taken, fewer than n only at the end of the stream or where
        0xFF is the first byte behind the get area of a round. `gone` are the bytes that left the stream:
        those taken, and the runs that 0xFF made underflow drop. */
    method Xsgetn(n: nat) returns (threw: bool, ret: seq<byte>, ghost gone: seq<byte>)
      requires Valid()
      modifies this`interSize, this`tailSize, this`putActive, this`get, this`put, list, socket, Arrays(Pa())
      ensures Valid() && LimitsKept() && Onward() && Excess() == old(Excess())
      ensures |ret| <= n && (threw <==> |ret| < n && !MayFetch())
      ensures Min(n, old(get.egptr - get.gptr)) <= |ret|
      ensures Gets(n, Allowance(), old(AsQueue()), ret, gone, AsQueue())
      ensures gone + Pending() == old(Pending()) && Skips(gone, ret)
      ensures old(socket.incoming) == [] ==> gone == ret && socket.incoming == []
      ensures !MayFetch() ==> gone == ret && socket.incoming == old(socket.incoming)
      ensures |ret| < n ==> EofAt(0) && (Contents() == [] && MayFetch() ==> socket.incoming == [])
      ensures IsSuffix(old(socket.Unread()), socket.Unread())
      ensures Kept(old(PutArray()), old(put.pptr))
    {
      hide FlatTo, Contents, Offset, Pending, Excess, Flat, TrueInter, PutIndex, Total, EofAt, Got, GetsSoFar;
      hide Gets;
      threw, ret, gone := false, [], [];
      ghost var p, u, closed := Pending(), socket.Unread(), socket.incoming == [];
      ghost var q, steps := AsQueue(), [];
      NothingGot();
      GetsStart(n, Allowance(), q);
      var more := true;
      while |ret| < n && more
        invariant Valid() && LimitsKept() && Onward() && Excess() == old(Excess())
        invariant |ret| <= n && (threw <==> !more && |ret| < n && !MayFetch())
        invariant Got(p, u, closed, ret, gone)
        invariant GetsSoFar(n, Allowance(), q, ret, gone, AsQueue(), steps, more)
        invariant !more && |ret| < n ==> EofAt(0) && (Contents() == [] && MayFetch() ==> socket.incoming == [])
        invariant Kept(old(PutArray()), old(put.pptr))
        decreases n - |ret|, more, get.egptr == get.gptr
      {
        threw, more, ret, gone, steps := GetSome(n, ret, p, u, closed, gone, q, steps);
      }
      GotAll(p, u, closed, ret, gone);
      GetsEnd(n, Allowance(), q, ret, gone, AsQueue(), steps, more);
    }

    /** What xsgetn has done so far, to a stream p of which u had not arrived. */
    ghost predicate Got(p: seq<byte>, u: seq<byte>, closed: bool, ret: seq<byte>, gone: seq<byte>)
      requires Valid()
      reads this, list, socket, Arrays(0)
    {
      && gone + Pending() == p && Skips(gone, ret) && IsSuffix(u, socket.Unread())
      && (closed ==> gone == ret && socket.incoming == [])
      && (!MayFetch() ==> gone == ret && socket.Unread() == u)
    }

    lemma NothingGot()
      requires Valid()
      ensures Got(Pending(), socket.Unread(), socket.incoming == [], [], [])
    {
      hide Contents, Pending, MayFetch, Skips;
      NothingSkipped();
      assert [] + Pending() == Pending();
    }

    lemma GotAll(p: seq<byte>, u: seq<byte>, closed: bool, ret: seq<byte>, gone: seq<byte>)
      requires Valid() && Got(p, u, closed, ret, gone)
      ensures gone + Pending() == p && Skips(gone, ret) && IsSuffix(u, socket.Unread())
      ensures closed ==> gone == ret && socket.incoming == []
      ensures !MayFetch() ==> gone == ret && socket.Unread() == u
    {
    }

    /** A round, added to what the rounds before it have done. */
    method GetSome(n: nat, ret: seq<byte>, ghost p: seq<byte>, ghost u: seq<byte>, ghost closed: bool,
                   ghost gone: seq<byte>, ghost q: Queue, ghost steps: seq<GetStep>)
      returns (threw: bool, more: bool, ret': seq<byte>, ghost gone': seq<byte>, ghost steps': seq<GetStep>)
      requires Valid() && |ret| < n && Got(p, u, closed, ret, gone)
      requires GetsSoFar(n, Allowance(), q, ret, gone, AsQueue(), steps, true)
      modifies this`interSize, this`tailSize, this`putActive, this`get, this`put, list, socket, Arrays(Pa())
      ensures Valid() && LimitsKept() && Onward() && Excess() == old(Excess())
      ensures Got(p, u, closed, ret', gone')
      ensures GetsSoFar(n, Allowance(), q, ret', gone', AsQueue(), steps', more)
      ensures |ret| <= |ret'| <= n && (threw <==> !more && |ret'| < n && !MayFetch())
      ensures |ret'| == |ret| && more ==> old(get.egptr == get.gptr) && get.egptr != get.gptr
      ensures !more && |ret'| < n ==>
                EofAt(0) && (Contents() == [] && MayFetch() ==> socket.incoming == [])
      ensures Kept(old(PutArray()), old(put.pptr))
    {
      hide FlatTo, Contents, Offset, Pending, Excess, Skips, Flat, TrueInter, PutIndex, Total, Passes, NextShown;
      hide EofAt, Front, Got, GetsSoFar, Round;
      ghost var drop; var piece, r;
      GotAll(p, u, closed, ret, gone);
      ghost var v, b := socket.Unread(), AsQueue();
      threw, piece, r, drop := GetRound(n - |ret|);
      FrontIsEof();
      AddRound(p, u, v, closed, ret, gone, piece, drop);
      more, ret', gone' := !threw && r != EOF, ret + piece, gone + piece + drop;
      AtEofIs();
      GetsGrow(n, Allowance(), q, ret, gone, b, steps, piece, drop, AsQueue(), more);
      steps' := steps + [GetStep(ret, gone, b, piece, drop)];
    }

    lemma AddRound(p: seq<byte>, u: seq<byte>, v: seq<byte>, closed: bool, ret: seq<byte>, gone: seq<byte>,
                   piece: seq<byte>, drop: seq<byte>)
      requires Valid() && gone + (piece + (drop + Pending())) == p && Skips(gone, ret)
      requires IsSuffix(u, v) && IsSuffix(v, socket.Unread()) && (drop != [] ==> drop[0] == 255)
      requires closed ==> gone == ret && drop == [] && socket.incoming == []
      requires !MayFetch() ==> gone == ret && drop == [] && v == u == socket.Unread()
      ensures Got(p, u, closed, ret + piece, gone + piece + drop)
    {
      hide Contents, Pending, MayFetch, Skips;
      SuffixTrans(u, v, socket.Unread());
      SkipMore(gone, ret, piece, drop);
      GoneMore(gone, piece, drop, Pending());
    }

    /** One round of xsgetn's loop; r is EOF when the loop has to stop short. The first byte that is not
        visible decides whether anything is dropped. */
    method GetRound(left: nat) returns (threw: bool, piece: seq<byte>, r: int, ghost drop: seq<byte>)
      requires Valid() && left > 0
      modifies this`interSize, this`tailSize, this`putActive, this`get, this`put, list, socket, Arrays(Pa())
      ensures Valid() && LimitsKept() && Onward() && Excess() == old(Excess())
      ensures |piece| == Min(left, old(get.egptr - get.gptr))
      ensures threw <==> |piece| < left && !MayFetch() && old(EofAt(get.egptr - get.gptr))
      ensures old(Pending()) == piece + (drop + Pending())
      ensures |drop| == if |piece| < left && old(Passes(get.egptr - get.gptr)) then old(NextShown()) else 0
      ensures drop != [] ==> drop[0] == 255
      ensures old(socket.incoming) == [] ==> drop == [] && socket.incoming == []
      ensures !MayFetch() ==> drop == [] && socket.Unread() == old(socket.Unread()) && (r == EOF ==> threw)
      ensures (|piece| == left ==> r != EOF) && (threw ==> r == EOF)
      ensures Round(left, Allowance(), old(AsQueue()), piece, drop, AsQueue())
      ensures |piece| < left ==>
                if Contents() == [] then r == -1 else -128 <= r < 128 && r % 256 == Contents()[0] as int
      ensures |piece| < left ==>
                && ShowsAll() && r == Front() && (Contents() == [] && MayFetch() ==> socket.incoming == [])
                && (r != EOF ==> get.gptr < get.egptr)
      ensures IsSuffix(old(socket.Unread()), socket.Unread())
      ensures Kept(old(PutArray()), old(put.pptr))
    {
      hide Flat, FlatTo, Contents, Offset, Total, Excess, TrueInter, PutIndex, Passes, EofAt, NextShown, Pending;
      hide Underflows, ShowsAll;
      threw, r, drop := false, 0, [];
      piece := TakeShown(left);
      if |piece| < left {
        threw, r, drop := Underflow();
      }
    }

    // ----- consume -----

    /** Whether the next n bytes end exactly where a fragment before the put fragment, or the contents, end. */
    ghost predicate EndsFragment(n: nat)
      requires Shaped()
      reads this, list
    {
      IsBoundary(list.items, Pa(), put.pptr, get.gptr + n)
    }

    /** consume: drops n bytes from the front. False is its assertion size <= this->size () failing, or
        the put fragment being popped or left behind: more bytes were asked for than there are. The last
        clause says when inter_size_ survives it. */
    method Consume(n: nat) returns (ok: bool)
      requires Valid()
      modifies this`interSize, this`get, this`put, list
      ensures ok <==> n <= old(|Contents()|)
      ensures ok ==> Valid() && put.pptr == old(put.pptr)
      ensures ok ==> Arrays(Pa()) == old(Arrays(Pa())) && PutArray() == old(PutArray())
      ensures ok ==> Contents() == old(Contents())[n..] && if n == 0 then get == old(get)
                else get.egptr == if Pa() == 0 then put.pptr else list.items[0].hi
      ensures ok && (n == 0 || old(Pa()) == 0) ==> Excess() == old(Excess())
      ensures ok && n > 0 && old(Pa()) > 0 && n <= old(list.items[0].hi - get.gptr) ==>
                Excess() == old(Excess()) + old(list.items[0].hi - get.egptr)
      ensures ok && n > 0 && old(Pa()) > 0 && n > old(list.items[0].hi - get.gptr) ==>
                Excess() == old(Excess()) + old(list.items[0].hi - get.egptr) + (get.egptr - get.gptr)
      ensures ok ==>
                (Excess() == old(Excess()) <==>
                   || n == 0 || old(Pa()) == 0
                   || (old(get.egptr == list.items[0].hi) && (n <= old(get.egptr - get.gptr) || old(EndsFragment(n)))))
    {
      hide Flat, FlatTo, Contents, Total;
      SizeIsContents();
      if n == 0 {
        return true;
      }
      if n > Size() {
        return false;
      }
      ShowFirstFragment();
      SizeIsContents();
      if n <= get.egptr - get.gptr {
        ConsumeShown(n);
        ok := true;
      } else if list.first == putActive {
        ok := false;
      } else {
        ok := ConsumeAcross(n);
      }
    }

    method ConsumeShown(n: nat)
      requires Valid() && n <= get.egptr - get.gptr
      modifies this`get
      ensures Valid() && get.egptr == old(get.egptr) && Excess() == old(Excess())
      ensures Contents() == old(Contents())[n..]
    {
      get := GetArea(get.gptr + n, get.gptr + n, get.egptr);
    }

    /** Both areas share a fragment: everything is shown and counted. Otherwise egptr jumps to the end
        of the first fragment and inter_size_ still counts the bytes it jumped over. */
    method ShowFirstFragment()
      requires Valid()
      modifies this`interSize, this`get, this`put
      ensures Valid() && put == old(put).(pbase := old(put.pptr)) && Contents() == old(Contents())
      ensures get == old(get).(egptr := if Pa() == 0 then put.pptr else list.items[0].hi)
      ensures Excess() == old(Excess()) + (if Pa() == 0 then 0 else list.items[0].hi - old(get.egptr))
    {
      hide Flat, FlatTo, Total, Contents, Offset, TrueInter, Excess;
      var _ := CompactPutArea();
      if Pa() == 0 {
        var _ := ExtendGetArea();
        SamePointers();
      } else {
        JumpToFragmentEnd();
      }
    }

    method JumpToFragmentEnd()
      requires Valid() && 0 < Pa()
      modifies this`get
      ensures Valid() && get == old(get).(egptr := list.items[0].hi) && Contents() == old(Contents())
      ensures Excess() == old(Excess()) + (list.items[0].hi - old(get.egptr))
    {
      hide Flat, FlatTo, Total, Contents;
      OffsetMono(list.items, 1, Pa());
      get := GetArea(get.eback, get.gptr, list.items[0].hi);
      SamePointers();
    }

    /** The loop of consume, when the bytes end in a later fragment. */
    method ConsumeAcross(n: nat) returns (ok: bool)
      requires Valid() && put.pbase == put.pptr && 0 < Pa() && n <= Size()
      requires get.egptr == list.items[0].hi && get.egptr - get.gptr < n
      modifies this`interSize, this`get, list
      ensures ok <==> n <= old(|Contents()|)
      ensures ok ==> Valid() && Arrays(Pa()) == old(Arrays(Pa())) && PutArray() == old(PutArray())
      ensures ok ==> Contents() == old(Contents())[n..]
      ensures ok ==> Excess() == old(Excess()) + (get.egptr - get.gptr)
      ensures ok ==> (get.gptr == get.egptr <==> old(EndsFragment(n)))
      ensures ok ==> get.egptr == if Pa() == 0 then put.pptr else list.items[0].hi
    {
      hide Flat, FlatTo, Contents, Arrays, IsBoundary, Offset;
      PutIndexBounds();
      interSize := interSize - (n - (get.egptr - get.gptr));
      var size; ghost var j;
      ok, size, j := SkipConsumed(n - (get.egptr - get.gptr));
      if ok {
        SetGetAfterPops(size, if Pa() == 0 then put.pbase else list.items[0].hi);
        ghost var gone := old(get.gptr) + n - size;
        assert get.gptr == get.egptr <==> old(EndsFragment(n)) by {
          BoundaryIff(old(list.items), old(Pa()), put.pptr, j, size);
        }
        ContentsAfterPops(gone, n);
      }
    }

    /** setg on the fragment that the pops have left in front. */
    method SetGetAfterPops(at: nat, end: nat)
      requires Shaped() && at <= end <= list.items[0].hi && (Pa() == 0 ==> end <= put.pbase)
      requires put.pbase <= put.pptr <= put.epptr == list.items[Pa()].hi && socket.Valid()
      requires Offset(list.items, Pa()) + put.pbase - end <= interSize
      requires tailSize == Total(list.items) - Offset(list.items, Pa() + 1)
      requires 1 <= minFragmentation <= maxFragmentation
      modifies this`get
      ensures Valid() && get == GetArea(at, at, end)
      ensures Excess() == interSize - (Offset(list.items, Pa()) + put.pbase - end)
    {
      get := GetArea(at, at, end);
    }

    twostate lemma ContentsAfterPops(new gone: nat, new n: nat)
      requires old(Valid()) && Valid() && PutIndex() == old(PutIndex()) - gone
      requires gone <= old(|Flat(list.items)|) && Flat(list.items) == old(Flat(list.items))[gone..]
      requires gone + get.gptr == old(get.gptr) + n && n <= |old(Contents())|
      ensures Contents() == old(Contents())[n..]
    {
      hide Flat, FlatTo, Offset, Total;
      DropInside(old(Flat(list.items)), gone, old(get.gptr), n, old(PutIndex()));
    }

    /** Pops the j fragments that the bytes cover; `size` bytes remain to be dropped from the next one.
        False when that would pop the put fragment, or go beyond what is published in it. */
    method SkipConsumed(count: nat) returns (ok: bool, size: nat, ghost j: nat)
      requires Shaped() && 0 < count && 0 < Pa() && put.pptr <= list.items[Pa()].hi
      modifies list
      ensures ok <==> old(list.items[0].hi) + count <= old(PutIndex())
      ensures ok ==> Shaped() && Arrays(Pa()) == old(Arrays(Pa())) && PutArray() == old(PutArray())
      ensures ok ==> 0 < size <= list.items[0].hi && (Pa() == 0 ==> size <= put.pptr)
      ensures ok ==> 0 < j <= old(Pa()) && list.items == old(list.items)[j..] && Pa() == old(Pa()) - j
      ensures ok ==>
                && old(list.items[0].hi) + count - size == Offset(old(list.items), j)
                && Without(Offset(old(list.items), j))
    {
      hide Flat, FlatTo, Contents, Total, Arrays, PutArray, Without;
      ghost var fs, pa := list.items, Pa();
      size, j := count, 1;
      assert Offset(fs, 0) == 0;
      DropStep(fs, 0);
      PopFragment();
      while size > list.items[0].hi
        invariant Shaped() && 0 < size
        invariant Arrays(Pa()) == old(Arrays(Pa())) && PutArray() == old(PutArray())
        invariant 0 < j <= pa && list.items == fs[j..] && Pa() == pa - j
        invariant fs[0].hi + count - size == Offset(fs, j) && list.base == old(list.base) + Offset(fs, j)
        decreases size
      {
        if list.first == putActive {
          return false, size, j;
        }
        DropStep(fs, j);
        size, j := size - list.items[0].hi, j + 1;
        PopFragment();
      }
      LandsWithin(fs, pa, j, size);
      ok := list.first < putActive || size <= put.pptr;
      DroppedMany(j);
    }

    /** The bytes end before the put fragment, or within it. */
    lemma LandsWithin(fs: seq<Fragment>, pa: nat, j: nat, size: nat)
      requires Whole(fs) && j <= pa < |fs| && size <= fs[j].hi
      ensures j < pa ==> Offset(fs, j) + size <= Offset(fs, pa)
    {
      if j < pa {
        OffsetMono(fs, j + 1, pa);
      }
    }

    twostate lemma DroppedMany(new j: nat)
      requires old(Shaped()) && Shaped() && j <= old(Pa()) && list.items == old(list.items)[j..]
      requires putActive == old(putActive) && list.first == old(list.first) + j
      requires list.base == old(list.base) + Offset(old(list.items), j)
      requires forall i | 0 <= i < |old(list.items)| :: unchanged(old(list.items)[i].data)
      ensures Without(Offset(old(list.items), j))
    {
      RestFacts(old(list.items), j, old(Pa()));
    }

    lemma RestFacts(fs: seq<Fragment>, j: nat, pa: nat)
      requires AllValid(fs) && j <= pa < |fs|
      ensures Offset(fs[j..], pa - j) == Offset(fs, pa) - Offset(fs, j)
      ensures Offset(fs[j..], pa + 1 - j) == Offset(fs, pa + 1) - Offset(fs, j)
      ensures Offset(fs, j) <= Total(fs) && Flat(fs[j..]) == Flat(fs)[Offset(fs, j)..]
    {
      DropMany(fs, j, pa);
      DropMany(fs, j, pa + 1);
      FlatOfRest(fs, j);
    }

    /** The list without its first `gone` bytes. */
    twostate predicate Without(gone: nat)
      requires old(Shaped()) && Shaped()
      reads this, list, Arrays(0)
    {
      && gone <= old(|Flat(list.items)|) && Flat(list.items) == old(Flat(list.items))[gone..]
      && Offset(list.items, Pa()) == old(Offset(list.items, Pa())) - gone
      && Offset(list.items, Pa() + 1) == old(Offset(list.items, Pa() + 1)) - gone
      && list.base == old(list.base) + gone
    }

    /** Drops the first fragment. */
    method PopFragment()
      requires Shaped() && 0 < Pa()
      modifies list
      ensures Shaped() && Arrays(Pa()) == old(Arrays(Pa())) && PutArray() == old(PutArray())
      ensures Without(old(list.items[0].hi))
      ensures list.items == old(list.items)[1..] && list.first == old(list.first) + 1
    {
      DroppedFirst();
      list.PopFront();
      SamePutArrays();
    }

    // ----- data and size -----

    /** size() is the number of readable bytes, plus what consume has left uncounted for. */
    lemma SizeIsContents()
      requires Valid()
      ensures Size() == |Contents()| + Excess()
      ensures Size() == |Contents()| <==> Excess() == 0
    {
      PutIndexBounds();
    }

    /** The readable bytes as a list of non-empty buffers. */
    method Data() returns (cb: seq<Fragment>)
      requires Valid()
      ensures AllValid(cb) && Flat(cb) == Contents()
      ensures forall f | f in cb :: f.Size() > 0
    {
      hide Flat, FlatTo, Total, TrueInter, Contents, Offset, ShowsUpTo;
      NothingShown();
      if list.first == putActive {
        cb := AddWindow([], list.first, get.gptr, put.pptr);
      } else {
        cb := AddWindow([], list.first, get.gptr, list.items[0].hi);
        cb := AddMiddle(cb);
        cb := AddWindow(cb, putActive, 0, put.pptr);
      }
      AllShown(cb);
    }

    lemma NothingShown()
      requires Valid()
      ensures ShowsUpTo([], Offset(list.items, 0) + get.gptr)
      ensures Offset(list.items, 0) + list.items[0].hi == Offset(list.items, 1)
      ensures Pa() == 0 ==> get.gptr <= put.pptr
    {
      PutIndexBounds();
      EmptyFlat(Flat(list.items), get.gptr);
    }

    lemma AllShown(cb: seq<Fragment>)
      requires Valid() && AllValid(cb) && ShowsUpTo(cb, PutIndex())
      ensures Flat(cb) == Contents()
    {
      hide Flat, FlatTo, Total, TrueInter, Contents, Arrays;
    }

    /** Adds everything from the second fragment up to the put fragment. */
    method AddMiddle(cb0: seq<Fragment>) returns (cb: seq<Fragment>)
      requires Shaped() && 0 < Pa()
      requires AllValid(cb0) && (forall f | f in cb0 :: f.Size() > 0) && ShowsUpTo(cb0, Offset(list.items, 1))
      ensures AllValid(cb) && (forall f | f in cb :: f.Size() > 0)
      ensures ShowsUpTo(cb, Offset(list.items, Pa()))
    {
      hide Flat, FlatTo, Total, Offset;
      cb := cb0;
      var iter := list.first + 1;
      while iter != putActive
        invariant list.first < iter <= putActive
        invariant AllValid(cb) && (forall f | f in cb :: f.Size() > 0)
        invariant ShowsUpTo(cb, Offset(list.items, iter - list.first))
      {
        NextOffset(list.items, iter - list.first);
        cb := AddWindow(cb, iter, 0, list.Frag(iter).hi);
        iter := iter + 1;
      }
    }

    lemma NextOffset(fs: seq<Fragment>, k: nat)
      requires Whole(fs) && k < |fs|
      ensures Offset(fs, k) + fs[k].hi == Offset(fs, k + 1)
    {
    }

    /** The buffers collected show the bytes from gptr to position p. */
    ghost predicate ShowsUpTo(cb: seq<Fragment>, p: nat)
      requires AllValid(cb) && AllValid(list.items)
      reads this, list, Arrays(0), set i | 0 <= i < |cb| :: cb[i].data
    {
      get.gptr <= p <= Total(list.items) && Flat(cb) == Flat(list.items)[get.gptr..p]
    }

    lemma EmptyFlat(b: seq<byte>, g: nat)
      requires g <= |b|
      ensures Flat([]) == b[g..g]
    {
    }

    /** Adds the bytes lo..hi of fragment k, unless there are none. */
    method AddWindow(cb: seq<Fragment>, k: nat, lo: nat, hi: nat) returns (r: seq<Fragment>)
      requires Shaped() && list.Has(k) && lo <= hi <= list.Frag(k).hi
      requires AllValid(cb) && (forall f | f in cb :: f.Size() > 0)
      requires ShowsUpTo(cb, Offset(list.items, k - list.first) + lo)
      ensures AllValid(r) && (forall f | f in r :: f.Size() > 0)
      ensures ShowsUpTo(r, Offset(list.items, k - list.first) + hi)
    {
      var f := list.Frag(k);
      var p := Offset(list.items, k - list.first);
      WindowInFlat(list.items, k - list.first, lo, hi);
      r := cb;
      if hi - lo > 0 {
        r := cb + [f.(lo := lo, hi := hi)];
        AppendFlat(cb, f.(lo := lo, hi := hi));
      }
      hide Flat, FlatTo, Offset, Total;
      JoinSlices(Flat(list.items), get.gptr, p + lo, p + hi);
    }

    // ----- iterators and detach -----

    /** Position of gptr in the whole stream. */
    ghost function ReadIndex(): nat
      reads this, list
    {
      list.base + get.gptr
    }

    /** Position of pptr in the whole stream. */
    ghost function WriteIndex(): nat
      requires Shaped()
      reads this, list
    {
      list.base + PutIndex()
    }

    method Begin() returns (it: Iterator)
      requires Valid()
      ensures it.Valid() && fresh(it) && it.list == list && it.Index() == ReadIndex() && it.curSeg == list.first
    {
      WholeIsSpread(list.items);
      it := new Iterator(list, list.first, At(list.items[0].data, get.gptr));
    }

    method End() returns (it: Iterator)
      requires Valid()
      ensures it.Valid() && fresh(it) && it.list == list && it.Index() == WriteIndex() && it.curSeg == putActive
    {
      WholeIsSpread(list.items);
      it := new Iterator(list, putActive, At(list.Frag(putActive).data, put.pptr));
    }

    /** Short of the end, a position is never beyond the put fragment. */
    lemma BeforePut(it: Iterator)
      requires Valid() && it.Placed() && it.list == list && it.Index() < WriteIndex()
      ensures it.curSeg <= putActive
    {
      if putActive < it.curSeg {
        OffsetMono(list.items, Pa() + 1, it.curSeg - list.first);
      }
    }

    /** An iterator that was moved forward to the end stands in the put fragment, unless that fragment is
        full and not the last one: then it stands at the beginning of the next one. */
    lemma EndBeyondPut(it: Iterator)
      requires Valid() && it.Valid() && it.list == list && it.Index() == WriteIndex()
      requires it.afterLastFrag ==> it.Index() == it.EndIndex()
      ensures it.curSeg <= putActive <==> put.pptr < put.epptr || list.IsLast(putActive)
    {
      hide Flat, FlatTo, Contents, Excess;
      var i := it.curSeg - list.first;
      if Pa() < i {
        LaterStarts(list.items, Pa(), i);
      } else if i < Pa() {
        OffsetMono(list.items, i + 1, Pa());
      }
      if !list.IsLast(putActive) {
        OffsetMono(list.items, Pa() + 2, |list.items|);
      }
    }

    /** No later put can write the first n bytes of a. */
    ghost predicate Sealed(a: array<byte>, n: nat)
      requires Shaped()
      reads this, list
    {
      n > 0 && a in Arrays(Pa()) ==> a == PutArray() && n <= put.pptr
    }

    /** detach: splits off everything before split_point as a segment that shares the fragments. False
        is one of its assertions failing: the split point lies beyond the put fragment. */
    method Detach(split: Iterator) returns (ok: bool, tmp: Segment)
      requires Valid() && split.Placed() && split.list == list
      requires ReadIndex() <= split.Index() <= WriteIndex()
      modifies this`interSize, this`get, this`put, list
      ensures ok <==> old(split.curSeg) <= putActive
      ensures Valid() && put.pptr == old(put.pptr)
      ensures Arrays(Pa()) == old(Arrays(Pa())) && PutArray() == old(PutArray())
      ensures fresh(tmp) && fresh(tmp.list) && Holds(tmp)
      ensures tmp.Valid() && Whole(tmp.list.items) && tmp.list.items != []
      ensures tmp.Bytes() == old(Contents())[..old(split.Index() - ReadIndex())]
      ensures if ok then
                && ReadIndex() == old(split.Index())
                && Contents() == old(Contents())[old(split.Index() - ReadIndex())..]
                && get.egptr == (if Pa() == 0 then put.pbase else list.items[0].hi)
                && put.pbase == (if Pa() == 0 && get.gptr > old(put.pbase) then put.pptr else old(put.pbase))
                && Excess() == if Pa() == 0 then 0 else old(Excess())
              else Contents() == old(Contents()) && Excess() == old(Excess())
    {
      hide Flat, FlatTo, Contents, Total, TrueInter, Whole, Spread, Trim, Offset, Arrays;
      WholeTake(list.items, 0);
      tmp := SegmentUpTo(split);
      ok := split.curSeg <= putActive;
      if ok {
        DetachAt(split.curSeg - list.first, split.curVal.off);
      }
    }

    method SegmentUpTo(split: Iterator) returns (tmp: Segment)
      requires Valid() && split.Placed() && split.list == list
      requires ReadIndex() <= split.Index() <= WriteIndex()
      ensures tmp.Valid() && fresh(tmp) && fresh(tmp.list) && Whole(tmp.list.items) && tmp.list.items != []
      ensures tmp.Bytes() == Contents()[..split.Index() - ReadIndex()]
      ensures forall f | f in tmp.Windows() :: Sealed(f.data, f.hi)
    {
      hide Flat, FlatTo, Offset, Trim, Contents, TrueInter, Spread;
      var iter := list.first;
      while iter != split.curSeg
        invariant list.first <= iter <= split.curSeg
      {
        iter := iter + 1;
      }
      var n := iter + 1 - list.first;
      ghost var j, v := split.curSeg - list.first, split.curVal.off;
      SplitWithinPut(j, v);
      assert list.items[..n] == list.items[0..j + 1];
      WholeTake(list.items, n);
      hide Whole;
      tmp := new Segment.Of(list.items[..n], At(list.items[0].data, get.gptr), split.curVal);
      PrefixBytes(j, v, tmp.Windows());
      SealedWindows(j, v, tmp.Windows());
    }

    /** Beyond the put fragment, the only position before pptr is the beginning of the next one. */
    lemma SplitWithinPut(j: nat, v: nat)
      requires Valid() && j < |list.items| && v <= list.items[j].hi
      requires get.gptr <= Offset(list.items, j) + v <= PutIndex()
      ensures j == 0 ==> get.gptr <= v
      ensures j == Pa() ==> v <= put.pptr
      ensures j > Pa() ==> v == 0 && j == Pa() + 1 && put.pptr == put.epptr
    {
      if j > Pa() {
        LaterStarts(list.items, Pa(), j);
      }
    }

    lemma PrefixBytes(j: nat, v: nat, w: seq<Fragment>)
      requires Valid() && j < |list.items| && v <= list.items[j].hi && (j == 0 ==> get.gptr <= v)
      requires get.gptr <= Offset(list.items, j) + v <= PutIndex()
      requires w == Trim(list.items[0..j + 1], get.gptr, v)
      ensures AllValid(w) && Flat(w) == Contents()[..Offset(list.items, j) + v - get.gptr]
    {
      hide Flat, FlatTo, Contents, TrueInter;
      PutIndexBounds();
      PartIsSlice(list.items, 0, j, get.gptr, v);
      TakeOfSlice(Flat(list.items), get.gptr, PutIndex(), Offset(list.items, j) + v);
    }

    lemma SealedWindows(j: nat, v: nat, w: seq<Fragment>)
      requires Valid() && j < |list.items| && v <= list.items[j].hi && (j == 0 ==> get.gptr <= v)
      requires j == Pa() ==> v <= put.pptr
      requires j > Pa() ==> v == 0 && j == Pa() + 1 && put.pptr == put.epptr
      requires w == Trim(list.items[0..j + 1], get.gptr, v)
      ensures forall f | f in w :: Sealed(f.data, f.hi)
    {
      forall i | 0 <= i < |w|
        ensures Sealed(w[i].data, w[i].hi)
      {
        assert w[i].data == list.items[i].data && w[i].hi == if i == j then v else list.items[i].hi;
      }
    }

    /** The pointer moves of detach, to offset v of the j-th fragment. */
    method DetachAt(j: nat, v: nat)
      requires Valid() && j <= Pa() && v <= list.items[j].hi
      requires get.gptr <= Offset(list.items, j) + v <= PutIndex()
      modifies this`interSize, this`get, this`put, list
      ensures Valid() && put.pptr == old(put.pptr) && get.gptr == v
      ensures Arrays(Pa()) == old(Arrays(Pa())) && PutArray() == old(PutArray())
      ensures ReadIndex() == old(list.base) + old(Offset(list.items, j)) + v
      ensures Contents() == old(Contents())[old(Offset(list.items, j)) + v - old(get.gptr)..]
      ensures Excess() == if Pa() == 0 then 0 else old(Excess())
      ensures get.egptr == (if Pa() == 0 then put.pbase else list.items[0].hi)
      ensures put.pbase == if Pa() == 0 && v > old(put.pbase) then put.pptr else old(put.pbase)
    {
      hide Flat, FlatTo, Contents;
      SplitWithinPut(j, v);
      if j == 0 {
        DetachInFirst(v);
      } else {
        DetachAcross(j, v);
      }
    }

    method DetachInFirst(v: nat)
      requires Valid() && get.gptr <= v <= list.items[0].hi && v <= PutIndex()
      modifies this`interSize, this`get, this`put
      ensures Valid() && put.pptr == old(put.pptr) && get.gptr == v
      ensures Contents() == old(Contents())[v - old(get.gptr)..]
      ensures Excess() == if Pa() == 0 then 0 else old(Excess())
      ensures get.egptr == (if Pa() == 0 then put.pbase else list.items[0].hi)
      ensures put.pbase == if Pa() == 0 && v > old(put.pbase) then put.pptr else old(put.pbase)
    {
      hide Flat, FlatTo, Contents;
      if Pa() == 0 {
        DetachInPut(v);
      } else {
        ExtendToFragmentEnd();
        get := GetArea(v, v, list.items[0].hi);
      }
      ghost var n := v - old(get.gptr);
      assert |old(Contents())| == old(PutIndex()) - old(get.gptr);
      GptrMoved(n);
    }

    /** With the fragments unchanged, moving gptr by n drops n bytes. */
    twostate lemma GptrMoved(new n: nat)
      requires old(Valid()) && Valid() && list.items == old(list.items) && PutIndex() == old(PutIndex())
      requires forall i | 0 <= i < |list.items| :: unchanged(list.items[i].data)
      requires get.gptr == old(get.gptr) + n && n <= |old(Contents())|
      ensures Contents() == old(Contents())[n..]
    {
    }

    method DetachInPut(v: nat)
      requires Shaped() && Pa() == 0 && v <= put.pptr && socket.Valid()
      requires put.pbase <= put.pptr <= put.epptr == list.items[0].hi
      requires tailSize == Total(list.items) - Offset(list.items, 1)
      requires 1 <= minFragmentation <= maxFragmentation
      modifies this`interSize, this`get, this`put
      ensures Valid() && get == GetArea(v, v, put.pbase) && put.pptr == old(put.pptr) && Excess() == 0
      ensures put.pbase == if v > old(put.pbase) then put.pptr else old(put.pbase)
    {
      if v > put.pbase {
        var _ := CompactPutArea();
      }
      interSize := 0;
      get := GetArea(v, v, put.pbase);
    }

    method DetachAcross(j: nat, v: nat)
      requires Valid() && 0 < j <= Pa() && v <= list.items[j].hi
      requires get.gptr <= Offset(list.items, j) + v <= PutIndex()
      modifies this`interSize, this`get, this`put, list
      ensures Valid() && put.pptr == old(put.pptr) && get.gptr == v
      ensures Arrays(Pa()) == old(Arrays(Pa())) && PutArray() == old(PutArray())
      ensures ReadIndex() == old(list.base) + old(Offset(list.items, j)) + v
      ensures Contents() == old(Contents())[old(Offset(list.items, j)) + v - old(get.gptr)..]
      ensures Excess() == if Pa() == 0 then 0 else old(Excess())
      ensures get.egptr == (if Pa() == 0 then put.pbase else list.items[0].hi)
      ensures put.pbase == if Pa() == 0 && v > old(put.pbase) then put.pptr else old(put.pbase)
    {
      hide Flat, FlatTo, Contents, Total;
      DropFragments(list.first + j);
      LandDetach(v);
      ghost var gone, n := old(Offset(list.items, j)), old(Offset(list.items, j)) + v - old(get.gptr);
      ContentsAfterPops(gone, n);
    }

    /** The end of detach, in the fragment that holds the split point. */
    method LandDetach(v: nat)
      requires Shaped() && v <= list.items[0].hi && (Pa() == 0 ==> v <= put.pptr) && socket.Valid()
      requires put.pbase <= put.pptr <= put.epptr == list.items[Pa()].hi
      requires tailSize == Total(list.items) - Offset(list.items, Pa() + 1)
      requires 1 <= minFragmentation <= maxFragmentation
      requires Offset(list.items, Pa()) + put.pbase <= interSize
      modifies this`interSize, this`get, this`put
      ensures Valid() && put.pptr == old(put.pptr) && get.gptr == v
      ensures Excess() == if Pa() == 0 then 0 else old(interSize) - (Offset(list.items, Pa()) + old(put.pbase))
      ensures get.egptr == (if Pa() == 0 then put.pbase else list.items[0].hi)
      ensures put.pbase == if Pa() == 0 && v > old(put.pbase) then put.pptr else old(put.pbase)
    {
      if Pa() == 0 {
        DetachInPut(v);
      } else {
        OffsetMono(list.items, 1, Pa());
        interSize := interSize - list.items[0].hi;
        SetGetAfterPops(v, list.items[0].hi);
      }
    }

    /** Pops the fragments before number seg, taking their bytes out of inter_size_. */
    method DropFragments(seg: nat)
      requires Valid() && list.first < seg <= putActive
      modifies this`interSize, list
      ensures Shaped() && Arrays(Pa()) == old(Arrays(Pa())) && PutArray() == old(PutArray())
      ensures list.first == seg && list.items == old(list.items[seg - list.first..])
      ensures Without(old(Offset(list.items, seg - list.first)))
      ensures interSize == old(Excess()) + Offset(list.items, Pa()) + put.pbase
    {
      hide Flat, FlatTo, Contents, DistinctArrays, Arrays;
      ghost var fs, first := list.items, list.first;
      DropCounted(get.egptr);
      ghost var j := 1;
      while list.first != seg
        invariant Shaped() && 0 < j && first + j == list.first <= seg && list.items == fs[j..]
        invariant list.base == old(list.base) + Offset(fs, j)
        invariant Arrays(Pa()) == old(Arrays(Pa())) && PutArray() == old(PutArray())
        invariant interSize == old(Excess()) + Offset(list.items, Pa()) + put.pbase
        decreases seg - list.first
      {
        DropNext(fs, j);
        j := j + 1;
      }
      DroppedMany(j);
    }

    method DropNext(ghost fs: seq<Fragment>, ghost j: nat)
      requires Shaped() && Whole(fs) && j < |fs| && list.items == fs[j..] && 0 < Pa()
      requires Offset(list.items, Pa()) <= interSize
      modifies this`interSize, list
      ensures Shaped() && Arrays(Pa()) == old(Arrays(Pa())) && PutArray() == old(PutArray())
      ensures list.items == fs[j + 1..] && list.first == old(list.first) + 1
      ensures list.base == old(list.base) + (Offset(fs, j + 1) - Offset(fs, j))
      ensures interSize - Offset(list.items, Pa()) == old(interSize) - old(Offset(list.items, Pa()))
    {
      hide Flat, FlatTo, Contents, Total;
      DropStep(fs, j);
      DropCounted(0);
    }

    lemma DropStep(fs: seq<Fragment>, j: nat)
      requires Whole(fs) && j < |fs|
      ensures Offset(fs, j + 1) == Offset(fs, j) + fs[j].hi && fs[j..][1..] == fs[j + 1..] && fs[j..][0] == fs[j]
    {
    }

    /** Pops the first fragment, whose bytes from offset `from` on were counted in inter_size_. */
    method DropCounted(from: nat)
      requires Shaped() && 0 < Pa() && from <= list.items[0].hi
      requires Offset(list.items, Pa()) - from <= interSize
      modifies this`interSize, list
      ensures Shaped() && Arrays(Pa()) == old(Arrays(Pa())) && PutArray() == old(PutArray())
      ensures list.items == old(list.items)[1..] && list.first == old(list.first) + 1
      ensures list.base == old(list.base) + old(Offset(list.items, 1))
      ensures interSize - Offset(list.items, Pa()) == old(interSize) - (old(Offset(list.items, Pa())) - from)
    {
      DroppedFirst();
      assert Offset(list.items, 1) == Offset(list.items, 0) + list.items[0].hi;
      interSize := interSize - (list.items[0].hi - from);
      PopFragment();
    }

    /** Sealed bytes stay sealed, and as they are, over anything that moves onward. */
    twostate lemma SealedStays(a: array<byte>, new n: nat)
      requires old(Shaped()) && Shaped() && Onward() && Kept(old(PutArray()), old(put.pptr))
      requires old(Sealed(a, n)) && n <= a.Length && (a !in old(Arrays(Pa())) ==> unchanged(a))
      ensures Sealed(a, n) && Kept(a, n)
    {
      if a == old(PutArray()) && a in old(Arrays(Pa())) {
        assert a[..n] == a[..old(put.pptr)][..n];
        assert old(a[..n]) == old(a[..put.pptr])[..n];
      }
    }

    /** A segment whose windows are all sealed. */
    ghost predicate Holds(seg: Segment)
      requires Shaped()
      reads this, list, seg, seg.list
    {
      seg.Valid() && forall f | f in seg.Windows() :: Sealed(f.data, f.hi)
    }

    /** Zero-copy safety: a detached segment keeps its bytes over anything that moves onward. */
    twostate lemma SegmentSurvives(seg: Segment)
      requires old(Shaped()) && Shaped() && Onward() && Kept(old(PutArray()), old(put.pptr))
      requires old(Holds(seg)) && unchanged(seg) && unchanged(seg.list)
      requires forall j | 0 <= j < |seg.list.items| && seg.list.items[j].data !in old(Arrays(Pa())) ::
                 unchanged(seg.list.items[j].data)
      ensures Holds(seg) && seg.Bytes() == old(seg.Bytes())
    {
      var w := seg.Windows();
      forall j | 0 <= j < |w|
        ensures Sealed(w[j].data, w[j].hi) && Kept(w[j].data, w[j].hi)
      {
        var a, n := seg.list.items[j].data, w[j].hi;
        assert w[j] in old(seg.Windows()) && w[j].data == a;
        SealedStays(a, n);
      }
      forall f | f in w
        ensures f.Bytes() == old(f.Bytes())
      {
        assert f.Bytes() == f.data[..f.hi][f.lo..];
        assert old(f.Bytes()) == old(f.data[..f.hi])[f.lo..];
      }
      var n := |w|;
      FlatUnchanged(w, n);
    }
  }

  twostate lemma FlatWhenExtended(fs: seq<Fragment>, new gs: seq<Fragment>)
    requires AllValid(fs) && AllValid(gs) && fs <= gs
    requires forall i | 0 <= i < |fs| :: unchanged(fs[i].data)
    ensures old(Flat(fs)) <= Flat(gs)
  {
    SamePrefix(fs, gs, |fs|);
    FlatPrefix(gs, |fs|, |gs|);
  }

  lemma CutFront(c: seq<byte>, u: seq<byte>, n: nat)
    requires n <= |c|
    ensures c[..n] + (c + u)[n..] == c + u
  {
  }

  lemma SliceOfDropped(b: seq<byte>, g: nat, e: nat, p: nat)
    requires g <= e <= p <= |b|
    ensures b[e..][..p - e] == b[g..p][e - g..]
  {
  }

  lemma PendingAfterRead(c: seq<byte>, u: seq<byte>, got: nat, lost: nat)
    requires got <= |u| && lost <= |c| + got
    ensures (c + u[..got])[lost..] + u[got..] == (c + u)[lost..]
  {
  }

  /** Position t is where one of the fragments before the put fragment pa ends, or where pptr is. */
  ghost predicate IsBoundary(fs: seq<Fragment>, pa: nat, pptr: nat, t: nat)
    requires Whole(fs) && pa < |fs|
  {
    t == Offset(fs, pa) + pptr || exists k :: 0 < k <= pa && t == Offset(fs, k)
  }

  lemma BoundaryIff(fs: seq<Fragment>, pa: nat, pptr: nat, j: nat, size: nat)
    requires Whole(fs) && 0 < j <= pa < |fs| && 0 < size <= fs[j].hi && (j == pa ==> size <= pptr)
    ensures IsBoundary(fs, pa, pptr, Offset(fs, j) + size) <==> size == if j == pa then pptr else fs[j].hi
  {
    var t := Offset(fs, j) + size;
    assert t <= Offset(fs, j + 1);
    if k :| 0 < k <= pa && t == Offset(fs, k) {
      BoundaryHere(fs, pa, j, size, k);
    }
    if j < pa {
      OffsetMono(fs, j + 1, pa);
    }
  }

  lemma BoundaryHere(fs: seq<Fragment>, pa: nat, j: nat, size: nat, k: nat)
    requires Whole(fs) && j <= pa < |fs| && 0 < size <= fs[j].hi
    requires k <= pa && Offset(fs, j) + size == Offset(fs, k)
    ensures k == j + 1 && size == fs[j].hi
  {
    assert Offset(fs, j + 1) == Offset(fs, j) + fs[j].hi;
    if k <= j {
      OffsetMono(fs, k, j);
    } else if j + 1 < k {
      LaterStarts(fs, j, k);
    }
  }

  /** Whether a fragment after number pa begins at t. */
  ghost predicate IsBeginning(fs: seq<Fragment>, pa: nat, t: nat)
    requires Whole(fs)
  {
    exists k :: pa < k < |fs| && t == Offset(fs, k)
  }

  /** A put area that ends at its own end, with a fragment behind it, ends where that one begins. */
  lemma FullIff(fs: seq<Fragment>, pa: nat, j: nat, size: nat)
    requires Whole(fs) && pa <= j < |fs| && size <= fs[j].hi && (j == pa || 0 < size)
    ensures IsBeginning(fs, pa, Offset(fs, j) + size) <==> size == fs[j].hi && j + 1 < |fs|
  {
    assert Offset(fs, j + 1) == Offset(fs, j) + fs[j].hi;
    if k :| pa < k < |fs| && Offset(fs, j) + size == Offset(fs, k) {
      if size == 0 {
        LaterStarts(fs, j, k);
        assert false;
      }
      BoundaryHere(fs, |fs| - 1, j, size, k);
    }
  }

  lemma WindowInFlat(fs: seq<Fragment>, k: nat, lo: nat, hi: nat)
    requires Whole(fs) && k < |fs| && lo <= hi <= fs[k].hi
    ensures Offset(fs, k) + hi <= Total(fs)
    ensures Flat(fs)[Offset(fs, k) + lo..Offset(fs, k) + hi] == fs[k].(lo := lo, hi := hi).Bytes()
  {
    FlatAt(fs, k, |fs|);
    WindowOf(fs[k], lo, hi);
    hide Flat, FlatTo, Offset;
    SliceOfSlice(Flat(fs), Offset(fs, k), fs[k].hi, lo, hi);
  }

  lemma TakeOfSlice(b: seq<byte>, i: nat, k: nat, m: nat)
    requires i <= m <= k <= |b|
    ensures b[i..k][..m - i] == b[i..m]
  {
  }

  lemma JoinSlices(b: seq<byte>, i: nat, j: nat, k: nat)
    requires i <= j <= k <= |b|
    ensures b[i..j] + b[j..k] == b[i..k]
  {
  }

  lemma DropInside(b: seq<byte>, gone: nat, g: nat, n: nat, p: nat)
    requires gone <= g + n <= p <= |b|
    ensures b[gone..][g + n - gone..p - gone] == b[g..p][n..]
  {
  }

  lemma DropFromConcat<T>(a: seq<T>, b: seq<T>, n: nat)
    requires n <= |a|
    ensures (a + b)[n..] == a[n..] + b
  {
  }

  lemma SlicesMoved(b: seq<byte>, g: nat, p: nat, n: nat)
    requires g <= p && p + n <= |b|
    ensures b[g..p + n] == b[g..p] + b[p..][..n] && b[p + n..] == b[p..][n..]
  {
  }

  lemma WindowHasPrefix(f: Fragment, at: nat, s: seq<byte>)
    requires f.Valid() && at + |s| <= f.hi && f.data[at..at + |s|] == s
    ensures s <= f.data[at..f.hi]
  {
    assert f.data[at..f.hi][..|s|] == f.data[at..at + |s|];
  }

  lemma MoveOver(c: seq<byte>, s: seq<byte>, n: nat)
    requires n <= |s|
    ensures c + s[..n] + s[n..] == c + s
  {
  }

  lemma SlicesOfPrefix(a: seq<byte>, b: seq<byte>, g: nat, p: nat)
    requires a <= b && g <= p <= |a|
    ensures a[g..p] == b[g..p] && a[p..] <= b[p..]
  {
  }
}
