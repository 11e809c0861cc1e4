/** The network side of a buffer: an arbitrary sequence of non-empty reads, scattered into the
    mutable buffers that basic_streambuf::prepare hands out. */
module Network {
  import opened Fragments

  function Min(a: int, b: int): (r: int)
    ensures r <= a && r <= b && (r == a || r == b)
  {
    if a < b then a else b
  }

  function Max(a: int, b: int): (r: int)
    ensures a <= r && b <= r && (r == a || r == b)
  {
    if a < b then b else a
  }

  function Join(chunks: seq<seq<byte>>): seq<byte> {
    if chunks == [] then [] else chunks[0] + Join(chunks[1..])
  }

  predicate IsSuffix(a: seq<byte>, b: seq<byte>) {
    |b| <= |a| && a[|a| - |b|..] == b
  }

  /** What is still to come after a read of n bytes of the piece in front. */
  function AfterRead(before: seq<seq<byte>>, n: nat): seq<seq<byte>> {
    if before == [] then []
    else if n < |before[0]| then [before[0][n..]] + before[1..]
    else before[1..]
  }

  /** One read: it takes the whole piece in front, or part of it and then at least `least` bytes. */
  predicate ReadsOnce(before: seq<seq<byte>>, after: seq<seq<byte>>, least: nat) {
    if before == [] then after == []
    else
      || after == before[1..]
      || (&& after != [] && after[0] != [] && after[1..] == before[1..]
          && |after[0]| + least <= |before[0]| && IsSuffix(before[0], after[0]))
  }

  lemma ReadIsOne(before: seq<seq<byte>>, n: nat, room: nat)
    requires before != [] && before[0] != [] && n == Min(|before[0]|, room)
    ensures ReadsOnce(before, AfterRead(before, n), room)
    ensures AfterRead(before, n) == if n == |before[0]| then before[1..] else [before[0][n..]] + before[1..]
  {
  }

  lemma SuffixTrans(a: seq<byte>, b: seq<byte>, c: seq<byte>)
    requires IsSuffix(a, b) && IsSuffix(b, c)
    ensures IsSuffix(a, c)
  {
    assert a[|a| - |b|..][|b| - |c|..] == a[|a| - |c|..];
  }

  lemma {:induction false} JoinAppend(a: seq<seq<byte>>, b: seq<seq<byte>>)
    ensures Join(a + b) == Join(a) + Join(b)
  {
    if a == [] {
      assert a + b == b;
    } else {
      assert (a + b)[1..] == a[1..] + b;
      JoinAppend(a[1..], b);
    }
  }

  lemma JoinOne(a: seq<seq<byte>>, s: seq<byte>)
    ensures Join(a + [s]) == Join(a) + s
  {
    JoinAppend(a, [s]);
    assert [s][1..] == [];
    assert Join([s]) == s + [];
  }

  /** std::memcpy into an allocation. */
  method CopyInto(data: array<byte>, at: nat, s: seq<byte>)
    requires at + |s| <= data.Length
    modifies data
    ensures data[..at] == old(data[..at])
    ensures data[at..at + |s|] == s
    ensures data[at + |s|..] == old(data[at + |s|..])
  {
    forall i | 0 <= i < |s| {
      data[at + i] := s[i];
    }
  }

  /** What lies before the window of f is as it was. */
  twostate predicate HeadKept(f: Fragment)
    requires f.Valid()
    reads f.data
  {
    f.data[..f.lo] == old(f.data[..f.lo])
  }

  lemma PrefixOfConcat(a: seq<byte>, b: seq<byte>, s: seq<byte>, m: nat)
    requires m == Min(|a|, |s|) && s[..m] <= a && s[m..] <= b
    ensures s <= a + b
  {
    assert s == s[..m] + s[m..];
  }

  method FillOne(f: Fragment, s: seq<byte>) returns (m: nat)
    requires f.Valid()
    modifies f.data
    ensures m == Min(f.Size(), |s|) && s[..m] <= f.Bytes() && HeadKept(f)
  {
    m := Min(f.Size(), |s|);
    CopyInto(f.data, f.lo, s[..m]);
    assert f.Bytes()[..m] == f.data[f.lo..f.lo + m];
  }

  /** Fills the buffers, first to last, with the bytes of s. */
  method Scatter(bufs: seq<Fragment>, s: seq<byte>)
    requires AllValid(bufs) && DistinctArrays(bufs) && |s| <= Total(bufs)
    modifies set i | 0 <= i < |bufs| :: bufs[i].data
    ensures s <= Flat(bufs)
    ensures forall f | f in bufs :: HeadKept(f)
  {
    if s == [] {
      return;
    }
    var f, rest := bufs[0], bufs[1..];
    assert Total(rest) == Total(bufs) - f.Size() by {
      DropFirst(bufs, |bufs|);
    }
    var m := FillOne(f, s);
    label filled:
    hide Flat, FlatTo, Offset, Total;
    Scatter(rest, s[m..]);
    assert f.Bytes() == old@filled(f.Bytes());
    assert bufs == [f] + rest;
    PrependFlat(f, rest);
    PrefixOfConcat(f.Bytes(), Flat(rest), s, m);
    forall g | g in bufs
      ensures HeadKept(g)
    {
      assert g == f || g in rest;
    }
  }

  /** A connection, as the sequence of reads it will still deliver. */
  class Socket {
    var incoming: seq<seq<byte>>

    constructor (pieces: seq<seq<byte>>)
      ensures incoming == pieces
    {
      incoming := pieces;
    }

    ghost predicate Valid()
      reads this
    {
      forall c | c in incoming :: c != []
    }

    ghost function Unread(): seq<byte>
      reads this
    {
      Join(incoming)
    }

    lemma NothingUnread()
      requires Valid()
      ensures Unread() == [] <==> incoming == []
    {
      if incoming != [] {
        assert incoming[0] in incoming;
      }
    }

    /** One read_some: at most the next arriving piece, cut to the room given; 0 when the peer has closed. */
    method ReadSome(bufs: seq<Fragment>) returns (n: nat)
      requires Valid() && AllValid(bufs) && DistinctArrays(bufs)
      modifies this, set i | 0 <= i < |bufs| :: bufs[i].data
      ensures Valid()
      ensures n == if old(incoming) == [] then 0 else Min(|old(incoming)[0]|, Total(bufs))
      ensures n == 0 <==> old(incoming) == [] || Total(bufs) == 0
      ensures old(incoming) == [] ==> incoming == []
      ensures n <= |old(Unread())| && Unread() == old(Unread())[n..]
      ensures old(Unread())[..n] <= Flat(bufs)
      ensures old(incoming) != [] && n == |old(incoming)[0]| ==> incoming == old(incoming)[1..]
      ensures ReadsOnce(old(incoming), incoming, Total(bufs)) && incoming == AfterRead(old(incoming), n)
      ensures forall f | f in bufs :: HeadKept(f)
    {
      n := 0;
      if incoming != [] {
        var c := incoming[0];
        var room := Space(bufs);
        n := Min(|c|, room);
        Scatter(bufs, c[..n]);
        DropUnread(incoming, n);
        assert c in incoming;
        ReadIsOne(incoming, n, room);
        incoming := if n == |c| then incoming[1..] else [c[n..]] + incoming[1..];
        hide Flat, FlatTo, Offset, Join, ReadsOnce, AfterRead;
        assert forall x | x in incoming :: (x == c[n..] && n < |c|) || x in old(incoming);
      }
    }
  }

  method Space(bufs: seq<Fragment>) returns (room: nat)
    requires AllValid(bufs)
    ensures room == Total(bufs)
  {
    room := 0;
    for i := 0 to |bufs|
      invariant room == Offset(bufs, i)
    {
      room := room + bufs[i].Size();
    }
  }

  /** The bytes of a list of buffers, in order. */
  method Collect(cb: seq<Fragment>) returns (s: seq<byte>)
    requires AllValid(cb)
    ensures s == Flat(cb)
  {
    s := [];
    for i := 0 to |cb|
      invariant s == FlatTo(cb, i)
    {
      s := s + cb[i].data[cb[i].lo..cb[i].hi];
    }
  }

  /** Taking n bytes of the first chunk drops n bytes of the whole. */
  lemma DropUnread(chunks: seq<seq<byte>>, n: nat)
    requires chunks != [] && n <= |chunks[0]|
    ensures n <= |Join(chunks)| && chunks[0][..n] == Join(chunks)[..n]
    ensures Join([chunks[0][n..]] + chunks[1..]) == Join(chunks)[n..]
    ensures n == |chunks[0]| ==> Join(chunks[1..]) == Join(chunks)[n..]
  {
    var c, rest := chunks[0], chunks[1..];
    assert ([c[n..]] + rest)[1..] == rest;
    assert Join([c[n..]] + rest) == c[n..] + Join(rest);
    assert (c + Join(rest))[n..] == c[n..] + Join(rest);
  }
}
