/**
  async_read_until (src/zerocopy/read_until.h): reads into a stream buffer until a delimiter shows
  up in it. The operation is resumed after every read and goes on searching where it left off.
 */
module ReadUntil {
  import opened Fragments
  import opened Network
  import opened Occurrences
  import opened StreamBuffer

  const SIZE_MAX: nat := 0xFFFF_FFFF_FFFF_FFFF

  datatype Outcome =
    | Found(n: nat)     // success, with the number of bytes up to and including the delimiter
    | NotFound          // asio::error::not_found, the buffer is full
    | Failed            // the read failed or the peer has closed
    | LengthError       // thrown by the buffer

  /** What an activation of the operation ends with. */
  datatype Action = Await(buffers: seq<Fragment>) | Done(outcome: Outcome)

  // ----- searching -----

  /** The data at i differs from the delimiter already, whatever may follow. */
  ghost predicate Dead(data: seq<byte>, delim: seq<byte>, i: nat) {
    exists k | 0 <= k < |delim| && i + k < |data| :: data[i + k] != delim[k]
  }

  lemma DeadIsNoMatch(data: seq<byte>, delim: seq<byte>, i: nat)
    ensures Match(data, delim, i) ==> !Dead(data, delim, i)
  {
    if Match(data, delim, i) {
      forall k | 0 <= k < |delim|
        ensures data[i + k] == delim[k]
      {
        assert data[i..i + |delim|][k] == data[i + k];
      }
    }
  }

  lemma DeadStays(data: seq<byte>, more: seq<byte>, delim: seq<byte>, i: nat)
    requires data <= more && Dead(data, delim, i)
    ensures Dead(more, delim, i)
  {
    var k :| 0 <= k < |delim| && i + k < |data| && data[i + k] != delim[k];
    assert more[i + k] == data[i + k];
  }

  /** asio's partial_search: the first position, from `start` on, where the delimiter either is, or
      may be once more data has arrived. */
  method PartialSearch(data: seq<byte>, start: nat, delim: seq<byte>) returns (pos: nat, full: bool)
    requires start <= |data|
    ensures start <= pos <= |data|
    ensures forall i | start <= i < pos :: Dead(data, delim, i)
    ensures full ==> Match(data, delim, pos)
    ensures !full && pos < |data| ==> data[pos..] < delim
  {
    pos := start;
    while pos != |data|
      invariant start <= pos <= |data|
      invariant forall i | start <= i < pos :: Dead(data, delim, i)
    {
      var k := 0;
      while k < |delim| && pos + k < |data| && data[pos + k] == delim[k]
        invariant 0 <= k <= |delim| && pos + k <= |data|
        invariant data[pos..pos + k] == delim[..k]
      {
        k := k + 1;
      }
      if k == |delim| {
        assert delim[..k] == delim;
        return pos, true;
      }
      if pos + k == |data| {
        assert data[pos..] == delim[..k];
        return pos, false;
      }
      pos := pos + 1;
    }
    return pos, false;
  }

  /** Searching from where every earlier position is dead is searching everything. */
  lemma SearchedAll(data: seq<byte>, delim: seq<byte>, from: nat, pos: nat, full: bool)
    requires from <= pos <= |data| && forall i | from <= i < pos :: Dead(data, delim, i)
    requires full ==> Match(data, delim, pos)
    requires !full && pos < |data| ==> data[pos..] < delim
    ensures Find(data, delim, from) == if full then pos else |data|
  {
    forall i | from <= i < pos
      ensures !Match(data, delim, i)
    {
      DeadIsNoMatch(data, delim, i);
    }
    if full {
      FindIs(data, delim, from, pos);
    } else {
      NoneIsNotFound(data, delim, from);
    }
  }

  // ----- the operation -----

  /** The size check of a prepare for another 65536 bytes. */
  predicate MayRead(b: StreamBuf)
    reads b
  {
    b.totalSize + 65536 <= b.maxSize
  }

  /** The next read, or its commit, or the prepare after it throws. */
  ghost predicate RoundThrows(b: StreamBuf, delim: seq<byte>, from: nat)
    requires b.Valid()
    reads b, b.list, b.socket, b.Arrays(0)
  {
    var n := b.NextRead();
    var data := b.Contents() + Prefix(b.socket.Unread(), n);
    || (b.totalSize >= b.maxSize && b.FillsFragment(n))
    || (n > 0 && Find(data, delim, from) == |data| && !MayRead(b))
  }

  function Prefix(s: seq<byte>, n: nat): seq<byte> {
    if n <= |s| then s[..n] else s
  }

  /** When an operation throws: without the delimiter in the buffer there has to be room for 65536 bytes
      more, otherwise for none, and for what the first read then calls for. */
  ghost predicate Throws(b: StreamBuf, delim: seq<byte>)
    requires b.Valid()
    reads b, b.list, b.socket, b.Arrays(0)
  {
    if Find(b.Contents(), delim, 0) == |b.Contents()| then !MayRead(b)
    else b.totalSize > b.maxSize || RoundThrows(b, delim, SearchStart(b.Contents(), delim))
  }

  class ReadUntilOp {
    const buf: StreamBuf
    const delim: seq<byte>
    var searchPosition: nat
    ghost var from: nat         // no match before this position is looked for

    constructor (b: StreamBuf, d: seq<byte>)
      ensures buf == b && delim == d && searchPosition == from == 0
    {
      buf, delim, searchPosition := b, d, 0;
      from := 0;
    }

    /** Nothing can be found before searchPosition, now or later. */
    ghost predicate Valid()
      reads this, buf, buf.list, buf.socket, buf.Arrays(0)
    {
      && buf.Valid() && from <= searchPosition <= |buf.Contents()|
      && forall i | from <= i < searchPosition :: Dead(buf.Contents(), delim, i)
    }

    /** Looks at what has arrived; 0 when the operation is complete. */
    method Search() returns (bytesToRead: nat)
      requires Valid()
      modifies this`searchPosition
      ensures bytesToRead == 0 || bytesToRead == 65536
      ensures var data, i := buf.Contents(), Find(buf.Contents(), delim, from);
              if i < |data| then bytesToRead == 0 && searchPosition == i + |delim|
              else if |data| + buf.Excess() == SIZE_MAX then bytesToRead == 0 && searchPosition == SIZE_MAX
              else bytesToRead == 65536 && Valid()
    {
      hide StreamBuf.Contents, StreamBuf.Excess, StreamBuf.TrueInter, StreamBuf.PutIndex, Flat, FlatTo, Offset;
      hide Total, Find, Match, Dead;
      var buffers := buf.Data();
      var data := Collect(buffers);
      var pos, full := PartialSearch(data, searchPosition, delim);
      SearchedAll(data, delim, from, pos, full);
      buf.SizeIsContents();
      if pos != |data| && full {
        searchPosition := pos + |delim|;
        bytesToRead := 0;
      } else if buf.Size() == SIZE_MAX {
        searchPosition := SIZE_MAX;
        bytesToRead := 0;
      } else {
        searchPosition := if pos != |data| then pos else |data|;
        bytesToRead := Max(512, 65536);
      }
    }

    /** What the handler is told once the operation is complete. */
    method Complete(failed: bool) returns (o: Outcome)
      ensures o == if searchPosition == SIZE_MAX then NotFound else if failed then Failed else Found(searchPosition)
    {
      if searchPosition == SIZE_MAX {
        return NotFound;
      }
      return if failed then Failed else Found(searchPosition);
    }

    /** Waiting for a read of at least one byte, with everything that has arrived searched. */
    ghost predicate Waiting(a: Action)
      reads this, buf, buf.list, buf.socket, buf.Arrays(0)
    {
      Valid() && a.Await? && a.buffers == buf.PutBuffers()
    }

    /** Asks for room and starts the next read. */
    method Await(bytesToRead: nat) returns (a: Action)
      requires Valid()
      modifies buf`tailSize, buf.list
      ensures Valid() && buf.GetKept() && buf.LimitsKept() && buf.Extended()
      ensures buf.Contents() == old(buf.Contents()) && buf.Excess() == old(buf.Excess())
      ensures if buf.totalSize + bytesToRead <= buf.maxSize then Waiting(a) && bytesToRead <= buf.PutSize()
              else a == Done(Outcome.LengthError)
      ensures bytesToRead == 0 ==> buf.PutSize() == old(buf.PutSize()) && buf.list.items == old(buf.list.items)
    {
      hide StreamBuf.Contents, StreamBuf.Excess, StreamBuf.Room, Flat, FlatTo, Offset, Total;
      var ok, mb := buf.Prepare(bytesToRead);
      a := if ok then Action.Await(mb) else Done(Outcome.LengthError);
    }

    /** The first activation: reads even when the delimiter is there already. */
    method Start() returns (a: Action)
      requires Valid() && searchPosition == from == 0 && |buf.Contents()| + buf.Excess() < SIZE_MAX
      modifies this, buf`tailSize, buf.list
      ensures buf.Valid() && buf.GetKept() && buf.LimitsKept() && buf.Extended()
      ensures buf.Contents() == old(buf.Contents()) && buf.Excess() == old(buf.Excess())
      ensures from == SearchStart(buf.Contents(), delim)
      ensures var n := if Find(buf.Contents(), delim, 0) < |buf.Contents()| then 0 else 65536;
              && (n == 0 ==> searchPosition == from && buf.PutSize() == old(buf.PutSize()))
              && (n == 0 ==> buf.list.items == old(buf.list.items))
              && if buf.totalSize + n <= buf.maxSize then Waiting(a) && n <= buf.PutSize()
                 else a == Done(Outcome.LengthError)
    {
      hide StreamBuf.Contents, StreamBuf.Excess, StreamBuf.Room, StreamBuf.TrueInter, StreamBuf.PutIndex, Flat;
      hide FlatTo, Offset, Total, Find, Match, Dead;
      var bytesToRead := Search();
      if bytesToRead == 0 {
        from := searchPosition;
      }
      a := Await(bytesToRead);
    }

    /** An activation after a read of n bytes. */
    method Resume(failed: bool, n: nat) returns (a: Action)
      requires Valid() && n <= buf.PutSize()
      requires |buf.Contents()| + n + buf.Excess() < SIZE_MAX
      modifies this`searchPosition, buf`interSize, buf`tailSize, buf`putActive, buf`put, buf.list
      ensures buf.Valid() && buf.GetKept() && buf.LimitsKept() && buf.Extended() && buf.PutForward()
      ensures buf.Contents() == old(buf.Contents()) + old(buf.Room())[..n] && buf.Excess() == old(buf.Excess())
      ensures (n == 0 || failed) && a != Done(Outcome.LengthError) ==>
                a == Done(if failed then Failed else Found(old(searchPosition)))
      ensures n > 0 && !failed && a != Done(Outcome.LengthError) ==>
                var i := Find(buf.Contents(), delim, from);
                if i < |buf.Contents()| then a == Done(Found(i + |delim|)) else Waiting(a) && 65536 <= buf.PutSize()
      ensures a == Done(Outcome.LengthError) <==>
                || (buf.totalSize >= buf.maxSize && old(buf.FillsFragment(n)))
                || (n > 0 && !failed && Find(buf.Contents(), delim, from) == |buf.Contents()| && !MayRead(buf))
    {
      hide StreamBuf.Contents, StreamBuf.Excess, StreamBuf.Room, StreamBuf.TrueInter, StreamBuf.PutIndex, Flat;
      hide FlatTo, Offset, Total, Find, Match, Dead;
      var ok := buf.Commit(n);
      if !ok {
        return Done(Outcome.LengthError);
      }
      if failed || n == 0 {
        var o := Complete(failed);
        return Done(o);
      }
      DeadStay(old(buf.Contents()), buf.Contents());
      a := SearchOn();
    }

    /** The rest of an activation, after a read that brought something. */
    method SearchOn() returns (a: Action)
      requires Valid() && |buf.Contents()| + buf.Excess() < SIZE_MAX
      modifies this`searchPosition, buf`tailSize, buf.list
      ensures buf.Valid() && buf.GetKept() && buf.LimitsKept() && buf.Extended()
      ensures buf.Contents() == old(buf.Contents()) && buf.Excess() == old(buf.Excess())
      ensures var i := Find(buf.Contents(), delim, from);
              if i < |buf.Contents()| then a == Done(Found(i + |delim|))
              else if !MayRead(buf) then a == Done(Outcome.LengthError)
              else Waiting(a) && 65536 <= buf.PutSize()
    {
      hide StreamBuf.Contents, StreamBuf.Excess, StreamBuf.Room, StreamBuf.TrueInter, StreamBuf.PutIndex, Flat;
      hide FlatTo, Offset, Total, Find, Match, Dead;
      var bytesToRead := Search();
      if bytesToRead == 0 {
        var o := Complete(false);
        return Done(o);
      }
      a := Await(bytesToRead);
    }

    lemma DeadStay(data: seq<byte>, more: seq<byte>)
      requires data <= more && forall i | from <= i < searchPosition :: Dead(data, delim, i)
      ensures forall i | from <= i < searchPosition :: Dead(more, delim, i)
    {
      forall i | from <= i < searchPosition
        ensures Dead(more, delim, i)
      {
        DeadStays(data, more, delim, i);
      }
    }
  }

  /** Where the search of the operation begins: after the first occurrence already in the buffer. */
  function SearchStart(data: seq<byte>, delim: seq<byte>): (r: nat)
    ensures r <= |data|
  {
    var i := Find(data, delim, 0);
    if i < |data| then i + |delim| else 0
  }

  // ----- whole operations -----

  /** What the operation tells its handler, from the bytes in the buffer, the bytes the peer still sends
      and the put space of the buffer. */
  function Answer(c: seq<byte>, u: seq<byte>, delim: seq<byte>, room: nat): Outcome {
    var i := Find(c + u, delim, SearchStart(c, delim));
    if Find(c, delim, 0) < |c| && room == 0 then Found(SearchStart(c, delim))
    else if u == [] || i == |c + u| then Failed
    else Found(i + |delim|)
  }

  /** The answer is the end of the first occurrence in the whole stream, unless the delimiter is in the
      buffer to begin with (and there is put space, and the delimiter is not empty). */
  lemma RightUnlessBuffered(c: seq<byte>, u: seq<byte>, delim: seq<byte>, room: nat)
    requires Find(c + u, delim, 0) < |c + u|
    ensures Answer(c, u, delim, room) == Found(Find(c + u, delim, 0) + |delim|) <==>
              Find(c, delim, 0) == |c| || room == 0 || (delim == [] && u != [])
  {
    if Find(c, delim, 0) < |c| {
      FoundStays(c, c + u, delim, 0);
    } else {
      assert u == [] ==> c + u == c;
    }
  }

  /** What is still to come after reads that brought these pieces. */
  function Remaining(before: seq<seq<byte>>, pieces: seq<seq<byte>>): seq<seq<byte>>
    decreases |pieces|
  {
    if pieces == [] then before
    else AfterRead(Remaining(before, pieces[..|pieces| - 1]), |pieces[|pieces| - 1]|)
  }

  /** Every piece is what one read brought: all that arrived in one go, or as much as there was room for.
      That is room for `first` bytes at least in the first read, and for 65536 later. */
  predicate EachOneRead(before: seq<seq<byte>>, pieces: seq<seq<byte>>, first: nat) {
    forall k | 0 <= k < |pieces| ::
      WasOneRead(Remaining(before, pieces[..k]), pieces[k], if k == 0 then first else 65536)
  }

  predicate WasOneRead(before: seq<seq<byte>>, piece: seq<byte>, room: nat) {
    && before != [] && piece != [] && piece <= before[0]
    && (piece == before[0] || room <= |piece|)
  }

  lemma EachOneReadGrows(before: seq<seq<byte>>, pieces: seq<seq<byte>>, first: nat, got: seq<byte>)
    requires EachOneRead(before, pieces, first)
    requires WasOneRead(Remaining(before, pieces), got, if pieces == [] then first else 65536)
    ensures EachOneRead(before, pieces + [got], first)
    ensures Remaining(before, pieces + [got]) == AfterRead(Remaining(before, pieces), |got|)
  {
    hide WasOneRead;
    var all := pieces + [got];
    assert all[..|pieces|] == pieces;
    forall k | 0 <= k < |all|
      ensures WasOneRead(Remaining(before, all[..k]), all[k], if k == 0 then first else 65536)
    {
      assert k < |pieces| ==> all[..k] == pieces[..k];
    }
  }

  lemma NothingRead(before: seq<seq<byte>>)
    requires forall c | c in before :: c != []
    ensures AfterRead(before, 0) == before
  {
    if before != [] {
      assert before[0] in before && before[0][0..] == before[0];
    }
  }

  /** Whether the first occurrence from position `from` on is at i. */
  ghost predicate FirstAt(data: seq<byte>, delim: seq<byte>, from: nat, i: nat) {
    from <= i && Match(data, delim, i) && forall j | from <= j < i :: !Match(data, delim, j)
  }

  /** The answer for a delimiter that is not buffered: the end of its first occurrence in the whole stream. */
  lemma AnswerUnbuffered(c: seq<byte>, u: seq<byte>, delim: seq<byte>, room: nat)
    requires forall j :: 0 <= j ==> !Match(c, delim, j)
    ensures forall k: nat | u != [] && FirstAt(c + u, delim, 0, k) :: Answer(c, u, delim, room) == Found(k + |delim|)
    ensures u == [] || (forall j :: 0 <= j ==> !Match(c + u, delim, j)) ==> Answer(c, u, delim, room) == Failed
  {
    NoneIsNotFound(c, delim, 0);
    AnswerFrom(c, u, delim, room, 0);
  }

  /** And for one that is, at i first: with put space, the end of the first occurrence behind that one, or a
      failure when the peer closes before there is one. */
  lemma AnswerBuffered(c: seq<byte>, u: seq<byte>, delim: seq<byte>, room: nat, i: nat, behind: nat)
    requires FirstAt(c, delim, 0, i) && behind == i + |delim|
    ensures room == 0 ==> Answer(c, u, delim, room) == Found(behind)
    ensures room > 0 && u == [] ==> Answer(c, u, delim, room) == Failed
    ensures forall k: nat | room > 0 && u != [] && FirstAt(c + u, delim, behind, k) ::
              Answer(c, u, delim, room) == Found(k + |delim|)
    ensures room > 0 && (forall j :: behind <= j ==> !Match(c + u, delim, j)) ==>
              Answer(c, u, delim, room) == Failed
  {
    FindIs(c, delim, 0, i);
    if room > 0 {
      AnswerFrom(c, u, delim, room, behind);
    }
  }

  lemma AnswerFrom(c: seq<byte>, u: seq<byte>, delim: seq<byte>, room: nat, s: nat)
    requires SearchStart(c, delim) == s && !(Find(c, delim, 0) < |c| && room == 0)
    ensures forall k: nat | u != [] && FirstAt(c + u, delim, s, k) :: Answer(c, u, delim, room) == Found(k + |delim|)
    ensures u == [] || (forall j :: s <= j ==> !Match(c + u, delim, j)) ==> Answer(c, u, delim, room) == Failed
  {
    forall k: nat | u != [] && FirstAt(c + u, delim, s, k)
      ensures Answer(c, u, delim, room) == Found(k + |delim|)
    {
      FindIs(c + u, delim, s, k);
    }
    if forall j :: s <= j ==> !Match(c + u, delim, j) {
      NoneIsNotFound(c + u, delim, s);
    }
  }

  /** The read itself: what arrives lies behind pptr until the next activation publishes it. */
  method Receive(op: ReadUntilOp, a: Action) returns (failed: bool, n: nat)
    requires op.Waiting(a)
    modifies op.buf.socket, op.buf.Arrays(op.buf.Pa())
    ensures op.Valid() && n <= op.buf.PutSize() && op.buf.Arrived(n)
    ensures op.buf.Contents() == old(op.buf.Contents()) && op.buf.Excess() == old(op.buf.Excess())
    ensures op.buf.Room()[..n] == old(op.buf.socket.Unread())[..n]
    ensures failed <==> n == 0 && op.buf.PutSize() > 0
    ensures n > 0 ==> WasOneRead(old(op.buf.socket.incoming), old(op.buf.socket.Unread())[..n], op.buf.PutSize())
  {
    hide StreamBuf.Contents, StreamBuf.Excess, StreamBuf.Room, StreamBuf.TrueInter, StreamBuf.PutIndex;
    hide Flat, FlatTo, Offset, Dead;
    var buf := op.buf;
    var room := Space(a.buffers);
    buf.RoomIsPutBuffers();
    if buf.socket.incoming != [] {
      DropUnread(buf.socket.incoming, Min(|buf.socket.incoming[0]|, buf.PutSize()));
    }
    n := buf.ReadInto(a.buffers, buf.Pa(), buf.put.pptr);
    failed := n == 0 && room > 0;
  }

  /** An operation waiting for a read, the read, and the activation that follows it. */
  method Round(op: ReadUntilOp, a: Action) returns (next: Action, ghost got: seq<byte>)
    requires op.Waiting(a) && |op.buf.Pending()| + op.buf.Excess() < SIZE_MAX
    modifies op`searchPosition, op.buf, op.buf.list, op.buf.socket, op.buf.Arrays(op.buf.Pa())
    ensures op.buf.Valid() && op.buf.GetKept() && op.buf.LimitsKept() && op.buf.Onward()
    ensures op.buf.Contents() == old(op.buf.Contents()) + got && op.buf.Excess() == old(op.buf.Excess())
    ensures old(op.buf.socket.Unread()) == got + op.buf.socket.Unread()
    ensures got == [] <==> old(op.buf.socket.incoming) == [] || old(op.buf.PutSize()) == 0
    ensures op.buf.socket.incoming == AfterRead(old(op.buf.socket.incoming), |got|)
    ensures got != [] ==> WasOneRead(old(op.buf.socket.incoming), got, old(op.buf.PutSize()))
    ensures next == Done(Outcome.LengthError) <==> old(RoundThrows(op.buf, op.delim, op.from))
    ensures next.Await? ==> MayRead(op.buf)
    ensures next != Done(Outcome.LengthError) && got == [] ==>
              next == Done(if old(op.buf.PutSize()) == 0 then Found(old(op.searchPosition)) else Failed)
    ensures next != Done(Outcome.LengthError) && got != [] ==>
              var i := Find(op.buf.Contents(), op.delim, op.from);
              if i < |op.buf.Contents()| then next == Done(Found(i + |op.delim|))
              else op.Waiting(next) && 65536 <= op.buf.PutSize()
  {
    hide StreamBuf.Contents, StreamBuf.Excess, StreamBuf.Room, StreamBuf.TrueInter, StreamBuf.PutIndex, Flat;
    hide FlatTo, Offset, Total, Find, Match, Dead, StreamBuf.PutBuffers, Whole;
    var buf := op.buf;
    ghost var c, u := buf.Contents(), buf.socket.Unread();
    var failed, n := Receive(op, a);
    assert Prefix(u, n) == u[..n] && c + Prefix(u, n) == c + u[..n];
    got := u[..n];
    next := op.Resume(failed, n);
    buf.OnwardWhenExtended();
  }

  /** After the reads of an operation that started from contents c and unread bytes u: no occurrence
      has shown up but after the last read. */
  ghost predicate Progress(c: seq<byte>, u: seq<byte>, delim: seq<byte>, pieces: seq<seq<byte>>, rest: seq<byte>) {
    && u == Join(pieces) + rest
    && (forall k | 0 <= k < |pieces| :: pieces[k] != [])
    && forall k | 0 < k < |pieces| ::
         Find(c + Join(pieces[..k]), delim, SearchStart(c, delim)) == |c + Join(pieces[..k])|
  }

  lemma NoRead(c: seq<byte>, u: seq<byte>, delim: seq<byte>)
    ensures Progress(c, u, delim, [], u) && c + Join([]) == c
  {
    assert Join([]) + u == u;
  }

  lemma OneRead(c: seq<byte>, u: seq<byte>, delim: seq<byte>, pieces: seq<seq<byte>>, got: seq<byte>, rest: seq<byte>)
    requires Progress(c, u, delim, pieces, got + rest) && got != []
    requires pieces != [] ==> Find(c + Join(pieces), delim, SearchStart(c, delim)) == |c + Join(pieces)|
    ensures Progress(c, u, delim, pieces + [got], rest)
    ensures c + Join(pieces + [got]) == (c + Join(pieces)) + got
  {
    var all := pieces + [got];
    JoinOne(pieces, got);
    hide Find, Join;
    assert u == (Join(pieces) + got) + rest;
    forall k | 0 < k < |all|
      ensures Find(c + Join(all[..k]), delim, SearchStart(c, delim)) == |c + Join(all[..k])|
    {
      assert all[..k] == pieces[..k];
      assert k == |pieces| ==> all[..k] == pieces;
    }
  }

  /** A read that shows the delimiter completes the operation with the answer. */
  lemma FoundIsAnswer(c: seq<byte>, u: seq<byte>, delim: seq<byte>, room: nat, pieces: seq<seq<byte>>, rest: seq<byte>)
    requires Progress(c, u, delim, pieces, rest) && pieces != []
    requires !(Find(c, delim, 0) < |c| && room == 0)
    requires Find(c + Join(pieces), delim, SearchStart(c, delim)) < |c + Join(pieces)|
    ensures Answer(c, u, delim, room) == Found(Find(c + Join(pieces), delim, SearchStart(c, delim)) + |delim|)
  {
    var data, s := c + Join(pieces), SearchStart(c, delim);
    hide Find, Match, SearchStart;
    assert c + u == data + rest;
    assert pieces[0] != [];
    FoundStays(data, c + u, delim, s);
  }

  /** A read that brings nothing completes it with the answer, too. */
  lemma NothingIsAnswer(c: seq<byte>, u: seq<byte>, delim: seq<byte>, room: nat,
                        pieces: seq<seq<byte>>, rest: seq<byte>)
    requires Progress(c, u, delim, pieces, rest)
    requires !(Find(c, delim, 0) < |c| && room == 0) ==> rest == []
    requires pieces != [] ==> Find(c + Join(pieces), delim, SearchStart(c, delim)) == |c + Join(pieces)|
    ensures Answer(c, u, delim, room) ==
              if Find(c, delim, 0) < |c| && room == 0 then Found(SearchStart(c, delim)) else Failed
  {
    hide Find, Match, SearchStart;
    assert rest == [] ==> c + u == c + Join(pieces);
  }

  /** How many bytes the first read has room for at least. */
  function FirstRoom(c: seq<byte>, delim: seq<byte>, room: nat): nat {
    if Find(c, delim, 0) < |c| then room else 65536
  }

  /** Where an operation is: waiting with nothing found since `from`, or done with the answer. */
  ghost predicate Going(op: ReadUntilOp, a: Action, c: seq<byte>, u: seq<byte>, room: nat, throws: bool,
                        before: seq<seq<byte>>, pieces: seq<seq<byte>>)
    requires op.buf.Valid()
    reads op, op.buf, op.buf.list, op.buf.socket, op.buf.Arrays(0)
  {
    && op.from == SearchStart(c, op.delim)
    && op.buf.Contents() == c + Join(pieces) && Progress(c, u, op.delim, pieces, op.buf.socket.Unread())
    && |op.buf.Pending()| == |c| + |u|
    && op.buf.socket.incoming == Remaining(before, pieces) && EachOneRead(before, pieces, FirstRoom(c, op.delim, room))
    && (Find(c, op.delim, 0) < |c| && room == 0 ==> pieces == [])
    && match a {
         case Await(_) =>
           && op.Waiting(a) && (throws <==> RoundThrows(op.buf, op.delim, op.from))
           && if pieces != [] then
                65536 <= op.buf.PutSize() && Find(op.buf.Contents(), op.delim, op.from) == |op.buf.Contents()|
              else if Find(c, op.delim, 0) < |c| then op.buf.PutSize() == room && op.searchPosition == op.from
              else 65536 <= op.buf.PutSize()
         case Done(r) =>
           if r == Outcome.LengthError then throws
           else !throws && r == Answer(c, u, op.delim, room)
       }
  }

  method Next(op: ReadUntilOp, a: Action, ghost c: seq<byte>, ghost u: seq<byte>, ghost room: nat, ghost throws: bool,
              ghost before: seq<seq<byte>>, ghost pieces: seq<seq<byte>>)
    returns (next: Action, ghost pieces': seq<seq<byte>>)
    requires op.buf.Valid() && Going(op, a, c, u, room, throws, before, pieces) && a.Await?
    requires |c| + |u| + op.buf.Excess() < SIZE_MAX
    modifies op`searchPosition, op.buf, op.buf.list, op.buf.socket, op.buf.Arrays(op.buf.Pa())
    ensures op.buf.Valid() && Going(op, next, c, u, room, throws, before, pieces')
    ensures op.buf.GetKept() && op.buf.LimitsKept() && op.buf.Excess() == old(op.buf.Excess())
    ensures fresh(op.buf.Arrays(op.buf.Pa()) - old(op.buf.Arrays(op.buf.Pa())))
    ensures |op.buf.socket.Unread()| < old(|op.buf.socket.Unread()|) ||
            (next.Done? && op.buf.socket.Unread() == old(op.buf.socket.Unread()))
  {
    hide StreamBuf.Contents, StreamBuf.Excess, StreamBuf.Room, StreamBuf.TrueInter, StreamBuf.PutIndex;
    hide Flat, FlatTo, Offset, Total, Find, Match, Dead, Progress, Answer, SearchStart, Join;
    ghost var got;
    ghost var unread := op.buf.socket.Unread();
    NothingRead(op.buf.socket.incoming);
    op.buf.socket.NothingUnread();
    next, got := Round(op, a);
    pieces' := pieces;
    if got == [] {
      assert unread == op.buf.socket.Unread();
      NothingIsAnswer(c, u, op.delim, room, pieces, unread);
    } else {
      OneRead(c, u, op.delim, pieces, got, op.buf.socket.Unread());
      EachOneReadGrows(before, pieces, FirstRoom(c, op.delim, room), got);
      pieces' := pieces + [got];
      if Find(op.buf.Contents(), op.delim, op.from) < |op.buf.Contents()| {
        FoundIsAnswer(c, u, op.delim, room, pieces', op.buf.socket.Unread());
      }
    }
  }

  /** A new operation and its first activation. */
  method Begin(buf: StreamBuf, delim: seq<byte>, ghost c: seq<byte>, ghost u: seq<byte>, ghost room: nat,
               ghost throws: bool)
    returns (op: ReadUntilOp, a: Action)
    requires buf.Valid() && |c| + |u| + buf.Excess() < SIZE_MAX
    requires c == buf.Contents() && u == buf.socket.Unread() && room == buf.PutSize() && throws == Throws(buf, delim)
    modifies buf`tailSize, buf.list
    ensures fresh(op) && op.buf == buf && op.delim == delim && buf.Valid()
    ensures Going(op, a, c, u, room, throws, buf.socket.incoming, [])
    ensures buf.GetKept() && buf.LimitsKept() && buf.Excess() == old(buf.Excess())
    ensures fresh(buf.Arrays(buf.Pa()) - old(buf.Arrays(buf.Pa())))
  {
    hide StreamBuf.Contents, StreamBuf.Excess, StreamBuf.Room, StreamBuf.TrueInter, StreamBuf.PutIndex;
    hide Flat, FlatTo, Offset, Total, Find, Match, Dead, Progress, Answer, SearchStart;
    op := new ReadUntilOp(buf, delim);
    NoRead(c, u, delim);
    a := op.Start();
  }

  /** The operation started on any buffer, with any reads to come. */
  method AsyncReadUntil(buf: StreamBuf, delim: seq<byte>) returns (r: Outcome, ghost pieces: seq<seq<byte>>)
    requires buf.Valid() && |buf.Pending()| + buf.Excess() < SIZE_MAX
    modifies buf, buf.list, buf.socket, buf.Arrays(buf.Pa())
    ensures buf.Valid() && buf.GetKept() && buf.Contents() == old(buf.Contents()) + Join(pieces)
    ensures Progress(old(buf.Contents()), old(buf.socket.Unread()), delim, pieces, buf.socket.Unread())
    ensures buf.socket.incoming == Remaining(old(buf.socket.incoming), pieces)
    ensures EachOneRead(old(buf.socket.incoming), pieces, FirstRoom(old(buf.Contents()), delim, old(buf.PutSize())))
    ensures if old(Throws(buf, delim)) then r == Outcome.LengthError
            else r == Answer(old(buf.Contents()), old(buf.socket.Unread()), delim, old(buf.PutSize()))
  {
    hide StreamBuf.Contents, StreamBuf.Excess, StreamBuf.Room, StreamBuf.TrueInter, StreamBuf.PutIndex, Flat;
    hide FlatTo, Offset, Total, Find, Match, Dead, Progress, Answer, SearchStart, Throws, RoundThrows;
    hide ReadUntilOp.Waiting, ReadUntilOp.Valid;
    ghost var c, u, room, throws := buf.Contents(), buf.socket.Unread(), buf.PutSize(), Throws(buf, delim);
    ghost var arrays, before := buf.Arrays(buf.Pa()), buf.socket.incoming;
    var op, a := Begin(buf, delim, c, u, room, throws);
    pieces := [];
    while a.Await?
      invariant buf.Valid() && buf.GetKept() && buf.LimitsKept() && buf.Excess() == old(buf.Excess())
      invariant fresh(buf.Arrays(buf.Pa()) - arrays)
      invariant Going(op, a, c, u, room, throws, before, pieces)
      decreases |buf.socket.Unread()|, a.Await?
    {
      a, pieces := Next(op, a, c, u, room, throws, before, pieces);
    }
    r := a.outcome;
  }
}
