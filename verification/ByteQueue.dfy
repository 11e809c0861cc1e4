/** What the operations of the buffer do to the stream of bytes: a queue, filled from its end by the put
    operations and from the socket, and emptied from its front. */
module ByteQueue {
  import opened Fragments
  import opened Network
  import opened Queues

  datatype Op =
    | Sputn(s: seq<byte>)
    | Sputc(c: byte)
    | Fill(s: seq<byte>, spare: nat)    // prepare(|s| + spare), s written into the buffers, commit(|s|)
    | Read(n: nat)                      // prepare(n), one read, commit: what the handler and async_read_until do
    | Sgetn(n: nat)
    | Sgetc
    | Consume(n: nat)
    | Detach(n: nat)
  {
    /** What is put. */
    function Data(): seq<byte> {
      match this
      case Sputn(s) => s
      case Sputc(c) => [c]
      case Fill(s, _) => s
      case _ => []
    }

    /** The room that the size check is asked for. */
    function Asked(): nat {
      match this
      case Fill(s, spare) => |s| + spare
      case _ => |Data()|
    }

    predicate Puts() {
      Sputn? || Sputc? || Fill?
    }

    predicate Gets() {
      Sgetn? || Sgetc?
    }
  }

  /** What an operation adds at the end. A put is all or nothing, by the size check; reading is one read;
      sgetc reads when nothing is shown and it finds an end of file. */
  predicate Adds(op: Op, allowance: int, q: Queue, arrived: seq<byte>, q': Queue) {
    match op
    case Read(n) =>
      q'.shown == q.shown && if n <= allowance then ReadsOnce(q.incoming, q'.incoming, n) else q'.incoming == q.incoming
    case Sgetn(_) => q.incoming == [] || allowance < 1024 ==> q'.incoming == q.incoming
    case Sgetc =>
      if q.shown == 0 && q.AtEof() && 1024 <= allowance then ReadsOnce(q.incoming, q'.incoming, 1024)
      else q'.incoming == q.incoming
    case _ =>
      && arrived == (if op.Asked() <= allowance then op.Data() else [])
      && q'.incoming == q.incoming && (op.Puts() ==> q'.shown == q.shown)
  }

  /** What an operation takes from the front: all that is asked for or all there is. xsgetn goes by rounds. */
  ghost predicate Takes(op: Op, allowance: int, q: Queue, taken: seq<byte>, gone: seq<byte>, q': Queue) {
    match op
    case Sgetn(n) =>
      && Gets(n, allowance, q, taken, gone, q')
      && Min(n, q.shown) <= |taken| <= n
      && (|taken| < n ==> q'.AtEof() && (q'.contents == [] ==> q'.incoming == [] || allowance < 1024))
    case Sgetc =>
      && taken == [] && if q.shown == 0 then Underflows(allowance, q, gone, q') else gone == [] && q' == q
    case Consume(n) => |taken| == Min(n, |q.contents|)
    case Detach(n) => |taken| == Min(n, |q.contents|)
    case _ => taken == []
  }

  /** One operation: `arrived` are the bytes that entered the contents, `gone` those that left them,
      `taken` those that were handed out, `seen` is the character that sgetc returns. */
  ghost predicate Moves(op: Op, allowance: int, q: Queue, arrived: seq<byte>, gone: seq<byte>, taken: seq<byte>,
                        seen: int, q': Queue) {
    && q.contents + arrived == gone + q'.contents
    && q.Unread() == (if op.Puts() then [] else arrived) + q'.Unread()
    && Adds(op, allowance, q, arrived, q') && Takes(op, allowance, q, taken, gone, q')
    && (op.Sgetc? ==> Reads(seen, q'))
    && Skips(gone, taken) && (!op.Gets() || q.incoming == [] || allowance < 1024 ==> gone == taken)
  }

  /** The first |arrivals| operations, one after the other. */
  ghost predicate Traced(allowance: int, ops: seq<Op>, trace: seq<Queue>, arrivals: seq<seq<byte>>,
                         gone: seq<seq<byte>>, pieces: seq<seq<byte>>, seen: seq<int>) {
    && |trace| == |arrivals| + 1 && |arrivals| == |gone| == |pieces| == |seen| <= |ops|
    && forall i | 0 <= i < |arrivals| ::
         Moves(ops[i], allowance, trace[i], arrivals[i], gone[i], pieces[i], seen[i], trace[i + 1])
  }

  lemma TraceGrows(allowance: int, ops: seq<Op>, trace: seq<Queue>, arrivals: seq<seq<byte>>, gone: seq<seq<byte>>,
                   pieces: seq<seq<byte>>, seen: seq<int>,
                   arrived: seq<byte>, left: seq<byte>, piece: seq<byte>, c: int, q: Queue)
    requires Traced(allowance, ops, trace, arrivals, gone, pieces, seen) && |arrivals| < |ops|
    requires Moves(ops[|arrivals|], allowance, trace[|arrivals|], arrived, left, piece, c, q)
    ensures Traced(allowance, ops, trace + [q], arrivals + [arrived], gone + [left], pieces + [piece], seen + [c])
  {
    hide Moves;
  }

  // ----- conservation -----

  /** The bytes, in order, that came from the socket: what arrived in operations that put nothing. */
  function FromSocket(ops: seq<Op>, arrivals: seq<seq<byte>>): seq<byte>
    requires |ops| == |arrivals|
  {
    if ops == [] then [] else
      var n := |ops| - 1;
      FromSocket(ops[..n], arrivals[..n]) + (if ops[n].Puts() then [] else arrivals[n])
  }

  /** What was there and what arrived is what is gone and what is left, in order; the socket's bytes
      arrive in order; and once the peer has closed all that is gone was handed out. */
  lemma {:induction false} Conservation(allowance: int, ops: seq<Op>, trace: seq<Queue>, arrivals: seq<seq<byte>>,
                                        gone: seq<seq<byte>>, pieces: seq<seq<byte>>, seen: seq<int>, k: nat)
    requires Traced(allowance, ops, trace, arrivals, gone, pieces, seen) && k <= |arrivals|
    ensures trace[0].contents + Join(arrivals[..k]) == Join(gone[..k]) + trace[k].contents
    ensures trace[0].Unread() == FromSocket(ops[..k], arrivals[..k]) + trace[k].Unread()
    ensures trace[0].incoming == [] ==> trace[k].incoming == [] && gone[..k] == pieces[..k]
  {
    if k > 0 {
      var n := k - 1;
      Conservation(allowance, ops, trace, arrivals, gone, pieces, seen, n);
      hide Join, Skips, FromSocket, Adds, Takes;
      assert Moves(ops[n], allowance, trace[n], arrivals[n], gone[n], pieces[n], seen[n], trace[n + 1]);
      if trace[0].incoming == [] {
        StaysClosed(ops[n], allowance, trace[n], arrivals[n], gone[n], pieces[n], seen[n], trace[n + 1]);
      }
      Prefixes(arrivals, n);
      Prefixes(gone, n);
      Prefixes(pieces, n);
      Account(trace[0].contents, arrivals[..n], arrivals[n], gone[..n], gone[n], trace[n].contents, trace[k].contents);
      SocketAccount(ops, n, arrivals[..n], arrivals[n], trace[0].Unread(), trace[n].Unread(), trace[k].Unread());
    }
  }

  lemma StaysClosed(op: Op, allowance: int, q: Queue, arrived: seq<byte>, gone: seq<byte>, taken: seq<byte>, seen: int,
                    q': Queue)
    requires Moves(op, allowance, q, arrived, gone, taken, seen, q') && q.incoming == []
    ensures q'.incoming == [] && gone == taken
  {
    hide Skips, Takes;
  }

  lemma Prefixes<T>(s: seq<T>, n: nat)
    requires n < |s|
    ensures s[..n + 1] == s[..n] + [s[n]]
  {
  }

  lemma Account(c0: seq<byte>, arrivals: seq<seq<byte>>, arrived: seq<byte>,
                gone: seq<seq<byte>>, left: seq<byte>, c: seq<byte>, c': seq<byte>)
    requires c0 + Join(arrivals) == Join(gone) + c && c + arrived == left + c'
    ensures c0 + Join(arrivals + [arrived]) == Join(gone + [left]) + c'
  {
    JoinOne(arrivals, arrived);
    JoinOne(gone, left);
    hide Join;
    MoveAlong(c0, Join(arrivals), arrived, Join(gone), left, c, c');
  }

  lemma MoveAlong(c0: seq<byte>, a: seq<byte>, x: seq<byte>, p: seq<byte>, y: seq<byte>, c: seq<byte>, c': seq<byte>)
    requires c0 + a == p + c && c + x == y + c'
    ensures c0 + (a + x) == (p + y) + c'
  {
    assert c0 + (a + x) == (c0 + a) + x;
    assert (p + c) + x == p + (c + x);
    assert p + (y + c') == (p + y) + c';
  }

  lemma SocketAccount(ops: seq<Op>, k: nat, arrivals: seq<seq<byte>>, arrived: seq<byte>,
                      u0: seq<byte>, u: seq<byte>, u': seq<byte>)
    requires k < |ops| && |arrivals| == k
    requires u0 == FromSocket(ops[..k], arrivals) + u && u == (if ops[k].Puts() then [] else arrived) + u'
    ensures u0 == FromSocket(ops[..k + 1], arrivals + [arrived]) + u'
  {
    assert ops[..k + 1][..k] == ops[..k] && (arrivals + [arrived])[..k] == arrivals;
  }

  // ----- without 0xFF -----

  predicate Free(s: seq<byte>) {
    255 !in s
  }

  lemma FreeParts(s: seq<byte>, t: seq<byte>)
    ensures Free(s + t) <==> Free(s) && Free(t)
  {
    assert forall x | x in s :: x in s + t;
    assert forall x | x in t :: x in s + t;
  }

  /** How many bytes an operation takes. */
  function Taking(op: Op, allowance: int, q: Queue): (n: nat)
    ensures n <= |q.contents + q.Unread()|
  {
    match op
    case Sgetn(n) => Min(n, |q.contents| + (if allowance < 1024 then 0 else |q.Unread()|))
    case Consume(n) => Min(n, |q.contents|)
    case Detach(n) => Min(n, |q.contents|)
    case _ => 0
  }

  /** Without 0xFF an operation takes exactly those bytes, from the front, and nothing else is gone. */
  lemma PlainStep(op: Op, allowance: int, q: Queue, arrived: seq<byte>, gone: seq<byte>, taken: seq<byte>, seen: int,
                  q': Queue)
    requires Moves(op, allowance, q, arrived, gone, taken, seen, q')
    requires Free(q.contents) && Free(q.Unread()) && Free(op.Data())
    ensures gone == taken == (q.contents + q.Unread())[..Taking(op, allowance, q)]
    ensures Free(q'.contents) && Free(q'.Unread())
  {
    hide Skips;
    if !op.Puts() {
      FreeParts(arrived, q'.Unread());
    }
    FreeParts(q.contents, arrived);
    FreeParts(gone, q'.contents);
    NoneSkipped(gone, taken);
    assert |gone| == Taking(op, allowance, q) by {
      assert |q.contents| + |arrived| == |gone| + |q'.contents|;
    }
    TakenIsFront(op, q, arrived, gone, q');
  }

  lemma TakenIsFront(op: Op, q: Queue, arrived: seq<byte>, gone: seq<byte>, q': Queue)
    requires q.contents + arrived == gone + q'.contents && (op.Puts() ==> gone == [])
    requires q.Unread() == (if op.Puts() then [] else arrived) + q'.Unread()
    ensures |gone| <= |q.contents + q.Unread()| && gone == (q.contents + q.Unread())[..|gone|]
  {
    if !op.Puts() {
      assert q.contents + q.Unread() == gone + (q'.contents + q'.Unread()) by {
        assert q.contents + q.Unread() == (q.contents + arrived) + q'.Unread();
      }
    }
  }

  /** Without 0xFF the buffer is a plain queue, over any run. */
  lemma {:induction false} PlainQueue(allowance: int, ops: seq<Op>, trace: seq<Queue>, arrivals: seq<seq<byte>>,
                                      gone: seq<seq<byte>>, pieces: seq<seq<byte>>, seen: seq<int>, k: nat)
    requires Traced(allowance, ops, trace, arrivals, gone, pieces, seen) && k <= |arrivals|
    requires Free(trace[0].contents) && Free(trace[0].Unread()) && forall op | op in ops :: Free(op.Data())
    ensures Free(trace[k].contents) && Free(trace[k].Unread())
    ensures forall i | 0 <= i < k ::
              gone[i] == pieces[i] == (trace[i].contents + trace[i].Unread())[..Taking(ops[i], allowance, trace[i])]
  {
    hide Moves, Taking, Free;
    if k > 0 {
      var n := k - 1;
      PlainQueue(allowance, ops, trace, arrivals, gone, pieces, seen, n);
      assert ops[n] in ops;
      assert Moves(ops[n], allowance, trace[n], arrivals[n], gone[n], pieces[n], seen[n], trace[n + 1]);
      PlainStep(ops[n], allowance, trace[n], arrivals[n], gone[n], pieces[n], seen[n], trace[n + 1]);
    }
  }
}
