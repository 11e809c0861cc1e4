/**
  The end-of-data scanners: src/common/rfc822_v2/smtp_body_parser.h, the older copy in
  src/common/rfc822/rfc2822_grammar.h and the loop in src/server/coro/session.h. A message is
  everything up to the first CR LF . CR LF (section 4.1.1.4 of RFC 5321).
 */
module BodyScanner {
  import opened Ascii
  import opened Fragments
  import opened Occurrences

  const MARK: seq<byte> := [CR, LF, DOT, CR, LF]

  datatype State = Dflt | Cr1 | Lf1 | Dot | Cr2 | Lf2

  /** How much of the mark has been read in each state. */
  function Depth(state: State): nat {
    match state
    case Dflt => 0 case Cr1 => 1 case Lf1 => 2 case Dot => 3 case Cr2 => 4 case Lf2 => 5
  }

  /** The data ends with the first k bytes of the mark. */
  predicate Ends(data: seq<byte>, k: nat)
    requires k <= 5
  {
    var at := |data| - k;
    && 0 <= at
    && (1 <= k ==> data[at] == CR) && (2 <= k ==> data[at + 1] == LF) && (3 <= k ==> data[at + 2] == DOT)
    && (4 <= k ==> data[at + 3] == CR) && (5 <= k ==> data[at + 4] == LF)
  }

  /** The state is the longest beginning of the mark that the data ends with. */
  predicate Tracks(state: State, data: seq<byte>) {
    Ends(data, Depth(state)) && forall k | Depth(state) < k <= 5 :: !Ends(data, k)
  }

  /** The transitions of such a matcher. */
  function Next(state: State, c: byte): State
    requires !state.Lf2?
  {
    if c == CR then (if state.Dot? then Cr2 else Cr1)
    else if c == LF then (if state.Cr1? then Lf1 else if state.Cr2? then Lf2 else Dflt)
    else if c == DOT && state.Lf1? then Dot
    else Dflt
  }

  lemma EndsStep(data: seq<byte>, c: byte, k: nat)
    requires k < 5
    ensures Ends(data + [c], k + 1) <==> Ends(data, k) && c == MARK[k]
  {
  }

  lemma EndsIsMatch(data: seq<byte>, n: nat)
    requires 5 <= n <= |data|
    ensures Ends(data[..n], 5) <==> Match(data, MARK, n - 5)
  {
    var w := data[n - 5..n - 5 + 5];
    assert w == MARK <==> w[0] == CR && w[1] == LF && w[2] == DOT && w[3] == CR && w[4] == LF;
  }

  /** The transitions keep track. */
  lemma NextTracks(state: State, data: seq<byte>, c: byte)
    requires Tracks(state, data) && !state.Lf2?
    ensures Tracks(Next(state, c), data + [c])
  {
    EndsStep(data, c, 0);
    EndsStep(data, c, 1);
    EndsStep(data, c, 2);
    EndsStep(data, c, 3);
    EndsStep(data, c, 4);
  }

  /** What each scanner knows after n bytes: where it is in the mark, where that began, and that the
      mark has not been there before. */
  ghost predicate Scanned(data: seq<byte>, n: nat, state: State, saved: nat) {
    && n <= |data| && Tracks(state, data[..n])
    && (state.Dflt? || saved == n - Depth(state))
    && forall i | 0 <= i < n - (if state.Lf2? then 5 else 4) :: !Match(data, MARK, i)
  }

  lemma ScannedStep(data: seq<byte>, n: nat, state: State, saved: nat, next: State, saved': nat)
    requires Scanned(data, n, state, saved) && n < |data| && !state.Lf2?
    requires next == Next(state, data[n]) && saved' == if next.Cr1? then n else saved
    ensures Scanned(data, n + 1, next, saved')
  {
    assert data[..n + 1] == data[..n] + [data[n]];
    NextTracks(state, data[..n], data[n]);
    if 5 <= n + 1 {
      EndsIsMatch(data, n + 1);
    }
  }

  lemma ScannedAll(data: seq<byte>, n: nat, state: State, saved: nat)
    requires Scanned(data, n, state, saved) && (state.Lf2? || n == |data|)
    ensures if state.Lf2? then saved == n - 5 == Find(data, MARK, 0) else Find(data, MARK, 0) == |data|
  {
    if state.Lf2? {
      EndsIsMatch(data, n);
      FindIs(data, MARK, 0, saved);
    } else {
      NoneIsNotFound(data, MARK, 0);
    }
  }

  /** smtp_body_parser::parse of rfc822_v2, without a skipper. */
  method ParseBody(data: seq<byte>) returns (first: nat)
    ensures first == Find(data, MARK, 0)
  {
    first := 0;
    var last, saved, state := |data|, 0, Dflt;
    while first != last
      invariant 0 <= first <= last && Scanned(data, first, state, saved) && !state.Lf2?
    {
      ghost var was, before := state, saved;
      match data[first] {
        case 13 =>
          if state == Dot {
            state := Cr2;
          } else {
            state := Cr1;
            saved := first;
          }
        case 10 =>
          state := if state == Cr1 then Lf1 else if state == Cr2 then Lf2 else Dflt;
        case 46 =>
          state := if state == Lf1 then Dot else Dflt;
        case _ =>
          state := Dflt;
      }
      ScannedStep(data, first, was, before, state, saved);
      if state == Lf2 {
        break;
      }
      first := first + 1;
    }
    ScannedAll(data, if state.Lf2? then first + 1 else first, state, saved);
    if state == Lf2 {
      first := saved;
    }
  }

  /** smtp_body_parser::parse of rfc2822_grammar.h: the length of the match and where the scan goes on. */
  method ParseBodyCounting(data: seq<byte>) returns (length: int, first: nat)
    ensures length == first == Find(data, MARK, 0)
  {
    first := 0;
    var last: nat, len, state := 0, 0, Dflt;
    while first != |data|
      invariant 0 <= first <= |data| && len == first && Scanned(data, first, state, last) && !state.Lf2?
    {
      len := len + 1;
      ghost var was, before := state, last;
      match data[first] {
        case 13 =>
          if state == Dot {
            state := Cr2;
          } else {
            state := Cr1;
            last := first;
          }
        case 10 =>
          state := match state case Cr1 => Lf1 case Cr2 => Lf2 case _ => Dflt;
        case 46 =>
          state := if state == Lf1 then Dot else Dflt;
        case _ =>
          state := Dflt;
      }
      ScannedStep(data, first, was, before, state, last);
      if state == Lf2 {
        break;
      }
      first := first + 1;
    }
    ScannedAll(data, len, state, last);
    if state == Lf2 {
      length, first := len - 5, last;
    } else {
      length := len;
    }
  }

  /** The loop of the session: found unless the stream ends first; last is where the mark begins, iter
      stays on its last byte. */
  method ReadBody(data: seq<byte>) returns (found: bool, last: nat, iter: nat)
    ensures found <==> Find(data, MARK, 0) < |data|
    ensures found ==> last == Find(data, MARK, 0) && iter == last + 4
    ensures !found ==> iter == |data|
  {
    iter, last := 0, 0;
    var state := Dflt;
    while iter < |data| && state != Lf2
      invariant 0 <= iter <= |data| && (state.Lf2? ==> iter < |data|)
      invariant Scanned(data, if state.Lf2? then iter + 1 else iter, state, last)
      decreases |data| - iter, state != Lf2
    {
      ghost var was, before := state, last;
      match data[iter] {
        case 13 =>
          match state {
            case Dot => state := Cr2;
            case _ => state, last := Cr1, iter;
          }
        case 46 =>
          state := if state == Lf1 then Dot else Dflt;
        case 10 =>
          match state {
            case Cr1 => state := Lf1;
            case Cr2 => state := Lf2;
            case _ => state := Dflt;
          }
        case _ =>
          state := Dflt;
      }
      ScannedStep(data, iter, was, before, state, last);
      if state != Lf2 {
        iter := iter + 1;
      }
    }
    ScannedAll(data, if state.Lf2? then iter + 1 else iter, state, last);
    found := state == Lf2;
  }
}
