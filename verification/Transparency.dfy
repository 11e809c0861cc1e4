/** What the fixer sends is what the scanners wait for: transparency (section 4.5.2 of RFC 5321). */
module Transparency {
  import opened Ascii
  import opened Fragments
  import opened Occurrences
  import opened BodyScanner
  import opened Fix

  ghost predicate NoMark(out: seq<byte>) {
    forall i | 0 <= i :: !Match(out, MARK, i)
  }

  /** One more byte that does not complete the mark. */
  lemma OneMore(out: seq<byte>, state: BodyScanner.State, c: byte)
    requires Tracks(state, out) && !state.Lf2? && NoMark(out) && !Next(state, c).Lf2?
    ensures Tracks(Next(state, c), out + [c]) && NoMark(out + [c])
  {
    NextTracks(state, out, c);
    hide Match, Ends;
    var more := out + [c];
    forall i | 0 <= i
      ensures !Match(more, MARK, i)
    {
      assert more[..|more|] == more;
      if i + 5 == |more| {
        EndsIsMatch(more, |more|);
      } else {
        ShortMatch(more, i);
        if i + 5 < |more| {
          MatchInPrefix(out, more, MARK, i);
        }
      }
    }
  }

  lemma ShortMatch(data: seq<byte>, i: nat)
    ensures Match(data, MARK, i) ==> i + 5 <= |data|
  {
  }

  /** Where the scanner can be when the fixer is in a given state. */
  predicate Follows(state: FixState, scanner: BodyScanner.State, nothingSent: bool) {
    match state
    case Init => if nothingSent then scanner.Dflt? else scanner.Lf1?
    case AfterCr => scanner.Cr1?
    case Default => scanner.Dflt? || scanner.Cr1?
  }

  /** The lines of a message never show the mark, whatever the message. */
  lemma {:induction false} NoMarkInLines(text: seq<byte>) returns (scanner: BodyScanner.State)
    ensures Tracks(scanner, Transform(Init, text)) && NoMark(Transform(Init, text))
    ensures Follows(StateAfter(Init, text), scanner, text == [])
    decreases |text|
  {
    if text == [] {
      scanner := Dflt;
    } else {
      var n := |text| - 1;
      var before := NoMarkInLines(text[..n]);
      assert text[..n] + [text[n]] == text;
      TransformOne(Init, text[..n], text[n]);
      scanner := SendOne(Transform(Init, text[..n]), StateAfter(Init, text[..n]), before, text[n], n == 0);
    }
  }

  lemma SendOne(out: seq<byte>, state: FixState, before: BodyScanner.State, c: byte, first: bool)
    returns (scanner: BodyScanner.State)
    requires Tracks(before, out) && NoMark(out) && Follows(state, before, first)
    ensures Tracks(scanner, out + Sent(state, c)) && NoMark(out + Sent(state, c))
    ensures Follows(NextState(state, c), scanner, false)
  {
    hide Tracks, NoMark;
    var sent := Sent(state, c);
    scanner := before;
    if |sent| == 2 {
      OneMore(out, scanner, sent[0]);
      scanner := Next(scanner, sent[0]);
      assert (out + [sent[0]]) + [c] == out + sent;
      OneMore(out + [sent[0]], scanner, c);
    } else {
      OneMore(out, scanner, c);
    }
    scanner := Next(scanner, c);
  }

  /** After the body, the scanner is at the beginning of a line: two bytes into the mark. */
  lemma NoMarkInBody(text: seq<byte>)
    requires text != []
    ensures Tracks(Lf1, Body(text)) && NoMark(Body(text))
  {
    var scanner := NoMarkInLines(text);
    var out := Transform(Init, text);
    hide Tracks, NoMark, Transform, StateAfter;
    match StateAfter(Init, text) {
      case Init =>
        assert out + [] == out;
      case AfterCr =>
        OneMore(out, scanner, LF);
      case Default =>
        OneMore(out, scanner, CR);
        OneMore(out + [CR], Cr1, LF);
        assert (out + [CR]) + [LF] == out + [CR, LF];
    }
  }

  /** A fixed message holds the mark once, at its very end, unless the message is empty: then it does not
      hold it at all. The scanners stop there whatever follows. */
  lemma Transparent(text: seq<byte>, rest: seq<byte>)
    ensures text != [] <==> Find(Fixed(text), MARK, 0) < |Fixed(text)|
    ensures text != [] ==> 5 <= |Fixed(text)| && Find(Fixed(text) + rest, MARK, 0) == |Fixed(text)| - 5
  {
    var body, all := Body(text), Fixed(text);
    if text == [] {
      assert all == [DOT, CR, LF];
      assert forall i: nat :: !Match(all, MARK, i);
      NoneIsNotFound(all, MARK, 0);
    } else {
      NoMarkInBody(text);
      assert all == (body + [DOT, CR]) + [LF];
      assert body + [DOT, CR] == (body + [DOT]) + [CR];
      OneMore(body, Lf1, DOT);
      OneMore(body + [DOT], Dot, CR);
      hide NoMark, Find;
      EndsAt(body + [DOT, CR]);
      FoundStays(all, all + rest, MARK, 0);
    }
  }

  lemma EndsAt(out: seq<byte>)
    requires Tracks(Cr2, out) && NoMark(out)
    ensures Find(out + [LF], MARK, 0) == |out| - 4
  {
    var all := out + [LF];
    NextTracks(Cr2, out, LF);
    assert all[..|all|] == all;
    EndsIsMatch(all, |all|);
    hide Ends, Match;
    forall i | 0 <= i < |out| - 4
      ensures !Match(all, MARK, i)
    {
      MatchInPrefix(out, all, MARK, i);
    }
    FindIs(all, MARK, 0, |out| - 4);
  }

  /** Every LF that is sent follows a CR. */
  predicate LinesEndCrLf(s: seq<byte>) {
    forall i | 0 <= i < |s| && s[i] == LF :: 0 < i && s[i - 1] == CR
  }

  lemma {:induction false} LinesAreCrLf(text: seq<byte>)
    ensures LinesEndCrLf(Transform(Init, text))
    ensures StateAfter(Init, text) == AfterCr ==> var out := Transform(Init, text); out != [] && out[|out| - 1] == CR
    decreases |text|
  {
    if text != [] {
      var n := |text| - 1;
      LinesAreCrLf(text[..n]);
      assert text[..n] + [text[n]] == text;
      hide Transform, StateAfter;
      TransformOne(Init, text[..n], text[n]);
      SentCrLf(Transform(Init, text[..n]), StateAfter(Init, text[..n]), text[n]);
    }
  }

  lemma SentCrLf(out: seq<byte>, state: FixState, c: byte)
    requires LinesEndCrLf(out) && (state == AfterCr ==> out != [] && out[|out| - 1] == CR)
    ensures LinesEndCrLf(out + Sent(state, c))
    ensures NextState(state, c) == AfterCr ==> var r := out + Sent(state, c); r[|r| - 1] == CR
  {
  }

  lemma FixedIsCrLf(text: seq<byte>)
    ensures LinesEndCrLf(Fixed(text))
  {
    LinesAreCrLf(text);
    hide Transform, StateAfter;
  }

  // ----- the receiver -----

  datatype LinePos = AtStart | SeenCr | Inside

  function NextPos(pos: LinePos, c: byte): LinePos {
    if c == CR then SeenCr else if c == LF && pos == SeenCr then AtStart else Inside
  }

  /** Takes away the first dot of each line that begins with one; lines end with CR LF. */
  function Unstuff(pos: LinePos, s: seq<byte>): seq<byte>
    decreases |s|
  {
    if s == [] then []
    else (if pos == AtStart && s[0] == DOT then [] else [s[0]]) + Unstuff(NextPos(pos, s[0]), s[1..])
  }

  function PosAfter(pos: LinePos, s: seq<byte>): LinePos
    decreases |s|
  {
    if s == [] then pos else PosAfter(NextPos(pos, s[0]), s[1..])
  }

  lemma {:induction false} UnstuffConcat(pos: LinePos, a: seq<byte>, b: seq<byte>)
    ensures Unstuff(pos, a + b) == Unstuff(pos, a) + Unstuff(PosAfter(pos, a), b)
    ensures PosAfter(pos, a + b) == PosAfter(PosAfter(pos, a), b)
    decreases |a|
  {
    if a == [] {
      assert a + b == b;
    } else {
      assert (a + b)[1..] == a[1..] + b;
      UnstuffConcat(NextPos(pos, a[0]), a[1..], b);
      var one := if pos == AtStart && a[0] == DOT then [] else [a[0]];
      assert Unstuff(pos, a + b) == one + Unstuff(NextPos(pos, a[0]), a[1..] + b);
    }
  }

  /** The text with a CR before each LF that does not follow an odd run of CRs. */
  function WithCrs(odd: bool, text: seq<byte>): seq<byte>
    decreases |text|
  {
    if text == [] then []
    else (if text[0] == LF && !odd then [CR, LF] else [text[0]]) + WithCrs(text[0] == CR && !odd, text[1..])
  }

  /** b is a with some CRs added, all of them just before an LF. */
  predicate OnlyCrsAdded(a: seq<byte>, b: seq<byte>)
    decreases |b|
  {
    if b == [] then a == []
    else
      a != [] &&
      ((a[0] == b[0] && OnlyCrsAdded(a[1..], b[1..]))
       || (a[0] == LF && |b| > 1 && b[0] == CR && b[1] == LF && OnlyCrsAdded(a[1..], b[2..])))
  }

  lemma {:induction false} WithCrsOnlyAdds(odd: bool, text: seq<byte>)
    ensures OnlyCrsAdded(text, WithCrs(odd, text))
    decreases |text|
  {
    if text != [] {
      var rest := WithCrs(text[0] == CR && !odd, text[1..]);
      WithCrsOnlyAdds(text[0] == CR && !odd, text[1..]);
      var out := WithCrs(odd, text);
      if text[0] == LF && !odd {
        assert out[2..] == rest;
      } else {
        assert out[1..] == rest;
      }
    }
  }

  /** Text whose lines end with CR LF, with no other CR or LF in it, is left alone. */
  predicate Canonical(afterCr: bool, text: seq<byte>)
    decreases |text|
  {
    if text == [] then !afterCr
    else (afterCr <==> text[0] == LF) && Canonical(text[0] == CR, text[1..])
  }

  lemma {:induction false} CanonicalStays(odd: bool, text: seq<byte>)
    requires Canonical(odd, text)
    ensures WithCrs(odd, text) == text
    decreases |text|
  {
    if text != [] {
      CanonicalStays(text[0] == CR, text[1..]);
      assert [text[0]] + text[1..] == text;
    }
  }

  /** Where the receiver is in its line when the fixer is in a given state. */
  predicate SameLine(state: FixState, pos: LinePos) {
    match state
    case Init => pos == AtStart
    case AfterCr => pos == SeenCr
    case Default => pos != AtStart
  }

  lemma {:induction false} UnstuffLines(state: FixState, pos: LinePos, text: seq<byte>)
    requires SameLine(state, pos)
    ensures Unstuff(pos, Transform(state, text)) == WithCrs(state == AfterCr, text)
    ensures SameLine(StateAfter(state, text), PosAfter(pos, Transform(state, text)))
    decreases |text|
  {
    if text != [] {
      var c := text[0];
      UnstuffSent(state, pos, c);
      UnstuffConcat(pos, Sent(state, c), Transform(NextState(state, c), text[1..]));
      UnstuffLines(NextState(state, c), PosAfter(pos, Sent(state, c)), text[1..]);
    }
  }

  lemma UnstuffSent(state: FixState, pos: LinePos, c: byte)
    requires SameLine(state, pos)
    ensures Unstuff(pos, Sent(state, c)) == if c == LF && state != AfterCr then [CR, LF] else [c]
    ensures SameLine(NextState(state, c), PosAfter(pos, Sent(state, c)))
    ensures NextState(state, c) == AfterCr <==> c == CR && state != AfterCr
  {
    UnstuffOne(pos, c);
    UnstuffTwo(pos, DOT, DOT);
    UnstuffTwo(pos, CR, LF);
  }

  lemma UnstuffOne(pos: LinePos, c: byte)
    ensures Unstuff(pos, [c]) == if pos == AtStart && c == DOT then [] else [c]
    ensures PosAfter(pos, [c]) == NextPos(pos, c)
  {
    assert [c][1..] == [];
  }

  lemma UnstuffTwo(pos: LinePos, a: byte, b: byte)
    ensures Unstuff(pos, [a, b]) == Unstuff(pos, [a]) + Unstuff(NextPos(pos, a), [b])
    ensures PosAfter(pos, [a, b]) == NextPos(NextPos(pos, a), b)
  {
    UnstuffOne(pos, a);
    UnstuffOne(NextPos(pos, a), b);
    assert [a, b] == [a] + [b];
    UnstuffConcat(pos, [a], [b]);
  }

  /** The receiver gets the message, with CRs where they were missing and the last line ended. */
  lemma RoundTrip(text: seq<byte>)
    ensures Unstuff(AtStart, Body(text)) == WithCrs(false, Ended(text))
    ensures OnlyCrsAdded(if text == [] || text[|text| - 1] == LF then text else text + [LF],
                         Unstuff(AtStart, Body(text)))
    ensures OnlyCrsAdded(text, WithCrs(false, text))
  {
    Received(text);
    EndedIs(text);
    WithCrsOnlyAdds(false, text);
    WithCrsOnlyAdds(false, Ended(text));
  }

  /** The message with an LF at its end, unless it is empty or has one. */
  function Ended(text: seq<byte>): seq<byte> {
    if text == [] || text[|text| - 1] == LF then text else text + [LF]
  }

  lemma Received(text: seq<byte>)
    ensures Unstuff(AtStart, Body(text)) == WithCrs(false, text) + LineEnd(StateAfter(Init, text))
  {
    UnstuffLines(Init, AtStart, text);
    var out, state := Transform(Init, text), StateAfter(Init, text);
    var pos := PosAfter(AtStart, out);
    UnstuffConcat(AtStart, out, LineEnd(state));
    hide Transform, StateAfter, PosAfter;
    UnstuffOne(pos, LF);
    UnstuffTwo(pos, CR, LF);
    UnstuffOne(pos, CR);
    UnstuffOne(NextPos(pos, CR), LF);
  }

  lemma EndedIs(text: seq<byte>)
    ensures WithCrs(false, Ended(text)) == WithCrs(false, text) + LineEnd(StateAfter(Init, text))
  {
    StateIs(text);
    CrsWhereNeeded(text, LF);
    hide WithCrs, StateAfter, CrRun;
    assert WithCrs(false, text) + [] == WithCrs(false, text);
  }

  /** "a" LF ".b" is sent as "a" CR LF "..b" CR LF "." CR LF, in numbers. */
  lemma DottedLine()
    ensures Fixed([97, 10, 46, 98]) == [97, 13, 10, 46, 46, 98, 13, 10, 46, 13, 10]
  {
    assert StateAfter(Init, []) == Init && Transform(Init, []) == [];
    hide Transform, StateAfter;
    SendMore([], 97, Init, []);
    SendMore([97], 10, Default, [97]);
    SendMore([97, 10], 46, Init, [97, 13, 10]);
    SendMore([97, 10, 46], 98, Default, [97, 13, 10, 46, 46]);
  }

  lemma SendMore(text: seq<byte>, c: byte, state: FixState, out: seq<byte>)
    requires StateAfter(Init, text) == state && Transform(Init, text) == out
    ensures StateAfter(Init, text + [c]) == NextState(state, c) && Transform(Init, text + [c]) == out + Sent(state, c)
  {
    TransformOne(Init, text, c);
  }

  // ----- where CRs are added -----

  /** The number of CRs that the text ends with. */
  function CrRun(text: seq<byte>): nat {
    if text == [] || text[|text| - 1] != CR then 0 else 1 + CrRun(text[..|text| - 1])
  }

  /** A CR is added before an LF that follows an even number of CRs, and nowhere else. */
  lemma CrsWhereNeeded(text: seq<byte>, c: byte)
    ensures WithCrs(false, text + [c]) ==
              WithCrs(false, text) + (if c == LF && CrRun(text) % 2 == 0 then [CR, LF] else [c])
  {
    WithCrsSnoc(false, text, c);
    OddIsRun(text);
  }

  function OddAfter(odd: bool, text: seq<byte>): bool
    decreases |text|
  {
    if text == [] then odd else OddAfter(text[0] == CR && !odd, text[1..])
  }

  lemma {:induction false} WithCrsSnoc(odd: bool, text: seq<byte>, c: byte)
    ensures WithCrs(odd, text + [c]) ==
              WithCrs(odd, text) + (if c == LF && !OddAfter(odd, text) then [CR, LF] else [c])
    ensures OddAfter(odd, text + [c]) <==> c == CR && !OddAfter(odd, text)
    decreases |text|
  {
    assert (text + [c])[0] == if text == [] then c else text[0];
    if text == [] {
      assert text + [c] == [c] && [c][1..] == [];
    } else {
      assert (text + [c])[1..] == text[1..] + [c];
      WithCrsSnoc(text[0] == CR && !odd, text[1..], c);
    }
  }

  lemma {:induction false} OddIsRun(text: seq<byte>)
    ensures OddAfter(false, text) <==> CrRun(text) % 2 == 1
    decreases |text|
  {
    if text != [] {
      var n := |text| - 1;
      OddIsRun(text[..n]);
      assert text == text[..n] + [text[n]];
      WithCrsSnoc(false, text[..n], text[n]);
    }
  }

  /** What the state of the fixer says of the message so far. */
  lemma {:induction false} StateIs(text: seq<byte>)
    ensures StateAfter(Init, text) == Init <==> text == [] || text[|text| - 1] == LF
    ensures StateAfter(Init, text) == AfterCr <==> CrRun(text) % 2 == 1
    decreases |text|
  {
    if text != [] {
      var n := |text| - 1;
      StateIs(text[..n]);
      assert text == text[..n] + [text[n]];
      TransformOne(Init, text[..n], text[n]);
    }
  }

  /** End to end: the server cuts exactly the client's message out of its input, and undoes the stuffing. */
  lemma EndToEnd(text: seq<byte>, rest: seq<byte>)
    requires text != []
    ensures var input := Fixed(text) + rest;
            var end := Find(input, MARK, 0);
            && end + 5 <= |input|
            && Unstuff(AtStart, input[..end + 2]) == WithCrs(false, Ended(text))
            && OnlyCrsAdded(if text[|text| - 1] == LF then text else text + [LF], Unstuff(AtStart, input[..end + 2]))
            && input[end + 5..] == rest
  {
    Transparent(text, rest);
    RoundTrip(text);
    hide Find, Transform, StateAfter, Unstuff, WithCrs, OnlyCrsAdded;
    var input := Fixed(text) + rest;
    assert input[..|Fixed(text)| - 3] == Body(text);
    assert input[|Fixed(text)|..] == rest;
  }
}
