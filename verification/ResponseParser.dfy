/**
  response_parser (src/client/response_parser.h): reads a server's reply as its bytes arrive. A reply
  has any number of lines, all but the last with a hyphen after the code (section 4.2 of RFC 5321).
 */
module ResponseParser {
  import opened Ascii
  import opened Fragments

  datatype ParserState = Init | Digit1 | Digit2 | Digit3 | Cont | Message | Cr

  /** The tribool of the program. */
  datatype Verdict = Yes | No | More

  datatype Response = Response(code: int, msg: seq<byte>, cont: bool)

  function Digit(c: byte): int {
    c as int - 48
  }

  // ----- one byte, and many -----

  datatype Outcome = Outcome(state: ParserState, resp: Response, verdict: Verdict, used: nat)

  function FirstDigit(state: ParserState, resp: Response, c: byte): Outcome {
    if !IsDigit(c) then Outcome(state, resp, No, 1)
    else Outcome(Digit2, resp.(code := 100 * Digit(c)), More, 1)
  }

  function LineDone(state: ParserState, resp: Response, c: byte): Outcome {
    if c != LF then Outcome(state, resp, No, 1)
    else if resp.cont then Outcome(Digit1, resp.(msg := resp.msg + [SPACE]), More, 1)
    else Outcome(state, resp, Yes, 1)
  }

  function One(state: ParserState, resp: Response, c: byte): Outcome {
    match state
    case Init => FirstDigit(Init, Response(0, [], false), c)
    case Digit1 => FirstDigit(Digit1, resp, c)
    case Digit2 =>
      if !IsDigit(c) then Outcome(Digit2, resp, No, 1)
      else Outcome(Digit3, resp.(code := resp.code + 10 * Digit(c)), More, 1)
    case Digit3 =>
      if !IsDigit(c) then Outcome(Digit3, resp, No, 1)
      else Outcome(Cont, resp.(code := resp.code + Digit(c)), More, 1)
    case Cont =>
      if c == SPACE then Outcome(Message, resp.(cont := false), More, 1)
      else if c == HYPHEN then Outcome(Message, resp.(cont := true), More, 1)
      else Outcome(Cont, resp, No, 1)
    case Message =>
      if c == CR then Outcome(Cr, resp, More, 1)
      else if c != LF then Outcome(Message, resp.(msg := resp.msg + [c]), More, 1)
      else LineDone(Message, resp, c)
    case Cr => LineDone(Cr, resp, c)
  }

  /** All of s, or as much as it takes to decide. */
  function Run(state: ParserState, resp: Response, s: seq<byte>): (r: Outcome)
    ensures r.used <= |s| && (r.verdict == More ==> r.used == |s|)
    decreases |s|
  {
    if s == [] then Outcome(state, resp, More, 0)
    else
      var o := One(state, resp, s[0]);
      if o.verdict != More then o
      else var rest := Run(o.state, o.resp, s[1..]); rest.(used := rest.used + 1)
  }

  /** Feeding the bytes in any pieces gives the same result and the same stopping point. */
  lemma {:induction false} RunConcat(state: ParserState, resp: Response, a: seq<byte>, b: seq<byte>)
    ensures var first := Run(state, resp, a);
            Run(state, resp, a + b) ==
              if first.verdict != More then first
              else var rest := Run(first.state, first.resp, b); rest.(used := rest.used + |a|)
    decreases |a|
  {
    if a == [] {
      assert a + b == b;
    } else {
      assert (a + b)[1..] == a[1..] + b && (a + b)[0] == a[0];
      var o := One(state, resp, a[0]);
      if o.verdict == More {
        RunConcat(o.state, o.resp, a[1..], b);
      }
      hide One;
    }
  }

  class ServerResponse {
    var code: int
    var msg: seq<byte>
    var cont: bool

    constructor ()
    {
    }

    function Value(): Response
      reads this
    {
      Response(code, msg, cont)
    }
  }

  class Parser {
    var state: ParserState

    constructor ()
      ensures state == Init
    {
      state := Init;
    }

    method Reset()
      modifies this
      ensures state == Init
    {
      state := Init;
    }

    method Consume(resp: ServerResponse, input: byte) returns (r: Verdict)
      modifies this, resp
      ensures Outcome(state, resp.Value(), r, 1) == One(old(state), old(resp.Value()), input)
    {
      if state == Init {
        resp.msg := [];
        resp.cont := false;
        resp.code := 0;
      }
      match state {
        case Init => r := ConsumeFirstDigit(resp, input);
        case Digit1 => r := ConsumeFirstDigit(resp, input);
        case Digit2 =>
          if !IsDigit(input) {
            return No;
          }
          state := Digit3;
          resp.code := resp.code + 10 * (input as int - 48);
          r := More;
        case Digit3 =>
          if !IsDigit(input) {
            return No;
          }
          state := Cont;
          resp.code := resp.code + 1 * (input as int - 48);
          r := More;
        case Cont =>
          if input == SPACE {
            resp.cont := false;
          } else if input == HYPHEN {
            resp.cont := true;
          } else {
            return No;
          }
          state := Message;
          r := More;
        case Message =>
          if input == CR {
            state := Cr;
            return More;
          }
          if input != LF {
            resp.msg := resp.msg + [input];
            return More;
          }
          r := ConsumeLineEnd(resp, input);
        case Cr => r := ConsumeLineEnd(resp, input);
      }
    }

    /** case digit1, which case init falls into. */
    method ConsumeFirstDigit(resp: ServerResponse, input: byte) returns (r: Verdict)
      modifies this, resp
      ensures Outcome(state, resp.Value(), r, 1) == FirstDigit(old(state), old(resp.Value()), input)
    {
      if !IsDigit(input) {
        return No;
      }
      state := Digit2;
      resp.code := 100 * (input as int - 48);
      return More;
    }

    /** case cr, which case message falls into. */
    method ConsumeLineEnd(resp: ServerResponse, input: byte) returns (r: Verdict)
      modifies this, resp
      ensures Outcome(state, resp.Value(), r, 1) == LineDone(old(state), old(resp.Value()), input)
    {
      if input != LF {
        return No;
      }
      if resp.cont {
        resp.msg := resp.msg + [SPACE];
        state := Digit1;
        return More;
      }
      return Yes;
    }

    method Parse(resp: ServerResponse, data: seq<byte>) returns (result: Verdict, pos: nat)
      modifies this, resp
      ensures Outcome(state, resp.Value(), result, pos) == Run(old(state), old(resp.Value()), data)
    {
      hide One;
      pos := 0;
      while pos != |data|
        invariant 0 <= pos <= |data|
        invariant Outcome(state, resp.Value(), More, pos) == Run(old(state), old(resp.Value()), data[..pos])
      {
        ghost var st, rv := state, resp.Value();
        result := Consume(resp, data[pos]);
        RunConcat(old(state), old(resp.Value()), data[..pos], [data[pos]]);
        assert data[..pos + 1] == data[..pos] + [data[pos]];
        RunOne(st, rv, data[pos]);
        pos := pos + 1;
        if result == Yes || result == No {
          RunConcat(old(state), old(resp.Value()), data[..pos], data[pos..]);
          assert data == data[..pos] + data[pos..];
          return;
        }
      }
      assert data[..pos] == data;
      result := More;
    }
  }

  lemma RunOne(state: ParserState, resp: Response, c: byte)
    ensures Run(state, resp, [c]) == One(state, resp, c)
  {
    assert [c][1..] == [];
  }

  // ----- replies -----

  datatype Line = Line(d1: byte, d2: byte, d3: byte, text: seq<byte>, crLf: bool)

  predicate ValidLine(l: Line) {
    IsDigit(l.d1) && IsDigit(l.d2) && IsDigit(l.d3) && CR !in l.text && LF !in l.text
  }

  predicate ValidReply(lines: seq<Line>) {
    lines != [] && forall l | l in lines :: ValidLine(l)
  }

  /** The program takes a bare LF for a line end, too. */
  function Ending(l: Line): seq<byte> {
    if l.crLf then [CR, LF] else [LF]
  }

  function PrintLine(l: Line, last: bool): seq<byte> {
    [l.d1, l.d2, l.d3, if last then SPACE else HYPHEN] + l.text + Ending(l)
  }

  function Print(lines: seq<Line>): seq<byte>
    requires lines != []
  {
    if |lines| == 1 then PrintLine(lines[0], true) else PrintLine(lines[0], false) + Print(lines[1..])
  }

  function Code(l: Line): int {
    100 * Digit(l.d1) + 10 * Digit(l.d2) + Digit(l.d3)
  }

  /** The texts with spaces between them. */
  function Texts(lines: seq<Line>): seq<byte>
    requires lines != []
  {
    if |lines| == 1 then lines[0].text else lines[0].text + [SPACE] + Texts(lines[1..])
  }

  lemma {:induction false} RunText(resp: Response, text: seq<byte>)
    requires CR !in text && LF !in text
    ensures Run(Message, resp, text) == Outcome(Message, resp.(msg := resp.msg + text), More, |text|)
    decreases |text|
  {
    if text == [] {
      assert resp.msg + text == resp.msg;
    } else {
      var next := resp.(msg := resp.msg + [text[0]]);
      RunText(next, text[1..]);
      assert (resp.msg + [text[0]]) + text[1..] == resp.msg + text;
    }
  }

  lemma RunHead(state: ParserState, resp: Response, l: Line, last: bool)
    requires (state.Init? || state.Digit1?) && ValidLine(l)
    ensures var msg := if state.Init? then [] else resp.msg;
            Run(state, resp, [l.d1, l.d2, l.d3, if last then SPACE else HYPHEN]) ==
              Outcome(Message, Response(Code(l), msg, !last), More, 4)
  {
    var sep := if last then SPACE else HYPHEN;
    var s := [l.d1, l.d2, l.d3, sep];
    assert s[1..] == [l.d2, l.d3, sep] && s[1..][1..] == [l.d3, sep] && s[1..][1..][1..] == [sep];
    var o1 := One(state, resp, l.d1);
    var o2 := One(o1.state, o1.resp, l.d2);
    var o3 := One(o2.state, o2.resp, l.d3);
    RunOne(o3.state, o3.resp, sep);
    assert Run(o2.state, o2.resp, [l.d3, sep]).used == 2;
    assert Run(o1.state, o1.resp, [l.d2, l.d3, sep]).used == 3;
  }

  lemma RunEnding(resp: Response, l: Line)
    ensures var o := Run(Message, resp, Ending(l));
            && o.used == |Ending(l)|
            && if resp.cont then o.verdict == More && o.state == Digit1 && o.resp == resp.(msg := resp.msg + [SPACE])
               else o.verdict == Yes && o.state == (if l.crLf then Cr else Message) && o.resp == resp
  {
    RunOne(Message, resp, LF);
    RunOne(Cr, resp, LF);
    assert [CR, LF][1..] == [LF];
  }

  lemma RunLine(state: ParserState, resp: Response, l: Line, last: bool)
    requires (state.Init? || state.Digit1?) && ValidLine(l)
    ensures var msg := if state.Init? then [] else resp.msg;
            var o := Run(state, resp, PrintLine(l, last));
            && o.used == |PrintLine(l, last)|
            && if last then
                 && o.verdict == Yes && o.state == (if l.crLf then Cr else Message)
                 && o.resp == Response(Code(l), msg + l.text, false)
               else o.verdict == More && o.state == Digit1 && o.resp == Response(Code(l), msg + l.text + [SPACE], true)
  {
    hide Run, One;
    var msg := if state.Init? then [] else resp.msg;
    var head := [l.d1, l.d2, l.d3, if last then SPACE else HYPHEN];
    var r1 := Response(Code(l), msg, !last);
    var r2 := r1.(msg := msg + l.text);
    RunHead(state, resp, l, last);
    RunText(r1, l.text);
    RunConcat(state, resp, head, l.text);
    RunEnding(r2, l);
    RunConcat(state, resp, head + l.text, Ending(l));
  }

  /** A printed reply is accepted at its last byte, whatever follows: the code of the last line and the
      texts joined by spaces. */
  lemma {:induction false} RunReply(state: ParserState, resp: Response, lines: seq<Line>, rest: seq<byte>)
    requires (state.Init? || state.Digit1?) && ValidReply(lines)
    ensures var msg := if state.Init? then [] else resp.msg;
            var o := Run(state, resp, Print(lines) + rest);
            && o.verdict == Yes && o.used == |Print(lines)|
            && o.resp == Response(Code(lines[|lines| - 1]), msg + Texts(lines), false)
            && o.state == (if lines[|lines| - 1].crLf then Cr else Message)
    decreases |lines|
  {
    hide Run, One, Code, PrintLine, ValidLine;
    var l := lines[0];
    assert l in lines;
    RunLine(state, resp, l, |lines| == 1);
    if |lines| == 1 {
      RunConcat(state, resp, Print(lines), rest);
    } else {
      var o := Run(state, resp, PrintLine(l, false));
      RunReply(Digit1, o.resp, lines[1..], rest);
      RunConcat(state, resp, PrintLine(l, false), Print(lines[1..]) + rest);
      assert PrintLine(l, false) + (Print(lines[1..]) + rest) == Print(lines) + rest;
      var msg := if state.Init? then [] else resp.msg;
      assert (msg + l.text + [SPACE]) + Texts(lines[1..]) == msg + (l.text + [SPACE] + Texts(lines[1..]));
    }
  }

  /** Without a reset the parser is of no use for the next reply: after CR LF it rejects whatever is not an LF,
      and after a bare LF it takes the next reply for more text. */
  lemma NoReset(resp: Response, lines: seq<Line>, next: seq<byte>)
    requires ValidReply(lines) && next != [] && next[0] != LF
    ensures var o := Run(Init, resp, Print(lines));
            var again := Run(o.state, o.resp, next);
            if lines[|lines| - 1].crLf then again.verdict == No && again.used == 1 && again.resp == o.resp
            else CR !in next && LF !in next ==>
                   again.verdict == More && again.resp == o.resp.(msg := Texts(lines) + next)
  {
    RunReply(Init, resp, lines, []);
    assert Print(lines) + [] == Print(lines) && [] + Texts(lines) == Texts(lines);
    var o := Run(Init, resp, Print(lines));
    if !lines[|lines| - 1].crLf && CR !in next && LF !in next {
      RunText(o.resp, next);
    }
    hide Print, Texts, Code, ValidLine;
  }

  /** A byte that is rejected moves nothing, but that a new reply has been begun. */
  lemma RejectedStays(state: ParserState, resp: Response, c: byte)
    requires One(state, resp, c).verdict == No
    ensures var o := One(state, resp, c);
            o.state == state && o.resp == if state.Init? then Response(0, [], false) else resp
  {
  }

  /** "250-a" CR LF "354 b" LF, in numbers. */
  lemma TwoLines(resp: Response)
    ensures Run(Init, resp, [50, 53, 48, 45, 97, 13, 10, 51, 53, 52, 32, 98, 10]) ==
              Outcome(Message, Response(354, [97, 32, 98], false), Yes, 13)
  {
    var lines := [Line(50, 53, 48, [97], true), Line(51, 53, 52, [98], false)];
    assert lines[1..] == [lines[1]];
    assert Print(lines) == [50, 53, 48, 45, 97, 13, 10, 51, 53, 52, 32, 98, 10];
    assert Texts(lines) == [97, 32, 98];
    RunReply(Init, resp, lines, []);
    assert Print(lines) + [] == Print(lines) && [] + Texts(lines) == Texts(lines);
  }

  /** Every proper prefix of a reply leaves the result open. */
  lemma PrefixIsOpen(resp: Response, lines: seq<Line>, k: nat)
    requires ValidReply(lines) && k < |Print(lines)|
    ensures Run(Init, resp, Print(lines)[..k]).verdict == More
  {
    var all := Print(lines);
    RunReply(Init, resp, lines, []);
    assert all + [] == all && all[..k] + all[k..] == all;
    RunConcat(Init, resp, all[..k], all[k..]);
  }

  // ----- nothing else is accepted -----

  /** The bytes up to the first CR or LF. */
  function TextOf(s: seq<byte>): (k: nat)
    ensures k <= |s| && CR !in s[..k] && LF !in s[..k]
    ensures k < |s| ==> s[k] == CR || s[k] == LF
  {
    if s == [] || s[0] == CR || s[0] == LF then 0
    else
      var k := TextOf(s[1..]);
      assert s[..k + 1] == [s[0]] + s[1..][..k];
      k + 1
  }

  /** A step that decided nothing can be taken off the front of an accepting run. */
  lemma AcceptStep(state: ParserState, resp: Response, s: seq<byte>)
    requires Run(state, resp, s).verdict == Yes
    ensures s != []
    ensures var o := One(state, resp, s[0]);
            o.verdict == Yes || (o.verdict == More && Run(o.state, o.resp, s[1..]).verdict == Yes)
  {
    hide One;
  }

  /** An accepted rest of a line has a line end after its text. */
  lemma LineEndOf(resp: Response, s: seq<byte>) returns (crLf: bool)
    requires Run(Message, resp, s).verdict == Yes
    ensures var k := TextOf(s); var e := if crLf then [CR, LF] else [LF];
            k + |e| <= |s| && s[k..k + |e|] == e
  {
    var k := TextOf(s);
    var r := resp.(msg := resp.msg + s[..k]);
    var t := s[k..];
    RunText(resp, s[..k]);
    assert s == s[..k] + t;
    RunConcat(Message, resp, s[..k], t);
    hide Run;
    AcceptStep(Message, r, t);
    crLf := t[0] == CR;
    hide TextOf;
    if crLf {
      AcceptStep(Cr, r, t[1..]);
      assert t[1..][0] == LF;
    }
    StartOfRest(s, k, if crLf then [CR, LF] else [LF]);
  }

  lemma StartOfRest(s: seq<byte>, k: nat, e: seq<byte>)
    requires k + |e| <= |s| && forall i | 0 <= i < |e| :: s[k..][i] == e[i]
    ensures s[k..k + |e|] == e
  {
  }

  /** An accepted line begins with three digits and a space or hyphen. */
  lemma HeadOf(state: ParserState, resp: Response, s: seq<byte>) returns (last: bool)
    requires (state.Init? || state.Digit1?) && Run(state, resp, s).verdict == Yes
    ensures 4 <= |s| && IsDigit(s[0]) && IsDigit(s[1]) && IsDigit(s[2]) && s[3] == if last then SPACE else HYPHEN
    ensures var o := Run(state, resp, s[..4]);
            && o.verdict == More && o.state == Message && o.resp.cont == !last
            && Run(Message, o.resp, s[4..]).verdict == Yes
  {
    hide Run;
    AcceptStep(state, resp, s);
    var o1 := One(state, resp, s[0]);
    AcceptStep(o1.state, o1.resp, s[1..]);
    assert s[1..][0] == s[1] && s[1..][1..] == s[2..];
    var o2 := One(o1.state, o1.resp, s[1]);
    AcceptStep(o2.state, o2.resp, s[2..]);
    assert s[2..][0] == s[2] && s[2..][1..] == s[3..];
    var o3 := One(o2.state, o2.resp, s[2]);
    AcceptStep(o3.state, o3.resp, s[3..]);
    assert s[3..][0] == s[3] && s[3..][1..] == s[4..];
    last := s[3] == SPACE;
    var l := Line(s[0], s[1], s[2], [], true);
    assert s[..4] == [l.d1, l.d2, l.d3, if last then SPACE else HYPHEN];
    RunHead(state, resp, l, last);
    RunConcat(state, resp, s[..4], s[4..]);
    assert s == s[..4] + s[4..];
  }

  /** The first line of what has been accepted. */
  lemma FirstLine(state: ParserState, resp: Response, s: seq<byte>) returns (l: Line, last: bool)
    requires (state.Init? || state.Digit1?) && Run(state, resp, s).verdict == Yes
    ensures ValidLine(l) && PrintLine(l, last) <= s
  {
    last := HeadOf(state, resp, s);
    var o := Run(state, resp, s[..4]);
    var t := s[4..];
    var crLf := LineEndOf(o.resp, t);
    var k := TextOf(t);
    l := Line(s[0], s[1], s[2], t[..k], crLf);
    hide Run, TextOf;
    PrintedAt(s, l, last, k);
  }

  lemma PrintedAt(s: seq<byte>, l: Line, last: bool, k: nat)
    requires 4 + k + |Ending(l)| <= |s| && s[..4] == [l.d1, l.d2, l.d3, if last then SPACE else HYPHEN]
    requires l.text == s[4..][..k] && s[4..][k..k + |Ending(l)|] == Ending(l)
    ensures PrintLine(l, last) <= s
  {
    var head, t, e := s[..4], s[4..], Ending(l);
    var rest := t[k + |e|..];
    assert s == head + t;
    assert t == t[..k] + (t[k..k + |e|] + rest);
    assert PrintLine(l, last) == head + l.text + e;
    assert head + (l.text + (e + rest)) == (head + l.text + e) + rest;
  }

  /** Whatever is accepted is a printed reply, up to where the parser stops. */
  lemma {:induction false} OnlyReplies(state: ParserState, resp: Response, s: seq<byte>) returns (lines: seq<Line>)
    requires (state.Init? || state.Digit1?) && Run(state, resp, s).verdict == Yes
    ensures ValidReply(lines) && Run(state, resp, s).used == |Print(lines)| && Print(lines) <= s
    decreases |s|
  {
    hide Run, One, PrintLine, ValidLine;
    var l, last := FirstLine(state, resp, s);
    var n := |PrintLine(l, last)|;
    assert PrintLine(l, last) == s[..n] && s == s[..n] + s[n..];
    RunLine(state, resp, l, last);
    RunConcat(state, resp, s[..n], s[n..]);
    if last {
      lines := [l];
    } else {
      var o := Run(state, resp, s[..n]);
      LineIsLong(l, last);
      var more := OnlyReplies(Digit1, o.resp, s[n..]);
      lines := [l] + more;
      assert lines[1..] == more;
      assert Print(lines) == s[..n] + Print(more);
      assert s[n..][..|Print(more)|] == Print(more);
      assert forall x | x in lines :: x == l || x in more;
    }
  }

  lemma LineIsLong(l: Line, last: bool)
    ensures |PrintLine(l, last)| > 0
  {
  }

  // ----- what the three results mean -----

  ghost predicate StartsWithReply(s: seq<byte>) {
    exists lines :: ValidReply(lines) && Print(lines) <= s
  }

  ghost predicate StartsReply(s: seq<byte>) {
    exists lines :: ValidReply(lines) && s < Print(lines)
  }

  /** Something that can still follow. */
  function Completion(state: ParserState, cont: bool): seq<byte> {
    match state
    case Init => [48, 48, 48, SPACE, LF]
    case Digit1 => [48, 48, 48, SPACE, LF]
    case Digit2 => [48, 48, SPACE, LF]
    case Digit3 => [48, SPACE, LF]
    case Cont => [SPACE, LF]
    case _ => if cont then [LF, 48, 48, 48, SPACE, LF] else [LF]
  }

  lemma StepThenAccept(state: ParserState, resp: Response, c: byte, s: seq<byte>)
    requires var o := One(state, resp, c);
             o.verdict == More && Run(o.state, o.resp, s).verdict == Yes && Run(o.state, o.resp, s).used == |s|
    ensures Run(state, resp, [c] + s).verdict == Yes && Run(state, resp, [c] + s).used == |s| + 1
  {
    assert ([c] + s)[1..] == s;
  }

  /** Whenever the result is open, an accepted reply can still come out. */
  lemma Completes(state: ParserState, resp: Response)
    ensures var o := Run(state, resp, Completion(state, resp.cont));
            o.verdict == Yes && o.used == |Completion(state, resp.cont)|
    decreases match state
              case Message => 5 case Cr => 5 case Init => 4 case Digit1 => 4
              case Digit2 => 3 case Digit3 => 2 case Cont => 1
  {
    hide Run;
    var all := Completion(state, resp.cont);
    var o := One(state, resp, all[0]);
    if o.verdict == Yes {
      RunOne(state, resp, LF);
    } else if state.Cont? {
      RunOne(Message, o.resp, LF);
      StepThenAccept(state, resp, SPACE, [LF]);
      assert all == [SPACE] + [LF];
    } else {
      Completes(o.state, o.resp);
      StepThenAccept(state, resp, all[0], all[1..]);
      assert [all[0]] + all[1..] == all;
    }
  }

  /** Yes exactly on what starts with a reply, open exactly on the beginning of one, no on all else. */
  lemma Verdicts(resp: Response, s: seq<byte>)
    ensures Run(Init, resp, s).verdict == Yes <==> StartsWithReply(s)
    ensures Run(Init, resp, s).verdict == More <==> StartsReply(s)
  {
    hide Run, One, ValidLine, Print;
    if Run(Init, resp, s).verdict == Yes {
      var lines := OnlyReplies(Init, resp, s);
    }
    if lines :| ValidReply(lines) && Print(lines) <= s {
      RunReply(Init, resp, lines, s[|Print(lines)|..]);
      assert s == Print(lines) + s[|Print(lines)|..];
    }
    if Run(Init, resp, s).verdict == More {
      OpenStartsReply(resp, s);
    }
    if lines :| ValidReply(lines) && s < Print(lines) {
      PrefixIsOpen(resp, lines, |s|);
      assert Print(lines)[..|s|] == s;
    }
  }

  lemma OpenStartsReply(resp: Response, s: seq<byte>)
    requires Run(Init, resp, s).verdict == More
    ensures StartsReply(s)
  {
    var o := Run(Init, resp, s);
    var t := Completion(o.state, o.resp.cont);
    hide Run, One, ValidLine, Print;
    Completes(o.state, o.resp);
    RunConcat(Init, resp, s, t);
    var lines := OnlyReplies(Init, resp, s + t);
    assert Print(lines) == s + t;
  }
}
