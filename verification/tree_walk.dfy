// Program messages of several units: what section 6.2.4 of SCPI-99 makes of their headers,
// stated on keywords, and the commands a message calls.

module TreeWalk {
  import opened Basics
  import opened Lexer
  import opened ProgramUnits
  import opened LexerGrammar
  import opened LineEnds
  import CommandMatch
  import Parser

  // ------------------------------------------------------------ one header after another

  datatype Last = NoHeader | Header(form: HeaderForm)

  /**
   * A relative header takes the place of the last keyword of the header before it.  A common
   * command, a leading colon and whatever follows a common command start at the root.
   */
  function Completed(last: Last, h: HeaderForm): (r: HeaderForm)
    requires last.Header? ==> IsHeader(last.form)
    requires IsHeader(h)
    ensures IsHeader(r)
  {
    if last.NoHeader? || last.form.Common? || h.Common? || h.colon then h
    else
      var before := last.form.path;
      JoinedPath(before, h.path);
      Compound(last.form.colon, before[..|before| - 1] + h.path, h.query)
  }

  lemma JoinedPath(before: seq<string>, path: seq<string>)
    requires before != [] && AllMnemonics(before) && path != [] && AllMnemonics(path)
    ensures AllMnemonics(before[..|before| - 1] + path)
  {
  }

  function LastText(last: Last): string
    requires last.Header? ==> IsHeader(last.form)
  {
    if last.NoHeader? then "" else Spelled(last.form)
  }

  /** Keywords and the colons behind them. */
  function Front(ms: seq<string>): string {
    if ms == [] then "" else ms[0] + (":" + Front(ms[1..]))
  }

  lemma {:induction false} PathConcat(a: seq<string>, b: seq<string>)
    requires b != []
    ensures PathText(a + b) == Front(a) + PathText(b)
    decreases |a|
  {
    if a == [] {
      assert a + b == b;
    } else {
      assert (a + b)[0] == a[0] && (a + b)[1..] == a[1..] + b;
      PathConcat(a[1..], b);
      assert a[0] + (":" + (Front(a[1..]) + PathText(b))) == (a[0] + (":" + Front(a[1..]))) + PathText(b);
    }
  }

  lemma {:induction false} FrontEnds(ms: seq<string>)
    ensures ms != [] ==> Front(ms) != "" && Front(ms)[|Front(ms)| - 1] == ':'
    ensures ms == [] ==> Front(ms) == ""
    decreases |ms|
  {
    if ms != [] {
      FrontEnds(ms[1..]);
      if |ms| == 1 { assert Front(ms) == ms[0] + ":"; }
    }
  }

  lemma {:induction false} PathLengthOf(a: string, b: string)
    requires (a != "" ==> a[|a| - 1] == ':') && ':' !in b
    ensures Parser.PathLength(a + b) == |a|
    decreases |b|
  {
    if b == "" {
      assert a + b == a;
    } else {
      var h := a + b;
      assert h[|h| - 1] == b[|b| - 1] && b[|b| - 1] in b;
      assert h[..|h| - 1] == a + b[..|b| - 1];
      assert ':' !in b[..|b| - 1];
      PathLengthOf(a, b[..|b| - 1]);
    }
  }

  /** What a compound header hands down: all but its last keyword. */
  lemma HandedDown(h: HeaderForm)
    requires IsHeader(h) && h.Compound?
    ensures Parser.PathOf(Spelled(h)) == (if h.colon then ":" else "") + Front(h.path[..|h.path| - 1])
    ensures Spelled(h) != "" && Spelled(h)[0] != '*'
  {
    hide Parser.PathOf, Spelled, Front, IsMnemonic;
    var front, last := h.path[..|h.path| - 1], h.path[|h.path| - 1];
    var a, b := (if h.colon then ":" else "") + Front(front), last + if h.query then "?" else "";
    SpelledParts(h);
    assert IsMnemonic(last);
    MnemonicPlain(last);
    FrontEnds(front);
    PathOfParts(a, b);
    SpelledStart(h);
  }

  lemma PathOfParts(a: string, b: string)
    requires (a != "" ==> a[|a| - 1] == ':') && ':' !in b
    ensures Parser.PathOf(a + b) == a
  {
    hide Parser.PathLength;
    PathLengthOf(a, b);
    assert (a + b)[..|a|] == a;
  }

  lemma SpelledParts(h: HeaderForm)
    requires IsHeader(h) && h.Compound?
    ensures Spelled(h) == ((if h.colon then ":" else "") + Front(h.path[..|h.path| - 1])) + (h.path[|h.path| - 1] + if h.query then "?" else "")
  {
    hide PathText, Front, IsMnemonic;
    var front, last := h.path[..|h.path| - 1], h.path[|h.path| - 1];
    assert h.path == front + [last];
    PathConcat(front, [last]);
    OnePath(last);
  }

  lemma OnePath(m: string)
    ensures PathText([m]) == m
  {
  }

  lemma MnemonicPlain(m: string)
    requires IsMnemonic(m)
    ensures m != "" && ':' !in m && m[0] != '*' && m[0] != ':'
  {
  }

  lemma SpelledStart(h: HeaderForm)
    requires IsHeader(h)
    ensures Spelled(h) != "" && (Spelled(h)[0] == '*' <==> h.Common?) && (Spelled(h)[0] == ':' <==> h.Compound? && h.colon)
  {
    hide IsMnemonic;
    if h.Compound? {
      assert IsMnemonic(h.path[0]);
      MnemonicPlain(h.path[0]);
      assert PathText(h.path)[0] == h.path[0][0];
    }
  }

  /** Composition on characters is completion on keywords. */
  lemma CompletedText(last: Last, h: HeaderForm)
    requires (last.Header? ==> IsHeader(last.form)) && IsHeader(h)
    ensures Spelled(h) != "" && Parser.Effective(LastText(last), Spelled(h)) == Spelled(Completed(last, h))
  {
    hide Parser.PathLength, Spelled, IsMnemonic;
    SpelledStart(h);
    if last.Header? {
      SpelledStart(last.form);
      if last.form.Compound? && h.Compound? && !h.colon {
        HandedDown(last.form);
        RelativeText(last.form, h);
      }
    }
  }

  lemma RelativeText(last: HeaderForm, h: HeaderForm)
    requires IsHeader(last) && last.Compound? && IsHeader(h) && h.Compound? && !h.colon
    ensures Spelled(Completed(Header(last), h)) == ((if last.colon then ":" else "") + Front(last.path[..|last.path| - 1])) + Spelled(h)
  {
    hide PathText, IsMnemonic;
    PathConcat(last.path[..|last.path| - 1], h.path);
  }

  // ------------------------------------------------------------ messages

  /** One unit of a message with the blanks before it. */
  datatype MessageUnit = MessageUnit(lead: string, header: HeaderForm, data: Data)

  ghost predicate IsMessageUnit(u: MessageUnit) { AllBlank(u.lead) && IsHeader(u.header) && IsData(u.data) }

  ghost predicate AllAreUnits(us: seq<MessageUnit>) { forall i :: 0 <= i < |us| ==> IsMessageUnit(us[i]) }

  function UnitSpelled(u: MessageUnit): string
    requires IsHeader(u.header)
  {
    u.lead + (Spelled(u.header) + DataText(u.data))
  }

  /** The units with semicolons between them, and the line end. */
  function MessageText(us: seq<MessageUnit>, end: string): string
    requires us != [] && forall i :: 0 <= i < |us| ==> IsHeader(us[i].header)
  {
    UnitSpelled(us[0]) + if |us| == 1 then end else ";" + MessageText(us[1..], end)
  }

  /** The commands of a message, each under its completed header, with its own parameters. */
  function Calls(commands: seq<CommandMatch.Pattern>, us: seq<MessageUnit>, last: Last, end: string): seq<Parser.Event>
    requires Parser.CommandsOk(commands) && forall i :: 0 <= i < |us| ==> IsHeader(us[i].header)
    requires last.Header? ==> IsHeader(last.form)
  {
    if us == [] then []
    else
      var h := Completed(last, us[0].header);
      SpelledStart(h);
      var f := Parser.FindFrom(commands, Spelled(h), 0);
      var rest := us[1..];
      if f.At? then [Parser.Call(f.index, Spelled(h), Handed(us[0].data))] + Calls(commands, rest, Header(h), end)
      else
        [Parser.UndefinedHeader(Parser.Trimmed(UnitSpelled(us[0]) + if rest == [] then end else ";"))]
        + Calls(commands, rest, last, end)
  }

  /** The tree walk over the text of a message calls exactly these. */
  lemma {:induction false} WalkMessage(commands: seq<CommandMatch.Pattern>, line: string, p: nat, us: seq<MessageUnit>, end: string, last: Last)
    requires Parser.CommandsOk(commands) && us != [] && AllAreUnits(us) && IsLineEnd(end)
    requires last.Header? ==> IsHeader(last.form)
    requires p <= |line| && line[p..] == MessageText(us, end)
    ensures Parser.Walk(commands, line, p, LastText(last)) == Calls(commands, us, last, end)
    decreases |us|
  {
    hide Spelled, DataText, UnitSpelled, Detect, Parser.Walk, Parser.FindFrom, Parser.Trimmed, Parser.Effective, Parser.Text, IsData, LastText;
    var u, rest := us[0], us[1..];
    assert IsMessageUnit(u);
    UnitInMessage(line, p, us, end);
    CompletedText(last, u.header);
    var h := Completed(last, u.header);
    SpelledStart(u.header);
    SpelledStart(h);
    var next := Detect(line, p).next;
    WalkStep(commands, line, p, LastText(last), Spelled(u.header), Spelled(h), Handed(u.data),
             UnitSpelled(u) + if rest == [] then end else ";");
    LastIs(h);
    if rest != [] {
      var f := Parser.FindFrom(commands, Spelled(h), 0);
      WalkMessage(commands, line, next, rest, end, if f.At? then Header(h) else last);
    }
  }

  lemma LastIs(h: HeaderForm)
    requires IsHeader(h)
    ensures LastText(Header(h)) == Spelled(h)
  {
  }

  lemma WalkStep(commands: seq<CommandMatch.Pattern>, line: string, p: nat, prev: string, cur: string, header: string, data: string, unit: string)
    requires Parser.CommandsOk(commands) && p <= |line| && Detect(line, p).header.kind != Invalid && Detect(line, p).header.len > 0
    requires Parser.UnitTexts(line, p, cur, data, unit) && |cur| > 0 && header == Parser.Effective(prev, cur)
    ensures var f, next := Parser.FindFrom(commands, header, 0), Detect(line, p).next;
            Parser.Walk(commands, line, p, prev)
            == [if f.At? then Parser.Call(f.index, header, data) else Parser.UndefinedHeader(Parser.Trimmed(unit))]
               + if next < |line| then Parser.Walk(commands, line, next, if f.At? then header else prev) else []
  {
    hide Detect, Parser.FindFrom, Parser.Trimmed, Parser.Text, Parser.Effective, Parser.CommandsOk;
    Parser.UnitTokens(line, p);
  }

  /** The first unit of the rest of a message, and where the next one begins. */
  lemma UnitInMessage(line: string, p: nat, us: seq<MessageUnit>, end: string)
    requires us != [] && AllAreUnits(us) && IsLineEnd(end)
    requires p <= |line| && line[p..] == MessageText(us, end)
    ensures var u, v := us[0], Detect(line, p);
            && v.header.kind == KindOf(u.header) && v.header.len > 0
            && Parser.UnitTexts(line, p, Spelled(u.header), Handed(u.data), UnitSpelled(u) + if |us| == 1 then end else ";")
            && (if |us| == 1 then v.next == |line| else v.next < |line| && line[v.next..] == MessageText(us[1..], end))
  {
    hide Spelled, DataText, Detect, IsData, Parser.Text, Stands, MessageText, UnitSpelled, Ended;
    var u := us[0];
    assert IsMessageUnit(u);
    MessageParts(us, end);
    var tail := if |us| == 1 then end else ";" + MessageText(us[1..], end);
    UnitStands(line, p, UnitSpelled(u), tail, |us| == 1, end);
    UnitAt(line, p, u);
    assert |us| > 1 ==> tail[1..] == MessageText(us[1..], end);
  }

  /** A unit of a message, wherever it stands. */
  lemma UnitAt(line: string, p: nat, u: MessageUnit)
    requires IsMessageUnit(u) && Stands(line, p, UnitSpelled(u)) && EndsUnitText(line, p + |UnitSpelled(u)|)
    ensures var v := Detect(line, p);
            && v.header.kind == KindOf(u.header) && v.header.len > 0
            && (v.termination, v.next) == Ended(line, p + |UnitSpelled(u)|)
            && Parser.Inside(v.header, line) && Parser.Text(line, v.header) == Spelled(u.header)
            && Parser.Inside(v.data, line) && Parser.Text(line, v.data) == Handed(u.data)
  {
    hide Spelled, DataText, Detect, IsData, Stands, Ended, EndsUnitText;
    var rest := Spelled(u.header) + DataText(u.data);
    UnitDetected(line, p, u.lead, u.header, u.data);
    StandsApart(line, p, u.lead, rest);
    StandsApart(line, p + |u.lead|, Spelled(u.header), DataText(u.data));
    HeaderVisible(u.header);
    TokenStands(line, p + |u.lead|, Spelled(u.header));
    DataStands(line, p + |u.lead| + |Spelled(u.header)|, u.data);
  }

  lemma MessageParts(us: seq<MessageUnit>, end: string)
    requires us != [] && AllAreUnits(us)
    ensures MessageText(us, end) == UnitSpelled(us[0]) + if |us| == 1 then end else ";" + MessageText(us[1..], end)
    ensures |us| > 1 ==> MessageText(us[1..], end) != ""
  {
    hide DataText, IsData;
    assert IsMessageUnit(us[0]);
    if |us| > 1 {
      assert IsMessageUnit(us[1]);
      HeaderVisible(us[1].header);
    }
  }

  lemma UnitStands(line: string, p: nat, unit: string, tail: string, last: bool, end: string)
    requires p <= |line| && line[p..] == unit + tail && IsLineEnd(end)
    requires if last then tail == end else |tail| > 1 && tail[0] == ';'
    ensures Stands(line, p, unit) && EndsUnitText(line, p + |unit|)
    ensures var e := p + |unit|;
            && (if last then Ended(line, e) == (NewLineTermination, |line|) && line[p..|line|] == unit + end
                else Ended(line, e) == (SemicolonTermination, e + 1) && e + 1 < |line| && line[p..e + 1] == unit + ";" && line[e + 1..] == tail[1..])
  {
    var e := p + |unit|;
    assert line[p..e] == line[p..][..|unit|] == unit;
    assert forall i :: 0 <= i < |tail| ==> line[e + i] == line[p..][|unit| + i] == tail[i];
    if !last {
      assert line[e + 1..] == tail[1..];
      assert line[p..e + 1] == line[p..e] + [line[e]];
    }
  }

  /**
   * A message as SCPI_Parse runs it: if every header is found once completed, its commands are
   * called in order under their completed headers, each with its own parameters.
   */
  lemma MessageCalls(commands: seq<CommandMatch.Pattern>, us: seq<MessageUnit>, end: string)
    requires Parser.CommandsOk(commands) && us != [] && AllAreUnits(us) && IsLineEnd(end)
    requires forall e :: e in Calls(commands, us, NoHeader, end) ==> e.Call?
    ensures Parser.Run(commands, MessageText(us, end), 0, Parser.NO_TOKEN) == Calls(commands, us, NoHeader, end)
  {
    hide Parser.Walk, Parser.Run, Calls, MessageText, IsMessageUnit;
    UnitsHaveHeaders(us);
    var line := MessageText(us, end);
    assert line[0..] == line;
    WalkMessage(commands, line, 0, us, end, NoHeader);
    Parser.FoundLine(commands, line);
  }

  lemma UnitsHaveHeaders(us: seq<MessageUnit>)
    requires AllAreUnits(us)
    ensures forall i :: 0 <= i < |us| ==> IsHeader(us[i].header)
  {
    forall i | 0 <= i < |us| ensures IsHeader(us[i].header) {
      assert IsMessageUnit(us[i]);
    }
  }
}
