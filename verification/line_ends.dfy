// Line ends: a line feed, a carriage return, or both together end a message unit,
// and a line feed may stand for both without a difference to what is called.

module LineEnds {
  import opened Basics
  import opened Lexer
  import opened ProgramUnits
  import opened LexerStability
  import opened UnitStability
  import opened LexerGrammar
  import opened IntegerText
  import opened QuotedText
  import opened BlockText
  import ExpressionLists
  import Parser
  import CommandMatch

  // ------------------------------------------------------------ one line end for another

  /** The texts differ only in which of the two line end characters stands where. */
  ghost predicate SameButEnds(s: string, t: string) {
    |s| == |t| && forall i :: 0 <= i < |s| ==> s[i] == t[i] || (IsNl(s[i]) && IsNl(t[i]))
  }

  lemma {:induction false} SpanEnds(s: string, t: string, p: nat, k: CharClass)
    requires SameButEnds(s, t) && p <= |s|
    ensures Span(s, p, k) == Span(t, p, k)
    decreases |s| - p
  {
    if p < |s| { SpanEnds(s, t, p + 1, k); }
  }

  lemma MnemonicEnds(s: string, t: string, p: nat)
    requires SameButEnds(s, t) && p <= |s|
    ensures Mnemonic(s, p) == Mnemonic(t, p)
  {
    if p < |s| { SpanEnds(s, t, p + 1, MnemonicChar); }
  }

  lemma {:induction false} CompoundTailEnds(s: string, t: string, p: nat)
    requires SameButEnds(s, t) && p <= |s|
    ensures CompoundTail(s, p) == CompoundTail(t, p)
    decreases |s| - p
  {
    hide Mnemonic;
    if At(s, p, ':') {
      MnemonicEnds(s, t, p + 1);
      if Mnemonic(s, p + 1) > p + 1 { CompoundTailEnds(s, t, Mnemonic(s, p + 1)); }
    }
  }

  lemma HeaderEnds(s: string, t: string, p: nat)
    requires SameButEnds(s, t) && p <= |s|
    ensures Header(s, p) == Header(t, p)
  {
    hide Mnemonic, CompoundTail;
    var start := if At(s, p, '*') || At(s, p, ':') then p + 1 else p;
    MnemonicEnds(s, t, start);
    CompoundTailEnds(s, t, Mnemonic(s, start));
  }

  lemma NondecimalEnds(s: string, t: string, p: nat)
    requires SameButEnds(s, t) && p <= |s|
    ensures Nondecimal(s, p) == Nondecimal(t, p)
  {
    hide Span;
    if p + 2 <= |s| {
      SpanEnds(s, t, p + 2, Hex);
      SpanEnds(s, t, p + 2, Oct);
      SpanEnds(s, t, p + 2, Bin);
    }
  }

  lemma MantissaEnds(s: string, t: string, p: nat)
    requires SameButEnds(s, t) && p <= |s|
    ensures Mantissa(s, p) == Mantissa(t, p)
  {
    hide Span;
    var p1 := Opt(s, p, Sign);
    SpanEnds(s, t, p1, Digit);
    var p2 := Span(s, p1, Digit);
    if p2 < |s| { SpanEnds(s, t, p2 + 1, Digit); }
  }

  lemma ExponentEnds(s: string, t: string, p: nat)
    requires SameButEnds(s, t) && p <= |s|
    ensures Exponent(s, p) == Exponent(t, p)
  {
    hide Span;
    SpanEnds(s, t, p, Blank);
    var p0 := Span(s, p, Blank);
    if p0 < |s| {
      SpanEnds(s, t, p0 + 1, Blank);
      SpanEnds(s, t, Opt(s, Span(s, p0 + 1, Blank), Sign), Digit);
    }
  }

  lemma {:induction false} SuffixTailEnds(s: string, t: string, p: nat)
    requires SameButEnds(s, t) && p <= |s|
    ensures SuffixTail(s, p) == SuffixTail(t, p)
    decreases |s| - p
  {
    hide Span;
    if p < |s| && Is(SlashDot, s[p]) {
      SpanEnds(s, t, p + 1, Letter);
      SuffixTailEnds(s, t, SuffixPower(s, Span(s, p + 1, Letter)));
    }
  }

  lemma SuffixEnds(s: string, t: string, p: nat)
    requires SameButEnds(s, t) && p <= |s|
    ensures SuffixEnd(s, p) == SuffixEnd(t, p)
  {
    hide Span, SuffixTail;
    var p1 := OptChr(s, p, '/');
    SpanEnds(s, t, p1, Letter);
    SuffixTailEnds(s, t, SuffixPower(s, Span(s, p1, Letter)));
  }

  lemma NumberEnds(s: string, t: string, p: nat)
    requires SameButEnds(s, t) && p <= |s|
    ensures Number(s, p) == Number(t, p)
  {
    hide Mantissa, Exponent, Span, SuffixEnd;
    MantissaEnds(s, t, p);
    ExponentEnds(s, t, Mantissa(s, p).1);
    var d := Decimal(s, p);
    SpanEnds(s, t, d.pos, Blank);
    SuffixEnds(s, t, Span(s, d.pos, Blank));
  }

  lemma {:induction false} QuoteStopEnds(s: string, t: string, p: nat, quote: char)
    requires SameButEnds(s, t) && p <= |s| && !IsNl(quote)
    ensures QuoteStop(s, p, quote) == QuoteStop(t, p, quote)
    decreases |s| - p
  {
    if p < |s| {
      QuoteStopEnds(s, t, p + 1, quote);
      if p + 1 < |s| { QuoteStopEnds(s, t, p + 2, quote); }
    }
  }

  lemma BlockEnds(s: string, t: string, p: nat)
    requires SameButEnds(s, t) && p <= |s|
    ensures Block(s, p) == Block(t, p)
  {
    hide Span, DigitsValue;
    if At(s, p, '#') && p + 1 < |s| && IsNonzeroDigit(s[p + 1]) {
      SpanEnds(s, t, p + 2, Digit);
      SpanRun(s, p + 2, Digit);
      var n := DigitValue(s[p + 1]);
      if Span(s, p + 2, Digit) >= p + 2 + n {
        assert s[p + 2..p + 2 + n] == t[p + 2..p + 2 + n];
      }
    }
  }

  lemma StringEnds(s: string, t: string, p: nat)
    requires SameButEnds(s, t) && p <= |s|
    ensures StringData(s, p) == StringData(t, p)
  {
    hide QuoteStop;
    if p < |s| {
      QuoteStopEnds(s, t, p + 1, '"');
      QuoteStopEnds(s, t, p + 1, '\'');
    }
  }

  lemma ExpressionEnds(s: string, t: string, p: nat)
    requires SameButEnds(s, t) && p <= |s|
    ensures Expression(s, p) == Expression(t, p)
  {
    hide Span;
    if p < |s| { SpanEnds(s, t, p + 1, ExpressionChar); }
  }

  lemma DelimitedEnds(s: string, t: string, p: nat)
    requires SameButEnds(s, t) && p <= |s|
    ensures DelimitedItem(s, p) == DelimitedItem(t, p)
  {
    hide StringData, Block, Expression, SameButEnds;
    StringEnds(s, t, p);
    BlockEnds(s, t, p);
    ExpressionEnds(s, t, Block(s, p).pos);
  }

  lemma DataItemEnds(s: string, t: string, p: nat)
    requires SameButEnds(s, t) && p <= |s|
    ensures DataItem(s, p) == DataItem(t, p)
  {
    hide Nondecimal, Mnemonic, Number, DelimitedItem;
    NondecimalEnds(s, t, p);
    MnemonicEnds(s, t, p);
    NumberEnds(s, t, p);
    DelimitedEnds(s, t, p);
  }

  lemma ProgramDataEnds(s: string, t: string, p: nat)
    requires SameButEnds(s, t) && p <= |s|
    ensures ProgramData(s, p) == ProgramData(t, p)
  {
    hide DataItem, Span, SameButEnds;
    SpanEnds(s, t, p, Blank);
    DataItemEnds(s, t, Span(s, p, Blank));
    SpanEnds(s, t, DataItem(s, Span(s, p, Blank)).pos, Blank);
  }

  lemma {:induction false} AllProgramDataEnds(s: string, t: string, p: nat)
    requires SameButEnds(s, t) && p <= |s|
    ensures AllProgramDataFrom(s, p) == AllProgramDataFrom(t, p)
    decreases |s| - p
  {
    hide ProgramData;
    ProgramDataEnds(s, t, p);
    var d := ProgramData(s, p);
    if d.tok.kind != Unknown && At(s, d.pos, ',') {
      AllProgramDataEnds(s, t, d.pos + 1);
    }
  }

  /** Header and data of a unit do not depend on which characters end the lines. */
  lemma UnitBodyEnds(s: string, t: string, p: nat)
    requires SameButEnds(s, t) && p <= |s|
    ensures UnitBody(s, p) == UnitBody(t, p)
  {
    hide Span, HeaderExtent, AllProgramDataFrom;
    SpanEnds(s, t, p, Blank);
    HeaderEnds(s, t, Span(s, p, Blank));
    var h := Header(s, Span(s, p, Blank));
    SpanEnds(s, t, h.pos, Blank);
    AllProgramDataEnds(s, t, Span(s, h.pos, Blank));
  }

  // ------------------------------------------------------------ the same line with either end

  /** The tokens of a unit lie before the end of its header and data. */
  lemma BodyTokens(s: string, p: nat)
    requires p <= |s|
    ensures var (h, d, n, pos) := UnitBody(s, p);
            && p <= h.ptr && 0 <= h.len && h.ptr + h.len <= pos
            && p <= d.ptr && 0 <= d.len && d.ptr + d.len <= pos
  {
    hide Span, HeaderExtent, AllProgramDataFrom;
    var h := Header(s, Span(s, p, Blank));
    Parser.AllProgramDataLength(s, Span(s, h.pos, Blank));
  }

  /** b is a with a carriage return before its line feed. */
  ghost predicate WithReturn(a: string, b: string) {
    |a| > 0 && a[|a| - 1] == '\n' && b == a[..|a| - 1] + "\r\n"
  }

  /** The unit at p in a line: the same with either line end, but for where the next one would start. */
  lemma DetectWithReturn(a: string, b: string, p: nat)
    requires WithReturn(a, b) && LineStop(a, p, |a| - 1)
    ensures var u, v, n := Detect(a, p), Detect(b, p), |a| - 1;
            && v == u.(next := v.next)
            && (if u.termination == NewLineTermination then u.next == |a| && v.next == |b| else u.next == v.next <= n)
            && (u.header.kind != Invalid ==> u.header.ptr + u.header.len <= n) && u.data.ptr + u.data.len <= n
  {
    hide UnitBody;
    var n := |a| - 1;
    var c := b[..n + 1];
    assert forall i :: 0 <= i < n ==> a[i] == b[i] == c[i];
    assert LineStop(b, p, n);
    UnitBodyStop(a, p, n);
    UnitBodyStop(b, p, n);
    UnitBodyLineCut(b, c, p);
    UnitBodyEnds(a, c, p);
    BodyTokens(a, p);
  }

  lemma TrimmedEnds(x: string)
    ensures Parser.Trimmed(x + "\n") == Parser.Trimmed(x) == Parser.Trimmed(x + "\r\n")
  {
    assert (x + "\n")[..|x|] == x;
    assert (x + "\r\n")[..|x| + 1] == x + "\r" && (x + "\r")[..|x|] == x;
    assert Parser.Trimmed(x + "\r") == Parser.Trimmed(x);
  }

  /** The quoted text of an undefined unit leaves either line end out. */
  lemma SliceWithReturn(a: string, b: string, p: nat)
    requires WithReturn(a, b) && p < |a|
    ensures Parser.Trimmed(a[p..]) == Parser.Trimmed(b[p..])
  {
    var x := a[p..|a| - 1];
    assert a[p..] == x + "\n" && b[p..] == x + "\r\n";
    TrimmedEnds(x);
  }

  /** Composition works in both lines alike. */
  lemma ComposeWithReturn(a: string, b: string, prev: Token, cur: Token)
    requires WithReturn(a, b) && Parser.Inside(prev, a) && Parser.Inside(cur, a) && cur.len > 0
    requires prev.ptr + prev.len <= cur.ptr && cur.ptr + cur.len <= |a| - 1
    ensures Parser.Inside(prev, b) && Parser.Inside(cur, b)
    ensures var (a', h) := Parser.Compose(a, prev, cur);
            var (b', k) := Parser.Compose(b, prev, cur);
            && h == k && WithReturn(a', b') && h.ptr + h.len <= |a| - 1 && Parser.Text(a', h) == Parser.Text(b', h)
            && a'[cur.ptr..] == a[cur.ptr..]
  {
    hide Parser.InheritedLength;
    SameTextWithReturn(a, b, prev);
    SameTextWithReturn(a, b, cur);
    Parser.ComposeEffect(a, prev, cur);
    Parser.ComposeEffect(b, prev, cur);
    var (a', h) := Parser.Compose(a, prev, cur);
    var (b', k) := Parser.Compose(b, prev, cur);
    assert a'[|a| - 1] == a'[cur.ptr..][|a| - 1 - cur.ptr];
    assert b' == a'[..|a| - 1] + "\r\n";
  }

  lemma SameTextWithReturn(a: string, b: string, t: Token)
    requires WithReturn(a, b) && Parser.Inside(t, a) && t.ptr + t.len <= |a| - 1
    ensures Parser.Inside(t, b) && Parser.Text(a, t) == Parser.Text(b, t)
  {
  }

  lemma StopKept(a: string, a': string, from: nat, p: nat)
    requires |a| == |a'| > 0 && from <= p <= |a| - 1 && a[from..] == a'[from..] && LineStop(a, from, |a| - 1)
    ensures LineStop(a', p, |a| - 1)
  {
    assert forall i :: from <= i < |a| ==> a'[i] == a'[from..][i - from] == a[from..][i - from] == a[i];
  }

  /** A line has the same events with either line end. */
  lemma {:induction false} RunWithReturn(commands: seq<CommandMatch.Pattern>, a: string, b: string, p: nat, prev: Token)
    requires Parser.CommandsOk(commands) && WithReturn(a, b) && LineStop(a, p, |a| - 1)
    requires Parser.Inside(prev, a) && prev.ptr + prev.len <= p
    ensures Parser.Inside(prev, b) && Parser.Run(commands, a, p, prev) == Parser.Run(commands, b, p, prev)
    decreases |a| - p
  {
    hide Detect, Parser.Run, Parser.Compose, Parser.FindFrom, Parser.Trimmed, Parser.Text, WithReturn, LineStop;
    Lengths(a, b, p);
    DetectWithReturn(a, b, p);
    Parser.UnitTokens(a, p);
    Parser.RunUnit(commands, a, p, prev);
    Parser.RunUnit(commands, b, p, prev);
    var u := Detect(a, p);
    if u.header.kind == Invalid || u.header.len == 0 {
      if u.next < |a| {
        StopKept(a, a, p, u.next);
        RunWithReturn(commands, a, b, u.next, prev);
      }
    } else {
      ComposeWithReturn(a, b, prev, u.header);
      var (a', h) := Parser.Compose(a, prev, u.header);
      var b' := Parser.Compose(b, prev, u.header).0;
      Lengths(a', b', p);
      SameTextWithReturn(a', b', u.data);
      if u.next < |a| {
        SameSlice(a', b', p, u.next);
        StopKept(a, a, p, u.header.ptr);
        StopKept(a, a', u.header.ptr, u.next);
        RunWithReturn(commands, a', b', u.next, if Parser.FindFrom(commands, Parser.Text(a', h), 0).At? then h else prev);
      } else {
        assert a'[p..|a|] == a'[p..] && b'[p..|b|] == b'[p..];
        SliceWithReturn(a', b', p);
      }
    }
  }

  lemma Lengths(a: string, b: string, p: nat)
    requires WithReturn(a, b)
    ensures |a| > 0 && |b| == |a| + 1
    ensures LineStop(a, p, |a| - 1) ==> p < |a|
  {
  }

  lemma SameSlice(a: string, b: string, p: nat, e: nat)
    requires WithReturn(a, b) && p <= e <= |a| - 1
    ensures a[p..e] == b[p..e]
  {
  }

  // ------------------------------------------------------------ streams with either line end

  /** Every line feed gets a carriage return. */
  function CrLf(s: string): string {
    if s == "" then "" else (if s[0] == '\n' then "\r\n" else [s[0]]) + CrLf(s[1..])
  }

  function AllCrLf(lines: seq<string>): seq<string> {
    if lines == [] then [] else [CrLf(lines[0])] + AllCrLf(lines[1..])
  }

  lemma {:induction false} CrLfConcat(a: string, b: string)
    ensures CrLf(a + b) == CrLf(a) + CrLf(b)
    decreases |a|
  {
    if a == "" {
      assert a + b == b;
    } else {
      assert (a + b)[1..] == a[1..] + b;
      CrLfConcat(a[1..], b);
    }
  }

  lemma {:induction false} CrLfNone(s: string)
    requires forall i :: 0 <= i < |s| ==> s[i] != '\n'
    ensures CrLf(s) == s
    decreases |s|
  {
    if s != "" { CrLfNone(s[1..]); }
  }

  lemma {:induction false} CrLfPlain(s: string)
    requires Plain(s)
    ensures CrPlain(CrLf(s))
    ensures s != "" ==> CrLf(s) != "" && CrLf(s)[0] == if s[0] == '\n' then '\r' else s[0]
    decreases |s|
  {
    if s != "" {
      assert s[1..] != "" ==> s[1..][0] == s[1];
      assert forall i :: 0 <= i < |s[1..]| ==> s[1..][i] == s[i + 1];
      CrLfPlain(s[1..]);
      var rest := CrLf(s[1..]);
      if s[0] == '\n' {
        PrefixPlain("\r\n", rest);
      } else {
        PrefixPlain([s[0]], rest);
      }
    }
  }

  lemma PrefixPlain(x: string, rest: string)
    requires CrPlain(rest) && Quoteless(x, 0) && x != "" && (x == "\r\n" || (|x| == 1 && x[0] != '\r'))
    requires x[0] == '#' && rest != "" ==> !IsNonzeroDigit(rest[0])
    ensures CrPlain(x + rest)
  {
  }

  lemma LinesFirst(line: string, rest: string)
    requires |line| > 0 && line[|line| - 1] == '\n' && forall i :: 0 <= i < |line| - 1 ==> line[i] != '\n'
    ensures Lines(line + rest) == Fed([line] + Lines(rest).lines, Lines(rest).tail)
  {
    var t := line + rest;
    assert forall i :: 0 <= i < |line| ==> t[i] == line[i];
    assert LineFeed(t, 0) == |line| - 1;
    assert t[..|line|] == line && t[|line|..] == rest;
  }

  /** The lines of the stream are the lines, each with its carriage return. */
  lemma {:induction false} LinesCrLf(s: string)
    requires Plain(s)
    ensures Lines(CrLf(s)) == Fed(AllCrLf(Lines(s).lines), Lines(s).tail)
    decreases |s|
  {
    hide CrLf, Lines, AllCrLf;
    var j := LineFeed(s, 0);
    if j < |s| {
      var x, rest := s[..j], s[j + 1..];
      LineParts(s, j);
      CrLfLine(x);
      CrLfConcat(x + "\n", rest);
      LinesCrLf(rest);
      LinesFirst(x + "\n", rest);
      LinesFirst(x + "\r\n", CrLf(rest));
      ConsCrLf(x + "\n", Lines(rest).lines);
    } else {
      CrLfNone(s);
      NoLineFeed(s);
      NoneCrLf();
    }
  }

  lemma NoneCrLf()
    ensures AllCrLf([]) == []
  {
  }

  lemma LineParts(s: string, j: nat)
    requires Plain(s) && j < |s| && s[j] == '\n' && forall i :: 0 <= i < j ==> s[i] != '\n'
    ensures s == (s[..j] + "\n") + s[j + 1..] && Plain(s[j + 1..]) && Plain(s[..j] + "\n")
    ensures forall i :: 0 <= i < j ==> s[..j][i] != '\n'
  {
    var x, rest := s[..j], s[j + 1..];
    assert forall i :: 0 <= i < |rest| ==> rest[i] == s[j + 1 + i];
    assert forall i :: 0 <= i < |x| ==> x[i] == s[i];
  }

  lemma CrLfLine(x: string)
    requires forall i :: 0 <= i < |x| ==> x[i] != '\n'
    ensures CrLf(x + "\n") == x + "\r\n"
  {
    hide CrLf;
    CrLfNone(x);
    CrLfConcat(x, "\n");
    CrLfFeed();
  }

  lemma CrLfFeed()
    ensures CrLf("\n") == "\r\n"
  {
    assert "\n"[1..] == "";
    assert CrLf("") == "";
  }

  lemma ConsCrLf(line: string, rest: seq<string>)
    ensures AllCrLf([line] + rest) == [CrLf(line)] + AllCrLf(rest)
  {
    assert ([line] + rest)[1..] == rest;
  }

  /** A line of plain text has the same events with a carriage return. */
  lemma LineCrLf(commands: seq<CommandMatch.Pattern>, line: string)
    requires Parser.CommandsOk(commands) && Plain(line) && |line| > 0 && LineFeed(line, 0) == |line| - 1
    ensures Parser.Run(commands, CrLf(line), 0, Parser.NO_TOKEN) == Parser.Run(commands, line, 0, Parser.NO_TOKEN)
  {
    hide Parser.Run, CrLf, WithReturn, LineStop, LineFeed, Plain;
    OneLine(line);
    RunWithReturn(commands, line, CrLf(line), 0, Parser.NO_TOKEN);
  }

  lemma OneLine(line: string)
    requires Plain(line) && |line| > 0 && LineFeed(line, 0) == |line| - 1
    ensures WithReturn(line, CrLf(line)) && LineStop(line, 0, |line| - 1)
  {
    hide CrLf;
    var x := line[..|line| - 1];
    assert line == x + "\n";
    CrLfLine(x);
  }

  lemma {:induction false} LinesEvents(commands: seq<CommandMatch.Pattern>, s: string)
    requires Parser.CommandsOk(commands) && Plain(s)
    ensures Parser.LineEvents(commands, AllCrLf(Lines(s).lines)) == Parser.LineEvents(commands, Lines(s).lines)
    decreases |s|
  {
    hide CrLf, AllCrLf, Lines, Parser.Run, Parser.LineEvents;
    var j := LineFeed(s, 0);
    if j < |s| {
      var line, rest := s[..j] + "\n", s[j + 1..];
      LineParts(s, j);
      LinesFirst(line, rest);
      LinesEvents(commands, rest);
      LineCrLf(commands, line);
      ConsCrLf(line, Lines(rest).lines);
      Parser.LineEventsCons(commands, line, Lines(rest).lines);
      Parser.LineEventsCons(commands, CrLf(line), AllCrLf(Lines(rest).lines));
    } else {
      NoLineFeed(s);
      NoneCrLf();
    }
  }

  /**
   * A plain stream whose line feeds all get carriage returns: SCPI_Input hands on the same
   * lines with their carriage returns and keeps the same tail, and the same commands are called.
   */
  lemma CrLfStream(commands: seq<CommandMatch.Pattern>, s: string)
    requires Parser.CommandsOk(commands) && Plain(s)
    ensures Feed(CrLf(s)) == Fed(AllCrLf(Lines(s).lines), Lines(s).tail) && Feed(s) == Lines(s)
    ensures Parser.LineEvents(commands, Feed(CrLf(s)).lines) == Parser.LineEvents(commands, Feed(s).lines)
  {
    hide CrLf, Feed, Lines, Parser.LineEvents;
    CrLfPlain(s);
    PlainFeed(CrLf(s));
    PlainFeed(s);
    LinesCrLf(s);
    LinesEvents(commands, s);
  }

  // ------------------------------------------------------------ message units by the rules

  /** A header of section 7.6.1: a path of mnemonics, or a common command. */
  datatype HeaderForm = Compound(colon: bool, path: seq<string>, query: bool) | Common(mnemonic: string, query: bool)

  predicate IsHeader(h: HeaderForm) {
    match h
    case Compound(_, path, _) => path != [] && AllMnemonics(path)
    case Common(m, _) => IsMnemonic(m)
  }

  function Spelled(h: HeaderForm): string
    requires IsHeader(h)
  {
    match h
    case Compound(colon, path, query) => HeaderText(colon, path, query)
    case Common(m, query) => "*" + (m + if query then "?" else "")
  }

  function KindOf(h: HeaderForm): TokenType {
    match h
    case Compound(_, _, query) => if query then CompoundQueryHeader else CompoundHeader
    case Common(_, query) => if query then CommonQueryHeader else CommonHeader
  }

  predicate Visible(text: string) { text != "" && text[0] != ' ' && text[0] != '\t' }

  /** A text that is one whole parameter wherever it ends one. */
  ghost predicate IsParameter(text: string) {
    Visible(text)
    && forall s: string, p: nat :: Stands(s, p, text) && EndsData(s, p + |text|) ==> OneParameter(s, p, |text|)
  }

  /** And also where blanks follow, unlike a number, which takes them for what may stand before a suffix. */
  ghost predicate IsTight(text: string) {
    Visible(text)
    && forall s: string, p: nat :: Stands(s, p, text) && EndsTight(s, p + |text|) ==> OneParameter(s, p, |text|)
  }

  predicate EndsTight(s: string, e: nat) { EndsData(s, e) || At(s, e, ' ') || At(s, e, '\t') }

  /** A parameter and the blanks behind it. */
  ghost predicate Fits(text: string, after: string) {
    AllBlank(after) && IsParameter(text) && (after != "" ==> IsTight(text))
  }

  predicate OneParameter(s: string, p: nat, n: nat) {
    && p <= |s|
    && var d := DataItem(s, p);
       d.pos == p + n && d.ret == n && d.tok.kind != Unknown
  }

  /** A further parameter: a comma, blanks, the text and blanks. */
  datatype Further = Further(blanks: string, text: string, after: string)

  ghost predicate AllParameters(ps: seq<Further>) {
    forall i :: 0 <= i < |ps| ==> AllBlank(ps[i].blanks) && Fits(ps[i].text, ps[i].after)
  }

  function FurtherText(ps: seq<Further>): string {
    if ps == [] then "" else "," + (ps[0].blanks + (ps[0].text + (ps[0].after + FurtherText(ps[1..]))))
  }

  /** What follows a header: nothing, or blanks and parameters with commas between them. */
  datatype Data = None | Parameters(blanks: string, first: string, after: string, more: seq<Further>)

  ghost predicate IsData(d: Data) {
    d.Parameters? ==> d.blanks != "" && AllBlank(d.blanks) && Fits(d.first, d.after) && AllParameters(d.more)
  }

  /** The parameters from the first one on. */
  function ListText(first: string, after: string, more: seq<Further>): string { first + (after + FurtherText(more)) }

  function DataText(d: Data): string {
    match d
    case None => ""
    case Parameters(blanks, first, after, more) => blanks + ListText(first, after, more)
  }

  /** What ends a unit, and how far it reaches: one of the three line ends, a semicolon, or the end of the text. */
  function Ended(s: string, e: nat): (r: (Termination, nat))
    requires e <= |s|
  {
    if e == |s| then (NoTermination, e)
    else if s[e] == ';' then (SemicolonTermination, e + 1)
    else if s[e] == '\r' && e + 1 < |s| && s[e + 1] == '\n' then (NewLineTermination, e + 2)
    else (NewLineTermination, e + 1)
  }

  predicate EndsUnitText(s: string, e: nat) {
    e <= |s| && (e < |s| ==> s[e] == ';' || s[e] == '\r' || s[e] == '\n')
  }

  lemma {:induction false} FurtherRead(s: string, p: nat, text: string, after: string, ps: seq<Further>)
    requires Fits(text, after) && AllParameters(ps)
    requires Stands(s, p, ListText(text, after, ps)) && EndsUnitText(s, p + |ListText(text, after, ps)|)
    ensures var n := |ListText(text, after, ps)|;
            var d := AllProgramDataFrom(s, p);
            d.ok && d.len == n && |d.toks| == 1 + |ps| && d.pos == p + n
    decreases |ps|
  {
    hide ProgramData, AllProgramDataFrom, Stands, Fits, FurtherText, AllParameters;
    var e := p + |text| + |after|;
    StandsApart(s, p, text, after + FurtherText(ps));
    StandsApart(s, p + |text|, after, FurtherText(ps));
    FurtherStart(s, e, ps);
    ParameterRead(s, p, text, after);
    OneMore(s, p);
    if ps != [] {
      var q := ps[0];
      FurtherParts(s, e, ps);
      FurtherRead(s, e + 1 + |q.blanks|, q.text, q.after, ps[1..]);
      BlanksSkipped(s, e + 1, q.blanks, q.text, q.after, ps[1..]);
    } else {
      NoFurther();
    }
  }

  lemma NoFurther()
    ensures FurtherText([]) == ""
  {
  }

  /** One parameter and those behind its comma. */
  lemma OneMore(s: string, p: nat)
    requires p <= |s| && ProgramData(s, p).tok.kind != Unknown
    ensures var d, all := ProgramData(s, p), AllProgramDataFrom(s, p);
            if At(s, d.pos, ',') then
              var rest := AllProgramDataFrom(s, d.pos + 1);
              && all.ok == rest.ok && all.pos == rest.pos && |all.toks| == 1 + |rest.toks|
              && (rest.ok ==> all.len == d.ret + 1 + rest.len)
            else all.ok && all.len == d.ret && |all.toks| == 1 && all.pos == d.pos
  {
    hide ProgramData;
  }

  /** The end of a parameter in such a list. */
  lemma FurtherStart(s: string, e: nat, ps: seq<Further>)
    requires Stands(s, e, FurtherText(ps)) && EndsUnitText(s, e + |FurtherText(ps)|)
    ensures EndsData(s, e) && (ps != [] <==> At(s, e, ','))
  {
    StandsStart(s, e, FurtherText(ps));
  }

  lemma FurtherParts(s: string, e: nat, ps: seq<Further>)
    requires ps != [] && Stands(s, e, FurtherText(ps)) && AllParameters(ps)
    ensures var q := ps[0];
            var list := ListText(q.text, q.after, ps[1..]);
            && FurtherText(ps) == "," + (q.blanks + list)
            && AllBlank(q.blanks) && Fits(q.text, q.after) && AllParameters(ps[1..])
            && Stands(s, e + 1, q.blanks) && Stands(s, e + 1 + |q.blanks|, list)
  {
    hide Fits;
    var q := ps[0];
    var list := ListText(q.text, q.after, ps[1..]);
    StandsApart(s, e, ",", q.blanks + list);
    StandsApart(s, e + 1, q.blanks, list);
  }

  /** A parameter with the blanks behind it: all of that is passed and counted. */
  lemma ParameterRead(s: string, p: nat, text: string, after: string)
    requires Fits(text, after) && Stands(s, p, text) && Stands(s, p + |text|, after) && EndsData(s, p + |text| + |after|)
    ensures var d := ProgramData(s, p);
            d.tok.kind != Unknown && d.pos == p + |text| + |after| && d.ret == |text| + |after|
  {
    hide DataItem, Span, Stands;
    StandsStart(s, p, text);
    StandsStart(s, p + |text|, after);
    assert OneParameter(s, p, |text|);
    SpanNone(s, p);
    BlanksRead(s, p + |text|, after);
  }

  lemma SpanNone(s: string, p: nat)
    requires p <= |s| && (p < |s| ==> s[p] != ' ' && s[p] != '\t')
    ensures Span(s, p, Blank) == p
  {
  }

  /** Blanks before a further parameter only add to the length. */
  lemma BlanksSkipped(s: string, p: nat, blanks: string, text: string, after: string, ps: seq<Further>)
    requires AllBlank(blanks) && Fits(text, after) && Stands(s, p, blanks) && Stands(s, p + |blanks|, ListText(text, after, ps))
    ensures var w := p + |blanks|;
            var a, b := AllProgramDataFrom(s, w), AllProgramDataFrom(s, p);
            b.ok == a.ok && b.pos == a.pos && |b.toks| == |a.toks| && (a.ok ==> b.len == |blanks| + a.len)
  {
    hide ProgramData, Fits, ListText, Stands;
    var w := p + |blanks|;
    FirstVisible(text, after, ps);
    StandsStart(s, w, ListText(text, after, ps));
    BlanksBefore(s, p, blanks);
  }

  lemma BlanksBefore(s: string, p: nat, blanks: string)
    requires AllBlank(blanks) && Stands(s, p, blanks)
    requires var w := p + |blanks|; w < |s| && s[w] != ' ' && s[w] != '\t'
    ensures var w := p + |blanks|;
            ProgramData(s, p) == ProgramData(s, w).(ret := |blanks| + ProgramData(s, w).ret)
  {
    hide DataItem, Span, Stands, AllBlank;
    StandsStart(s, p, blanks);
    BlanksRead(s, p, blanks);
    SpanNone(s, p + |blanks|);
  }

  lemma FirstVisible(text: string, after: string, ps: seq<Further>)
    requires Fits(text, after)
    ensures Visible(ListText(text, after, ps))
  {
  }

  /** A header of either form is one token of its kind. */
  lemma HeaderRead(s: string, p: nat, h: HeaderForm)
    requires IsHeader(h) && Stands(s, p, Spelled(h)) && EndsHeader(s, p + |Spelled(h)|)
    ensures var n := |Spelled(h)|;
            Header(s, p) == Lexed(Token(KindOf(h), p, n), p + n, n)
    ensures Spelled(h) != "" && s[p] != ' ' && s[p] != '\t'
  {
    hide Header, HeaderText, IsMnemonic, Stands, Span;
    match h
    case Compound(colon, path, query) =>
      CompoundHeaderLexed(s, p, colon, path, query);
      PathVisible(s, p, colon, path, query);
    case Common(m, query) =>
      CommonHeaderLexed(s, p, m, query);
      StandsStart(s, p, "*" + (m + if query then "?" else ""));
  }

  lemma PathVisible(s: string, p: nat, colon: bool, path: seq<string>, query: bool)
    requires path != [] && AllMnemonics(path) && Stands(s, p, HeaderText(colon, path, query))
    ensures HeaderText(colon, path, query) != "" && s[p] != ' ' && s[p] != '\t'
  {
    assert IsMnemonic(path[0]);
    StandsStart(s, p, HeaderText(colon, path, query));
    if !colon {
      assert PathText(path)[0] == path[0][0];
    }
  }

  /**
   * Every unit of a header, with or without parameters, is detected with its header, the
   * extent and the number of its parameters, and ended by what ends it: a line feed, a
   * carriage return, both together, a semicolon, or the end of the text.
   */
  lemma UnitDetected(s: string, p: nat, lead: string, h: HeaderForm, d: Data)
    requires AllBlank(lead) && IsHeader(h) && IsData(d)
    requires Stands(s, p, lead + (Spelled(h) + DataText(d))) && EndsUnitText(s, p + |lead + (Spelled(h) + DataText(d))|)
    ensures var start, e := p + |lead|, p + |lead + (Spelled(h) + DataText(d))|;
            var behind := start + |Spelled(h)|;
            var u := Detect(s, p);
            && u.header == Token(KindOf(h), start, |Spelled(h)|)
            && (u.termination, u.next) == Ended(s, e)
            && match d
               case None => u.data == Token(Unknown, behind, 0) && u.numberOfParameters == 0
               case Parameters(blanks, first, after, more) =>
                 && u.data == Token(TokenType.AllProgramData, behind + |blanks|, |ListText(first, after, more)|)
                 && u.numberOfParameters == 1 + |more|
  {
    hide Header, Span, AllProgramDataFrom, Spelled, DataText, Stands, Fits, ListText, Detect;
    var start := p + |lead|;
    StandsApart(s, p, lead, Spelled(h) + DataText(d));
    StandsApart(s, start, Spelled(h), DataText(d));
    DataStart(s, start + |Spelled(h)|, d);
    HeaderRead(s, start, h);
    BlanksRead(s, p, lead);
    DataRead(s, start + |Spelled(h)|, d);
    UnitOf(s, p, start, start + |Spelled(h)|, start + |Spelled(h)| + |DataText(d)|, KindOf(h), d);
  }

  /** No header goes on where its data or its end begin. */
  lemma DataStart(s: string, e: nat, d: Data)
    requires IsData(d) && Stands(s, e, DataText(d)) && EndsUnitText(s, e + |DataText(d)|)
    ensures EndsHeader(s, e)
    ensures d.None? ==> Span(s, e, Blank) == e && DataText(d) == ""
  {
    hide Fits, ListText;
    StandsStart(s, e, DataText(d));
    if d.Parameters? { assert DataText(d)[0] == d.blanks[0]; }
  }

  lemma DataRead(s: string, e: nat, d: Data)
    requires IsData(d) && Stands(s, e, DataText(d)) && EndsUnitText(s, e + |DataText(d)|)
    ensures d.Parameters? ==>
              var w, n := e + |d.blanks|, |ListText(d.first, d.after, d.more)|;
              var a := AllProgramDataFrom(s, w);
              && Span(s, e, Blank) == w && d.blanks != "" && e + |DataText(d)| == w + n
              && a.ok && a.len == n && |a.toks| == 1 + |d.more| && a.pos == w + n
  {
    hide Span, AllProgramDataFrom, Stands, Fits, ListText;
    if d.Parameters? {
      var list := ListText(d.first, d.after, d.more);
      StandsApart(s, e, d.blanks, list);
      FirstVisible(d.first, d.after, d.more);
      StandsStart(s, e + |d.blanks|, list);
      BlanksRead(s, e, d.blanks);
      FurtherRead(s, e + |d.blanks|, d.first, d.after, d.more);
    }
  }

  lemma UnitOf(s: string, p: nat, start: nat, behind: nat, e: nat, kind: TokenType, d: Data)
    requires p <= start < behind <= e && EndsUnitText(s, e) && Span(s, p, Blank) == start && kind != Invalid
    requires Header(s, start) == Lexed(Token(kind, start, behind - start), behind, behind - start)
    requires d.None? ==> Span(s, behind, Blank) == behind && behind == e
    requires d.Parameters? ==>
               var w, n := behind + |d.blanks|, |ListText(d.first, d.after, d.more)|;
               && d.blanks != "" && e == w + n && Span(s, behind, Blank) == w
               && var a := AllProgramDataFrom(s, w); a.ok && a.len == n && |a.toks| == 1 + |d.more| && a.pos == e
    ensures var u := Detect(s, p);
            && u.header == Token(kind, start, behind - start) && (u.termination, u.next) == Ended(s, e)
            && match d
               case None => u.data == Token(Unknown, behind, 0) && u.numberOfParameters == 0
               case Parameters(blanks, first, after, more) =>
                 && u.data == Token(TokenType.AllProgramData, behind + |blanks|, |ListText(first, after, more)|)
                 && u.numberOfParameters == 1 + |more|
  {
    hide Header, Span, AllProgramDataFrom, ListText;
  }

  /** A header followed by a character that belongs to no message: one invalid character, and the scan goes on behind it. */
  lemma InvalidDetected(s: string, p: nat, lead: string, h: HeaderForm)
    requires AllBlank(lead) && IsHeader(h) && Stands(s, p, lead + Spelled(h))
    requires var e := p + |lead + Spelled(h)|;
             && e < |s| && EndsHeader(s, e)
             && s[e] != ' ' && s[e] != '\t' && s[e] != ';' && s[e] != '\r' && s[e] != '\n'
    ensures var e := p + |lead + Spelled(h)|;
            Detect(s, p) == Unit(Token(Invalid, p + |lead|, 1), Token(Unknown, p, 0), 0, NoTermination, e + 1)
  {
    hide Header, Spelled, Stands, AllProgramDataFrom;
    var start := p + |lead|;
    StandsApart(s, p, lead, Spelled(h));
    HeaderRead(s, start, h);
    BlanksRead(s, p, lead);
    SpanNone(s, start + |Spelled(h)|);
  }

  // ------------------------------------------------------------ texts that are parameters

  lemma RealParameter(r: Real)
    requires IsReal(r)
    ensures IsParameter(RealText(r))
  {
    hide RealText, DataItem, Stands, IsReal;
    VisibleReal(r);
    forall s: string, p: nat | Stands(s, p, RealText(r)) && EndsData(s, p + |RealText(r)|)
      ensures OneParameter(s, p, |RealText(r)|)
    {
      StandsStart(s, p, RealText(r));
      RealLexed(s, p, r);
    }
  }

  lemma VisibleReal(r: Real)
    requires IsReal(r)
    ensures RealText(r) != "" && RealText(r)[0] != ' ' && RealText(r)[0] != '\t'
  {
    hide MantissaText, ExponentText;
    NotEmpty(r);
    assert RealText(r)[0] == MantissaText(r)[0];
  }

  lemma TightIsParameter(text: string)
    requires IsTight(text)
    ensures IsParameter(text)
  {
  }

  lemma MnemonicParameter(m: string)
    requires IsMnemonic(m)
    ensures IsTight(m) && IsParameter(m)
  {
    hide DataItem, Stands;
    forall s: string, p: nat | Stands(s, p, m) && EndsTight(s, p + |m|) ensures OneParameter(s, p, |m|) {
      StandsStart(s, p, m);
      MnemonicItem(s, p, m);
    }
  }

  lemma MnemonicItem(s: string, p: nat, m: string)
    requires IsMnemonic(m) && Stands(s, p, m) && EndsTight(s, p + |m|)
    ensures DataItem(s, p) == Lexed(Token(ProgramMnemonic, p, |m|), p + |m|, |m|)
  {
    hide Mnemonic, Stands, DelimitedItem, Number;
    MnemonicRead(s, p, m);
    StandsStart(s, p, m);
  }

  lemma TextParameter(text: string)
    requires AllAscii(text)
    ensures IsTight(Quoted(text, '"')) && IsParameter(Quoted(text, '"'))
    ensures IsTight(Quoted(text, '\'')) && IsParameter(Quoted(text, '\''))
  {
    QuoteParameter(text, '"');
    QuoteParameter(text, '\'');
  }

  lemma QuoteParameter(text: string, quote: char)
    requires AllAscii(text) && (quote == '"' || quote == '\'')
    ensures IsTight(Quoted(text, quote)) && IsParameter(Quoted(text, quote))
  {
    hide DataItem, Stands, Escaped;
    var t := Quoted(text, quote);
    assert t[0] == quote;
    forall s: string, p: nat | Stands(s, p, t) && EndsTight(s, p + |t|) ensures OneParameter(s, p, |t|) {
      QuoteItem(s, p, text, quote);
    }
  }

  lemma QuoteItem(s: string, p: nat, text: string, quote: char)
    requires AllAscii(text) && (quote == '"' || quote == '\'') && Stands(s, p, Quoted(text, quote)) && EndsTight(s, p + |Quoted(text, quote)|)
    ensures OneParameter(s, p, |Quoted(text, quote)|)
  {
    hide Escaped, Stands, StringData, PlainItem, Block, Expression, AllAscii;
    var t := Quoted(text, quote);
    assert t[0] == quote;
    StandsStart(s, p, t);
    QuotedScan(s, p, text, quote);
    NoPlainQuote(s, p);
  }

  lemma NoPlainQuote(s: string, p: nat)
    requires p < |s| && (s[p] == '"' || s[p] == '\'')
    ensures PlainItem(s, p).ret == 0
  {
  }

  lemma BlockParameter(payload: string)
    requires |payload| <= MAX_PAYLOAD
    ensures IsTight(BlockShown(payload)) && IsParameter(BlockShown(payload))
  {
    hide DataItem, Block, Stands, BlockHeader;
    var t := BlockShown(payload);
    HeaderParts(|payload|);
    assert t[0] == BlockHeader(|payload|)[0];
    forall s: string, p: nat | Stands(s, p, t) && EndsTight(s, p + |t|) ensures OneParameter(s, p, |t|) {
      StandsStart(s, p, t);
      BlockLexed(s, p, payload);
    }
  }

  lemma ListParameter(body: string)
    requires ExpressionLists.AllExpression(body)
    ensures IsTight("(" + body + ")") && IsParameter("(" + body + ")")
  {
    hide DataItem, Stands, ExpressionLists.AllExpression;
    var t := "(" + body + ")";
    forall s: string, p: nat | Stands(s, p, t) && EndsTight(s, p + |t|) ensures OneParameter(s, p, |t|) {
      StandsStart(s, p, t);
      ExpressionLists.ParenthesesRead(s, p, body);
    }
  }

  // ------------------------------------------------------------ lines of one unit

  ghost predicate IsLineEnd(e: string) { e == "\n" || e == "\r\n" || e == "\r" }

  /** A line of one unit: what it says and what ends it. */
  function OneUnit(lead: string, h: HeaderForm, d: Data, end: string): string
    requires IsHeader(h)
  {
    (lead + (Spelled(h) + DataText(d))) + end
  }

  /** The parameters as a callback gets them. */
  function Handed(d: Data): string {
    match d
    case None => ""
    case Parameters(_, first, after, more) => ListText(first, after, more)
  }

  /** SCPI_Input hands the line on as soon as it is there, and SCPI_Parse calls its command with its parameters. */
  lemma LineCalls(commands: seq<CommandMatch.Pattern>, lead: string, h: HeaderForm, d: Data, end: string)
    requires Parser.CommandsOk(commands) && AllBlank(lead) && IsHeader(h) && IsData(d) && IsLineEnd(end)
    ensures var line := OneUnit(lead, h, d, end);
            Feed(line) == Fed([line], "")
    ensures Spelled(h) != ""
    ensures var f, line := Parser.FindFrom(commands, Spelled(h), 0), OneUnit(lead, h, d, end);
            Parser.Run(commands, line, 0, Parser.NO_TOKEN)
            == [if f.At? then Parser.Call(f.index, Spelled(h), Handed(d))
                else Parser.UndefinedHeader(Parser.Trimmed(lead + (Spelled(h) + DataText(d))))]
  {
    hide Spelled, DataText, Detect, Feed, ScanLine, Parser.Run, Parser.FindFrom, Parser.Trimmed, Fits, ListText;
    var unit := lead + (Spelled(h) + DataText(d));
    var line := unit + end;
    LineUnit(line, unit, end, lead, h, d);
    ScanUnfold(line, 0);
    FeedUnfold(line);
    FeedNothing();
    assert line[..|line|] == line && line[|line|..] == "" && line[0..|line|] == line;
    var u := Detect(line, 0);
    Parser.UnitTokens(line, 0);
    Parser.NothingInherited(line, Parser.NO_TOKEN, u.header);
    Parser.RunUnit(commands, line, 0, Parser.NO_TOKEN);
    TrimmedLine(unit, end);
  }

  lemma FeedNothing()
    ensures Feed("") == Fed([], "")
  {
    hide Detect;
    UnitBodyNothing();
  }

  lemma UnitBodyNothing()
    ensures var u := Detect("", 0); u.header.kind == Unknown && u.termination == NoTermination && u.next == 0
  {
  }

  lemma TrimmedLine(unit: string, end: string)
    requires IsLineEnd(end)
    ensures Parser.Trimmed(unit + end) == Parser.Trimmed(unit)
  {
    TrimmedEnds(unit);
    if end == "\r" { assert (unit + "\r")[..|unit|] == unit; }
  }

  /** The unit of such a line and the texts of its tokens. */
  lemma LineUnit(line: string, unit: string, end: string, lead: string, h: HeaderForm, d: Data)
    requires AllBlank(lead) && IsHeader(h) && IsData(d) && IsLineEnd(end)
    requires unit == lead + (Spelled(h) + DataText(d)) && line == unit + end
    ensures var u := Detect(line, 0);
            && u.header.kind == KindOf(h) && u.header.len > 0 && u.next == |line| && u.termination == NewLineTermination
            && Parser.Inside(u.header, line) && Parser.Text(line, u.header) == Spelled(h)
            && Parser.Inside(u.data, line) && Parser.Text(line, u.data) == Handed(d)
  {
    hide Spelled, DataText, Detect, Fits, ListText, Stands;
    WholeStands(line, unit, end);
    UnitDetected(line, 0, lead, h, d);
    StandsApart(line, 0, lead, Spelled(h) + DataText(d));
    StandsApart(line, |lead|, Spelled(h), DataText(d));
    HeaderVisible(h);
    TokenStands(line, |lead|, Spelled(h));
    DataStands(line, |lead| + |Spelled(h)|, d);
  }

  lemma WholeStands(line: string, unit: string, end: string)
    requires line == unit + end && IsLineEnd(end)
    ensures Stands(line, 0, unit) && EndsUnitText(line, |unit|) && Ended(line, |unit|) == (NewLineTermination, |line|)
  {
    assert line[0..|unit|] == unit;
    assert forall i :: 0 <= i < |end| ==> line[|unit| + i] == end[i];
  }

  lemma HeaderVisible(h: HeaderForm)
    requires IsHeader(h)
    ensures Spelled(h) != ""
  {
    if h.Compound? { assert IsMnemonic(h.path[0]); }
  }

  lemma TokenStands(s: string, p: nat, text: string)
    requires Stands(s, p, text)
    ensures p + |text| <= |s| && s[p..p + |text|] == text
  {
  }

  lemma DataStands(s: string, p: nat, d: Data)
    requires IsData(d) && Stands(s, p, DataText(d))
    ensures d.Parameters? ==>
              var w := p + |d.blanks|; w + |Handed(d)| <= |s| && s[w..w + |Handed(d)|] == Handed(d)
    ensures p + |DataText(d)| <= |s|
  {
    hide ListText, Fits;
    if d.Parameters? {
      StandsApart(s, p, d.blanks, Handed(d));
    }
  }
}
