// A line found by scanning a longer buffer is found again, unit by unit, by
// scanning the line alone; and for lines without quotes and blocks, the line
// ends are simply the line feeds.

module UnitStability {
  import opened Basics
  import opened Lexer
  import opened ProgramUnits
  import opened LexerStability

  // ------------------------------------------------------------ one unit

  lemma ProgramDataLineCut(s: string, t: string, p: nat)
    requires LineCut(s, t, p) && (|t| < |s| ==> ProgramData(s, p).pos < |t|)
    ensures ProgramData(t, p) == ProgramData(s, p)
  {
    hide DataItem, Span;
    var w := Span(s, p, Blank);
    var x := DataItem(s, w);
    SpanCut(s, t, p, Blank);
    if x.ret > 0 {
      ItemHitCut(s, t, w);
    } else {
      ItemMissCut(s, t, w);
    }
    SpanCut(s, t, x.pos, Blank);
  }

  lemma {:induction false} AllProgramDataLineCut(s: string, t: string, p: nat)
    requires LineCut(s, t, p) && (|t| < |s| ==> AllProgramDataFrom(s, p).pos < |t|)
    ensures AllProgramDataFrom(t, p) == AllProgramDataFrom(s, p)
    decreases |s| - p
  {
    hide ProgramData;
    var d := ProgramData(s, p);
    ProgramDataLineCut(s, t, p);
    if d.tok.kind != Unknown && At(s, d.pos, ',') {
      AllProgramDataLineCut(s, t, d.pos + 1);
    }
  }

  lemma UnitBodyLineCut(s: string, t: string, p: nat)
    requires LineCut(s, t, p) && (|t| < |s| ==> UnitBody(s, p).3 < |t|)
    ensures UnitBody(t, p) == UnitBody(s, p)
  {
    hide Span, HeaderExtent, AllProgramDataFrom;
    SpanCut(s, t, p, Blank);
    var h := Header(s, Span(s, p, Blank));
    HeaderCut(s, t, Span(s, p, Blank));
    SpanCut(s, t, h.pos, Blank);
    if Span(s, h.pos, Blank) > h.pos {
      AllProgramDataLineCut(s, t, Span(s, h.pos, Blank));
    }
  }

  /** The unit detected in a buffer is detected again in a text cut at a later line end. */
  lemma DetectLineCut(s: string, t: string, p: nat)
    requires LineCut(s, t, p) && Detect(s, p).next <= |t|
    ensures Detect(t, p) == Detect(s, p)
  {
    hide UnitBody;
    UnitBodyLineCut(s, t, p);
  }

  // ------------------------------------------------------------ a line of units

  /** The units SCPI_Input scans from p on, and where the line they form ends, if it does. */
  datatype Scan = Scan(units: seq<Unit>, found: bool, end: nat)

  function ScanLine(s: string, p: nat): (r: Scan)
    requires p <= |s|
    ensures r.units != []
    ensures r.found ==> p < r.end <= |s|
    decreases |s| - p
  {
    var u := Detect(s, p);
    if u.termination == NewLineTermination then Scan([u], true, u.next)
    else if (u.header.kind == Unknown && u.termination == NoTermination) || u.next >= |s| then Scan([u], false, 0)
    else
      var rest := ScanLine(s, u.next);
      rest.(units := [u] + rest.units)
  }

  /** The units SCPI_Parse detects in a line of its own. */
  function LineUnits(t: string, p: nat): seq<Unit>
    requires p <= |t|
    decreases |t| - p
  {
    var u := Detect(t, p);
    if u.next < |t| then [u] + LineUnits(t, u.next) else [u]
  }

  lemma NewLineUnit(s: string, p: nat)
    requires p <= |s| && Detect(s, p).termination == NewLineTermination
    ensures var e := Detect(s, p).next; p < e && IsNl(s[e - 1])
  {
    hide UnitBody;
  }

  lemma {:induction false} ScanLineEnd(s: string, p: nat)
    requires p <= |s| && ScanLine(s, p).found
    ensures var e := ScanLine(s, p).end; p < e <= |s| && IsNl(s[e - 1])
    decreases |s| - p
  {
    hide Detect;
    var u := Detect(s, p);
    if u.termination == NewLineTermination {
      NewLineUnit(s, p);
    } else {
      ScanLineEnd(s, u.next);
    }
  }

  /**
   * Re-scanning agreement, for arbitrary bytes: the slice SCPI_Input hands to
   * SCPI_Parse breaks into exactly the units SCPI_Input saw, with the same
   * headers, program data, parameter counts and terminations.
   */
  lemma {:induction false} RescanAgrees(s: string, p: nat)
    requires p <= |s| && ScanLine(s, p).found
    ensures LineUnits(s[..ScanLine(s, p).end], p) == ScanLine(s, p).units
    decreases |s| - p
  {
    hide Detect;
    var u := Detect(s, p);
    var t := s[..ScanLine(s, p).end];
    ScanLineEnd(s, p);
    DetectLineCut(s, t, p);
    if u.termination != NewLineTermination {
      RescanAgrees(s, u.next);
    }
  }

  // ------------------------------------------------------------ a buffer of lines

  /** What SCPI_Input does with a buffer: the slices it hands on, and what stays buffered. */
  datatype Fed = Fed(lines: seq<string>, tail: string)

  function Feed(s: string): Fed
    decreases |s|
  {
    var scan := ScanLine(s, 0);
    if scan.found then
      var rest := Feed(s[scan.end..]);
      Fed([s[..scan.end]] + rest.lines, rest.tail)
    else Fed([], s)
  }

  lemma ScanUnfold(s: string, p: nat)
    requires p <= |s|
    ensures var u := Detect(s, p);
            var scan := ScanLine(s, p);
            if u.termination == NewLineTermination then scan.found && scan.end == u.next
            else if (u.header.kind == Unknown && u.termination == NoTermination) || u.next >= |s| then !scan.found && scan.end == 0
            else var rest := ScanLine(s, u.next); scan.found == rest.found && scan.end == rest.end
  {
    hide Detect;
  }

  lemma FeedUnfold(s: string)
    ensures var scan := ScanLine(s, 0);
            if scan.found then
              var rest := Feed(s[scan.end..]);
              Feed(s) == Fed([s[..scan.end]] + rest.lines, rest.tail)
            else Feed(s) == Fed([], s)
  {
    hide ScanLine;
  }

  /** The lines of a text, each with its line feed, and the unterminated rest. */
  function Lines(s: string): (r: Fed)
    decreases |s|
  {
    var j := LineFeed(s, 0);
    if j < |s| then
      var rest := Lines(s[j + 1..]);
      Fed([s[..j + 1]] + rest.lines, rest.tail)
    else Fed([], s)
  }

  /** The first line feed at or after p, or |s|. */
  function LineFeed(s: string, p: nat): (j: nat)
    requires p <= |s|
    ensures p <= j <= |s|
    ensures forall i :: p <= i < j ==> s[i] != '\n'
    ensures j < |s| ==> s[j] == '\n'
    decreases |s| - p
  {
    if p < |s| && s[p] != '\n' then LineFeed(s, p + 1) else p
  }

  /** No quote and no block from p on. */
  ghost predicate Quoteless(s: string, p: nat) {
    forall i :: p <= i < |s| ==>
      s[i] != '"' && s[i] != '\'' && (s[i] == '#' && i + 1 < |s| ==> !IsNonzeroDigit(s[i + 1]))
  }

  /** No quote, no block, and no carriage return either. */
  ghost predicate Plain(s: string) { Quoteless(s, 0) && forall i :: 0 <= i < |s| ==> s[i] != '\r' }

  /** No quote, no block, and every carriage return has its line feed. */
  ghost predicate CrPlain(s: string) {
    Quoteless(s, 0) && forall i :: 0 <= i < |s| && s[i] == '\r' ==> i + 1 < |s| && s[i + 1] == '\n'
  }

  /** j is the first carriage return or line feed after p, or the end. */
  ghost predicate LineStop(s: string, p: nat, j: nat) {
    && Quoteless(s, p) && p <= j <= |s| && (j < |s| ==> s[j] == '\r' || s[j] == '\n')
    && forall i :: p <= i < j ==> s[i] != '\r' && s[i] != '\n'
  }

  /** Behind a line end: a carriage return and a line feed together, or one of them alone. */
  function BehindLineEnd(s: string, j: nat): nat
    requires j < |s|
  {
    if s[j] == '\r' && j + 1 < |s| && s[j + 1] == '\n' then j + 2 else j + 1
  }

  lemma {:induction false} SpanStop(s: string, p: nat, j: nat, k: CharClass)
    requires LineStop(s, p, j)
    ensures Span(s, p, k) <= j
    decreases j - p
  {
    if p < j && Is(k, s[p]) {
      SpanStop(s, p + 1, j, k);
    }
  }

  lemma MnemonicStop(s: string, p: nat, j: nat)
    requires LineStop(s, p, j)
    ensures Mnemonic(s, p) <= j
  {
    if p < j && IsAlpha(s[p]) {
      SpanStop(s, p + 1, j, MnemonicChar);
    }
  }

  lemma {:induction false} CompoundTailStop(s: string, p: nat, j: nat)
    requires LineStop(s, p, j)
    ensures CompoundTail(s, p).1 <= j
    decreases j - p
  {
    if At(s, p, ':') {
      MnemonicStop(s, p + 1, j);
      var e := Mnemonic(s, p + 1);
      if e > p + 1 {
        CompoundTailStop(s, e, j);
      }
    }
  }

  lemma HeaderStop(s: string, p: nat, j: nat)
    requires LineStop(s, p, j)
    ensures Header(s, p).pos <= j
  {
    hide Mnemonic, CompoundTail;
    var start := if At(s, p, '*') || At(s, p, ':') then p + 1 else p;
    MnemonicStop(s, start, j);
    CompoundTailStop(s, Mnemonic(s, start), j);
  }

  lemma {:induction false} SuffixTailStop(s: string, p: nat, j: nat)
    requires LineStop(s, p, j)
    ensures SuffixTail(s, p) <= j
    decreases j - p
  {
    hide Span;
    if p < |s| && Is(SlashDot, s[p]) {
      SpanStop(s, p + 1, j, Letter);
      SuffixTailStop(s, SuffixPower(s, Span(s, p + 1, Letter)), j);
    }
  }

  lemma SuffixStop(s: string, p: nat, j: nat)
    requires LineStop(s, p, j)
    ensures SuffixEnd(s, p) <= j
  {
    hide Span, SuffixTail;
    var p1 := OptChr(s, p, '/');
    SpanStop(s, p1, j, Letter);
    SuffixTailStop(s, SuffixPower(s, Span(s, p1, Letter)), j);
  }

  lemma MantissaStop(s: string, p: nat, j: nat)
    requires LineStop(s, p, j)
    ensures Mantissa(s, p).1 <= j
  {
    hide Span;
    var p1 := Opt(s, p, Sign);
    SpanStop(s, p1, j, Digit);
    var p2 := Span(s, p1, Digit);
    if At(s, p2, '.') {
      SpanStop(s, p2 + 1, j, Digit);
    }
  }

  lemma ExponentStop(s: string, p: nat, j: nat)
    requires LineStop(s, p, j)
    ensures Exponent(s, p) <= j
  {
    hide Span;
    SpanStop(s, p, j, Blank);
    var p0 := Span(s, p, Blank);
    if p0 < j && IsExponentMark(s[p0]) {
      SpanStop(s, p0 + 1, j, Blank);
      SpanStop(s, Opt(s, Span(s, p0 + 1, Blank), Sign), j, Digit);
    }
  }

  lemma NumberStop(s: string, p: nat, j: nat)
    requires LineStop(s, p, j)
    ensures Number(s, p).pos <= j
  {
    hide Mantissa, Exponent, Span, SuffixEnd;
    MantissaStop(s, p, j);
    ExponentStop(s, Mantissa(s, p).1, j);
    var d := Decimal(s, p);
    if d.ret > 0 {
      SpanStop(s, d.pos, j, Blank);
      SuffixStop(s, Span(s, d.pos, Blank), j);
    }
  }

  lemma NondecimalStop(s: string, p: nat, j: nat)
    requires LineStop(s, p, j)
    ensures Nondecimal(s, p).pos <= j
  {
    hide Span;
    if p + 2 <= j {
      SpanStop(s, p + 2, j, Hex);
      SpanStop(s, p + 2, j, Oct);
      SpanStop(s, p + 2, j, Bin);
    }
  }

  lemma DelimitedStop(s: string, p: nat, j: nat)
    requires LineStop(s, p, j)
    ensures DelimitedItem(s, p).pos <= j
  {
    hide Span, QuoteStop;
    if At(s, p, '(') {
      SpanStop(s, p + 1, j, ExpressionChar);
    }
  }

  lemma DataItemStop(s: string, p: nat, j: nat)
    requires LineStop(s, p, j)
    ensures DataItem(s, p).pos <= j
  {
    hide Nondecimal, Mnemonic, Number, DelimitedItem;
    NondecimalStop(s, p, j);
    MnemonicStop(s, p, j);
    NumberStop(s, p, j);
    DelimitedStop(s, p, j);
  }

  lemma {:induction false} AllProgramDataStop(s: string, p: nat, j: nat)
    requires LineStop(s, p, j)
    ensures AllProgramDataFrom(s, p).pos <= j
    decreases j - p
  {
    hide DataItem, Span;
    SpanStop(s, p, j, Blank);
    DataItemStop(s, Span(s, p, Blank), j);
    SpanStop(s, DataItem(s, Span(s, p, Blank)).pos, j, Blank);
    var d := ProgramData(s, p);
    if d.tok.kind != Unknown && At(s, d.pos, ',') {
      AllProgramDataStop(s, d.pos + 1, j);
    }
  }

  lemma UnitBodyStop(s: string, p: nat, j: nat)
    requires LineStop(s, p, j)
    ensures UnitBody(s, p).3 <= j
  {
    hide HeaderExtent, Span, AllProgramDataFrom;
    SpanStop(s, p, j, Blank);
    HeaderStop(s, Span(s, p, Blank), j);
    var h := Header(s, Span(s, p, Blank));
    SpanStop(s, h.pos, j, Blank);
    AllProgramDataStop(s, Span(s, h.pos, Blank), j);
  }

  /** A unit never passes a line end without reporting it, and then takes exactly the line end. */
  lemma DetectStop(s: string, p: nat, j: nat)
    requires LineStop(s, p, j)
    ensures var u := Detect(s, p);
            if u.termination == NewLineTermination then j < |s| && u.next == BehindLineEnd(s, j) else u.next <= j
  {
    hide UnitBody;
    UnitBodyStop(s, p, j);
  }

  lemma {:induction false} PlainScan(s: string, p: nat, j: nat)
    requires LineStop(s, p, j)
    ensures var scan := ScanLine(s, p);
            if j < |s| then scan.found && scan.end == BehindLineEnd(s, j) else !scan.found
    decreases |s| - p
  {
    hide Detect;
    DetectStop(s, p, j);
    var u := Detect(s, p);
    if u.termination != NewLineTermination && u.next < |s| {
      PlainScan(s, u.next, j);
    }
  }

  /** On text without quotes and blocks, its line ends being line feeds with or without a carriage return, SCPI_Input hands on exactly the lines. */
  lemma {:induction false} PlainFeed(s: string)
    requires CrPlain(s)
    ensures Feed(s) == Lines(s)
    decreases |s|
  {
    hide ScanLine;
    var j := LineFeed(s, 0);
    var stop := if 0 < j < |s| && s[j - 1] == '\r' then j - 1 else j;
    forall i | 0 <= i < stop ensures s[i] != '\r' {
      assert i + 1 < j ==> s[i + 1] != '\n';
    }
    PlainScan(s, 0, stop);
    if j < |s| {
      PlainFeed(s[j + 1..]);
    }
  }

  // ------------------------------------------------------------ chunking

  lemma {:induction false} LinesConcat(x: string, y: string)
    ensures var a := Lines(x);
            var b := Lines(a.tail + y);
            Lines(x + y) == Fed(a.lines + b.lines, b.tail)
    decreases |x|
  {
    hide LineFeed;
    var j := LineFeed(x, 0);
    if j < |x| {
      var rest := x[j + 1..];
      LineFeedPrefix(x, y, 0);
      LinesConcat(rest, y);
      assert (x + y)[j + 1..] == rest + y && (x + y)[..j + 1] == x[..j + 1];
      var b := Lines(Lines(rest).tail + y);
      assert [x[..j + 1]] + (Lines(rest).lines + b.lines) == ([x[..j + 1]] + Lines(rest).lines) + b.lines;
    } else {
      assert [] + Lines(x + y).lines == Lines(x + y).lines;
    }
  }

  lemma {:induction false} LineFeedPrefix(x: string, y: string, p: nat)
    requires p <= |x| && LineFeed(x, p) < |x|
    ensures LineFeed(x + y, p) == LineFeed(x, p)
    decreases |x| - p
  {
    if x[p] != '\n' {
      LineFeedPrefix(x, y, p + 1);
    }
  }

  /** The state after chunk after chunk has been fed to SCPI_Input. */
  function FeedChunks(chunks: seq<string>, buffered: string): Fed
    decreases |chunks|
  {
    if chunks == [] then Fed([], buffered)
    else
      var first := Feed(buffered + chunks[0]);
      var rest := FeedChunks(chunks[1..], first.tail);
      Fed(first.lines + rest.lines, rest.tail)
  }

  function Concat(chunks: seq<string>): string {
    if chunks == [] then "" else chunks[0] + Concat(chunks[1..])
  }

  /** What stays buffered is a suffix without line feeds. */
  lemma {:induction false} TailIsSuffix(s: string) returns (k: nat)
    ensures k <= |s| && Lines(s).tail == s[k..] && LineFeed(s[k..], 0) == |s| - k
    decreases |s|
  {
    var j := LineFeed(s, 0);
    if j < |s| {
      k := TailIsSuffix(s[j + 1..]);
      assert s[j + 1..][k..] == s[j + 1 + k..];
      k := j + 1 + k;
    } else {
      k := 0;
      assert s[0..] == s;
    }
  }

  lemma PlainParts(x: string, y: string, k: nat)
    requires Plain(x + y) && k <= |x|
    ensures Plain(x) && CrPlain(x) && Plain(x[k..] + y)
  {
    assert forall i :: 0 <= i < |x| ==> x[i] == (x + y)[i];
    assert forall i :: 0 <= i < |x[k..] + y| ==> (x[k..] + y)[i] == (x + y)[k + i];
  }

  lemma NoLineFeed(s: string)
    requires LineFeed(s, 0) == |s|
    ensures Lines(s) == Fed([], s)
  {
  }

  /**
   * Behaviour does not depend on chunking: however a plain stream is split, the
   * slices handed to SCPI_Parse are the lines of the whole stream, and the
   * unterminated tail of the stream is what stays buffered.
   */
  lemma {:induction false} ChunkingIrrelevant(chunks: seq<string>, buffered: string)
    requires Plain(buffered + Concat(chunks)) && LineFeed(buffered, 0) == |buffered|
    ensures FeedChunks(chunks, buffered) == Lines(buffered + Concat(chunks))
    decreases |chunks|
  {
    hide Feed, Lines, LineFeed, Plain;
    if chunks == [] {
      assert buffered + "" == buffered;
      NoLineFeed(buffered);
    } else {
      var x := buffered + chunks[0];
      var y := Concat(chunks[1..]);
      assert buffered + Concat(chunks) == x + y;
      var k := TailIsSuffix(x);
      PlainParts(x, y, k);
      PlainFeed(x);
      ChunkingIrrelevant(chunks[1..], x[k..]);
      LinesConcat(x, y);
    }
  }
}
