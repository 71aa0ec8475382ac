// The response writers of parser.c: what one command adds to the output.

module Responses {
  import opened Basics
  import opened Lexer
  import opened ProgramUnits
  import opened IntegerText
  import opened QuotedText
  import opened BlockText
  import opened Circular
  import opened ErrorHeap
  import opened CommandMatch
  import opened LexerGrammar
  import Parser

  /** Section 21.8 of SCPI-99: the most characters a quoted description may have. */
  const MAX_DESCRIPTION := 255
  const SYSTEM_ERROR := -310

  /** The comma before every result of a command but the first. */
  function Delimiter(count: nat): string { if count > 0 then "," else "" }

  /** The parts of an error description: the standard text, and its device-dependent information in one or two pieces. */
  function Joined(parts: seq<string>, i: nat): string
    requires i <= |parts|
  {
    if i == 0 then "" else Joined(parts, i - 1) + (if i == 2 then ";" else "") + parts[i - 1]
  }

  function Description(description: string, info: string): string {
    if info == "" then description else description + ";" + info
  }

  /** The conversion of a signed integer to uint32_t. */
  function Unsigned(val: int): (r: nat)
    ensures r < Bound(false)
    ensures -0x8000_0000 <= val < 0x8000_0000 ==> Signed(false, r) == val
  {
    val % 0x1_0000_0000
  }

  /** What SCPI_ResultError writes after the delimiter: the number and the limited, quoted description. */
  function ErrorResult(code: int, description: string): string {
    IntegerResult(false, Unsigned(code), 10, true) + ",\"" + Fit(description, MAX_DESCRIPTION, '"') + "\""
  }

  /** How many characters are left of the limit after text was written within it. */
  function Left(text: string, limit: nat): nat {
    if |Escaped(text, '"')| <= limit then limit - |Escaped(text, '"')| else 0
  }

  class ResultContext {
    var output: string
    var outputCount: nat
    var arbitraryRemaining: nat
    var errors: seq<int>         // the codes handed to SCPI_ErrorPush

    constructor ()
      ensures output == "" && outputCount == 0 && errors == []
    {
      output, outputCount, arbitraryRemaining, errors := "", 0, 0, [];
    }

    method WriteData(data: string) returns (result: nat)
      modifies `output
      ensures output == old(output) + data && result == |data|
    {
      output := output + data;
      result := |data|;
    }

    method WriteDelimiter() returns (result: nat)
      modifies `output
      ensures output == old(output) + Delimiter(outputCount) && result == |Delimiter(outputCount)|
    {
      if outputCount > 0 {
        result := WriteData(",");
      } else {
        result := 0;
      }
    }

    /** resultUInt32BaseSign and resultUInt64BaseSign: a local buffer is filled, and what the printer counted is written. */
    method ResultUIntBaseSign(wide: bool, val: nat, base: int, sign: bool) returns (result: nat)
      requires val < Bound(wide)
      modifies `output, `outputCount
      ensures output == old(output) + Delimiter(old(outputCount)) + IntegerResult(wide, val, base, sign)
      ensures outputCount == old(outputCount) + 1 && result == |output| - |old(output)|
    {
      hide PrintedInteger;
      TextFits(wide, val, base, sign);
      var buffer := new char[if wide then 64 + 1 else 32 + 1];
      var len := ToStrBaseSign(wide, val, buffer, buffer.Length, base, sign);
      var basePrefix := BasePrefix(base);
      result := WriteDelimiter();
      if basePrefix != "" {
        var r := WriteData(basePrefix);
        result := result + r;
      }
      var r := WriteData(buffer[..len]);
      result := result + r;
      outputCount := outputCount + 1;
    }

    /** The two writes for text up to a quote: the text, and the quote once more. */
    method WriteDoubled(data: string, ghost start: string, ghost done: string) returns (result: nat)
      requires output == start + done
      modifies `output
      ensures output == start + (done + (data + "\"")) && result == |data| + 1
    {
      var r := WriteData(data);
      var q := WriteData("\"");
      result := r + q;
    }

    /** The loop of SCPI_ResultText and the closing quote: every quote of the text is written twice. */
    method WriteEscaped(data0: string) returns (result: nat)
      requires '\0' !in data0
      modifies `output
      ensures output == old(output) + (Escaped(data0, '"') + "\"") && result == |Escaped(data0, '"')| + 1
    {
      hide Escaped;
      var data := data0;
      result := 0;
      ghost var start, done := output, "";
      var quote := StrNPbrk(data, "\"");
      assert "" + Escaped(data, '"') == Escaped(data0, '"');
      while quote != -1
        invariant '\0' !in data && output == start + done && result == |done|
        invariant done + Escaped(data, '"') == Escaped(data0, '"')
        invariant quote == -1 ==> '"' !in data
        invariant quote != -1 ==> 0 <= quote < |data| && data[quote] == '"' && '"' !in data[..quote]
        decreases |data|
      {
        QuoteFound(data, quote);
        var head, tail := data[..quote + 1], data[quote + 1..];
        var r := WriteDoubled(head, start, done);
        result := result + r;
        Reassociate(done, head + "\"", Escaped(tail, '"'));
        done := done + (head + "\"");
        data := tail;
        quote := StrNPbrk(data, "\"");
      }
      EscapedPlain(data, '"');
      var r := WriteDoubled(data, start, done);
      result := result + r;
      Reassociate(done, data, "\"");
    }

    /** SCPI_ResultText */
    method ResultText(data: string) returns (result: nat)
      requires '\0' !in data
      modifies `output, `outputCount
      ensures output == old(output) + Delimiter(old(outputCount)) + Quoted(data, '"')
      ensures outputCount == old(outputCount) + 1 && result == |output| - |old(output)|
    {
      hide Escaped;
      result := WriteDelimiter();
      var q := WriteData("\"");
      var r := WriteEscaped(data);
      result := result + q + r;
      outputCount := outputCount + 1;
    }

    /**
     * The inner loop of SCPI_ResultError: the text up to the last quote that fits
     * twice is written.  What remains is data, of which len characters are still
     * considered; stuck says that the last of these is a quote with no room for its double.
     */
    method WriteQuotes(data0: string, limit: nat)
      returns (result: nat, data: string, len: nat, outputLimit: nat, stuck: bool, ghost done: string)
      requires '\0' !in data0
      modifies `output
      ensures output == old(output) + done && result == |done| && len <= |data|
      ensures done + Fit(data, outputLimit, '"') == Fit(data0, limit, '"') && Left(data0, limit) == Left(data, outputLimit)
      ensures if stuck then 0 < len == outputLimit && data[len - 1] == '"' && '"' !in data[..len - 1]
              else '"' !in data[..len] && (len == outputLimit || (len == |data| && len < outputLimit))
    {
      hide Escaped, Fit, Left;
      data, outputLimit, result, stuck, done := data0, limit, 0, false, "";
      len := if |data| > outputLimit then outputLimit else |data|;
      var quote := StrNPbrk(data[..len], "\"");
      assert "" + Fit(data, limit, '"') == Fit(data, limit, '"');
      while quote != -1
        invariant '\0' !in data && output == old(output) + done && result == |done|
        invariant len <= |data| && (len == outputLimit || (len == |data| && len < outputLimit))
        invariant done + Fit(data, outputLimit, '"') == Fit(data0, limit, '"')
        invariant Left(data0, limit) == Left(data, outputLimit)
        invariant quote == -1 ==> '"' !in data[..len]
        invariant quote != -1 ==> 0 <= quote < len && data[quote] == '"' && '"' !in data[..quote]
        decreases |data|
      {
        var step := quote + 1;
        if step >= outputLimit {
          stuck := true;
          return;
        }
        QuoteFits(data, quote, outputLimit);
        var head, tail := data[..step], data[step..];
        var r := WriteDoubled(head, old(output), done);
        result := result + r;
        len := len - step;
        outputLimit := outputLimit - (step + 1);
        Reassociate(done, head + "\"", Fit(tail, outputLimit, '"'));
        done := done + (head + "\"");
        data := tail;
        if len > outputLimit {
          len := outputLimit;
        }
        quote := StrNPbrk(data[..len], "\"");
      }
    }

    /** One round of the outer loop of SCPI_ResultError: one part of the description, within the limit. */
    method WritePart(data0: string, limit: nat) returns (result: nat, left: nat)
      requires '\0' !in data0
      modifies `output
      ensures output == old(output) + Fit(data0, limit, '"') && result == |Fit(data0, limit, '"')|
      ensures left == Left(data0, limit)
    {
      hide Escaped, Fit, Left;
      var data, len, outputLimit, stuck;
      ghost var done;
      result, data, len, outputLimit, stuck, done := WriteQuotes(data0, limit);
      if stuck {
        len := len - 1;
        outputLimit := outputLimit - 1;
      }
      PartEnds(data, len, if stuck then outputLimit + 1 else outputLimit);
      var r := WriteData(data[..len]);
      result := result + r;
      left := outputLimit - len;
    }

    /** SCPI_ResultInt32 */
    method ResultInt32(val: int) returns (result: nat)
      modifies `output, `outputCount
      ensures output == old(output) + Delimiter(old(outputCount)) + IntegerResult(false, Unsigned(val), 10, true)
      ensures outputCount == old(outputCount) + 1 && result == |output| - |old(output)|
    {
      result := ResultUIntBaseSign(false, Unsigned(val), 10, true);
    }

    /** The outer loop of SCPI_ResultError over the parts there are. */
    method WriteParts(parts: seq<string>) returns (result: nat)
      requires forall i :: 0 <= i < |parts| ==> '\0' !in parts[i]
      requires outputCount > 0
      modifies `output
      ensures output == old(output) + Fit(Joined(parts, |parts|), MAX_DESCRIPTION, '"')
      ensures result == |output| - |old(output)|
    {
      hide Escaped, Fit, Left, Joined;
      var outputLimit := MAX_DESCRIPTION;
      result := 0;
      var i := 0;
      NothingJoined(parts);
      while i < |parts| && outputLimit != 0
        invariant 0 <= i <= |parts| && result == |output| - |old(output)|
        invariant output == old(output) + Fit(Joined(parts, i), MAX_DESCRIPTION, '"')
        invariant outputLimit == Left(Joined(parts, i), MAX_DESCRIPTION)
      {
        ghost var done, limit := Joined(parts, i), outputLimit;
        if i == 1 {
          var r := WriteData(";");
          result := result + r;
          outputLimit := outputLimit - 1;
        }
        JoinPart(done, if i == 1 then ";" else "", parts[i], limit);
        var r, left := WritePart(parts[i], outputLimit);
        result := result + r;
        outputLimit := left;
        i := i + 1;
        JoinedStep(parts, i);
      }
      LimitReached(parts, i);
    }

    /** The parts of the description that SCPI_ResultError collects: a text that wraps around in the heap is two of them. */
    method ErrorParts(description: string, heap: Heap, info: Pointer, ghost k: nat) returns (parts: seq<string>)
      requires '\0' !in description && heap.Valid()
      requires info.Ptr? ==> k < |heap.live| && info.index == heap.IndexOf(k)
      ensures forall i :: 0 <= i < |parts| ==> '\0' !in parts[i]
      ensures Joined(parts, |parts|) == Description(description, if info.Ptr? then heap.live[k] else "")
    {
      hide Joined, View, Flat, Zeros, Wrap;
      JoinedParts(description, "", "");
      if info.Null? {
        parts := [description];
      } else {
        heap.TextAt(k);
        ghost var text := heap.live[k];
        assert Storable(text);
        var s := info.index;
        var ok, len1, s2, len2 := heap.GetParts(s);
        var first, second := heap.data[s..s + len1], heap.data[..len2];
        assert first + second == text;
        CleanParts(first, second);
        JoinedParts(description, first, second);
        if s2.Ptr? {
          parts := [description, first, second];
        } else {
          assert first + "" == text;
          parts := [description, first];
        }
      }
    }

    /** SCPI_ResultError, for an error whose text, if any, is text k of the heap. */
    method ResultError(code: int, description: string, heap: Heap, info: Pointer, ghost k: nat) returns (result: nat)
      requires '\0' !in description && heap.Valid()
      requires info.Ptr? ==> k < |heap.live| && info.index == heap.IndexOf(k)
      modifies `output, `outputCount
      ensures output == old(output) + Delimiter(old(outputCount))
                        + ErrorResult(code, Description(description, if info.Ptr? then heap.live[k] else ""))
      ensures outputCount == old(outputCount) + 1 && result == |output| - |old(output)|
    {
      hide Fit, Joined, Description, IntegerResult, Unsigned;
      var parts := ErrorParts(description, heap, info, k);
      result := ResultInt32(code);
      var d := WriteDelimiter();
      var q := WriteData("\"");
      var r := WriteParts(parts);
      var c := WriteData("\"");
      result := result + d + q + r + c;
    }

    /** SCPI_ResultArbitraryBlockHeader: the local buffer has room for nine digits and their terminator. */
    method ResultArbitraryBlockHeader(len: nat) returns (result: nat)
      requires len <= MAX_PAYLOAD
      modifies `output, `arbitraryRemaining
      ensures output == old(output) + Delimiter(outputCount) + BlockHeader(len) && arbitraryRemaining == len
      ensures result == |output| - |old(output)|
    {
      hide IntegerText.Show;
      var digits := new char[10];
      LengthDigits(len);
      var pos := ToStrBaseSign(false, len, digits, 10, 10, false);
      assert digits[..pos] == LengthShown(len);
      var countDigit := DigitChar(pos);
      arbitraryRemaining := len;
      result := WriteDelimiter();
      var r := WriteData("#" + [countDigit] + digits[..pos]);
      result := result + r;
    }

    /** SCPI_ResultArbitraryBlockData: the block is a result once all its announced bytes are written. */
    method ResultArbitraryBlockData(data: string) returns (result: nat)
      modifies `output, `outputCount, `arbitraryRemaining, `errors
      ensures if old(arbitraryRemaining) < |data| then
                && output == old(output) && result == 0 && errors == old(errors) + [-310]
                && outputCount == old(outputCount) && arbitraryRemaining == old(arbitraryRemaining)
              else
                && output == old(output) + data && result == |data| && errors == old(errors)
                && arbitraryRemaining == old(arbitraryRemaining) - |data|
                && outputCount == old(outputCount) + if arbitraryRemaining == 0 then 1 else 0
    {
      if arbitraryRemaining < |data| {
        errors := errors + [SYSTEM_ERROR];
        return 0;
      }
      arbitraryRemaining := arbitraryRemaining - |data|;
      if arbitraryRemaining == 0 {
        outputCount := outputCount + 1;
      }
      result := WriteData(data);
    }

    /** SCPI_ResultArbitraryBlock */
    method ResultArbitraryBlock(data: string) returns (result: nat)
      requires |data| <= MAX_PAYLOAD
      modifies this
      ensures output == old(output) + Delimiter(old(outputCount)) + BlockShown(data)
      ensures outputCount == old(outputCount) + 1 && errors == old(errors) && result == |output| - |old(output)|
    {
      var h := ResultArbitraryBlockHeader(|data|);
      var d := ResultArbitraryBlockData(data);
      result := h + d;
    }
  }

  lemma CleanParts(first: string, second: string)
    requires '\0' !in first + second
    ensures '\0' !in first && '\0' !in second
  {
    assert forall i :: 0 <= i < |first| ==> first[i] == (first + second)[i];
    assert forall i :: 0 <= i < |second| ==> second[i] == (first + second)[|first| + i];
  }

  lemma JoinedParts(description: string, first: string, second: string)
    ensures Joined([description], 1) == description
    ensures Joined([description, first], 2) == description + ";" + first
    ensures Joined([description, first, second], 3) == description + ";" + (first + second)
  {
    assert Joined([description], 0) == "";
    assert Joined([description, first], 1) == description;
    assert Joined([description, first, second], 1) == description;
    assert Joined([description, first, second], 2) == description + ";" + first;
  }

  /**
   * What section 21.8 of SCPI-99 asks of the description: within the limit, no
   * doubled quote split, and as long as possible.
   */
  lemma DescriptionLimited(description: string)
    ensures var body := Fit(description, MAX_DESCRIPTION, '"');
            var k := FitCount(description, MAX_DESCRIPTION, '"');
            && |body| <= MAX_DESCRIPTION && body == Escaped(description[..k], '"')
            && (forall m :: k < m <= |description| ==> |Escaped(description[..m], '"')| > MAX_DESCRIPTION)
            && (|Escaped(description, '"')| <= MAX_DESCRIPTION ==> k == |description|)
  {
    hide Fit, Escaped, FitCount;
    FitIsLongest(description, MAX_DESCRIPTION, '"');
    assert description[..|description|] == description;
  }

  /**
   * The two results of an error scan as a decimal number and, exactly if every character
   * kept of the description is 7-bit, one string whose text is that prefix; otherwise the
   * second result is no parameter at all.
   */
  lemma ErrorLexed(s: string, p: nat, code: int, description: string)
    requires Stands(s, p, ErrorResult(code, description)) && EndsData(s, p + |ErrorResult(code, description)|)
    ensures var number := IntegerResult(false, Unsigned(code), 10, true);
            var text := description[..FitCount(description, MAX_DESCRIPTION, '"')];
            var q := p + |number| + 1;
            var n := |Quoted(text, '"')|;
            && DataItem(s, p) == Lexed(Token(DecimalNumeric, p, |number|), p + |number|, |number|)
            && At(s, p + |number|, ',')
            && DataItem(s, q) == (if AllAscii(text) then Lexed(Token(DoubleQuote, q, n), q + n, n) else Miss(q))
            && q + n == p + |ErrorResult(code, description)|
            && s[q..q + n] == Quoted(text, '"')
  {
    hide Fit, Quoted, FitCount, DataItem, IntegerResult, Unsigned, AllAscii, ErrorResult;
    var number := IntegerResult(false, Unsigned(code), 10, true);
    ErrorStands(s, p, code, description);
    IntegerLexed(s, p, false, Unsigned(code), 10, true);
    TextLexed(s, p + |number| + 1, description[..FitCount(description, MAX_DESCRIPTION, '"')]);
  }

  /** Any bytes can get into a description: an undefined header hands on its block parameter as it is. */
  lemma UndefinedBlock(commands: seq<Pattern>, m: string, payload: string)
    requires Parser.CommandsOk(commands) && IsMnemonic(m) && Parser.FindFrom(commands, m, 0) == Parser.Found.NotFound
    requires 0 < |payload| <= MAX_PAYLOAD && payload[|payload| - 1] != '\r' && payload[|payload| - 1] != '\n'
    ensures var text := m + (" " + BlockShown(payload));
            Parser.Run(commands, text + "\n", 0, Parser.NO_TOKEN) == [Parser.Event.UndefinedHeader(text)]
  {
    hide Parser.Run, Parser.FindFrom, IsMnemonic, Parser.Trimmed, Detect, BlockShown, NewLineEnd, Header;
    var text := m + (" " + BlockShown(payload));
    var line := text + "\n";
    BlockUnit(line, m, payload);
    Parser.UnitTokens(line, 0);
    var u := Detect(line, 0);
    Parser.NothingInherited(line, Parser.NO_TOKEN, u.header);
    assert Parser.Text(line, u.header) == m && line[0..u.next] == line;
    Parser.RunUnit(commands, line, 0, Parser.NO_TOKEN);
    TrimmedLine(text);
  }

  lemma TrimmedLine(text: string)
    requires text != "" && text[|text| - 1] != '\r' && text[|text| - 1] != '\n'
    ensures Parser.Trimmed(text + "\n") == text
  {
    assert (text + "\n")[..|text|] == text;
    assert Parser.Trimmed(text) == text;
  }

  /** The unit such a line is. */
  lemma BlockUnit(line: string, m: string, payload: string)
    requires IsMnemonic(m) && 0 < |payload| <= MAX_PAYLOAD && line == m + (" " + BlockShown(payload)) + "\n"
    ensures var u := Detect(line, 0);
            u.header == Token(CompoundHeader, 0, |m|) && u.next == |line|
    ensures m != "" && BlockShown(payload)[|BlockShown(payload)| - 1] == payload[|payload| - 1]
  {
    hide IsMnemonic, DataItem, Block, Header, Detect, Span;
    var block := BlockShown(payload);
    var w, e := |m| + 1, |m| + 1 + |block|;
    assert line == m + (" " + (block + "\n"));
    assert Stands(line, 0, m) && Stands(line, |m|, " ") && Stands(line, w, block) && line[|m|] == ' ' && line[e] == '\n';
    assert LexerGrammar.HeaderText(false, [m], false) == m;
    MnemonicFirst(line, m);
    CompoundHeaderLexed(line, 0, false, [m], false);
    assert line[w] == block[0] == '#';
    BlanksRead(line, |m|, " ");
    BlockLexed(line, w, payload);
    ItemUnit(line, |m|, w, e);
  }

  /** A header with one parameter that ends at the line end. */
  lemma ItemUnit(line: string, h: nat, w: nat, e: nat)
    requires h < w < e < |line| && line[e] == '\n' && e + 1 == |line| && line[w] != ' ' && line[w] != '\t'
    requires Span(line, 0, Blank) == 0 && Span(line, h, Blank) == w
    requires Header(line, 0) == Lexed(Token(CompoundHeader, 0, h), h, h)
    requires DataItem(line, w).pos == e && DataItem(line, w).tok.kind != Unknown
    ensures Detect(line, 0).header == Token(CompoundHeader, 0, h) && Detect(line, 0).next == e + 1
  {
    hide DataItem, Header;
    assert Span(line, w, Blank) == w && Span(line, e, Blank) == e;
    assert ProgramData(line, w).pos == e;
  }

  lemma MnemonicFirst(line: string, m: string)
    requires IsMnemonic(m) && Stands(line, 0, m)
    ensures m != "" && Span(line, 0, Blank) == 0
  {
  }

  /** Where the two results of an error stand. */
  lemma ErrorStands(s: string, p: nat, code: int, description: string)
    requires Stands(s, p, ErrorResult(code, description))
    ensures var number := IntegerResult(false, Unsigned(code), 10, true);
            var quoted := Quoted(description[..FitCount(description, MAX_DESCRIPTION, '"')], '"');
            && Stands(s, p, number) && At(s, p + |number|, ',') && Stands(s, p + |number| + 1, quoted)
            && |ErrorResult(code, description)| == |number| + 1 + |quoted|
  {
    hide Fit, Escaped, FitCount, IntegerResult, Unsigned;
    var number := IntegerResult(false, Unsigned(code), 10, true);
    DescriptionLimited(description);
    var quoted := Quoted(description[..FitCount(description, MAX_DESCRIPTION, '"')], '"');
    assert ErrorResult(code, description) == number + ("," + quoted);
    StandsApart(s, p, number, "," + quoted);
    StandsApart(s, p + |number|, ",", quoted);
    assert s[p + |number| + 0] == ',';
  }

  lemma NothingJoined(parts: seq<string>)
    ensures Joined(parts, 0) == "" && Fit("", MAX_DESCRIPTION, '"') == "" && Left("", MAX_DESCRIPTION) == MAX_DESCRIPTION
  {
  }

  lemma JoinedStep(parts: seq<string>, i: nat)
    requires 0 < i <= |parts|
    ensures Joined(parts, i) == Joined(parts, i - 1) + (if i == 2 then ";" else "") + parts[i - 1]
  {
  }

  /** While there is room left, the next part continues what is written. */
  lemma JoinPart(done: string, sep: string, part: string, limit: nat)
    requires limit == Left(done, MAX_DESCRIPTION) && limit > 0 && (sep == "" || sep == ";")
    ensures Fit(done + sep + part, MAX_DESCRIPTION, '"')
            == Fit(done, MAX_DESCRIPTION, '"') + sep + Fit(part, limit - |sep|, '"')
    ensures Left(done + sep + part, MAX_DESCRIPTION) == Left(part, limit - |sep|)
  {
    hide Fit, Escaped;
    FitConcat(done, sep + part, MAX_DESCRIPTION, '"');
    EscapedConcat(done, sep + part, '"');
    EscapedConcat(sep, part, '"');
    FitConcat(sep, part, limit, '"');
    EscapedPlain(sep, '"');
    assert done + sep + part == done + (sep + part);
  }

  /** Once the limit is reached, the parts that were left out do not matter. */
  lemma LimitReached(parts: seq<string>, i: nat)
    requires i <= |parts| && (i < |parts| ==> Left(Joined(parts, i), MAX_DESCRIPTION) == 0)
    ensures Fit(Joined(parts, |parts|), MAX_DESCRIPTION, '"') == Fit(Joined(parts, i), MAX_DESCRIPTION, '"')
    decreases |parts| - i
  {
    hide Fit, Escaped, Joined;
    if i < |parts| {
      JoinedStep(parts, i + 1);
      var done, more := Joined(parts, i), (if i + 1 == 2 then ";" else "") + parts[i];
      assert Joined(parts, i + 1) == done + more;
      FitConcat(done, more, MAX_DESCRIPTION, '"');
      EscapedConcat(done, more, '"');
      LimitReached(parts, i + 1);
    }
  }

  /** Text up to and with its first quote: the quote is doubled. */
  lemma QuoteFound(data: string, quote: nat)
    requires quote < |data| && data[quote] == '"' && '"' !in data[..quote]
    ensures Escaped(data, '"') == (data[..quote + 1] + "\"") + Escaped(data[quote + 1..], '"')
  {
    hide Fit, Escaped;
    var front, back, rest := data[..quote], data[quote..], data[quote + 1..];
    assert front + back == data;
    EscapedConcat(front, back, '"');
    EscapedPlain(front, '"');
    Unfold(back, 0, '"');
    assert back[1..] == rest && data[..quote + 1] == front + ['"'];
    DoubledQuote(front, Escaped(rest, '"'));
  }

  lemma DoubledQuote(front: string, rest: string)
    ensures front + (Escape('"', '"') + rest) == ((front + ['"']) + "\"") + rest
  {
    assert Escape('"', '"') == "\"\"";
  }

  lemma QuoteFits(data: string, quote: nat, limit: nat)
    requires quote < |data| && data[quote] == '"' && '"' !in data[..quote] && quote + 2 <= limit
    ensures Escaped(data, '"') == (data[..quote + 1] + "\"") + Escaped(data[quote + 1..], '"')
    ensures Fit(data, limit, '"') == (data[..quote + 1] + "\"") + Fit(data[quote + 1..], limit - quote - 2, '"')
    ensures Left(data, limit) == Left(data[quote + 1..], limit - quote - 2)
  {
    hide Fit, Escaped;
    QuoteFound(data, quote);
    var front, back := data[..quote], data[quote..];
    assert front + back == data;
    FitConcat(front, back, limit, '"');
    EscapedPlain(front, '"');
    Unfold(back, limit - quote, '"');
    assert back[1..] == data[quote + 1..];
    assert data[..quote + 1] == front + ['"'];
    assert Escape('"', '"') == "\"\"";
  }

  /** The rest of a part: all of it, as much as the limit allows, or up to a quote that does not fit twice. */
  lemma PartEnds(data: string, len: nat, limit: nat)
    requires len <= |data| && '"' !in data[..len] && len <= limit
    requires len == |data| || len == limit || (data[len] == '"' && limit == len + 1)
    ensures Fit(data, limit, '"') == data[..len]
    ensures Left(data, limit) == if len == |data| then limit - len else 0
  {
    hide Fit, Escaped;
    FitPlain(data, len, limit, '"');
    if len == |data| {
      assert data[..len] == data;
      EscapedPlain(data, '"');
    } else if len < limit {
      QuoteFound(data, len);
    }
  }
}
