// Program data is scanned twice: scpiParser_parseAllProgramData measures it when
// the unit is detected, and SCPI_Parameter scans the measured text again, one
// parameter per call, when the command callback asks for it.

module Parameters {
  import opened Basics
  import opened Lexer
  import opened ProgramUnits
  import opened LexerStability
  import opened IntegerText
  import opened QuotedText

  const DATA_TYPE_ERROR := -104
  const INVALID_SEPARATOR := -103
  const PARAMETER_NOT_ALLOWED := -108
  const MISSING_PARAMETER := -109
  const INVALID_STRING_DATA := -151
  const EXECUTION_ERROR := -200

  // ------------------------------------------------------------ the second pass, on values

  /** The outcome of calls of SCPI_Parameter: the tokens of the successful ones, the cursor, the error that ended them. */
  datatype Reads = Reads(toks: seq<Token>, pos: nat, error: int)

  /** One call: the token and the cursor, or an error (0 for none). */
  function ReadOne(t: string, pos: nat, first: bool): (r: (Lexed, int))
    requires pos <= |t|
    ensures pos <= r.0.pos <= |t|
    ensures r.1 == 0 ==> r.0.tok.kind != Unknown && pos < r.0.pos && r.0.tok.ptr + r.0.tok.len <= |t|
  {
    if pos == |t| then (Miss(pos), MISSING_PARAMETER)
    else if !first && !At(t, pos, ',') then (Miss(pos), INVALID_SEPARATOR)
    else
      var start := if first then pos else pos + 1;
      var d := ProgramData(t, start);
      ProgramDataInside(t, start);
      (d, if d.tok.kind == Unknown then INVALID_STRING_DATA else 0)
  }

  /** At most n calls, the first failing one being the last. */
  function ReadMany(t: string, pos: nat, first: bool, n: nat): (r: Reads)
    requires pos <= |t|
    ensures pos <= r.pos <= |t| && |r.toks| <= n
    ensures r.error == 0 <==> |r.toks| == n
    decreases n
  {
    if n == 0 then Reads([], pos, 0)
    else
      var (d, error) := ReadOne(t, pos, first);
      if error != 0 then Reads([], d.pos, error)
      else
        var rest := ReadMany(t, d.pos, false, n - 1);
        Reads([d.tok] + rest.toks, rest.pos, rest.error)
  }

  lemma ProgramDataInside(t: string, p: nat)
    requires p <= |t|
    ensures var d := ProgramData(t, p); d.tok.kind != Unknown ==> d.tok.ptr + d.tok.len <= |t|
  {
    hide DataItem, Span;
  }

  // ------------------------------------------------------------ agreement

  function TokenEnd(t: Token): int { t.ptr + t.len }

  function Last(toks: seq<Token>): Token
    requires toks != []
  {
    toks[|toks| - 1]
  }

  /** A parameter whose token lies inside the shorter text is read the same there. */
  lemma ProgramDataHitCut(s: string, t: string, p: nat)
    requires Agree(s, t, p) && Span(s, p, Blank) <= |t|
    requires var d := ProgramData(s, p); d.tok.kind != Unknown && TokenEnd(d.tok) <= |t|
    ensures var d, e := ProgramData(s, p), ProgramData(t, p);
            e.tok == d.tok && e.pos == Min(d.pos, |t|)
  {
    hide DataItem, Span;
    var w := Span(s, p, Blank);
    var x := DataItem(s, w);
    SpanCut(s, t, p, Blank);
    ItemHitCut(s, t, w);
    SpanCut(s, t, Min(x.pos, |t|), Blank);
    if x.pos > |t| {
      SpanAtEnd(t);
    }
  }

  lemma SpanAtEnd(t: string)
    ensures Span(t, |t|, Blank) == |t|
  {
  }

  lemma TokenAfterBlanks(s: string, p: nat)
    requires p <= |s|
    ensures var d := ProgramData(s, p);
            d.tok.kind != Unknown ==> Span(s, p, Blank) < TokenEnd(d.tok) <= d.pos
  {
    hide DataItem, Span;
  }

  /** The tokens of program data come one after the other. */
  lemma {:induction false} TokensAscend(s: string, p: nat)
    requires p <= |s| && AllProgramDataFrom(s, p).ok
    ensures var d := AllProgramDataFrom(s, p);
            p < TokenEnd(Last(d.toks)) <= d.pos && ProgramData(s, p).pos <= d.pos
            && (|d.toks| > 1 ==> ProgramData(s, p).pos < TokenEnd(Last(d.toks)))
    decreases |s| - p
  {
    hide ProgramData;
    var x := ProgramData(s, p);
    TokenAfterBlanks(s, p);
    if At(s, x.pos, ',') {
      TokensAscend(s, x.pos + 1);
    }
  }

  /** If the last token lies inside t, successive calls on t yield the tokens of the first pass. */
  lemma {:induction false} SecondPass(s: string, t: string, p: nat, first: bool, q: nat)
    requires Agree(s, t, p) && AllProgramDataFrom(s, p).ok
    requires TokenEnd(Last(AllProgramDataFrom(s, p).toks)) <= |t| <= AllProgramDataFrom(s, p).pos
    requires if first then q == p else p > 0 && q == p - 1 && At(t, q, ',')
    ensures var d := AllProgramDataFrom(s, p);
            ReadMany(t, q, first, |d.toks|) == Reads(d.toks, |t|, 0)
    ensures forall j :: 0 <= j < |AllProgramDataFrom(s, p).toks| ==> ReadMany(t, q, first, j).pos < |t|
    decreases |s| - p
  {
    hide ProgramData, Span;
    var d := AllProgramDataFrom(s, p);
    var x := ProgramData(s, p);
    TokenAfterBlanks(s, p);
    TokensAscend(s, p);
    ProgramDataHitCut(s, t, p);
    var n := |d.toks|;
    assert ReadOne(t, q, first).1 == 0 && ReadOne(t, q, first).0 == ProgramData(t, p);
    if At(s, x.pos, ',') {
      SecondPass(s, t, x.pos + 1, false, x.pos);
    }
  }

  /**
   * Exactly when the two passes agree: reading as many parameters as the first
   * pass counted yields its tokens just if the measured text reaches to the end
   * of the last one.  Then a callback that reads fewer leaves text behind, and
   * one that reads all of them leaves none.
   */
  lemma TwoPassesAgree(s: string, p: nat)
    requires p <= |s| && AllProgramDataFrom(s, p).ok
    ensures p + AllProgramDataFrom(s, p).len <= |s|
    ensures var d := AllProgramDataFrom(s, p);
            var t := s[..p + d.len];
            ReadMany(t, p, true, |d.toks|).toks == d.toks <==> TokenEnd(Last(d.toks)) <= |t|
    ensures var d := AllProgramDataFrom(s, p);
            var t := s[..p + d.len];
            TokenEnd(Last(d.toks)) <= |t| ==>
              && ReadMany(t, p, true, |d.toks|).pos == |t|
              && forall j :: 0 <= j < |d.toks| ==> ReadMany(t, p, true, j).pos < |t|
  {
    hide ProgramData;
    MeasuredLength(s, p);
    var d := AllProgramDataFrom(s, p);
    var t := s[..p + d.len];
    if TokenEnd(Last(d.toks)) <= |t| {
      SecondPass(s, t, p, true, p);
    } else {
      TokensInside(t, p, true, |d.toks|);
    }
  }

  lemma {:induction false} TokensInside(t: string, pos: nat, first: bool, n: nat)
    requires pos <= |t|
    ensures forall i :: 0 <= i < |ReadMany(t, pos, first, n).toks| ==> TokenEnd(ReadMany(t, pos, first, n).toks[i]) <= |t|
    decreases n
  {
    hide ReadOne;
    if n > 0 && ReadOne(t, pos, first).1 == 0 {
      TokensInside(t, ReadOne(t, pos, first).0.pos, false, n - 1);
    }
  }

  // ------------------------------------------------------------ what the first pass counts

  /** The one thing that is passed but not counted: blanks after a decimal number without a suffix. */
  predicate Uncounted(d: Lexed) {
    d.tok.kind == DecimalNumeric && TokenEnd(d.tok) < d.pos
  }

  predicate AllCounted(s: string, p: nat)
    requires p <= |s|
    decreases |s| - p
  {
    var d := ProgramData(s, p);
    d.tok.kind != Unknown ==>
      !Uncounted(d) && (At(s, d.pos, ',') ==> AllCounted(s, d.pos + 1))
  }

  lemma CountedItem(s: string, p: nat)
    requires p <= |s|
    ensures var d := ProgramData(s, p);
            d.ret <= d.pos - p && (d.tok.kind != Unknown ==> (d.ret == d.pos - p <==> !Uncounted(d)))
  {
    hide Nondecimal, CharacterData, Decimal, StringData, Block, Expression, Span, SuffixEnd;
    var w := Span(s, p, Blank);
    PositionsAreEnds(s, w);
    ItemLengths(s, w);
    var x := DataItem(s, w);
    if x.tok.kind == DecimalNumeric {
      BlanksEnd(s, Decimal(s, w).pos);
    }
  }

  /** No blank follows a run of blanks. */
  lemma BlanksEnd(s: string, p: nat)
    requires p <= |s|
    ensures Span(s, Span(s, p, Blank), Blank) == Span(s, p, Blank)
  {
    SpanRun(s, p, Blank);
  }

  lemma ItemLengths(s: string, p: nat)
    requires p <= |s|
    ensures var n := Nondecimal(s, p); n.ret > 0 ==> n.ret == n.pos - p && n.tok.kind != DecimalNumeric
    ensures var n := CharacterData(s, p); n.ret > 0 ==> n.ret == n.pos - p && n.tok.kind != DecimalNumeric
    ensures var n := StringData(s, p); n.ret > 0 ==> n.ret == n.pos - p && n.tok.kind != DecimalNumeric
    ensures var n := Block(s, p); n.ret > 0 ==> n.ret == n.pos - p && n.tok.kind != DecimalNumeric
    ensures var n := Expression(s, p); n.ret > 0 ==> n.ret == n.pos - p && n.tok.kind != DecimalNumeric
    ensures Block(s, p).ret == 0 && Block(s, p).pos != p ==> Expression(s, Block(s, p).pos).ret == 0
  {
    hide Span, QuoteStop, DigitsValue, Mnemonic;
  }

  lemma {:induction false} MeasuredLength(s: string, p: nat)
    requires p <= |s| && AllProgramDataFrom(s, p).ok
    ensures var d := AllProgramDataFrom(s, p);
            d.len <= d.pos - p && (d.len == d.pos - p <==> AllCounted(s, p))
    decreases |s| - p
  {
    hide ProgramData;
    var x := ProgramData(s, p);
    CountedItem(s, p);
    if At(s, x.pos, ',') {
      MeasuredLength(s, x.pos + 1);
    }
  }

  /**
   * The measured length is the distance the cursor moved exactly when no
   * suffix-less decimal is followed by white space; then the passes agree.
   */
  lemma CountedDataAgrees(s: string, p: nat)
    requires p <= |s| && AllProgramDataFrom(s, p).ok
    ensures var d := AllProgramDataFrom(s, p);
            && (d.len == d.pos - p <==> AllCounted(s, p))
            && (AllCounted(s, p) ==> ReadMany(s[..d.pos], p, true, |d.toks|) == Reads(d.toks, d.pos, 0))
  {
    hide ProgramData, AllCounted, ReadMany;
    MeasuredLength(s, p);
    TokensAscend(s, p);
    TwoPassesAgree(s, p);
    var d := AllProgramDataFrom(s, p);
    if AllCounted(s, p) {
      ReadAll(s[..p + d.len], p, d.toks);
    }
  }

  lemma ReadAll(t: string, p: nat, toks: seq<Token>)
    requires p <= |t| && ReadMany(t, p, true, |toks|).toks == toks
    ensures ReadMany(t, p, true, |toks|).error == 0
  {
  }

  /** A first parameter 1 with a blank and a comma after it: the blank is passed but not counted. */
  lemma FirstItem(s: string)
    requires |s| >= 3 && s[0] == '1' && s[1] == ' ' && s[2] == ','
    ensures ProgramData(s, 0) == Lexed(Token(DecimalNumeric, 0, 1), 2, 1)
  {
    assert Span(s, 1, Digit) == 1 && Span(s, 0, Digit) == 1 && Span(s, 0, Blank) == 0;
    assert Span(s, 2, Blank) == 2 && Span(s, 1, Blank) == 2 && Span(s, 2, Letter) == 2;
    assert Mantissa(s, 0) == (1, 1);
    assert Decimal(s, 0) == Lexed(Token(DecimalNumeric, 0, 1), 1, 1);
    assert Nondecimal(s, 0).ret == 0 && CharacterData(s, 0).ret == 0;
    assert DataItem(s, 0) == Lexed(Token(DecimalNumeric, 0, 1), 2, 1);
  }

  /** The passes do disagree: in "1 ,22" the measured text ends one character early, and the second parameter is read as 2. */
  lemma BlankExample()
    ensures var s := "1 ,22";
            var d := AllProgramDataFrom(s, 0);
            && d.ok && d.len == 4 && d.pos == 5 && d.toks == [Token(DecimalNumeric, 0, 1), Token(DecimalNumeric, 3, 2)]
            && ReadMany(s[..d.len], 0, true, 2).toks == [Token(DecimalNumeric, 0, 1), Token(DecimalNumeric, 3, 1)]
  {
    hide DataItem, Show, Numeral;
    var s, t := "1 ,22", "1 ,2";
    FirstItem(s);
    FirstItem(t);
    LastItem(s, "22");
    LastItem(t, "2");
    assert s[..4] == t;
    assert AllProgramDataFrom(s, 3) == AllData(true, 2, [Token(DecimalNumeric, 3, 2)], 5);
    assert ReadMany(t, 2, false, 1).toks == [Token(DecimalNumeric, 3, 1)];
  }

  lemma LastItem(s: string, digits: string)
    requires digits == "2" || digits == "22"
    requires |s| == 3 + |digits| && s[3..] == digits
    ensures ProgramData(s, 3) == Lexed(Token(DecimalNumeric, 3, |digits|), |s|, |digits|)
  {
    hide DataItem;
    assert Numeral(digits, 10);
    assert s[3] == s[3..][0] && Span(s, 3, Blank) == 3 && Span(s, |s|, Blank) == |s|;
    assert s[3..3 + |digits|] == digits && "" + digits == digits;
    DecimalLexed(s, 3, digits, false);
  }

  // ------------------------------------------------------------ copying text out

  predicate IsQuotedKind(kind: TokenType) { kind == SingleQuote || kind == DoubleQuote }

  function QuoteOf(kind: TokenType): char { if kind == SingleQuote then '\'' else '"' }

  /** What SCPI_ParamCopyText copies of a quoted token. */
  function CopiedText(text: string, token: Token, limit: nat): string
    requires 0 <= token.ptr && 0 <= token.len && token.ptr + token.len <= |text|
  {
    Copied(text[token.ptr..token.ptr + token.len], 1, limit, QuoteOf(token.kind))
  }

  /** Every quoted parameter is the quoted form of a text; copying yields a prefix of it, all of it if it is short enough. */
  lemma QuotedParameter(s: string, p: nat) returns (text: string)
    requires p <= |s| && IsQuotedKind(ProgramData(s, p).tok.kind)
    ensures var token := ProgramData(s, p).tok;
            var quote := QuoteOf(token.kind);
            && 0 <= token.ptr && 2 <= token.len && token.ptr + token.len <= |s| && AllAscii(text)
            && s[token.ptr..token.ptr + token.len] == Quoted(text, quote)
            && forall limit: nat :: CopiedText(s, token, limit) <= text
                 && (CopiedText(s, token, limit) == text
                     <==> text == "" || 1 + |Escaped(text[..|text| - 1], quote)| < limit)
  {
    hide StringData, PlainItem, Block, Expression, Escaped, Copied, AllAscii;
    var w := Span(s, p, Blank);
    var token := ProgramData(s, p).tok;
    QuotedItem(s, w);
    QuotedShape(s, w);
    text := TokenIsQuoted(s, w);
    var quote := QuoteOf(token.kind);
    forall limit: nat
      ensures CopiedText(s, token, limit) <= text
      ensures CopiedText(s, token, limit) == text
              <==> text == "" || 1 + |Escaped(text[..|text| - 1], quote)| < limit
    {
      CopyRoundTrip(text, limit, quote);
    }
  }

  lemma QuotedRead(t: string, pos: nat, first: bool)
    requires pos <= |t|
    ensures var (d, error) := ReadOne(t, pos, first);
            error == 0 && IsQuotedKind(d.tok.kind) ==> 0 <= d.tok.ptr && 2 <= d.tok.len
  {
    hide DataItem, Span, StringData;
    var (d, error) := ReadOne(t, pos, first);
    if error == 0 && IsQuotedKind(d.tok.kind) {
      var w := Span(t, if first then pos else pos + 1, Blank);
      QuotedItem(t, w);
      QuotedShape(t, w);
    }
  }

  lemma QuotedItem(s: string, w: nat)
    requires w <= |s| && IsQuotedKind(DataItem(s, w).tok.kind)
    ensures DataItem(s, w) == StringData(s, w) && StringData(s, w).ret > 0
  {
    hide Span, QuoteStop, DigitsValue, Mnemonic, Mantissa, Exponent, SuffixEnd;
  }

  lemma QuotedShape(s: string, w: nat)
    requires w <= |s| && StringData(s, w).ret > 0
    ensures var q := StringData(s, w);
            q.tok.ptr == w && 2 <= q.tok.len && q.pos == w + q.tok.len && s[w] == QuoteOf(q.tok.kind)
  {
    hide QuoteStop;
  }

  /** The copy loop of SCPI_ParamCopyText. */
  method CopyToken(text: string, token: Token, buffer: array<char>) returns (copyLen: nat)
    requires 0 <= token.ptr && 1 <= token.len && token.ptr + token.len <= |text|
    modifies buffer
    ensures var copy := CopiedText(text, token, buffer.Length);
            && copyLen == |copy| <= buffer.Length && buffer[..copyLen] == copy
            && (copyLen < buffer.Length ==> buffer[copyLen] == '\0')
  {
    var quote := QuoteOf(token.kind);
    ghost var all := text[token.ptr..token.ptr + token.len];
    var from, to := 1, 0;
    while from < token.len - 1
      invariant 1 <= from && to < from && to <= buffer.Length
      invariant buffer[..to] + Copied(all, from, buffer.Length, quote) == CopiedText(text, token, buffer.Length)
    {
      if from >= buffer.Length {
        break;
      }
      var c := text[token.ptr + from];
      buffer[to] := c;
      to := to + 1;
      if c == quote {
        from := from + 1;
      }
      from := from + 1;
    }
    copyLen := to;
    if to < buffer.Length {
      buffer[to] := '\0';
    }
  }

  // ------------------------------------------------------------ the C functions

  /** The parameter list of a command and the errors its handling reports. */
  class CommandContext {
    const lex: LexState          // param_list.lex_state
    var inputCount: nat
    var cmdError: bool
    var errors: seq<int>         // the codes handed to SCPI_ErrorPush
    var read: seq<Token>         // the parameters the callback has received

    /** The text handed over ends where the measured program data ends. */
    constructor (text: string, data: nat)
      requires data <= |text|
      ensures Valid() && fresh(lex) && lex.text == text && lex.pos == data
      ensures errors == [] && read == []
    {
      lex := new LexState(text, data);
      inputCount, cmdError, errors, read := 0, false, [], [];
    }

    ghost predicate Valid()
      reads this, lex
    {
      lex.Valid()
    }

    method ErrorPush(code: int)
      modifies `errors, `cmdError
      ensures errors == old(errors) + [code] && cmdError
    {
      errors := errors + [code];
      cmdError := true;
    }

    /** SCPI_Parameter, every token kind but Unknown being one it accepts. */
    method Parameter(mandatory: bool) returns (ok: bool, parameter: Token)
      requires Valid()
      modifies `inputCount, `errors, `cmdError, lex
      ensures Valid()
      ensures var (d, error) := ReadOne(lex.text, old(lex.pos), old(inputCount) == 0);
              && (ok <==> error == 0)
              && (ok ==> parameter == d.tok && lex.pos == d.pos && inputCount == old(inputCount) + 1
                         && errors == old(errors) && cmdError == old(cmdError))
              && (!ok ==> if error == MISSING_PARAMETER && !mandatory
                          then errors == old(errors) && cmdError == old(cmdError) && parameter.kind == ProgramMnemonic
                          else errors == old(errors) + [error] && cmdError && parameter.kind == Unknown)
    {
      hide ProgramData;
      parameter := Token(Unknown, -1, 0);
      if lex.IsEos() {
        if mandatory {
          ErrorPush(MISSING_PARAMETER);
        } else {
          parameter := parameter.(kind := ProgramMnemonic);
        }
        return false, parameter;
      }
      if inputCount != 0 {
        var comma, _ := lex.Character(',', Comma);
        if comma.kind != Comma {
          ErrorPush(INVALID_SEPARATOR);
          return false, parameter;
        }
      }
      inputCount := inputCount + 1;
      var token, ret := ParseProgramData(lex);
      if token.kind == Unknown {
        ErrorPush(INVALID_STRING_DATA);
        return false, parameter;
      }
      return true, token;
    }

    /** SCPI_ParamCopyText: the text of a quoted parameter, cut to the destination and terminated if there is room. */
    method ParamCopyText(buffer: array<char>, mandatory: bool) returns (result: bool, copyLen: nat)
      requires Valid()
      modifies `inputCount, `errors, `cmdError, lex, buffer
      ensures Valid()
      ensures var (d, error) := ReadOne(lex.text, old(lex.pos), old(inputCount) == 0);
              && (result <==> error == 0 && IsQuotedKind(d.tok.kind))
              && (result ==>
                    && var copy := (QuotedRead(lex.text, old(lex.pos), old(inputCount) == 0);
                                    CopiedText(lex.text, d.tok, buffer.Length));
                    && copyLen == |copy| <= buffer.Length && buffer[..copyLen] == copy
                    && (copyLen < buffer.Length ==> buffer[copyLen] == '\0')
                    && errors == old(errors) && lex.pos == d.pos)
              && (error == 0 && !result ==> errors == old(errors) + [-104])
    {
      hide ReadOne, Copied;
      QuotedRead(lex.text, lex.pos, inputCount == 0);
      copyLen := 0;
      var param;
      result, param := Parameter(mandatory);
      if result {
        if IsQuotedKind(param.kind) {
          copyLen := CopyToken(lex.text, param, buffer);
        } else {
          ErrorPush(DATA_TYPE_ERROR);
          result := false;
        }
      }
    }

    /** A callback that asks for up to n mandatory parameters and gives up at the first it cannot have. */
    method Callback(n: nat) returns (ok: bool)
      requires Valid() && inputCount == 0
      modifies this, lex
      ensures Valid()
      ensures var got := ReadMany(lex.text, old(lex.pos), true, n);
              && read == old(read) + got.toks && (ok <==> got.error == 0)
              && (ok ==> lex.pos == got.pos && errors == old(errors) && cmdError == old(cmdError))
              && (!ok ==> errors == old(errors) + [got.error] && cmdError)
    {
      hide ReadOne;
      ghost var all := ReadMany(lex.text, lex.pos, true, n);
      var i := 0;
      while i < n
        invariant Valid() && 0 <= i <= n && inputCount == i
        invariant errors == old(errors) && cmdError == old(cmdError)
        invariant var rest := ReadMany(lex.text, lex.pos, i == 0, n - i);
                  && old(read) + all.toks == read + rest.toks
                  && all.error == rest.error && all.pos == rest.pos
      {
        ghost var rest := ReadMany(lex.text, lex.pos, i == 0, n - i);
        var parameter;
        ok, parameter := Parameter(true);
        if !ok {
          return;
        }
        read := read + [parameter];
        i := i + 1;
      }
      ok := true;
    }

    /** processCommand for a callback that asks for n parameters and, if it gets them, returns SCPI_RES_OK iff accept. */
    method ProcessCommand(n: nat, accept: bool) returns (result: bool)
      requires Valid()
      modifies this, lex
      ensures Valid()
      ensures var got := ReadMany(lex.text, old(lex.pos), true, n);
              && read == old(read) + got.toks
              && (result <==> got.error == 0 && accept && got.pos == |lex.text|)
              && errors == old(errors) + if got.error != 0 then [got.error]
                                         else if !accept then [-200]
                                         else if got.pos < |lex.text| then [-108] else []
    {
      hide ReadMany;
      cmdError, inputCount := false, 0;
      result := Callback(n);
      result := result && accept;
      if !result {
        if !cmdError {
          ErrorPush(EXECUTION_ERROR);
        }
      } else if cmdError {
        result := false;
      }
      if !lex.IsEos() && !cmdError {
        ErrorPush(PARAMETER_NOT_ALLOWED);
        result := false;
      }
    }
  }

  /**
   * A whole command: the first pass measures d at p, a callback asks for n
   * parameters.  When the last token was measured, asking for all is the only
   * way to succeed: asking for fewer raises -108 (not allowed), asking for more
   * reads them all and raises -109 (missing).
   */
  method HandleCommand(s: string, p: nat, n: nat) returns (result: bool, errors: seq<int>, read: seq<Token>)
    requires p <= |s| && AllProgramDataFrom(s, p).ok
    ensures var d := AllProgramDataFrom(s, p);
            TokenEnd(Last(d.toks)) <= p + d.len ==>
              && read == (if n < |d.toks| then d.toks[..n] else d.toks) && (result <==> n == |d.toks|)
              && errors == if n < |d.toks| then [-108]
                           else if n > |d.toks| then [-109] else []
  {
    hide ProgramData, ReadMany, AllProgramDataFrom;
    var lex := new LexState(s, p);
    var data, count := ParseAllProgramData(lex);
    ghost var d := AllProgramDataFrom(s, p);
    TwoPassesAgree(s, p);
    var t := s[..data.ptr + data.len];
    var context := new CommandContext(t, p);
    result := context.ProcessCommand(n, true);
    errors, read := context.errors, context.read;
    if TokenEnd(Last(d.toks)) <= p + d.len {
      ReadAll(t, p, d.toks);
      if n <= |d.toks| {
        ReadFewer(t, p, true, n, |d.toks|);
      } else {
        ReadMore(t, p, true, |d.toks|, n);
      }
    }
  }

  /** The errors of one call: nothing left, something other than a comma in front, or no parameter behind it. */
  lemma ReadErrors(t: string, pos: nat, first: bool)
    requires pos <= |t|
    ensures var (d, error) := ReadOne(t, pos, first);
            && (error == -109 <==> pos == |t|)
            && (error == -103 <==> pos < |t| && !first && t[pos] != ',')
            && (error != 0 && error != -109 && error != -103 ==> error == -151 && d.tok.kind == Unknown)
  {
    hide ProgramData;
  }

  /** Asking for more parameters than the text ends with yields those, and then one is missing. */
  lemma {:induction false} ReadMore(t: string, pos: nat, first: bool, m: nat, n: nat)
    requires pos <= |t| && m < n && ReadMany(t, pos, first, m).error == 0 && ReadMany(t, pos, first, m).pos == |t|
    ensures ReadMany(t, pos, first, n) == Reads(ReadMany(t, pos, first, m).toks, |t|, MISSING_PARAMETER)
    decreases m
  {
    hide ReadOne;
    if m == 0 {
      ReadAtEnd(t, first);
    } else {
      ReadMore(t, ReadOne(t, pos, first).0.pos, false, m - 1, n - 1);
    }
  }

  lemma ReadAtEnd(t: string, first: bool)
    ensures ReadOne(t, |t|, first) == (Miss(|t|), MISSING_PARAMETER)
  {
    hide ProgramData;
  }

  /** Asking for fewer parameters yields a prefix. */
  lemma {:induction false} ReadFewer(t: string, pos: nat, first: bool, n: nat, m: nat)
    requires pos <= |t| && n <= m && ReadMany(t, pos, first, m).error == 0
    ensures ReadMany(t, pos, first, n).error == 0
    ensures ReadMany(t, pos, first, n).toks == ReadMany(t, pos, first, m).toks[..n]
    decreases n
  {
    hide ReadOne;
    if n > 0 {
      var d := ReadOne(t, pos, first).0;
      ReadFewer(t, d.pos, false, n - 1, m - 1);
    }
  }
}
