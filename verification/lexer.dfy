// The hand-written scanner of lexer.c over a shared character buffer.
//
// A C pointer into the input buffer is an index into one array, so positions
// are absolute.  A specification function F(s, p) describes what the C routine
// does when the lexer state covers the text s (the buffer up to its end) and
// its cursor is p; the methods of class LexState are proved against these.

module Lexer {

  datatype TokenType =
    | Comma | Semicolon | Colon | SpecificCharacter | NewLine
    | HexNum | OctNum | BinNum
    | ProgramMnemonic
    | DecimalNumeric | DecimalNumericWithSuffix | SuffixProgramData
    | ArbitraryBlock | SingleQuote | DoubleQuote | ProgramExpression
    | CompoundHeader | IncompleteCompoundHeader | CompoundQueryHeader
    | CommonHeader | IncompleteCommonHeader | CommonQueryHeader
    | WhiteSpace | AllProgramData | Invalid | Unknown

  /** A token: its type and the stretch of buffer it covers. */
  datatype Token = Token(kind: TokenType, ptr: int, len: int)

  /** What one recogniser does: the token it fills, the new cursor and the C return value. */
  datatype Lexed = Lexed(tok: Token, pos: nat, ret: nat)

  // ---------------------------------------------------------------- characters

  /** The character classes of the C predicates isws, isdigit, isalpha, ... */
  datatype CharClass = Blank | Digit | Letter | MnemonicChar | Bin | Oct | Hex | Sign | SlashDot | ExpressionChar

  predicate Is(k: CharClass, c: char) {
    match k
    case Blank => c == ' ' || c == '\t'
    case Digit => '0' <= c <= '9'
    case Letter => IsAlpha(c)
    case MnemonicChar => IsAlpha(c) || '0' <= c <= '9' || c == '_'
    case Bin => c == '0' || c == '1'
    case Oct => '0' <= c <= '7'
    case Hex => '0' <= c <= '9' || 'a' <= c <= 'f' || 'A' <= c <= 'F'
    case Sign => c == '+' || c == '-'
    case SlashDot => c == '/' || c == '.'
    case ExpressionChar =>
      ' ' <= c <= '~' && c != '"' && c != '#' && c != '\'' && c != '(' && c != ')' && c != ';'
  }

  predicate IsAlpha(c: char) { 'a' <= c <= 'z' || 'A' <= c <= 'Z' }
  predicate IsDigit(c: char) { '0' <= c <= '9' }
  predicate IsNonzeroDigit(c: char) { '1' <= c <= '9' }
  predicate IsExponentMark(c: char) { c == 'e' || c == 'E' }
  predicate IsAscii7Bit(c: char) { c <= '\U{7f}' }

  // ------------------------------------------------------------ skipping

  /** The end of the longest run from p of characters in class k. */
  function Span(s: string, p: nat, k: CharClass): (e: nat)
    requires p <= |s|
    ensures p <= e <= |s|
    decreases |s| - p
  {
    if p < |s| && Is(k, s[p]) then Span(s, p + 1, k) else p
  }

  /** One optional character. */
  function Opt(s: string, p: nat, k: CharClass): (e: nat)
    requires p <= |s|
    ensures p <= e <= p + 1 && e <= |s|
  {
    if p < |s| && Is(k, s[p]) then p + 1 else p
  }

  predicate At(s: string, p: nat, c: char) { p < |s| && s[p] == c }

  function OptChr(s: string, p: nat, c: char): (e: nat)
    requires p <= |s|
    ensures p <= e <= p + 1 && e <= |s|
  {
    if At(s, p, c) then p + 1 else p
  }

  /** Section 7.6.1.2: the end of a program mnemonic, p itself when there is none. */
  function Mnemonic(s: string, p: nat): (e: nat)
    requires p <= |s|
    ensures p <= e <= |s|
  {
    if p < |s| && IsAlpha(s[p]) then Span(s, p + 1, MnemonicChar) else p
  }

  // ------------------------------------------------------------- program headers

  /** The rest of a compound header after its first mnemonic: ok?, end. */
  function CompoundTail(s: string, p: nat): (r: (bool, nat))
    requires p <= |s|
    ensures p <= r.1 <= |s|
    decreases |s| - p
  {
    if !At(s, p, ':') then (true, p)
    else
      var e := Mnemonic(s, p + 1);
      if e == p + 1 then (false, e) else CompoundTail(s, e)
  }

  /** Section 7.6.1: type and end of the header at p; (Unknown, p) when there is none. */
  function HeaderExtent(s: string, p: nat): (r: (TokenType, nat))
    requires p <= |s|
    ensures p <= r.1 <= |s|
    ensures r.0 == Unknown <==> r.1 == p
    ensures r.0 != Invalid
  {
    if At(s, p, '*') then
      var e := Mnemonic(s, p + 1);
      if e == p + 1 then (IncompleteCommonHeader, e)
      else if At(s, e, '?') then (CommonQueryHeader, e + 1) else (CommonHeader, e)
    else
      var start := if At(s, p, ':') then p + 1 else p;
      var e := Mnemonic(s, start);
      if e == start then
        if start == p then (Unknown, p) else (IncompleteCompoundHeader, e)
      else
        var (ok, end) := CompoundTail(s, e);
        if !ok then (IncompleteCompoundHeader, end)
        else if At(s, end, '?') then (CompoundQueryHeader, end + 1) else (CompoundHeader, end)
  }

  function Header(s: string, p: nat): (r: Lexed)
    requires p <= |s|
    ensures p <= r.pos <= |s| && r.tok.ptr == p && r.tok.len == r.pos - p
  {
    var (k, e) := HeaderExtent(s, p);
    Lexed(Token(k, p, e - p), e, e - p)
  }

  // ---------------------------------------------------------------- program data

  /** A recogniser at p either misses, returning 0, or yields a token of known type inside what it passes. */
  ghost predicate Sound(s: string, p: nat, r: Lexed) {
    && p <= r.pos <= |s|
    && (r.ret == 0 <==> r.tok.kind == Unknown)
    && r.ret <= r.pos - p
    && (r.ret > 0 ==> p <= r.tok.ptr && 0 <= r.tok.len && p < r.tok.ptr + r.tok.len <= r.pos)
  }

  function Miss(p: nat): Lexed { Lexed(Token(Unknown, p, 0), p, 0) }

  /** A token of the text [p, e), or a miss when it is empty. */
  function Hit(kind: TokenType, p: nat, e: nat): Lexed
    requires p <= e
  {
    if e == p then Miss(p) else Lexed(Token(kind, p, e - p), e, e - p)
  }

  /** Section 7.7.1. */
  function CharacterData(s: string, p: nat): (r: Lexed)
    requires p <= |s|
    ensures Sound(s, p, r) && (r.ret == 0 ==> r.pos == p)
  {
    Hit(ProgramMnemonic, p, Mnemonic(s, p))
  }

  /** The mantissa at p: how many digits it has, and its end. */
  function Mantissa(s: string, p: nat): (r: (nat, nat))
    requires p <= |s|
    ensures p <= r.1 <= |s|
    ensures r.0 > 0 ==> p < r.1
  {
    var p1 := Opt(s, p, Sign);
    var p2 := Span(s, p1, Digit);
    if At(s, p2, '.') then
      var p3 := Span(s, p2 + 1, Digit);
      ((p2 - p1) + (p3 - (p2 + 1)), p3)
    else (p2 - p1, p2)
  }

  /** The end of an exponent at p (white space first), or p when it has no digits. */
  function Exponent(s: string, p: nat): (e: nat)
    requires p <= |s|
    ensures p <= e <= |s|
  {
    var p0 := Span(s, p, Blank);
    if p0 < |s| && IsExponentMark(s[p0]) then
      var p1 := Span(s, p0 + 1, Blank);
      var p2 := Opt(s, p1, Sign);
      var p3 := Span(s, p2, Digit);
      if p3 == p2 then p else p3
    else p
  }

  /** Section 7.7.2. */
  function Decimal(s: string, p: nat): (r: Lexed)
    requires p <= |s|
    ensures Sound(s, p, r) && (r.ret == 0 ==> r.pos == p)
    ensures r.ret > 0 ==> r.tok == Token(DecimalNumeric, p, r.ret) && r.pos == p + r.ret
  {
    var (digits, e) := Mantissa(s, p);
    if digits == 0 then Miss(p) else Hit(DecimalNumeric, p, Exponent(s, e))
  }

  /** One unit of a suffix after its letters: an optional minus and an optional digit. */
  function SuffixPower(s: string, p: nat): (e: nat)
    requires p <= |s|
    ensures p <= e <= |s|
  {
    Opt(s, OptChr(s, p, '-'), Digit)
  }

  function SuffixTail(s: string, p: nat): (e: nat)
    requires p <= |s|
    ensures p <= e <= |s|
    decreases |s| - p
  {
    if p < |s| && Is(SlashDot, s[p]) then SuffixTail(s, SuffixPower(s, Span(s, p + 1, Letter))) else p
  }

  /** Section 7.7.3. */
  function SuffixEnd(s: string, p: nat): (e: nat)
    requires p <= |s|
    ensures p <= e <= |s|
  {
    var p1 := OptChr(s, p, '/');
    var p2 := Span(s, p1, Letter);
    if p2 == p1 then p1 else SuffixTail(s, SuffixPower(s, p2))
  }

  /** Section 7.7.4: the token is the digits only, the cursor is after them. */
  function Nondecimal(s: string, p: nat): (r: Lexed)
    requires p <= |s|
    ensures Sound(s, p, r) && (r.ret == 0 ==> r.pos == p)
  {
    if At(s, p, '#') && p + 1 < |s| then
      var c := s[p + 1];
      if c == 'h' || c == 'H' then NondecimalDigits(HexNum, p, Span(s, p + 2, Hex))
      else if c == 'q' || c == 'Q' then NondecimalDigits(OctNum, p, Span(s, p + 2, Oct))
      else if c == 'b' || c == 'B' then NondecimalDigits(BinNum, p, Span(s, p + 2, Bin))
      else Miss(p)
    else Miss(p)
  }

  function NondecimalDigits(kind: TokenType, p: nat, e: nat): Lexed
    requires p + 2 <= e
  {
    if e == p + 2 then Miss(p) else Lexed(Token(kind, p + 2, e - (p + 2)), e, e - p)
  }

  /**
   * Where the scan of a quoted string stops: at its closing quote, at a
   * character that is not 7-bit, or at the end.  A doubled quote is content.
   */
  function QuoteStop(s: string, p: nat, quote: char): (e: nat)
    requires p <= |s|
    ensures p <= e <= |s|
    decreases |s| - p
  {
    if p == |s| then p
    else if s[p] == quote then
      if At(s, p + 1, quote) then QuoteStop(s, p + 2, quote) else p
    else if IsAscii7Bit(s[p]) then QuoteStop(s, p + 1, quote)
    else p
  }

  /** Section 7.7.5: the token includes both quotes. */
  function StringData(s: string, p: nat): (r: Lexed)
    requires p <= |s|
    ensures Sound(s, p, r) && (r.ret == 0 ==> r.pos == p)
  {
    if At(s, p, '"') then QuotedString(s, p, '"', DoubleQuote)
    else if At(s, p, '\'') then QuotedString(s, p, '\'', SingleQuote)
    else Miss(p)
  }

  function QuotedString(s: string, p: nat, quote: char, kind: TokenType): (r: Lexed)
    requires p < |s| && kind != Unknown
    ensures Sound(s, p, r)
  {
    var q := QuoteStop(s, p + 1, quote);
    if At(s, q, quote) then Hit(kind, p, q + 1) else Miss(p)
  }

  function DigitValue(c: char): nat
    requires IsDigit(c)
  {
    (c - '0') as nat
  }

  /** The value of a run of decimal digits, most significant first. */
  function DigitsValue(s: string): nat
    requires forall i :: 0 <= i < |s| ==> IsDigit(s[i])
  {
    if s == "" then 0 else 10 * DigitsValue(s[..|s| - 1]) + DigitValue(s[|s| - 1])
  }

  /** Section 7.7.6: the token is the payload; an incomplete block sends the cursor to the end. */
  function Block(s: string, p: nat): (r: Lexed)
    requires p <= |s|
    ensures Sound(s, p, r) && (r.ret == 0 ==> r.tok.len == 0)
  {
    if !At(s, p, '#') then Miss(p)
    else if p + 1 == |s| then Lexed(Token(Unknown, p, 0), |s|, 0)
    else if !IsNonzeroDigit(s[p + 1]) then Miss(p)
    else
      var n := DigitValue(s[p + 1]);
      var e := Span(s, p + 2, Digit);
      if e < p + 2 + n then
        if e == |s| then Lexed(Token(Unknown, p, 0), |s|, 0) else Miss(p)
      else
        SpanRun(s, p + 2, Digit);
        var length := DigitsValue(s[p + 2..p + 2 + n]);
        var start := p + 2 + n;
        if start + length <= |s|
        then Lexed(Token(ArbitraryBlock, start, length), start + length, start + length - p)
        else Lexed(Token(Unknown, p, 0), |s|, 0)
  }

  /** Section 7.7.7. */
  function Expression(s: string, p: nat): (r: Lexed)
    requires p <= |s|
    ensures Sound(s, p, r)
  {
    if At(s, p, '(') then
      var e := Span(s, p + 1, ExpressionChar);
      if At(s, e, ')') then Hit(ProgramExpression, p, e + 1) else Miss(p)
    else Miss(p)
  }

  /** The end of an optional carriage return and an optional line feed. */
  function NewLineEnd(s: string, p: nat): (e: nat)
    requires p <= |s|
    ensures p <= e <= |s|
  {
    OptChr(s, OptChr(s, p, '\r'), '\n')
  }

  // ---------------------------------------------------------------- the lexer state

  /**
   * lex_state_t: the characters up to the end of the window, the index where
   * the window starts, and a cursor.  Scanning never writes to the buffer, so
   * the state holds the characters themselves.
   */
  class LexState {
    const text: string
    const buffer: nat
    var pos: nat

    constructor (text: string, buffer: nat)
      requires buffer <= |text|
      ensures this.text == text && this.buffer == buffer && pos == buffer
    {
      this.text, this.buffer, pos := text, buffer, buffer;
    }

    ghost predicate Valid()
      reads this
    {
      buffer <= pos <= |text|
    }

    predicate IsEos()
      reads this
    {
      |text| <= pos
    }

    predicate IsChr(c: char)
      requires pos < |text|
      reads this
    {
      text[pos] == c
    }

    /** The shared shape of skipWs, skipNumbers, skipAlpha, skipHexNum, skipOctNum, skipBinNum, ... */
    method SkipWhile(k: CharClass) returns (count: nat)
      requires Valid()
      modifies this
      ensures Valid() && pos == Span(text, old(pos), k) && count == pos - old(pos)
    {
      count := 0;
      while !IsEos() && Is(k, text[pos])
        invariant Valid() && count == pos - old(pos)
        invariant Span(text, pos, k) == Span(text, old(pos), k)
        decreases |text| - pos
      {
        pos := pos + 1;
        count := count + 1;
      }
    }

    /** The shared shape of skipChr, skipDigit, skipPlusmn, skipSlashDot, skipStar and skipColon. */
    method SkipOne(k: CharClass) returns (ok: bool)
      requires Valid()
      modifies this
      ensures Valid() && pos == Opt(text, old(pos), k) && (ok <==> pos == old(pos) + 1)
    {
      ok := !IsEos() && Is(k, text[pos]);
      if ok {
        pos := pos + 1;
      }
    }

    method SkipChr(c: char) returns (ok: bool)
      requires Valid()
      modifies this
      ensures Valid() && ok == At(text, old(pos), c) && pos == OptChr(text, old(pos), c)
    {
      ok := !IsEos() && IsChr(c);
      if ok {
        pos := pos + 1;
      }
    }

    /** Returns the length skipped, negated when the mnemonic runs into the end. */
    method SkipProgramMnemonic() returns (res: int)
      requires Valid()
      modifies this
      ensures Valid() && pos == Mnemonic(text, old(pos))
      ensures res == if pos == |text| then old(pos) - pos else pos - old(pos)
    {
      var startPos := pos;
      if !IsEos() && IsAlpha(text[pos]) {
        pos := pos + 1;
        var _ := SkipWhile(MnemonicChar);
      }
      res := if IsEos() then startPos - pos else pos - startPos;
    }

    method WhiteSpace() returns (token: Token, ret: nat)
      requires Valid()
      modifies this
      ensures Valid() && pos == Span(text, old(pos), Blank) && ret == pos - old(pos)
      ensures token == Token(if ret > 0 then TokenType.WhiteSpace else Unknown, old(pos), ret)
    {
      ret := SkipWhile(Blank);
      token := Token(if ret > 0 then TokenType.WhiteSpace else Unknown, pos - ret, ret);
    }

    /** 1 for a header, 0 for none, -1 for an incomplete one. */
    method SkipCommonProgramHeader() returns (skip: int)
      requires Valid()
      modifies this
      ensures Valid()
      ensures if !At(text, old(pos), '*') then skip == 0 && pos == old(pos)
              else pos == Mnemonic(text, old(pos) + 1) && skip == if pos == old(pos) + 1 then -1 else 1
    {
      var star := SkipChr('*');
      if star {
        var res := SkipProgramMnemonic();
        if res == 0 && IsEos() {
          return -1;
        } else if res <= -1 {
          return 1;
        } else if res >= 1 {
          return 1;
        } else {
          return -1;
        }
      }
      return 0;
    }

    /** The loop of skipCompoundProgramHeader: 1 for a complete header, -1 after a dangling colon. */
    method SkipCompoundTail() returns (skip: int)
      requires Valid()
      modifies this
      ensures Valid() && (skip > 0, pos) == CompoundTail(text, old(pos)) && skip in {-1, 1}
    {
      hide Mnemonic;
      var more := SkipChr(':');
      while more
        invariant Valid()
        invariant more ==> 1 <= pos && At(text, pos - 1, ':') && CompoundTail(text, old(pos)) == CompoundTail(text, pos - 1)
        invariant !more ==> CompoundTail(text, old(pos)) == (true, pos)
        decreases |text| - pos, more
      {
        var res := SkipProgramMnemonic();
        if res <= -1 {
          return 1;
        } else if res == 0 {
          return -1;
        }
        more := SkipChr(':');
      }
      return 1;
    }

    method SkipCompoundProgramHeader() returns (skip: int)
      requires Valid()
      modifies this
      ensures Valid()
      ensures var start := if At(text, old(pos), ':') then old(pos) + 1 else old(pos);
              var e := Mnemonic(text, start);
              if e == start then pos == e && skip == if start == old(pos) then 0 else -1
              else (skip > 0, pos) == CompoundTail(text, e) && skip in {-1, 1}
    {
      var firstColon := SkipChr(':');
      var res := SkipProgramMnemonic();
      if res >= 1 {
        skip := SkipCompoundTail();
      } else if res <= -1 {
        skip := 1;
      } else if firstColon {
        skip := -1;
      } else {
        skip := 0;
      }
    }

    method ProgramHeader() returns (token: Token, ret: nat)
      requires Valid()
      modifies this
      ensures Valid() && Lexed(token, pos, ret) == Header(text, old(pos))
    {
      hide CompoundTail, Mnemonic;
      var ptr := pos;
      var kind := Unknown;
      var res := SkipCommonProgramHeader();
      if res >= 1 {
        var q := SkipChr('?');
        kind := if q then CommonQueryHeader else CommonHeader;
      } else if res <= -1 {
        kind := IncompleteCommonHeader;
      } else {
        res := SkipCompoundProgramHeader();
        if res >= 1 {
          var q := SkipChr('?');
          kind := if q then CompoundQueryHeader else CompoundHeader;
        } else if res <= -1 {
          kind := IncompleteCompoundHeader;
        }
      }
      if kind != Unknown {
        token := Token(kind, ptr, pos - ptr);
      } else {
        token := Token(kind, ptr, 0);
        pos := ptr;
      }
      ret := token.len;
    }

    method CharacterProgramData() returns (token: Token, ret: nat)
      requires Valid()
      modifies this
      ensures Valid() && Lexed(token, pos, ret) == CharacterData(text, old(pos))
    {
      var ptr := pos;
      if !IsEos() && IsAlpha(text[pos]) {
        pos := pos + 1;
        var _ := SkipWhile(MnemonicChar);
      }
      ret := pos - ptr;
      token := Token(if ret > 0 then ProgramMnemonic else Unknown, ptr, ret);
    }

    method SkipMantisa() returns (someNumbers: nat)
      requires Valid()
      modifies this
      ensures Valid() && (someNumbers, pos) == Mantissa(text, old(pos))
    {
      hide Span;
      var _ := SkipOne(Sign);
      someNumbers := SkipWhile(Digit);
      var dot := SkipChr('.');
      if dot {
        var more := SkipWhile(Digit);
        someNumbers := someNumbers + more;
      }
    }

    /** Only called at the character after the white space that may precede an exponent. */
    method SkipExponent() returns (someNumbers: nat)
      requires Valid()
      modifies this
      ensures Valid() && old(pos) <= pos
      ensures var s := text;
              if old(pos) < |s| && IsExponentMark(s[old(pos)]) then
                var p2 := Opt(s, Span(s, old(pos) + 1, Blank), Sign);
                pos == Span(s, p2, Digit) && someNumbers == pos - p2
              else pos == old(pos) && someNumbers == 0
    {
      someNumbers := 0;
      if !IsEos() && IsExponentMark(text[pos]) {
        pos := pos + 1;
        var _ := SkipWhile(Blank);
        var _ := SkipOne(Sign);
        someNumbers := SkipWhile(Digit);
      }
    }

    method DecimalNumericProgramData() returns (token: Token, ret: nat)
      requires Valid()
      modifies this
      ensures Valid() && Lexed(token, pos, ret) == Decimal(text, old(pos))
    {
      hide Mantissa, Span;
      var ptr := pos;
      var digits := SkipMantisa();
      if digits > 0 {
        var rollback := pos;
        var _ := SkipWhile(Blank);
        assert pos == Span(text, rollback, Blank);
        var exponent := SkipExponent();
        if exponent == 0 {
          pos := rollback;
        }
      } else {
        pos := ptr;
      }
      ret := pos - ptr;
      token := Token(if ret > 0 then DecimalNumeric else Unknown, ptr, ret);
    }

    /** The loop of scpiLex_SuffixProgramData. */
    method SkipSuffixTail()
      requires Valid()
      modifies this
      ensures Valid() && pos == SuffixTail(text, old(pos))
    {
      hide Span;
      var more := SkipOne(SlashDot);
      while more
        invariant Valid()
        invariant more ==> 1 <= pos && Is(SlashDot, text[pos - 1]) && SuffixTail(text, old(pos)) == SuffixTail(text, pos - 1)
        invariant !more ==> SuffixTail(text, old(pos)) == pos
        decreases |text| - pos, more
      {
        var _ := SkipWhile(Letter);
        var _ := SkipChr('-');
        var _ := SkipOne(Digit);
        more := SkipOne(SlashDot);
      }
    }

    method SuffixProgramData() returns (token: Token, ret: nat)
      requires Valid()
      modifies this
      ensures Valid() && Lexed(token, pos, ret) == Hit(TokenType.SuffixProgramData, old(pos), SuffixEnd(text, old(pos)))
    {
      hide SuffixTail, Span;
      var ptr := pos;
      var _ := SkipChr('/');
      var letters := SkipWhile(Letter);
      if letters > 0 {
        var _ := SkipChr('-');
        var _ := SkipOne(Digit);
        SkipSuffixTail();
      }
      ret := pos - ptr;
      token := Token(if ret > 0 then TokenType.SuffixProgramData else Unknown, ptr, ret);
    }

    method NondecimalNumericData() returns (token: Token, ret: nat)
      requires Valid()
      modifies this
      ensures Valid() && Lexed(token, pos, ret) == Nondecimal(text, old(pos))
    {
      hide Span;
      var ptr := pos;
      var someNumbers := 0;
      var kind := Unknown;
      var hash := SkipChr('#');
      if hash && !IsEos() {
        var c := text[pos];
        if c == 'h' || c == 'H' {
          pos := pos + 1;
          someNumbers := SkipWhile(Hex);
          kind := HexNum;
        } else if c == 'q' || c == 'Q' {
          pos := pos + 1;
          someNumbers := SkipWhile(Oct);
          kind := OctNum;
        } else if c == 'b' || c == 'B' {
          pos := pos + 1;
          someNumbers := SkipWhile(Bin);
          kind := BinNum;
        }
      }
      if someNumbers > 0 {
        token := Token(kind, ptr + 2, pos - (ptr + 2));
      } else {
        token := Token(Unknown, ptr, 0);
        pos := ptr;
      }
      ret := if token.len > 0 then token.len + 2 else 0;
    }

    method SkipQuoteProgramData(quote: char)
      requires Valid() && IsAscii7Bit(quote)
      modifies this
      ensures Valid() && pos == QuoteStop(text, old(pos), quote)
    {
      while !IsEos()
        invariant Valid()
        invariant QuoteStop(text, pos, quote) == QuoteStop(text, old(pos), quote)
        decreases |text| - pos
      {
        if IsAscii7Bit(text[pos]) && !IsChr(quote) {
          pos := pos + 1;
        } else if IsChr(quote) {
          pos := pos + 1;
          if !IsEos() && IsChr(quote) {
            pos := pos + 1;
          } else {
            pos := pos - 1;
            break;
          }
        } else {
          break;
        }
      }
    }

    method StringProgramData() returns (token: Token, ret: nat)
      requires Valid()
      modifies this
      ensures Valid() && Lexed(token, pos, ret) == StringData(text, old(pos))
    {
      var ptr := pos;
      var kind := Unknown;
      if !IsEos() && (IsChr('"') || IsChr('\'')) {
        var quote := text[pos];
        kind := if quote == '"' then DoubleQuote else SingleQuote;
        pos := pos + 1;
        SkipQuoteProgramData(quote);
        if !IsEos() && IsChr(quote) {
          pos := pos + 1;
        } else {
          pos := ptr;
        }
      }
      ret := pos - ptr;
      token := Token(if ret > 0 then kind else Unknown, ptr, ret);
    }

    /** The digit loop of scpiLex_ArbitraryBlockProgramData: how many of the n digits are missing. */
    method BlockLength(n: nat) returns (i: nat, length: nat)
      requires Valid()
      modifies this
      ensures Valid() && i <= n && pos == old(pos) + (n - i)
      ensures forall k :: old(pos) <= k < pos ==> IsDigit(text[k])
      ensures i > 0 ==> IsEos() || !IsDigit(text[pos])
      ensures length == DigitsValue(text[old(pos)..pos])
    {
      i, length := n, 0;
      while i > 0
        invariant Valid() && 0 <= i <= n && pos == old(pos) + (n - i)
        invariant forall k :: old(pos) <= k < pos ==> IsDigit(text[k])
        invariant length == DigitsValue(text[old(pos)..pos])
      {
        if !IsEos() && IsDigit(text[pos]) {
          assert text[old(pos)..pos + 1][..pos - old(pos)] == text[old(pos)..pos];
          length := length * 10 + DigitValue(text[pos]);
          pos := pos + 1;
          i := i - 1;
        } else {
          break;
        }
      }
    }

    method ArbitraryBlockProgramData() returns (token: Token, ret: nat)
      requires Valid()
      modifies this
      ensures Valid() && Lexed(token, pos, ret) == Block(text, old(pos))
    {
      hide DigitsValue;
      var ptr := pos;
      token := Token(Unknown, ptr, 0);
      var validData := -1;
      var hash := SkipChr('#');
      if hash {
        if !IsEos() && IsNonzeroDigit(text[pos]) {
          var n := DigitValue(text[pos]);
          pos := pos + 1;
          var i, length := BlockLength(n);
          SpanStops(text, ptr + 2, pos, Digit);
          if i == 0 {
            if |text| >= pos + length {
              token := Token(Unknown, pos, length);
              pos := pos + length;
              validData := 1;
            } else {
              validData := 0;
            }
          } else if IsEos() {
            validData := 0;
          }
        } else if IsEos() {
          validData := 0;
        }
      }
      if validData == 1 {
        token := token.(kind := ArbitraryBlock);
      } else if validData == 0 {
        token := Token(Unknown, ptr, 0);
        pos := |text|;
      } else {
        token := Token(Unknown, ptr, 0);
        pos := ptr;
      }
      ret := token.len + (token.ptr - ptr);
    }

    /**
     * The C routine tests a length its caller left in the token: that is parameter len0.
     * Where there is no parenthesis and that length is not zero, it makes a token of it.
     */
    method ProgramExpression(len0: nat) returns (token: Token, ret: nat)
      requires Valid()
      modifies this
      ensures Valid()
      ensures if len0 == 0 || At(text, old(pos), '(') then Lexed(token, pos, ret) == Expression(text, old(pos))
              else token == Token(TokenType.ProgramExpression, old(pos), len0) && pos == old(pos) && ret == len0
    {
      var ptr := pos;
      var n := len0;
      if !IsEos() && IsChr('(') {
        pos := pos + 1;
        var _ := SkipWhile(ExpressionChar);
        if !IsEos() && IsChr(')') {
          pos := pos + 1;
          n := pos - ptr;
        } else {
          n := 0;
        }
      }
      if n > 0 {
        token := Token(TokenType.ProgramExpression, ptr, n);
      } else {
        token := Token(Unknown, ptr, 0);
        pos := ptr;
      }
      ret := token.len;
    }

    /** scpiLex_Comma, scpiLex_Semicolon, scpiLex_Colon and scpiLex_SpecificCharacter. */
    method Character(c: char, kind: TokenType) returns (token: Token, ret: nat)
      requires Valid()
      modifies this
      ensures Valid() && ret == (if At(text, old(pos), c) then 1 else 0) && pos == old(pos) + ret
      ensures token == Token(if ret > 0 then kind else Unknown, old(pos), ret)
    {
      var ptr := pos;
      var ok := SkipChr(c);
      ret := if ok then 1 else 0;
      token := Token(if ok then kind else Unknown, ptr, ret);
    }

    method NewLine() returns (token: Token, ret: nat)
      requires Valid()
      modifies this
      ensures Valid() && pos == NewLineEnd(text, old(pos)) && ret == pos - old(pos)
      ensures token == Token(if ret > 0 then TokenType.NewLine else Unknown, old(pos), ret)
    {
      var ptr := pos;
      var _ := SkipChr('\r');
      var _ := SkipChr('\n');
      ret := pos - ptr;
      token := Token(if ret > 0 then TokenType.NewLine else Unknown, ptr, ret);
    }
  }

  lemma {:induction false} SpanRun(s: string, p: nat, k: CharClass)
    requires p <= |s|
    ensures var e := Span(s, p, k);
            (forall i :: p <= i < e ==> Is(k, s[i])) && (e < |s| ==> !Is(k, s[e]))
    decreases |s| - p
  {
    if p < |s| && Is(k, s[p]) {
      SpanRun(s, p + 1, k);
    }
  }

  /** A run known to be in class k lies inside the maximal one. */
  lemma {:induction false} SpanStops(s: string, p: nat, e: nat, k: CharClass)
    requires p <= e <= |s|
    requires forall i :: p <= i < e ==> Is(k, s[i])
    ensures Span(s, p, k) == Span(s, e, k)
    decreases e - p
  {
    if p < e {
      SpanStops(s, p + 1, e, k);
    }
  }
}
