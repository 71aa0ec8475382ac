// The scanner against the syntax of IEEE 488.2: texts built by the rules of
// sections 7.6.1 and 7.7.1 to 7.7.3 are scanned as the tokens they are, and header
// tokens are texts of that syntax.

module LexerGrammar {
  import opened Basics
  import opened Lexer
  import opened ProgramUnits
  import opened IntegerText

  // ------------------------------------------------------------ mnemonics and headers

  predicate IsLetter(c: char) { 'A' <= c <= 'Z' || 'a' <= c <= 'z' }

  predicate InMnemonic(c: char) { IsLetter(c) || '0' <= c <= '9' || c == '_' }

  /** Section 7.6.1.2: a letter, then letters, digits and underscores. */
  predicate IsMnemonic(m: string) {
    m != "" && IsLetter(m[0]) && forall i :: 0 <= i < |m| ==> InMnemonic(m[i])
  }

  predicate AllMnemonics(ms: seq<string>) { forall i :: 0 <= i < |ms| ==> IsMnemonic(ms[i]) }

  /** Mnemonics with colons between them. */
  function PathText(ms: seq<string>): string
    requires ms != []
  {
    if |ms| == 1 then ms[0] else ms[0] + (":" + PathText(ms[1..]))
  }

  /** No character that would continue a header follows. */
  predicate EndsHeader(s: string, e: nat) {
    e <= |s| && (e < |s| ==> !InMnemonic(s[e]) && s[e] != ':' && s[e] != '?')
  }

  lemma MnemonicRead(s: string, p: nat, m: string)
    requires IsMnemonic(m) && Stands(s, p, m) && (p + |m| < |s| ==> !Is(MnemonicChar, s[p + |m|]))
    ensures Mnemonic(s, p) == p + |m|
  {
    hide Span;
    var e := p + |m|;
    StandsStart(s, p, m);
    forall i | p + 1 <= i < e ensures Is(MnemonicChar, s[i]) {
      assert s[i] == m[i - p];
    }
    SpanStops(s, p + 1, e, MnemonicChar);
    SpanStop(s, e);
  }

  lemma SpanStop(s: string, e: nat)
    requires e <= |s| && (e < |s| ==> !Is(MnemonicChar, s[e]))
    ensures Span(s, e, MnemonicChar) == e
  {
  }

  /** Where the first mnemonic of a path stands, and what follows it. */
  lemma NextMnemonic(s: string, p: nat, ms: seq<string>)
    requires ms != [] && Stands(s, p, PathText(ms))
    ensures Stands(s, p, ms[0])
    ensures var e := p + |ms[0]|;
            if |ms| == 1 then e == p + |PathText(ms)|
            else At(s, e, ':') && Stands(s, e + 1, PathText(ms[1..])) && e + 1 + |PathText(ms[1..])| == p + |PathText(ms)|
  {
    hide Stands;
    if |ms| > 1 {
      var rest := PathText(ms[1..]);
      StandsApart(s, p, ms[0], ":" + rest);
      StandsApart(s, p + |ms[0]|, ":", rest);
      StandsStart(s, p + |ms[0]|, ":");
    }
  }

  /** The end of a path is not taken for more of it. */
  predicate EndsPath(s: string, e: nat) { e <= |s| && (e < |s| ==> !Is(MnemonicChar, s[e]) && s[e] != ':') }

  lemma {:induction false} PathRead(s: string, p: nat, ms: seq<string>)
    requires ms != [] && AllMnemonics(ms) && Stands(s, p, PathText(ms)) && EndsPath(s, p + |PathText(ms)|)
    ensures Mnemonic(s, p) > p && CompoundTail(s, Mnemonic(s, p)) == (true, p + |PathText(ms)|)
    decreases |ms|
  {
    hide Mnemonic, Stands, PathText;
    NextMnemonic(s, p, ms);
    assert IsMnemonic(ms[0]);
    var e := p + |ms[0]|;
    MnemonicRead(s, p, ms[0]);
    if |ms| > 1 {
      PathRead(s, e + 1, ms[1..]);
    }
  }

  function HeaderText(colon: bool, ms: seq<string>, query: bool): string
    requires ms != []
  {
    (if colon then ":" else "") + (PathText(ms) + if query then "?" else "")
  }

  /** A compound header, absolute or relative, command or query, is one token of its kind. */
  lemma CompoundHeaderLexed(s: string, p: nat, colon: bool, ms: seq<string>, query: bool)
    requires ms != [] && AllMnemonics(ms) && Stands(s, p, HeaderText(colon, ms, query))
    requires !query ==> EndsHeader(s, p + |HeaderText(colon, ms, query)|)
    ensures var n := |HeaderText(colon, ms, query)|;
            Header(s, p) == Lexed(Token(if query then CompoundQueryHeader else CompoundHeader, p, n), p + n, n)
  {
    hide Mnemonic, CompoundTail, PathText, Stands;
    var first, last := if colon then ":" else "", if query then "?" else "";
    var start := p + |first|;
    var end := start + |PathText(ms)|;
    StandsApart(s, p, first, PathText(ms) + last);
    StandsApart(s, start, PathText(ms), last);
    StandsStart(s, p, first);
    StandsStart(s, end, last);
    NextMnemonic(s, start, ms);
    assert IsMnemonic(ms[0]);
    StandsStart(s, start, ms[0]);
    PathRead(s, start, ms);
  }

  /** A common command or query header is one token of its kind. */
  lemma CommonHeaderLexed(s: string, p: nat, m: string, query: bool)
    requires IsMnemonic(m) && Stands(s, p, "*" + (m + if query then "?" else ""))
    requires !query ==> EndsHeader(s, p + 1 + |m|)
    ensures var n := 1 + |m| + if query then 1 else 0;
            Header(s, p) == Lexed(Token(if query then CommonQueryHeader else CommonHeader, p, n), p + n, n)
  {
    hide Mnemonic, Stands, IsMnemonic;
    var last := if query then "?" else "";
    StandsApart(s, p, "*", m + last);
    StandsApart(s, p + 1, m, last);
    StandsStart(s, p, "*");
    StandsStart(s, p + 1 + |m|, last);
    MnemonicRead(s, p + 1, m);
    assert m != "" by { Nonempty(m); }
  }

  lemma Nonempty(m: string)
    requires IsMnemonic(m)
    ensures m != ""
  {
  }

  /** Conversely, a compound header token is the text of a path of mnemonics. */
  lemma CompoundHeaderIsPath(s: string, p: nat) returns (colon: bool, ms: seq<string>)
    requires p <= |s| && (Header(s, p).tok.kind == CompoundHeader || Header(s, p).tok.kind == CompoundQueryHeader)
    ensures ms != [] && AllMnemonics(ms)
    ensures s[p..Header(s, p).pos] == HeaderText(colon, ms, Header(s, p).tok.kind == CompoundQueryHeader)
  {
    hide Mnemonic, CompoundTail, PathText;
    colon := At(s, p, ':');
    var start := if colon then p + 1 else p;
    ms := PathOf(s, start);
    var end := CompoundTail(s, Mnemonic(s, start)).1;
    assert s[p..Header(s, p).pos] == s[p..start] + (s[start..end] + s[end..Header(s, p).pos]);
  }

  lemma {:induction false} PathOf(s: string, p: nat) returns (ms: seq<string>)
    requires p <= |s| && Mnemonic(s, p) > p && CompoundTail(s, Mnemonic(s, p)).0
    ensures ms != [] && AllMnemonics(ms) && s[p..CompoundTail(s, Mnemonic(s, p)).1] == PathText(ms)
    decreases |s| - p
  {
    hide Mnemonic;
    var e := Mnemonic(s, p);
    MnemonicOf(s, p);
    if !At(s, e, ':') {
      ms := [s[p..e]];
    } else {
      var rest := PathOf(s, e + 1);
      ms := [s[p..e]] + rest;
      var end := CompoundTail(s, e).1;
      assert ms[1..] == rest;
      assert s[p..end] == s[p..e] + (":" + s[e + 1..end]);
    }
  }

  lemma MnemonicOf(s: string, p: nat)
    requires p <= |s| && Mnemonic(s, p) > p
    ensures IsMnemonic(s[p..Mnemonic(s, p)])
  {
    SpanRun(s, p + 1, MnemonicChar);
  }

  /** And a common header token is a star and a mnemonic. */
  lemma CommonHeaderIsMnemonic(s: string, p: nat) returns (m: string)
    requires p <= |s| && (Header(s, p).tok.kind == CommonHeader || Header(s, p).tok.kind == CommonQueryHeader)
    ensures IsMnemonic(m)
    ensures s[p..Header(s, p).pos] == "*" + (m + if Header(s, p).tok.kind == CommonQueryHeader then "?" else "")
  {
    hide Mnemonic;
    var e := Mnemonic(s, p + 1);
    MnemonicOf(s, p + 1);
    m := s[p + 1..e];
    assert s[p..Header(s, p).pos] == "*" + (m + s[e..Header(s, p).pos]);
  }

  // ------------------------------------------------------------ character data

  /** Section 7.7.1: a mnemonic that ends the parameter is the whole parameter. */
  lemma CharacterDataLexed(s: string, p: nat, m: string)
    requires IsMnemonic(m) && Stands(s, p, m) && EndsData(s, p + |m|)
    ensures DataItem(s, p) == Lexed(Token(ProgramMnemonic, p, |m|), p + |m|, |m|)
  {
    hide Mnemonic, Stands, DelimitedItem, Number;
    MnemonicRead(s, p, m);
    StandsStart(s, p, m);
  }

  // ------------------------------------------------------------ decimal numbers

  predicate AllDigits(s: string) { forall i :: 0 <= i < |s| ==> '0' <= s[i] <= '9' }

  /**
   * Section 7.7.2: whole digits, a fraction and an exponent, each with or without.
   * White space may stand before and after the exponent mark, which is E or e.
   */
  datatype Real = Real(sign: string, whole: string, point: bool, fraction: string,
                       exponent: bool, before: string, mark: char, after: string, expSign: string, expDigits: string)

  predicate AllBlank(s: string) { forall i :: 0 <= i < |s| ==> s[i] == ' ' || s[i] == '\t' }

  predicate IsSign(s: string) { s == "" || s == "+" || s == "-" }

  predicate IsReal(r: Real) {
    && IsSign(r.sign) && AllDigits(r.whole) && AllDigits(r.fraction) && (r.fraction != "" ==> r.point)
    && |r.whole| + |r.fraction| > 0
    && (r.exponent ==> AllBlank(r.before) && (r.mark == 'E' || r.mark == 'e') && AllBlank(r.after)
                       && IsSign(r.expSign) && AllDigits(r.expDigits) && r.expDigits != "")
  }

  function MantissaText(r: Real): string { r.sign + (r.whole + if r.point then "." + r.fraction else "") }

  function ExponentText(r: Real): string {
    if r.exponent then r.before + ([r.mark] + (r.after + (r.expSign + r.expDigits))) else ""
  }

  function RealText(r: Real): string { MantissaText(r) + ExponentText(r) }

  /** What may follow a sign-less run of digits without continuing it. */
  lemma DigitsRead(s: string, p: nat, digits: string)
    requires AllDigits(digits) && Stands(s, p, digits) && (p + |digits| < |s| ==> !IsDigit(s[p + |digits|]))
    ensures Span(s, p, Digit) == p + |digits|
  {
    hide Span;
    var e := p + |digits|;
    forall i | p <= i < e ensures Is(Digit, s[i]) {
      assert s[i] == digits[i - p];
    }
    SpanStops(s, p, e, Digit);
    NoDigit(s, e);
  }

  lemma NoDigit(s: string, e: nat)
    requires e <= |s| && (e < |s| ==> !IsDigit(s[e]))
    ensures Span(s, e, Digit) == e
  {
  }

  lemma SignRead(s: string, p: nat, sign: string)
    requires IsSign(sign) && Stands(s, p, sign)
    requires p + |sign| < |s| && s[p + |sign|] != '+' && s[p + |sign|] != '-'
    ensures Opt(s, p, Sign) == p + |sign|
  {
    StandsStart(s, p, sign);
  }

  lemma MantissaRead(s: string, p: nat, r: Real)
    requires IsReal(r) && Stands(s, p, MantissaText(r))
    requires var e := p + |MantissaText(r)|; e < |s| ==> !IsDigit(s[e]) && s[e] != '.'
    ensures Mantissa(s, p) == (|r.whole| + |r.fraction|, p + |MantissaText(r)|)
  {
    hide Span, Stands, AllDigits;
    var tail := if r.point then "." + r.fraction else "";
    var p1 := p + |r.sign|;
    StandsApart(s, p, r.sign, r.whole + tail);
    WholeRead(s, p1, r.whole, r.point, r.fraction);
    SignRead(s, p, r.sign);
  }

  /** Digits, and a point with further digits. */
  lemma WholeRead(s: string, p: nat, whole: string, point: bool, fraction: string)
    requires AllDigits(whole) && AllDigits(fraction) && |whole| + |fraction| > 0 && (fraction != "" ==> point)
    requires var tail := if point then "." + fraction else "";
             Stands(s, p, whole + tail) && (var e := p + |whole + tail|; e < |s| ==> !IsDigit(s[e]) && s[e] != '.')
    ensures Span(s, p, Digit) == p + |whole| && At(s, p + |whole|, '.') == point
    ensures point ==> Span(s, p + |whole| + 1, Digit) == p + |whole| + 1 + |fraction|
    ensures p < |s| && s[p] != '+' && s[p] != '-'
  {
    hide Span, Stands, AllDigits;
    var tail := if point then "." + fraction else "";
    var p2 := p + |whole|;
    StandsApart(s, p, whole, tail);
    StandsStart(s, p, whole);
    StandsStart(s, p2, tail);
    FirstOf(whole);
    DigitsRead(s, p, whole);
    if point {
      StandsApart(s, p2, ".", fraction);
      DigitsRead(s, p2 + 1, fraction);
    }
  }

  lemma FirstOf(digits: string)
    requires AllDigits(digits)
    ensures digits != "" ==> IsDigit(digits[0])
  {
  }

  lemma BlanksRead(s: string, p: nat, blanks: string)
    requires AllBlank(blanks) && Stands(s, p, blanks)
    requires var e := p + |blanks|; e < |s| ==> s[e] != ' ' && s[e] != '\t'
    ensures Span(s, p, Blank) == p + |blanks|
  {
    hide Span;
    var e := p + |blanks|;
    forall i | p <= i < e ensures Is(Blank, s[i]) {
      assert s[i] == blanks[i - p];
    }
    SpanStops(s, p, e, Blank);
    NoBlank(s, e);
  }

  lemma ExponentRead(s: string, p: nat, r: Real)
    requires IsReal(r) && Stands(s, p, ExponentText(r))
    requires if r.exponent then (var e := p + |ExponentText(r)|; e < |s| ==> !IsDigit(s[e])) else Exponent(s, p) == p
    ensures Exponent(s, p) == p + |ExponentText(r)|
  {
    hide Span, Stands, AllDigits, Exponent;
    if r.exponent {
      var tail := r.after + (r.expSign + r.expDigits);
      StandsApart(s, p, r.before, [r.mark] + tail);
      StandsApart(s, p + |r.before|, [r.mark], tail);
      StandsStart(s, p + |r.before|, [r.mark]);
      NoBlankMark(r.mark);
      BlanksRead(s, p, r.before);
      ExponentDigits(s, p + |r.before| + 1, r.after, r.expSign, r.expDigits);
      ExponentUnfold(s, p);
    }
  }

  lemma NoExponent(s: string, p: nat)
    requires EndsNumber(s, p)
    ensures Exponent(s, p) == p
  {
    SpanAtEnd(s, p, Blank);
  }

  lemma NoBlankMark(c: char)
    requires IsExponentMark(c)
    ensures c != ' ' && c != '\t'
  {
  }

  lemma ExponentUnfold(s: string, p: nat)
    requires p <= |s|
    ensures var p0 := Span(s, p, Blank);
            p0 < |s| && IsExponentMark(s[p0]) ==>
              var p2 := Opt(s, Span(s, p0 + 1, Blank), Sign);
              Exponent(s, p) == if Span(s, p2, Digit) == p2 then p else Span(s, p2, Digit)
  {
    hide Span, Opt;
  }

  /** What follows the mark: blanks, a sign and digits. */
  lemma ExponentDigits(s: string, p: nat, blanks: string, sign: string, digits: string)
    requires AllBlank(blanks) && IsSign(sign) && AllDigits(digits) && digits != ""
    requires Stands(s, p, blanks + (sign + digits))
    requires var e := p + |blanks| + |sign| + |digits|; e < |s| ==> !IsDigit(s[e])
    ensures p <= |s|
    ensures var p2 := Opt(s, Span(s, p, Blank), Sign);
            p2 == p + |blanks| + |sign| && Span(s, p2, Digit) == p2 + |digits|
  {
    hide Span, Stands, AllDigits, AllBlank, IsSign;
    var p1 := p + |blanks|;
    var p2 := p1 + |sign|;
    StandsApart(s, p, blanks, sign + digits);
    StandsApart(s, p1, sign, digits);
    StandsStart(s, p2, digits);
    FirstOf(digits);
    SignStart(s, p1, sign);
    BlanksRead(s, p, blanks);
    SignRead(s, p1, sign);
    DigitsRead(s, p2, digits);
  }

  /** Where a sign or, without one, a digit stands there is no blank. */
  lemma SignStart(s: string, p: nat, sign: string)
    requires IsSign(sign) && Stands(s, p, sign) && p + |sign| < |s| && IsDigit(s[p + |sign|])
    ensures s[p] != ' ' && s[p] != '\t'
  {
    StandsStart(s, p, sign);
  }

  lemma NoBlank(s: string, p: nat)
    requires p <= |s| && (p < |s| ==> s[p] != ' ' && s[p] != '\t')
    ensures Span(s, p, Blank) == p
  {
  }

  /** A number of that syntax is one number token, where it is not continued. */
  lemma RealRead(s: string, p: nat, r: Real)
    requires IsReal(r) && Stands(s, p, RealText(r))
    requires var e := p + |RealText(r)|; e < |s| ==> !IsDigit(s[e]) && s[e] != '.'
    requires !r.exponent ==> Exponent(s, p + |RealText(r)|) == p + |RealText(r)|
    ensures var n := |RealText(r)|;
            n > 0 && Decimal(s, p) == Lexed(Token(DecimalNumeric, p, n), p + n, n)
    ensures p < |s| && (s[p] == '+' || s[p] == '-' || s[p] == '.' || IsDigit(s[p]))
  {
    hide Mantissa, Exponent, Stands, MantissaText, ExponentText;
    var e := p + |MantissaText(r)|;
    NotEmpty(r);
    StandsApart(s, p, MantissaText(r), ExponentText(r));
    AfterMantissa(s, e, r);
    MantissaRead(s, p, r);
    ExponentRead(s, e, r);
    StandsStart(s, p, MantissaText(r));
  }

  lemma NotEmpty(r: Real)
    requires IsReal(r)
    ensures var t := MantissaText(r); t != "" && (t[0] == '+' || t[0] == '-' || t[0] == '.' || IsDigit(t[0]))
    ensures !r.exponent ==> ExponentText(r) == ""
  {
  }

  lemma AfterMantissa(s: string, e: nat, r: Real)
    requires IsReal(r) && Stands(s, e, ExponentText(r))
    requires var f := e + |ExponentText(r)|; f < |s| ==> !IsDigit(s[f]) && s[f] != '.'
    ensures e < |s| ==> !IsDigit(s[e]) && s[e] != '.'
  {
    StandsStart(s, e, ExponentText(r));
    if r.exponent && r.before != "" {
      assert ExponentText(r)[0] == r.before[0];
    }
  }

  /** Every decimal number of that syntax that ends the parameter is the whole parameter. */
  lemma RealLexed(s: string, p: nat, r: Real)
    requires IsReal(r) && Stands(s, p, RealText(r)) && EndsData(s, p + |RealText(r)|)
    ensures var n := |RealText(r)|;
            DataItem(s, p) == Lexed(Token(DecimalNumeric, p, n), p + n, n)
  {
    hide Stands, DelimitedItem, Decimal, RealText, Exponent, Span;
    var e := p + |RealText(r)|;
    NoExponent(s, e);
    RealRead(s, p, r);
    SpanAtEnd(s, e, Blank);
    SpanAtEnd(s, e, Letter);
    assert SuffixEnd(s, e) == e;
    assert Nondecimal(s, p).ret == 0 && CharacterData(s, p).ret == 0;
  }

  // ------------------------------------------------------------ suffixes

  /** One unit of a suffix: letters, and a power. */
  datatype SuffixUnit = SuffixUnit(letters: string, minus: bool, digit: string)

  predicate AllLetters(s: string) { forall i :: 0 <= i < |s| ==> IsLetter(s[i]) }

  predicate IsUnit(u: SuffixUnit) { u.letters != "" && AllLetters(u.letters) && |u.digit| <= 1 && AllDigits(u.digit) }

  function UnitText(u: SuffixUnit): string { u.letters + ((if u.minus then "-" else "") + u.digit) }

  /** A further unit and the separator before it: a slash or a dot. */
  datatype More = More(slash: bool, next: SuffixUnit)

  predicate AllUnits(ms: seq<More>) { forall i :: 0 <= i < |ms| ==> IsUnit(ms[i].next) }

  function MoreText(ms: seq<More>): string {
    if ms == [] then "" else (if ms[0].slash then "/" else ".") + (UnitText(ms[0].next) + MoreText(ms[1..]))
  }

  /** Section 7.7.3: an optional slash, a unit and further units. */
  function SuffixText(slash: bool, first: SuffixUnit, ms: seq<More>): string {
    (if slash then "/" else "") + (UnitText(first) + MoreText(ms))
  }

  /** What may follow one unit: a separator, or the end of the parameter. */
  predicate EndsUnit(s: string, e: nat) { e <= |s| && (EndsData(s, e) || s[e] == '/' || s[e] == '.') }

  lemma UnitRead(s: string, p: nat, u: SuffixUnit)
    requires IsUnit(u) && Stands(s, p, UnitText(u)) && EndsUnit(s, p + |UnitText(u)|)
    ensures Span(s, p, Letter) == p + |u.letters| && SuffixPower(s, p + |u.letters|) == p + |UnitText(u)|
  {
    hide Span, Stands, AllLetters, AllDigits;
    var minus := if u.minus then "-" else "";
    var e := p + |u.letters|;
    StandsApart(s, p, u.letters, minus + u.digit);
    StandsApart(s, e, minus, u.digit);
    StandsStart(s, e, minus);
    StandsStart(s, e + |minus|, u.digit);
    FirstOf(u.digit);
    LettersRead(s, p, u.letters);
  }

  lemma LettersRead(s: string, p: nat, letters: string)
    requires AllLetters(letters) && Stands(s, p, letters) && (p + |letters| < |s| ==> !IsAlpha(s[p + |letters|]))
    ensures Span(s, p, Letter) == p + |letters|
  {
    hide Span;
    var e := p + |letters|;
    forall i | p <= i < e ensures Is(Letter, s[i]) {
      assert s[i] == letters[i - p];
    }
    SpanStops(s, p, e, Letter);
    NoLetter(s, e);
  }

  lemma NoLetter(s: string, e: nat)
    requires e <= |s| && (e < |s| ==> !IsAlpha(s[e]))
    ensures Span(s, e, Letter) == e
  {
  }

  lemma {:induction false} MoreRead(s: string, p: nat, ms: seq<More>)
    requires AllUnits(ms) && Stands(s, p, MoreText(ms)) && EndsData(s, p + |MoreText(ms)|)
    ensures SuffixTail(s, p) == p + |MoreText(ms)| && EndsUnit(s, p)
    decreases |ms|
  {
    hide Span, Stands, UnitText, SuffixPower;
    if ms == [] {
    } else {
      var sep, u, rest := if ms[0].slash then "/" else ".", ms[0].next, MoreText(ms[1..]);
      assert IsUnit(u);
      StandsApart(s, p, sep, UnitText(u) + rest);
      StandsStart(s, p, sep);
      StandsApart(s, p + 1, UnitText(u), rest);
      MoreRead(s, p + 1 + |UnitText(u)|, ms[1..]);
      UnitRead(s, p + 1, u);
    }
  }

  /** Every suffix of that syntax that ends the parameter is passed whole. */
  lemma SuffixRead(s: string, p: nat, slash: bool, first: SuffixUnit, ms: seq<More>)
    requires IsUnit(first) && AllUnits(ms) && Stands(s, p, SuffixText(slash, first, ms))
    requires EndsData(s, p + |SuffixText(slash, first, ms)|)
    ensures SuffixEnd(s, p) == p + |SuffixText(slash, first, ms)|
    ensures slash || IsAlpha(s[p])
  {
    hide Span, Stands, UnitText, SuffixPower, MoreText, SuffixTail;
    var start := if slash then "/" else "";
    var p1 := p + |start|;
    StandsApart(s, p, start, UnitText(first) + MoreText(ms));
    StandsStart(s, p, start);
    StandsApart(s, p1, UnitText(first), MoreText(ms));
    MoreRead(s, p1 + |UnitText(first)|, ms);
    UnitRead(s, p1, first);
    UnitStart(s, p1, first);
  }

  lemma UnitStart(s: string, p: nat, u: SuffixUnit)
    requires IsUnit(u) && Stands(s, p, UnitText(u))
    ensures p < |s| && IsAlpha(s[p]) && |UnitText(u)| > 0
  {
    StandsStart(s, p, UnitText(u));
    assert UnitText(u)[0] == u.letters[0];
  }

  /** The suffix cannot be taken for an exponent: a lone E before a digit would be. */
  predicate NoExponentLike(r: Real, slash: bool, first: SuffixUnit)
    requires first.letters != ""
  {
    r.exponent || slash || !IsExponentMark(first.letters[0]) || |first.letters| > 1 || first.digit == ""
  }

  /** After a number without exponent, blanks and a suffix are not an exponent. */
  lemma SuffixNotExponent(s: string, p: nat, w: nat, r: Real, slash: bool, first: SuffixUnit, ms: seq<More>)
    requires p <= w <= |s| && Span(s, p, Blank) == w && !r.exponent && IsUnit(first) && AllUnits(ms)
    requires Stands(s, w, SuffixText(slash, first, ms)) && EndsData(s, w + |SuffixText(slash, first, ms)|)
    requires NoExponentLike(r, slash, first)
    ensures Exponent(s, p) == p
  {
    hide Span, Stands, MoreText, EndsData;
    var start := if slash then "/" else "";
    StandsApart(s, w, start, UnitText(first) + MoreText(ms));
    StandsStart(s, w, start);
    if !slash {
      StandsApart(s, w, UnitText(first), MoreText(ms));
      MoreRead(s, w + |UnitText(first)|, ms);
      LoneMark(s, w, first);
    }
  }

  /** A unit that starts with E has no digits right behind the E and an optional sign, unless E is all of it. */
  lemma LoneMark(s: string, w: nat, u: SuffixUnit)
    requires IsUnit(u) && Stands(s, w, UnitText(u)) && EndsUnit(s, w + |UnitText(u)|)
    requires !IsExponentMark(u.letters[0]) || |u.letters| > 1 || u.digit == ""
    ensures w < |s| && s[w] == u.letters[0]
    ensures IsExponentMark(s[w]) ==>
              var p1 := Span(s, w + 1, Blank);
              var p2 := Opt(s, p1, Sign);
              Span(s, p2, Digit) == p2
  {
    hide Span, Stands;
    StandsStart(s, w, UnitText(u));
    var minus := if u.minus then "-" else "";
    StandsApart(s, w, u.letters, minus + u.digit);
    if |u.letters| > 1 {
      assert s[w + 1] == u.letters[1];
      NoBlank(s, w + 1);
      NoDigit(s, w + 1);
    } else if u.digit == "" {
      assert minus + u.digit == minus;
      StandsStart(s, w + 1, minus);
      NoBlank(s, w + 1);
      NoDigit(s, w + 1 + |minus|);
    }
  }

  /** A number with a suffix, blanks between them or not, is one parameter that is all of it. */
  lemma SuffixedLexed(s: string, p: nat, r: Real, blanks: string, slash: bool, first: SuffixUnit, ms: seq<More>)
    requires IsReal(r) && AllBlank(blanks) && IsUnit(first) && AllUnits(ms) && NoExponentLike(r, slash, first)
    requires var text := RealText(r) + (blanks + SuffixText(slash, first, ms));
             Stands(s, p, text) && EndsData(s, p + |text|)
    ensures var n := |RealText(r) + (blanks + SuffixText(slash, first, ms))|;
            DataItem(s, p) == Lexed(Token(DecimalNumericWithSuffix, p, n), p + n, n)
  {
    hide Stands, DelimitedItem, Decimal, RealText, Exponent, Span, SuffixText, SuffixEnd, IsReal, AllUnits, NoExponentLike;
    var suffix := SuffixText(slash, first, ms);
    var e := p + |RealText(r)|;
    var w := e + |blanks|;
    StandsApart(s, p, RealText(r), blanks + suffix);
    StandsApart(s, e, blanks, suffix);
    SuffixRead(s, w, slash, first, ms);
    SuffixStart(s, w, slash, first, ms);
    BlanksRead(s, e, blanks);
    StandsStart(s, e, blanks);
    if !r.exponent { SuffixNotExponent(s, e, w, r, slash, first, ms); }
    RealRead(s, p, r);
    assert Nondecimal(s, p).ret == 0 && CharacterData(s, p).ret == 0;
  }

  lemma SuffixStart(s: string, w: nat, slash: bool, first: SuffixUnit, ms: seq<More>)
    requires IsUnit(first) && Stands(s, w, SuffixText(slash, first, ms))
    ensures w < |s| && (s[w] == '/' || IsAlpha(s[w])) && SuffixText(slash, first, ms) != ""
  {
    hide MoreText;
    var start := if slash then "/" else "";
    StandsApart(s, w, start, UnitText(first) + MoreText(ms));
    StandsStart(s, w, start);
    StandsApart(s, w + |start|, UnitText(first), MoreText(ms));
    UnitStart(s, w + |start|, first);
  }

  // ------------------------------------------------------------ numbers in other bases

  /** Section 7.7.4: the digits of hexadecimal, octal and binary numbers, and the letters that announce them. */
  predicate IsDigitOf(kind: TokenType, c: char) {
    match kind
    case HexNum => '0' <= c <= '9' || 'A' <= c <= 'F' || 'a' <= c <= 'f'
    case OctNum => '0' <= c <= '7'
    case BinNum => c == '0' || c == '1'
    case _ => false
  }

  predicate Announces(kind: TokenType, c: char) {
    match kind
    case HexNum => c == 'H' || c == 'h'
    case OctNum => c == 'Q' || c == 'q'
    case BinNum => c == 'B' || c == 'b'
    case _ => false
  }

  function ClassOf(kind: TokenType): CharClass { if kind == HexNum then Hex else if kind == OctNum then Oct else Bin }

  /** Every such number that ends the parameter is the whole parameter; its token is the digits. */
  lemma NondecimalRead(s: string, p: nat, kind: TokenType, mark: char, digits: string)
    requires Announces(kind, mark) && digits != "" && forall i :: 0 <= i < |digits| ==> IsDigitOf(kind, digits[i])
    requires Stands(s, p, ['#', mark] + digits) && EndsData(s, p + 2 + |digits|)
    ensures var n := |digits|;
            DataItem(s, p) == Lexed(Token(kind, p + 2, n), p + 2 + n, 2 + n)
  {
    hide Span, CharacterData, Number, DelimitedItem;
    StandsApart(s, p, ['#', mark], digits);
    assert s[p] == s[p + 0] == '#' && s[p + 1] == mark;
    KindDigitsRead(s, p + 2, kind, digits);
  }

  lemma KindDigitsRead(s: string, p: nat, kind: TokenType, digits: string)
    requires (kind == HexNum || kind == OctNum || kind == BinNum) && forall i :: 0 <= i < |digits| ==> IsDigitOf(kind, digits[i])
    requires Stands(s, p, digits) && EndsData(s, p + |digits|)
    ensures Span(s, p, ClassOf(kind)) == p + |digits|
  {
    hide Span;
    var e := p + |digits|;
    forall i | p <= i < e ensures Is(ClassOf(kind), s[i]) {
      assert s[i] == digits[i - p];
    }
    SpanStops(s, p, e, ClassOf(kind));
    SpanAtEnd(s, e, ClassOf(kind));
  }
}
