// Prefix stability of the scanner.
//
// SCPI_Input scans the bytes received so far, and hands a slice of them to
// SCPI_Parse, which scans that slice again; a command callback then scans the
// program data of one unit a third time.  Every one of these scans sees a text
// that ends earlier, and whose already consumed part may have been overwritten.
// The lemmas here say when the shorter text t yields the same tokens as s.

module LexerStability {
  import opened Basics
  import opened Lexer
  import opened ProgramUnits

  /** t ends no later than s and has the same characters from p on. */
  ghost predicate Agree(s: string, t: string, p: nat) {
    p <= |t| <= |s| && forall i :: p <= i < |t| ==> s[i] == t[i]
  }

  predicate IsNl(c: char) { c == '\r' || c == '\n' }

  /** Where t stops short of s, it stops right after a line end, and p is still inside. */
  ghost predicate LineCut(s: string, t: string, p: nat) {
    Agree(s, t, p) && (|t| < |s| ==> p < |t| && IsNl(t[|t| - 1]))
  }

  // ------------------------------------------------------------ skipping

  lemma {:induction false} SpanCut(s: string, t: string, p: nat, k: CharClass)
    requires Agree(s, t, p)
    ensures Span(t, p, k) == Min(Span(s, p, k), |t|)
    decreases |s| - p
  {
    if p < |t| && Is(k, s[p]) {
      SpanCut(s, t, p + 1, k);
    }
  }

  lemma MnemonicCut(s: string, t: string, p: nat)
    requires Agree(s, t, p)
    ensures Mnemonic(t, p) == Min(Mnemonic(s, p), |t|)
  {
    if p < |t| && IsAlpha(s[p]) {
      SpanCut(s, t, p + 1, MnemonicChar);
    }
  }

  lemma {:induction false} CompoundTailCut(s: string, t: string, p: nat)
    requires Agree(s, t, p) && CompoundTail(s, p).1 <= |t|
    ensures CompoundTail(t, p) == CompoundTail(s, p)
    decreases |s| - p
  {
    if At(s, p, ':') {
      MnemonicCut(s, t, p + 1);
      var e := Mnemonic(s, p + 1);
      if e > p + 1 {
        CompoundTailCut(s, t, e);
      }
    }
  }

  lemma HeaderCut(s: string, t: string, p: nat)
    requires Agree(s, t, p) && Header(s, p).pos <= |t|
    ensures Header(t, p) == Header(s, p)
  {
    hide Mnemonic;
    var start := if At(s, p, '*') || At(s, p, ':') then p + 1 else p;
    if p < |t| {
      MnemonicCut(s, t, start);
      var e := Mnemonic(s, start);
      if e > start && !At(s, p, '*') {
        CompoundTailCut(s, t, e);
      }
    } else {
      MnemonicCut(s, t, p);
    }
  }

  // ------------------------------------------------------------ program data

  lemma NondecimalCut(s: string, t: string, p: nat)
    requires Agree(s, t, p)
    ensures var n := Nondecimal(s, p);
            Nondecimal(t, p) == if n.ret == 0 then Miss(p) else if n.pos <= |t| then n else Nondecimal(t, p)
  {
    hide Span;
    if p + 2 <= |t| {
      SpanCut(s, t, p + 2, Hex);
      SpanCut(s, t, p + 2, Oct);
      SpanCut(s, t, p + 2, Bin);
    }
  }

  lemma CharacterCut(s: string, t: string, p: nat)
    requires Agree(s, t, p)
    ensures var n := CharacterData(s, p);
            CharacterData(t, p) == if n.ret == 0 then Miss(p) else if n.pos <= |t| then n else CharacterData(t, p)
  {
    MnemonicCut(s, t, p);
  }

  lemma MantissaCut(s: string, t: string, p: nat)
    requires Agree(s, t, p)
    ensures Mantissa(s, p).0 == 0 ==> Mantissa(t, p).0 == 0
    ensures Mantissa(s, p).1 <= |t| ==> Mantissa(t, p) == Mantissa(s, p)
  {
    hide Span;
    var p1 := Opt(s, p, Sign);
    if p1 <= |t| {
      SpanCut(s, t, p1, Digit);
      var p2 := Span(s, p1, Digit);
      if p2 < |t| && At(s, p2, '.') {
        SpanCut(s, t, p2 + 1, Digit);
      }
    } else {
      SpanCut(s, t, p, Digit);
    }
  }

  lemma ExponentCut(s: string, t: string, p: nat)
    requires Agree(s, t, p) && Exponent(s, p) <= |t|
    ensures Exponent(t, p) == Exponent(s, p)
  {
    hide Span;
    SpanCut(s, t, p, Blank);
    var p0 := Span(s, p, Blank);
    if p0 < |t| && IsExponentMark(s[p0]) {
      SpanCut(s, t, p0 + 1, Blank);
      var p1 := Span(s, p0 + 1, Blank);
      if p1 <= |t| {
        var p2 := Opt(s, p1, Sign);
        if p2 <= |t| {
          SpanCut(s, t, p2, Digit);
        }
        SpanCut(s, t, p1, Digit);
      }
      SpanCut(t, t, |t|, Digit);
    }
  }

  lemma DecimalCut(s: string, t: string, p: nat)
    requires Agree(s, t, p)
    ensures var d := Decimal(s, p);
            Decimal(t, p) == if d.ret == 0 then Miss(p) else if d.pos <= |t| then d else Decimal(t, p)
  {
    hide Mantissa, Exponent;
    MantissaCut(s, t, p);
    var (digits, e) := Mantissa(s, p);
    if digits > 0 && Exponent(s, e) <= |t| {
      ExponentCut(s, t, e);
    }
  }

  lemma SuffixPowerCut(s: string, t: string, p: nat)
    requires Agree(s, t, p)
    ensures SuffixPower(t, p) == Min(SuffixPower(s, p), |t|)
  {
  }

  lemma {:induction false} SuffixTailCut(s: string, t: string, p: nat)
    requires Agree(s, t, p) && SuffixTail(s, p) <= |t|
    ensures SuffixTail(t, p) == SuffixTail(s, p)
    decreases |s| - p
  {
    hide Span, SuffixPower;
    if p < |t| && Is(SlashDot, s[p]) {
      SpanCut(s, t, p + 1, Letter);
      var a := Span(s, p + 1, Letter);
      var b := SuffixPower(s, a);
      SuffixPowerCut(s, t, a);
      SuffixTailCut(s, t, b);
    }
  }

  lemma SuffixCut(s: string, t: string, p: nat)
    requires Agree(s, t, p)
    ensures SuffixEnd(s, p) <= |t| ==> SuffixEnd(t, p) == SuffixEnd(s, p)
  {
    hide Span, SuffixPower, SuffixTail;
    var p1 := OptChr(s, p, '/');
    if SuffixEnd(s, p) <= |t| {
      SpanCut(s, t, p1, Letter);
      var p2 := Span(s, p1, Letter);
      if p2 > p1 {
        SuffixPowerCut(s, t, p2);
        SuffixTailCut(s, t, SuffixPower(s, p2));
      }
    }
  }

  /** A number is stable once its token is inside t; its cursor may have run past trailing white space. */
  lemma NumberCut(s: string, t: string, p: nat)
    requires Agree(s, t, p)
    ensures var n := Number(s, p);
            if n.ret == 0 then Number(t, p) == Miss(p)
            else n.tok.ptr + n.tok.len <= |t| ==> Number(t, p) == n.(pos := Min(n.pos, |t|))
  {
    hide Decimal, Span, SuffixEnd;
    DecimalCut(s, t, p);
    var d := Decimal(s, p);
    var n := Number(s, p);
    if d.ret > 0 && n.tok.ptr + n.tok.len <= |t| {
      assert d.pos <= |t|;
      SpanCut(s, t, d.pos, Blank);
      var w := Span(s, d.pos, Blank);
      if w <= |t| {
        SuffixCut(s, t, w);
      } else {
        SuffixAtEnd(t);
      }
    }
  }

  lemma SuffixAtEnd(t: string)
    ensures SuffixEnd(t, |t|) == |t|
  {
  }

  lemma {:induction false} QuoteStopCut(s: string, t: string, p: nat, quote: char)
    requires Agree(s, t, p)
    ensures var q := QuoteStop(s, p, quote);
            && (At(s, q, quote) && q < |t| ==> QuoteStop(t, p, quote) == q)
            && (!At(s, q, quote) && |t| > 0 && (|t| < |s| ==> t[|t| - 1] != quote) ==> !At(t, QuoteStop(t, p, quote), quote))
    decreases |s| - p
  {
    if p < |t| {
      if s[p] == quote {
        if At(s, p + 1, quote) && p + 2 <= |t| {
          QuoteStopCut(s, t, p + 2, quote);
        }
      } else if IsAscii7Bit(s[p]) {
        QuoteStopCut(s, t, p + 1, quote);
      }
    }
  }

  lemma StringCut(s: string, t: string, p: nat)
    requires Agree(s, t, p)
    ensures var n := StringData(s, p);
            && (n.ret > 0 && n.pos <= |t| ==> StringData(t, p) == n)
            && (n.ret == 0 && LineCut(s, t, p) ==> StringData(t, p) == Miss(p))
  {
    hide QuoteStop;
    if p < |t| && (s[p] == '"' || s[p] == '\'') {
      QuoteStopCut(s, t, p + 1, s[p]);
    }
  }

  lemma BlockCut(s: string, t: string, p: nat)
    requires Agree(s, t, p)
    ensures var n := Block(s, p);
            && (n.ret > 0 && n.pos <= |t| ==> Block(t, p) == n)
            && (n.ret == 0 && LineCut(s, t, p) && (|t| == |s| || n.pos < |t|) ==> Block(t, p) == n)
  {
    hide DigitsValue, Span;
    if At(s, p, '#') && p + 2 <= |t| && IsNonzeroDigit(s[p + 1]) {
      SpanCut(s, t, p + 2, Digit);
      SpanRun(s, p + 2, Digit);
      var n := DigitValue(s[p + 1]);
      var e := Span(s, p + 2, Digit);
      if p + 2 + n <= e && p + 2 + n <= |t| {
        assert s[p + 2..p + 2 + n] == t[p + 2..p + 2 + n];
      }
      if e > |t| - 1 && |t| < |s| && IsNl(t[|t| - 1]) {
        assert Is(Digit, s[|t| - 1]) || e == |t| - 1;
      }
    }
  }

  lemma ExpressionCut(s: string, t: string, p: nat)
    requires Agree(s, t, p)
    ensures var n := Expression(s, p);
            Expression(t, p) == if n.ret == 0 then Miss(p) else if n.pos <= |t| then n else Expression(t, p)
  {
    hide Span;
    if At(s, p, '(') && p < |t| {
      SpanCut(s, t, p + 1, ExpressionChar);
    }
  }

  /** A parameter whose token lies inside t is the same parameter there. */
  lemma ItemHitCut(s: string, t: string, p: nat)
    requires Agree(s, t, p)
    requires var x := DataItem(s, p); x.ret > 0 && x.tok.ptr + x.tok.len <= |t|
    ensures DataItem(t, p) == var x := DataItem(s, p); x.(pos := Min(x.pos, |t|))
  {
    hide Nondecimal, CharacterData, Number, StringData, Block, Expression;
    NondecimalCut(s, t, p);
    CharacterCut(s, t, p);
    NumberCut(s, t, p);
    DelimitedStart(s, p);
    DelimitedStart(t, p);
    StringCut(s, t, p);
    BlockCut(s, t, p);
    ExpressionCut(s, t, p);
    PositionsAreEnds(s, p);
  }

  /** Strings, blocks and expressions announce themselves by their first character. */
  lemma DelimitedStart(s: string, p: nat)
    requires p <= |s|
    ensures !At(s, p, '"') && !At(s, p, '\'') ==> StringData(s, p) == Miss(p)
    ensures !At(s, p, '#') ==> Block(s, p) == Miss(p)
    ensures StringData(s, p).ret > 0 ==> At(s, p, '"') || At(s, p, '\'')
    ensures Block(s, p).ret > 0 ==> At(s, p, '#')
    ensures Block(s, p).ret == 0 ==> Block(s, p).pos == p || (At(s, p, '#') && Block(s, p).pos == |s|)
    ensures Expression(s, |s|).ret == 0
    ensures Expression(s, p).ret > 0 ==> At(s, p, '(')
  {
  }

  /** Only a decimal number can leave its cursor behind its token. */
  lemma PositionsAreEnds(s: string, p: nat)
    requires p <= |s|
    ensures var n := Nondecimal(s, p); n.ret > 0 ==> n.pos == n.tok.ptr + n.tok.len
    ensures var n := CharacterData(s, p); n.ret > 0 ==> n.pos == n.tok.ptr + n.tok.len
    ensures var n := StringData(s, p); n.ret > 0 ==> n.pos == n.tok.ptr + n.tok.len
    ensures var n := Block(s, p); n.ret > 0 ==> n.pos == n.tok.ptr + n.tok.len
    ensures var n := Expression(s, p); n.ret > 0 ==> n.pos == n.tok.ptr + n.tok.len
  {
    hide Span, QuoteStop, DigitsValue, Mnemonic;
  }

  /** Text that is no parameter is none either when it ends at a line end. */
  lemma ItemMissCut(s: string, t: string, p: nat)
    requires LineCut(s, t, p) && DataItem(s, p).ret == 0
    requires |t| < |s| ==> DataItem(s, p).pos < |t|
    ensures DataItem(t, p) == DataItem(s, p)
  {
    hide Nondecimal, CharacterData, Number, StringData, Block, Expression;
    NondecimalCut(s, t, p);
    CharacterCut(s, t, p);
    NumberCut(s, t, p);
    StringCut(s, t, p);
    BlockCut(s, t, p);
    ExpressionMissPos(s, Block(s, p).pos);
    ExpressionCut(s, t, Block(s, p).pos);
  }

  lemma ExpressionMissPos(s: string, p: nat)
    requires p <= |s|
    ensures Expression(s, p).ret == 0 ==> Expression(s, p) == Miss(p)
  {
  }
}
