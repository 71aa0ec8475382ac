// Arbitrary blocks, section 7.7.6 of IEEE 488.2: #, the number of length digits,
// the length and the payload, and what the scanner makes of them.

module BlockText {
  import opened Basics
  import opened Lexer
  import opened ProgramUnits
  import IntegerText

  /** Nine digits of length are the most one digit can announce. */
  const MAX_PAYLOAD := 999999999

  function LengthShown(n: nat): string { IntegerText.Show(n, 10) }

  function BlockHeader(n: nat): string
    requires n <= MAX_PAYLOAD
  {
    LengthDigits(n); "#" + [IntegerText.DigitChar(|LengthShown(n)|)] + LengthShown(n)
  }

  function BlockShown(payload: string): string
    requires |payload| <= MAX_PAYLOAD
  {
    BlockHeader(|payload|) + payload
  }

  lemma LengthDigits(n: nat)
    ensures 1 <= |LengthShown(n)|
    ensures n <= MAX_PAYLOAD ==> |LengthShown(n)| <= 9
  {
    assert IntegerText.Pow(10, 5) == 100000;
    assert IntegerText.Pow(10, 9) == 1000000000;
    if n <= MAX_PAYLOAD {
      IntegerText.ShowLength(n, 10, 9);
    }
  }

  lemma CountDigit(d: nat)
    requires 1 <= d <= 9
    ensures IsNonzeroDigit(IntegerText.DigitChar(d)) && DigitValue(IntegerText.DigitChar(d)) == d
  {
  }

  /** What the scanner needs to know about the header. */
  lemma HeaderParts(n: nat)
    requires n <= MAX_PAYLOAD
    ensures var h, d := BlockHeader(n), |LengthShown(n)|;
            && |h| == 2 + d && 1 <= d <= 9 && h[0] == '#' && IsNonzeroDigit(h[1]) && DigitValue(h[1]) == d
            && (forall i :: 2 <= i < |h| ==> IsDigit(h[i]))
            && h[2..] == LengthShown(n) && DigitsValue(LengthShown(n)) == n
  {
    hide IntegerText.Show, IntegerText.Value, IntegerText.Numeral, DigitsValue, IntegerText.DigitChar;
    LengthDigits(n);
    CountDigit(|LengthShown(n)|);
    IntegerText.ShowIsNumeral(n, 10);
    IntegerText.NumeralIsDigits(LengthShown(n));
    IntegerText.DigitsValueIs(LengthShown(n));
  }

  /** Whatever follows, a written block is one block token that is exactly its payload. */
  lemma BlockLexed(s: string, p: nat, payload: string)
    requires |payload| <= MAX_PAYLOAD
    requires Stands(s, p, BlockShown(payload))
    ensures var h, n := |BlockHeader(|payload|)|, |payload|;
            && Block(s, p) == Lexed(Token(ArbitraryBlock, p + h, n), p + h + n, h + n)
            && s[p + h..p + h + n] == payload
            && DataItem(s, p) == Block(s, p)
  {
    hide BlockHeader, LengthShown, Span, DigitsValue;
    var header, d := BlockHeader(|payload|), |LengthShown(|payload|)|;
    HeaderParts(|payload|);
    StandsApart(s, p, header, payload);
    assert s[p + 0] == '#' && s[p + 1] == header[1];
    var e := p + 2 + d;
    forall i | p + 2 <= i < e ensures Is(Digit, s[i]) {
      assert s[p + (i - p)] == header[i - p];
    }
    SpanStops(s, p + 2, e, Digit);
    assert s[p + 2..e] == s[p..e][2..] == LengthShown(|payload|);
    OnlyBlock(s, p);
  }

  /** No other recogniser tried before the block takes a # that a digit follows. */
  lemma OnlyBlock(s: string, p: nat)
    requires At(s, p, '#') && p + 1 < |s| && IsNonzeroDigit(s[p + 1])
    ensures PlainItem(s, p).ret == 0 && StringData(s, p).ret == 0
  {
  }

  /**
   * Every strict prefix of a block that includes the # is reported incomplete,
   * with the cursor at the end: more input is waited for.
   */
  lemma PartialBlock(s: string, p: nat, payload: string)
    requires |payload| <= MAX_PAYLOAD
    requires var text := BlockShown(payload); p < |s| < p + |text| && s[p..] == text[..|s| - p]
    ensures Block(s, p) == Lexed(Token(Unknown, p, 0), |s|, 0)
  {
    hide BlockHeader, LengthShown, Span, DigitsValue;
    var header, d := BlockHeader(|payload|), |LengthShown(|payload|)|;
    HeaderParts(|payload|);
    var j := |s| - p;
    forall i | 0 <= i < j && i < |header| ensures s[p + i] == header[i] {
      assert s[p..][i] == header[i];
    }
    assert s[p] == s[p..][0] == header[0];
    if j >= 2 {
      assert s[p + 1] == header[1];
      var e := if j < 2 + d then |s| else p + 2 + d;
      forall i | p + 2 <= i < e ensures Is(Digit, s[i]) {
        assert s[p + (i - p)] == header[i - p];
      }
      SpanStops(s, p + 2, e, Digit);
      if j >= 2 + d {
        forall i | 0 <= i < d ensures s[p + 2..e][i] == header[2..][i] {
          assert s[p + (2 + i)] == header[2 + i];
        }
        assert s[p + 2..e] == header[2..];
      } else {
        assert Span(s, |s|, Digit) == |s| by { SpanRun(s, |s|, Digit); }
      }
    }
  }
}
