// Quoted text, section 7.7.5 of IEEE 488.2: a quote inside the text is doubled.
// What SCPI_ResultText and SCPI_ResultError write, what the scanner makes of it,
// and how SCPI_ParamCopyText takes it apart again.

module QuotedText {
  import opened Basics
  import opened Lexer
  import opened ProgramUnits
  import opened IntegerText

  // ------------------------------------------------------------ escaping

  function Escape(c: char, quote: char): string { if c == quote then [quote, quote] else [c] }

  function Escaped(text: string, quote: char): (r: string)
    ensures |r| >= |text|
  {
    if text == "" then "" else Escape(text[0], quote) + Escaped(text[1..], quote)
  }

  function Quoted(text: string, quote: char): string { [quote] + Escaped(text, quote) + [quote] }

  predicate AllAscii(text: string) { forall i :: 0 <= i < |text| ==> text[i] < '\U{80}' }

  lemma EscapedStep(text: string, quote: char)
    requires text != ""
    ensures Escaped(text, quote) == Escape(text[0], quote) + Escaped(text[1..], quote)
  {
  }

  lemma Reassociate(a: string, b: string, c: string)
    ensures (a + b) + c == a + (b + c)
  {
  }

  lemma {:induction false} EscapedConcat(a: string, b: string, quote: char)
    ensures Escaped(a + b, quote) == Escaped(a, quote) + Escaped(b, quote)
    decreases |a|
  {
    hide Escaped, Escape;
    if a == "" {
      EscapedNothing(quote);
      assert a + b == b && "" + Escaped(b, quote) == Escaped(b, quote);
    } else {
      EscapedConcat(a[1..], b, quote);
      EscapedStep(a, quote);
      EscapedStep(a + b, quote);
      assert (a + b)[1..] == a[1..] + b && (a + b)[0] == a[0];
      Reassociate(Escape(a[0], quote), Escaped(a[1..], quote), Escaped(b, quote));
    }
  }

  lemma EscapedNothing(quote: char)
    ensures Escaped("", quote) == ""
  {
  }

  lemma {:induction false} EscapedPlain(text: string, quote: char)
    requires quote !in text
    ensures Escaped(text, quote) == text
  {
    if text != "" {
      EscapedPlain(text[1..], quote);
    }
  }

  /** Only the scan of a text longer by a character is longer. */
  lemma EscapedLonger(text: string, quote: char, k: nat, m: nat)
    requires k <= m <= |text|
    ensures |Escaped(text[..k], quote)| + (m - k) <= |Escaped(text[..m], quote)| <= |Escaped(text, quote)|
  {
    EscapedConcat(text[..k], text[k..m], quote);
    assert text[..k] + text[k..m] == text[..m];
    EscapedConcat(text[..m], text[m..], quote);
    assert text[..m] + text[m..] == text;
  }

  // ------------------------------------------------------------ scanning

  /** The scan of escaped text stops at the closing quote, or at the first character that is not 7-bit. */
  lemma {:induction false} EscapedScan(s: string, p: nat, text: string, quote: char)
    requires IsAscii7Bit(quote) && Stands(s, p, Escaped(text, quote))
    requires var e := p + |Escaped(text, quote)|; At(s, e, quote) && !At(s, e + 1, quote)
    ensures var stop := QuoteStop(s, p, quote);
            if AllAscii(text) then stop == p + |Escaped(text, quote)| else !At(s, stop, quote)
    decreases |text|
  {
    hide Escaped, Stands, AllAscii;
    AsciiStep(text);
    if text == "" {
      EscapedNothing(quote);
    } else {
      var head := Escape(text[0], quote);
      EscapedStep(text, quote);
      StandsApart(s, p, head, Escaped(text[1..], quote));
      EscapedScan(s, p + |head|, text[1..], quote);
      assert s[p + 0] == head[0];
      if text[0] == quote {
        assert s[p + 1] == head[1];
      }
    }
  }

  lemma AsciiStep(text: string)
    ensures AllAscii(text) <==> text == "" || (IsAscii7Bit(text[0]) && AllAscii(text[1..]))
  {
  }

  /** Quoted text followed by anything but another quote is one string token, exactly when it is 7-bit. */
  lemma QuotedScan(s: string, p: nat, text: string, quote: char)
    requires quote == '"' || quote == '\''
    requires Stands(s, p, Quoted(text, quote)) && !At(s, p + |Quoted(text, quote)|, quote)
    ensures var n := |Quoted(text, quote)|;
            var kind := if quote == '"' then DoubleQuote else SingleQuote;
            StringData(s, p) == if AllAscii(text) then Lexed(Token(kind, p, n), p + n, n) else Miss(p)
  {
    hide Escaped, QuoteStop, AllAscii;
    var inner := Escaped(text, quote);
    assert [quote] + inner + [quote] == [quote] + (inner + [quote]);
    StandsApart(s, p, [quote], inner + [quote]);
    StandsApart(s, p + 1, inner, [quote]);
    assert s[p + 0] == [quote][0];
    var e := p + 1 + |inner|;
    assert s[e..e + 1] == [quote] && s[e] == s[e..e + 1][0];
    EscapedScan(s, p + 1, text, quote);
  }

  /** What SCPI_ResultText writes is one double-quoted parameter, whatever may follow a parameter. */
  lemma TextLexed(s: string, p: nat, text: string)
    requires Stands(s, p, Quoted(text, '"')) && EndsData(s, p + |Quoted(text, '"')|)
    ensures var n := |Quoted(text, '"')|;
            DataItem(s, p) == if AllAscii(text) then Lexed(Token(DoubleQuote, p, n), p + n, n) else Miss(p)
  {
    hide Escaped, StringData, AllAscii;
    QuotedScan(s, p, text, '"');
    StandsApart(s, p, ['"'], Escaped(text, '"') + ['"']) by {
      assert Quoted(text, '"') == ['"'] + (Escaped(text, '"') + ['"']);
    }
    assert s[p + 0] == '"';
    NoPlainItem(s, p);
  }

  lemma NoPlainItem(s: string, p: nat)
    requires p < |s| && s[p] == '"'
    ensures PlainItem(s, p).ret == 0
  {
  }

  /** Every string token of the scanner is the quoted form of one text. */
  lemma TokenIsQuoted(s: string, p: nat) returns (text: string)
    requires p <= |s| && StringData(s, p).ret > 0
    ensures AllAscii(text) && s[p..StringData(s, p).pos] == Quoted(text, s[p])
  {
    hide QuoteStop;
    var quote := s[p];
    var e := QuoteStop(s, p + 1, quote);
    text := InnerIsEscaped(s, p + 1, quote);
    assert s[p..e + 1] == [quote] + s[p + 1..e] + [quote];
  }

  lemma {:induction false} InnerIsEscaped(s: string, p: nat, quote: char) returns (text: string)
    requires p <= |s| && IsAscii7Bit(quote)
    ensures AllAscii(text) && s[p..QuoteStop(s, p, quote)] == Escaped(text, quote)
    decreases |s| - p
  {
    var e := QuoteStop(s, p, quote);
    if e == p {
      text := "";
    } else {
      var step := if s[p] == quote then 2 else 1;
      var rest := InnerIsEscaped(s, p + step, quote);
      text := [s[p]] + rest;
      assert text[1..] == rest;
      assert s[p..e] == s[p..p + step] + s[p + step..e];
      assert s[p..p + step] == Escape(s[p], quote);
    }
  }

  // ------------------------------------------------------------ copying

  /** The loop of SCPI_ParamCopyText over the token text, from index from on. */
  function Copied(text: string, from: nat, limit: nat, quote: char): string
    decreases |text| - from
  {
    if from < |text| - 1 && from < limit
    then [text[from]] + Copied(text, from + (if text[from] == quote then 2 else 1), limit, quote)
    else ""
  }

  /** How many characters of the original that loop recovers when it is at index at. */
  function Kept(text: string, at: nat, limit: nat, quote: char): (k: nat)
    ensures k <= |text|
  {
    if text == "" || limit <= at then 0 else 1 + Kept(text[1..], at + |Escape(text[0], quote)|, limit, quote)
  }

  lemma {:induction false} CopyRecovers(token: string, at: nat, text: string, limit: nat, quote: char)
    requires at + |Escaped(text, quote)| + 1 == |token| && Stands(token, at, Escaped(text, quote))
    ensures Copied(token, at, limit, quote) == text[..Kept(text, at, limit, quote)]
    decreases |text|
  {
    hide Escaped, Stands;
    if text == "" {
      EscapedNothing(quote);
    } else {
      var head := Escape(text[0], quote);
      EscapedStep(text, quote);
      StandsApart(token, at, head, Escaped(text[1..], quote));
      assert token[at + 0] == head[0];
      CopyRecovers(token, at + |head|, text[1..], limit, quote);
      if at < limit {
        TakeOneMore(text, Kept(text[1..], at + |head|, limit, quote));
      }
    }
  }

  lemma TakeOneMore(text: string, k: nat)
    requires text != "" && k + 1 <= |text|
    ensures [text[0]] + text[1..][..k] == text[..k + 1]
  {
  }

  /** The whole text comes back exactly when its last character is met before the limit. */
  lemma {:induction false} KeepsAll(text: string, at: nat, limit: nat, quote: char)
    ensures Kept(text, at, limit, quote) == |text|
            <==> text == "" || at + |Escaped(text[..|text| - 1], quote)| < limit
    decreases |text|
  {
    if text != "" {
      KeepsAll(text[1..], at + |Escape(text[0], quote)|, limit, quote);
      if |text| > 1 {
        assert text[..|text| - 1][1..] == text[1..][..|text| - 2];
      }
    }
  }

  /**
   * The round trip: copying out a quoted text yields a prefix of the text, and
   * all of it exactly when the escaped text before the last character, with
   * its opening quote, is shorter than the destination.
   */
  lemma CopyRoundTrip(text: string, limit: nat, quote: char)
    ensures var copy := Copied(Quoted(text, quote), 1, limit, quote);
            && copy <= text
            && (copy == text <==> text == "" || 1 + |Escaped(text[..|text| - 1], quote)| < limit)
            && (|Quoted(text, quote)| <= limit + 1 ==> copy == text)
            && |copy| <= limit
  {
    hide Escaped, Copied, Kept;
    var token := Quoted(text, quote);
    assert token[1..1 + |Escaped(text, quote)|] == Escaped(text, quote);
    CopyRecovers(token, 1, text, limit, quote);
    KeepsAll(text, 1, limit, quote);
    KeptFits(text, 1, limit, quote);
    if text != "" {
      EscapedLonger(text, quote, |text| - 1, |text|);
    }
  }

  lemma {:induction false} KeptFits(text: string, at: nat, limit: nat, quote: char)
    ensures Kept(text, at, limit, quote) + at <= limit || Kept(text, at, limit, quote) == 0
    decreases |text|
  {
    if text != "" && at < limit {
      KeptFits(text[1..], at + |Escape(text[0], quote)|, limit, quote);
    }
  }

  // ------------------------------------------------------------ limited text

  /** The longest escaped prefix of text that has at most limit characters. */
  function Fit(text: string, limit: nat, quote: char): (r: string)
    ensures |r| <= limit
  {
    if text == "" || |Escape(text[0], quote)| > limit then ""
    else Escape(text[0], quote) + Fit(text[1..], limit - |Escape(text[0], quote)|, quote)
  }

  /** How many characters of text that prefix has. */
  function FitCount(text: string, limit: nat, quote: char): (k: nat)
    ensures k <= |text|
  {
    if text == "" || |Escape(text[0], quote)| > limit then 0
    else 1 + FitCount(text[1..], limit - |Escape(text[0], quote)|, quote)
  }

  /** It is the escaped form of a prefix, so no doubled quote is split, and no longer prefix fits. */
  lemma {:induction false} FitIsLongest(text: string, limit: nat, quote: char)
    ensures var k := FitCount(text, limit, quote);
            && Fit(text, limit, quote) == Escaped(text[..k], quote)
            && (forall m :: k < m <= |text| ==> |Escaped(text[..m], quote)| > limit)
    decreases |text|
  {
    var k := FitCount(text, limit, quote);
    if text != "" {
      var head := Escape(text[0], quote);
      if |head| <= limit {
        FitIsLongest(text[1..], limit - |head|, quote);
        assert text[..k][1..] == text[1..][..k - 1];
      }
      forall m | k < m <= |text| ensures |Escaped(text[..m], quote)| > limit {
        assert text[..m][1..] == text[1..][..m - 1];
      }
    }
  }

  lemma {:induction false} FitConcat(a: string, b: string, limit: nat, quote: char)
    ensures Fit(a + b, limit, quote) ==
            if |Escaped(a, quote)| <= limit then Escaped(a, quote) + Fit(b, limit - |Escaped(a, quote)|, quote)
            else Fit(a, limit, quote)
    ensures |Escaped(a, quote)| <= limit ==> Fit(a, limit, quote) == Escaped(a, quote)
    decreases |a|
  {
    hide Fit, Escaped, Escape;
    if a == "" {
      assert a + b == b;
      assert Escaped(a, quote) == "" && Fit(a, limit, quote) == "" by { Nothing(limit, quote); }
      assert "" + Fit(b, limit, quote) == Fit(b, limit, quote);
    } else {
      assert (a + b)[1..] == a[1..] + b;
      Unfold(a, limit, quote);
      Unfold(a + b, limit, quote);
      var head := Escape(a[0], quote);
      if |head| <= limit {
        var left := limit - |head|;
        FitConcat(a[1..], b, left, quote);
        if |Escaped(a[1..], quote)| <= left {
          Reassociate(head, Escaped(a[1..], quote), Fit(b, left - |Escaped(a[1..], quote)|, quote));
        }
      }
    }
  }

  lemma Nothing(limit: nat, quote: char)
    ensures Escaped("", quote) == "" && Fit("", limit, quote) == ""
  {
  }

  lemma Unfold(text: string, limit: nat, quote: char)
    requires text != ""
    ensures var head := Escape(text[0], quote);
            && Escaped(text, quote) == head + Escaped(text[1..], quote)
            && Fit(text, limit, quote)
               == if |head| > limit then "" else head + Fit(text[1..], limit - |head|, quote)
  {
  }

  /** Text without quotes is simply cut. */
  lemma {:induction false} FitPlain(text: string, n: nat, limit: nat, quote: char)
    requires n <= |text| && quote !in text[..n] && n <= limit
    requires n == |text| || n == limit || (text[n] == quote && limit == n + 1)
    ensures Fit(text, limit, quote) == text[..n]
    decreases n
  {
    if n > 0 {
      assert text[0] in text[..n];
      assert text[1..][..n - 1] == text[..n][1..];
      FitPlain(text[1..], n - 1, limit - 1, quote);
    }
  }
}
