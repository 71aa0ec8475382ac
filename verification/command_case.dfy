// Commands in either case: section 6.2.1 of SCPI-99 asks for the long form and the
// short form of every keyword, written in any mixture of capital and small letters.

module CommandCase {
  import opened CommandMatch
  import Parser

  /** The same letter, as a capital or not. */
  predicate SameLetter(c: char, d: char) {
    || c == d
    || ('A' <= c <= 'Z' && c as int + 32 == d as int)
    || ('A' <= d <= 'Z' && d as int + 32 == c as int)
  }

  /** The same text but for capital and small letters. */
  predicate CaseVariant(s: string, t: string) { |s| == |t| && forall i :: 0 <= i < |s| ==> SameLetter(s[i], t[i]) }

  lemma SameIsVariant(s: string, t: string)
    ensures SameIgnoringCase(s, t) <==> CaseVariant(s, t)
  {
    forall c: char, d: char ensures ToLower(c) == ToLower(d) <==> SameLetter(c, d) {
      LetterCases(c, d);
    }
  }

  lemma LetterCases(c: char, d: char)
    ensures ToLower(c) == ToLower(d) <==> SameLetter(c, d)
  {
  }

  /**
   * A keyword of capitals and the small letters behind them matches exactly the words that are
   * the whole keyword or the capitals alone, in any case.
   */
  lemma KeywordForms(capitals: string, rest: string, word: string)
    requires forall i :: 0 <= i < |capitals| ==> !('a' <= capitals[i] <= 'z')
    requires rest != "" ==> 'a' <= rest[0] <= 'z'
    ensures KeywordMatches(capitals + rest, word) <==> CaseVariant(capitals + rest, word) || CaseVariant(capitals, word)
  {
    hide SameIgnoringCase, CaseVariant;
    ShortIs(capitals, rest);
    SameIsVariant(capitals + rest, word);
    SameIsVariant(capitals, word);
    assert (capitals + rest)[..|capitals|] == capitals;
  }

  lemma {:induction false} ShortIs(capitals: string, rest: string)
    requires forall i :: 0 <= i < |capitals| ==> !('a' <= capitals[i] <= 'z')
    requires rest != "" ==> 'a' <= rest[0] <= 'z'
    ensures ShortLength(capitals + rest) == |capitals|
    decreases |capitals|
  {
    if capitals == "" {
      assert capitals + rest == rest;
    } else {
      assert (capitals + rest)[1..] == capitals[1..] + rest;
      ShortIs(capitals[1..], rest);
    }
  }

  lemma {:induction false} WordLengthCase(c: string, d: string)
    requires CaseVariant(c, d)
    ensures WordLength(c) == WordLength(d)
    decreases |c|
  {
    if c != "" {
      assert SameLetter(c[0], d[0]);
      assert forall i :: 0 <= i < |c[1..]| ==> SameLetter(c[i + 1], d[i + 1]) && c[1..][i] == c[i + 1] && d[1..][i] == d[i + 1];
      WordLengthCase(c[1..], d[1..]);
    }
  }

  lemma MatchesCase(k: string, c: string, d: string)
    requires CaseVariant(c, d)
    ensures KeywordMatches(k, c) <==> KeywordMatches(k, d)
  {
    SameLower(c, d);
    SameTwice(k, c, d);
    SameTwice(k[..ShortLength(k)], c, d);
  }

  lemma SameLower(c: string, d: string)
    requires CaseVariant(c, d)
    ensures SameIgnoringCase(c, d)
  {
    SameIsVariant(c, d);
  }

  lemma SameTwice(k: string, c: string, d: string)
    requires SameIgnoringCase(c, d)
    ensures SameIgnoringCase(k, c) <==> SameIgnoringCase(k, d)
  {
    if |k| == |c| {
      assert forall i :: 0 <= i < |c| ==> ToLower(c[i]) == ToLower(d[i]);
    }
  }

  lemma VariantSlice(c: string, d: string, a: nat, b: nat)
    requires CaseVariant(c, d) && a <= b <= |c|
    ensures CaseVariant(c[a..b], d[a..b])
  {
    forall i | 0 <= i < b - a ensures SameLetter(c[a..b][i], d[a..b][i]) {
      assert SameLetter(c[a + i], d[a + i]);
    }
  }

  lemma {:induction false} AcceptsFromCase(segs: seq<Segment>, c: string, d: string)
    requires |segs| > 0 && CaseVariant(c, d)
    ensures AcceptsFrom(segs, c) <==> AcceptsFrom(segs, d)
    decreases |segs|
  {
    hide CaseVariant, KeywordMatches, AllOptional;
    WordLengthCase(c, d);
    Lengths(c, d);
    var e := WordLength(c);
    VariantSlice(c, d, 0, e);
    assert c[0..e] == c[..e] && d[0..e] == d[..e];
    MatchesCase(segs[0].keyword, c[..e], d[..e]);
    if |segs| > 1 {
      AcceptsFromCase(segs[1..], c, d);
      if e < |c| {
        SeparatorSame(c, d, e);
        VariantSlice(c, d, e + 1, |c|);
        assert c[e + 1..|c|] == c[e + 1..] && d[e + 1..|c|] == d[e + 1..];
        AcceptsFromCase(segs[1..], c[e + 1..], d[e + 1..]);
      }
    }
  }

  lemma Lengths(c: string, d: string)
    requires CaseVariant(c, d)
    ensures |c| == |d|
  {
  }

  lemma SeparatorSame(c: string, d: string, i: nat)
    requires CaseVariant(c, d) && i < |c|
    ensures c[i] == ':' <==> d[i] == ':'
    ensures c[i] == '?' <==> d[i] == '?'
    ensures c[i] == '*' <==> d[i] == '*'
  {
    assert SameLetter(c[i], d[i]);
  }

  /** The case of letters makes no difference to whether a command is accepted. */
  lemma AcceptsAnyCase(p: Pattern, c: string, d: string)
    requires WellFormed(p) && |c| > 0 && CaseVariant(c, d)
    ensures |d| > 0 && (Accepts(p, c) <==> Accepts(p, d))
  {
    hide CaseVariant, AcceptsFrom, KeywordsOk;
    Lengths(c, d);
    SeparatorSame(c, d, |c| - 1);
    SeparatorSame(c, d, 0);
    var n := if p.query then |c| - 1 else |c|;
    VariantSlice(c, d, 0, n);
    assert c[0..n] == (if p.query then c[..|c| - 1] else c) && d[0..n] == (if p.query then d[..|c| - 1] else d);
    AcceptsFromCase(p.segments, c[0..n], d[0..n]);
    if n >= 2 {
      SeparatorSame(c, d, 1);
      VariantSlice(c[0..n], d[0..n], 1, n);
      assert c[0..n][1..n] == c[0..n][1..] && d[0..n][1..n] == d[0..n][1..];
      AcceptsFromCase(p.segments, c[0..n][1..], d[0..n][1..]);
    }
  }

  /** So the same row of every table is found. */
  lemma {:induction false} FoundAnyCase(commands: seq<Pattern>, c: string, d: string, i: nat)
    requires Parser.CommandsOk(commands) && |c| > 0 && CaseVariant(c, d) && i <= |commands|
    ensures |d| > 0 && Parser.FindFrom(commands, c, i) == Parser.FindFrom(commands, d, i)
    decreases |commands| - i
  {
    hide CaseVariant, Accepts, WellFormed;
    Lengths(c, d);
    if i < |commands| {
      AcceptsAnyCase(commands[i], c, d);
      FoundAnyCase(commands, c, d, i + 1);
    }
  }
}
