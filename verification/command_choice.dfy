// What optional keywords mean: some choice of them is left out.  The matcher
// decides from left to right without going back; this says when that is the same.

module CommandChoice {
  import opened CommandMatch

  // ------------------------------------------------------------ words

  /** The words of a command between its colons. */
  function Words(cmd: string): (ws: seq<string>)
    ensures |ws| > 0
    decreases |cmd|
  {
    var e := WordLength(cmd);
    if e == |cmd| then [cmd] else [cmd[..e]] + Words(cmd[e + 1..])
  }

  /** The left-to-right rule, on words. */
  predicate AcceptsWords(segs: seq<Segment>, ws: seq<string>)
    requires |segs| > 0 && |ws| > 0
    decreases |segs|
  {
    if KeywordMatches(segs[0].keyword, ws[0]) then
      if |ws| == 1 then AllOptional(segs[1..]) else |segs| > 1 && AcceptsWords(segs[1..], ws[1..])
    else segs[0].optional && |segs| > 1 && AcceptsWords(segs[1..], ws)
  }

  lemma {:induction false} AcceptsByWords(segs: seq<Segment>, cmd: string)
    requires |segs| > 0 && '?' !in cmd
    ensures AcceptsFrom(segs, cmd) == AcceptsWords(segs, Words(cmd))
    decreases |segs|
  {
    hide KeywordMatches, AllOptional;
    var e := WordLength(cmd);
    if e == |cmd| {
      assert cmd[..e] == cmd;
    }
    if |segs| > 1 {
      AcceptsByWords(segs[1..], cmd);
      if e < |cmd| {
        assert ([cmd[..e]] + Words(cmd[e + 1..]))[1..] == Words(cmd[e + 1..]);
        AcceptsByWords(segs[1..], cmd[e + 1..]);
      }
    }
  }

  /** A question mark inside the words is never accepted. */
  lemma {:induction false} NoQuestionMark(segs: seq<Segment>, cmd: string)
    requires |segs| > 0 && '?' in cmd
    ensures !AcceptsFrom(segs, cmd)
    decreases |segs|
  {
    hide KeywordMatches, AllOptional;
    var e := WordLength(cmd);
    var i :| 0 <= i < |cmd| && cmd[i] == '?';
    assert e <= i;
    if |segs| > 1 {
      NoQuestionMark(segs[1..], cmd);
      if cmd[e] == ':' {
        assert cmd[e + 1..][i - e - 1] == '?';
        NoQuestionMark(segs[1..], cmd[e + 1..]);
      }
    }
  }

  // ------------------------------------------------------------ choices

  /** keep says which segments are used; only optional ones may be left out. */
  predicate IsChoice(segs: seq<Segment>, keep: seq<bool>) {
    |keep| == |segs| && forall i :: 0 <= i < |segs| ==> keep[i] || segs[i].optional
  }

  function Kept(segs: seq<Segment>, keep: seq<bool>): seq<string>
    requires |keep| == |segs|
  {
    if segs == [] then [] else (if keep[0] then [segs[0].keyword] else []) + Kept(segs[1..], keep[1..])
  }

  predicate MatchEach(keywords: seq<string>, ws: seq<string>) {
    |keywords| == |ws| && forall i :: 0 <= i < |ws| ==> KeywordMatches(keywords[i], ws[i])
  }

  /** Some choice of the optional segments matches the words one by one. */
  ghost predicate SomeChoice(segs: seq<Segment>, ws: seq<string>) {
    exists keep :: IsChoice(segs, keep) && MatchEach(Kept(segs, keep), ws)
  }

  /** The same, segment by segment. */
  predicate Chooses(segs: seq<Segment>, ws: seq<string>)
    decreases |segs|
  {
    if segs == [] then ws == []
    else
      || (ws != [] && KeywordMatches(segs[0].keyword, ws[0]) && Chooses(segs[1..], ws[1..]))
      || (segs[0].optional && Chooses(segs[1..], ws))
  }

  lemma {:induction false} ChoosesSome(segs: seq<Segment>, ws: seq<string>) returns (keep: seq<bool>)
    requires Chooses(segs, ws)
    ensures IsChoice(segs, keep) && MatchEach(Kept(segs, keep), ws)
    decreases |segs|
  {
    hide KeywordMatches;
    if segs == [] {
      keep := [];
    } else if ws != [] && KeywordMatches(segs[0].keyword, ws[0]) && Chooses(segs[1..], ws[1..]) {
      var rest := ChoosesSome(segs[1..], ws[1..]);
      keep := [true] + rest;
      assert keep[1..] == rest;
      ConsMatches(segs[0].keyword, Kept(segs[1..], rest), ws);
    } else {
      var rest := ChoosesSome(segs[1..], ws);
      keep := [false] + rest;
      assert keep[1..] == rest;
      assert [] + Kept(segs[1..], rest) == Kept(segs[1..], rest);
    }
  }

  lemma ConsMatches(keyword: string, rest: seq<string>, ws: seq<string>)
    requires ws != []
    ensures MatchEach([keyword] + rest, ws) <==> KeywordMatches(keyword, ws[0]) && MatchEach(rest, ws[1..])
  {
    hide KeywordMatches;
    var all := [keyword] + rest;
    if MatchEach(all, ws) {
      assert KeywordMatches(all[0], ws[0]);
      forall i | 0 <= i < |rest| ensures KeywordMatches(rest[i], ws[1..][i]) {
        assert KeywordMatches(all[i + 1], ws[i + 1]);
      }
    }
    if KeywordMatches(keyword, ws[0]) && MatchEach(rest, ws[1..]) {
      forall i | 0 <= i < |all| ensures KeywordMatches(all[i], ws[i]) {
        if i > 0 { assert KeywordMatches(rest[i - 1], ws[1..][i - 1]); }
      }
    }
  }

  lemma {:induction false} SomeChooses(segs: seq<Segment>, keep: seq<bool>, ws: seq<string>)
    requires IsChoice(segs, keep) && MatchEach(Kept(segs, keep), ws)
    ensures Chooses(segs, ws)
    decreases |segs|
  {
    hide KeywordMatches;
    if segs != [] {
      var rest := Kept(segs[1..], keep[1..]);
      if keep[0] {
        ConsMatches(segs[0].keyword, rest, ws);
        SomeChooses(segs[1..], keep[1..], ws[1..]);
      } else {
        assert [] + rest == rest;
        SomeChooses(segs[1..], keep[1..], ws);
      }
    }
  }

  // ------------------------------------------------------------ when left-to-right is enough

  /** Whether two keywords can match the same word, from their long and short forms. */
  predicate Overlap(a: string, b: string) {
    || SameIgnoringCase(a, b) || SameIgnoringCase(a[..ShortLength(a)], b)
    || SameIgnoringCase(a, b[..ShortLength(b)]) || SameIgnoringCase(a[..ShortLength(a)], b[..ShortLength(b)])
  }

  /** A word both match. */
  function Shared(a: string, b: string): string {
    if SameIgnoringCase(a, b) || SameIgnoringCase(a[..ShortLength(a)], b) then b else b[..ShortLength(b)]
  }

  /** So the condition on a pattern can be read off its keywords. */
  lemma OverlapIsCommonWord(a: string, b: string)
    ensures Overlap(a, b) <==> exists w: string :: KeywordMatches(a, w) && KeywordMatches(b, w)
    ensures Overlap(a, b) ==> KeywordMatches(a, Shared(a, b)) && KeywordMatches(b, Shared(a, b))
  {
    if Overlap(a, b) {
      var w := Shared(a, b);
      assert KeywordMatches(a, w) && KeywordMatches(b, w);
    }
  }

  /** The keyword shares no word with the first mandatory segment, if there is one. */
  predicate ApartFromMandatory(keyword: string, segs: seq<Segment>)
    decreases |segs|
  {
    segs == [] ||
    if segs[0].optional then ApartFromMandatory(keyword, segs[1..]) else !Overlap(keyword, segs[0].keyword)
  }

  /** No optional keyword shares a word with the first mandatory one behind it; other optional ones do not matter. */
  predicate Exact(segs: seq<Segment>)
    decreases |segs|
  {
    segs == [] || ((segs[0].optional ==> ApartFromMandatory(segs[0].keyword, segs[1..])) && Exact(segs[1..]))
  }

  lemma {:induction false} AllOptionalChooses(segs: seq<Segment>)
    ensures Chooses(segs, []) == AllOptional(segs)
    decreases |segs|
  {
    if segs != [] { AllOptionalChooses(segs[1..]); }
  }

  /** A word the keyword takes is then not missed behind it. */
  lemma {:induction false} ApartChooses(keyword: string, segs: seq<Segment>, ws: seq<string>)
    requires ApartFromMandatory(keyword, segs) && ws != [] && KeywordMatches(keyword, ws[0]) && Chooses(segs, ws)
    ensures Chooses(segs, ws[1..])
    decreases |segs|
  {
    hide KeywordMatches, Overlap;
    OverlapIsCommonWord(keyword, segs[0].keyword);
    if segs[0].optional && Chooses(segs[1..], ws) {
      ApartChooses(keyword, segs[1..], ws);
    }
  }

  /** Left to right accepts only what some choice accepts, and all of it for exact segments. */
  lemma {:induction false} WordsByChoice(segs: seq<Segment>, ws: seq<string>)
    requires |segs| > 0 && |ws| > 0
    ensures AcceptsWords(segs, ws) ==> Chooses(segs, ws)
    ensures Exact(segs) ==> AcceptsWords(segs, ws) == Chooses(segs, ws)
    decreases |segs|
  {
    hide KeywordMatches, ApartFromMandatory;
    AllOptionalChooses(segs[1..]);
    if |ws| == 1 {
      assert ws[1..] == [];
    }
    if |segs| > 1 {
      WordsByChoice(segs[1..], ws);
      if |ws| > 1 { WordsByChoice(segs[1..], ws[1..]); }
    }
    if Exact(segs) && segs[0].optional && KeywordMatches(segs[0].keyword, ws[0]) && Chooses(segs[1..], ws) {
      ApartChooses(segs[0].keyword, segs[1..], ws);
    }
  }

  // ------------------------------------------------------------ and when it is not

  /** Words for the mandatory keywords. */
  function MandatoryWords(segs: seq<Segment>): seq<string> {
    if segs == [] then []
    else (if segs[0].optional then [] else [segs[0].keyword]) + MandatoryWords(segs[1..])
  }

  lemma {:induction false} MandatoryChoose(segs: seq<Segment>)
    ensures Chooses(segs, MandatoryWords(segs))
    ensures MandatoryWords(segs) == [] <==> AllOptional(segs)
    decreases |segs|
  {
    if segs != [] {
      MandatoryChoose(segs[1..]);
      var rest := MandatoryWords(segs[1..]);
      assert [] + rest == rest && ([segs[0].keyword] + rest)[1..] == rest;
    }
  }

  /** Every mandatory keyword takes a word. */
  lemma {:induction false} EnoughWords(segs: seq<Segment>, ws: seq<string>)
    requires |segs| > 0 && |ws| > 0 && AcceptsWords(segs, ws)
    ensures |ws| >= |MandatoryWords(segs)|
    decreases |segs|
  {
    hide KeywordMatches;
    MandatoryChoose(segs[1..]);
    if !KeywordMatches(segs[0].keyword, ws[0]) {
      EnoughWords(segs[1..], ws);
    } else if |ws| > 1 {
      EnoughWords(segs[1..], ws[1..]);
    }
  }

  /** As many words, the first one taken by an optional keyword as well. */
  function SharedWords(keyword: string, segs: seq<Segment>): seq<string>
    requires !ApartFromMandatory(keyword, segs)
    decreases |segs|
  {
    if segs[0].optional then SharedWords(keyword, segs[1..])
    else [Shared(keyword, segs[0].keyword)] + MandatoryWords(segs[1..])
  }

  /** Words for the mandatory keywords that left to right runs out of. */
  function FailingWords(segs: seq<Segment>): seq<string>
    requires !Exact(segs)
    decreases |segs|
  {
    if !segs[0].optional then [segs[0].keyword] + FailingWords(segs[1..])
    else if ApartFromMandatory(segs[0].keyword, segs[1..]) then FailingWords(segs[1..])
    else SharedWords(segs[0].keyword, segs[1..])
  }

  lemma {:induction false} SharedChosen(keyword: string, segs: seq<Segment>)
    requires !ApartFromMandatory(keyword, segs)
    ensures var ws := SharedWords(keyword, segs);
            ws != [] && |ws| == |MandatoryWords(segs)| && Chooses(segs, ws) && KeywordMatches(keyword, ws[0])
    decreases |segs|
  {
    hide KeywordMatches, Overlap, Shared;
    if segs[0].optional {
      SharedChosen(keyword, segs[1..]);
    } else {
      OverlapIsCommonWord(keyword, segs[0].keyword);
      MandatoryChoose(segs[1..]);
      var w, rest := Shared(keyword, segs[0].keyword), MandatoryWords(segs[1..]);
      assert ([w] + rest)[1..] == rest;
    }
  }

  /** One word more than are left for the mandatory keywords behind is too few once a word is spent on an optional one. */
  lemma SpentWord(segs: seq<Segment>, ws: seq<string>)
    requires |segs| > 0 && segs[0].optional && |ws| > 0 && KeywordMatches(segs[0].keyword, ws[0])
    requires |ws| == |MandatoryWords(segs[1..])|
    ensures !AcceptsWords(segs, ws)
  {
    hide KeywordMatches;
    MandatoryChoose(segs[1..]);
    if |ws| > 1 && |segs| > 1 && AcceptsWords(segs[1..], ws[1..]) {
      EnoughWords(segs[1..], ws[1..]);
    }
  }

  /** Some choice matches these words, and left to right does not accept them. */
  lemma {:induction false} FailingChosen(segs: seq<Segment>)
    requires !Exact(segs)
    ensures var ws := FailingWords(segs);
            ws != [] && |ws| == |MandatoryWords(segs)| && Chooses(segs, ws) && !AcceptsWords(segs, ws)
    decreases |segs|
  {
    hide KeywordMatches, ApartFromMandatory, SharedWords;
    var k, ws := segs[0].keyword, FailingWords(segs);
    if !segs[0].optional {
      FailingChosen(segs[1..]);
      assert ws[1..] == FailingWords(segs[1..]);
      MatchesItself(k);
    } else if ApartFromMandatory(k, segs[1..]) {
      FailingChosen(segs[1..]);
      if KeywordMatches(k, ws[0]) { SpentWord(segs, ws); }
    } else {
      SharedChosen(k, segs[1..]);
      SpentWord(segs, ws);
    }
  }

  lemma MatchesItself(k: string)
    ensures KeywordMatches(k, k)
  {
  }

  // ------------------------------------------------------------ commands of given words

  predicate CleanWords(ws: seq<string>) { forall i :: 0 <= i < |ws| ==> ':' !in ws[i] && '?' !in ws[i] }

  /** The command with these words. */
  function Join(ws: seq<string>): string
    requires ws != []
  {
    ws[0] + if |ws| == 1 then "" else ":" + Join(ws[1..])
  }

  lemma WordLengthOf(cmd: string, e: nat)
    requires e <= |cmd| && (e < |cmd| ==> cmd[e] == ':') && forall i :: 0 <= i < e ==> cmd[i] != ':' && cmd[i] != '?'
    ensures WordLength(cmd) == e
  {
  }

  lemma {:induction false} WordsOfJoin(ws: seq<string>)
    requires ws != [] && CleanWords(ws)
    ensures Words(Join(ws)) == ws && '?' !in Join(ws)
    decreases |ws|
  {
    hide Join, WordLength;
    var e := |ws[0]|;
    if |ws| == 1 {
      JoinOne(ws);
      WordLengthOf(ws[0], e);
    } else {
      var rest := Join(ws[1..]);
      JoinMore(ws);
      WordsOfJoin(ws[1..]);
      WordLengthOf(Join(ws), e);
      ConsWords(Join(ws), ws);
    }
  }

  lemma JoinOne(ws: seq<string>)
    requires |ws| == 1
    ensures Join(ws) == ws[0]
  {
  }

  lemma JoinMore(ws: seq<string>)
    requires |ws| > 1
    ensures var cmd, e := Join(ws), |ws[0]|;
            e < |cmd| && cmd[..e] == ws[0] && cmd[e] == ':' && cmd[e + 1..] == Join(ws[1..])
    ensures forall i :: 0 <= i < |ws[0]| ==> Join(ws)[i] == ws[0][i]
    ensures '?' in Join(ws) ==> '?' in ws[0] || '?' in Join(ws[1..])
  {
    hide Join;
    JoinSplit(ws);
    JoinParts(ws[0], Join(ws[1..]));
  }

  lemma JoinSplit(ws: seq<string>)
    requires |ws| > 1
    ensures Join(ws) == ws[0] + (":" + Join(ws[1..]))
  {
  }

  lemma JoinParts(word: string, rest: string)
    ensures var cmd, e := word + (":" + rest), |word|;
            && e < |cmd| && cmd[..e] == word && cmd[e] == ':' && cmd[e + 1..] == rest
            && (forall i :: 0 <= i < e ==> cmd[i] == word[i])
            && ('?' in cmd ==> '?' in word || '?' in rest)
  {
  }

  lemma ConsWords(cmd: string, ws: seq<string>)
    requires ws != [] && |ws[0]| < |cmd| && WordLength(cmd) == |ws[0]| && cmd[..|ws[0]|] == ws[0]
    requires Words(cmd[|ws[0]| + 1..]) == ws[1..]
    ensures Words(cmd) == ws
  {
    assert ws == [ws[0]] + ws[1..];
  }

  lemma KeywordClean(k: string, n: nat)
    requires KeywordOk(k) && n <= |k|
    ensures ':' !in k && '?' !in k && ':' !in k[..n] && '?' !in k[..n]
  {
  }

  lemma {:induction false} MandatoryClean(segs: seq<Segment>)
    requires KeywordsOk(segs)
    ensures CleanWords(MandatoryWords(segs))
    decreases |segs|
  {
    if segs != [] {
      KeywordClean(segs[0].keyword, 0);
      MandatoryClean(segs[1..]);
    }
  }

  lemma {:induction false} SharedClean(keyword: string, segs: seq<Segment>)
    requires KeywordsOk(segs) && !ApartFromMandatory(keyword, segs)
    ensures CleanWords(SharedWords(keyword, segs))
    decreases |segs|
  {
    if segs[0].optional {
      SharedClean(keyword, segs[1..]);
    } else {
      var k := segs[0].keyword;
      KeywordClean(k, ShortLength(k));
      MandatoryClean(segs[1..]);
    }
  }

  lemma {:induction false} FailingClean(segs: seq<Segment>)
    requires KeywordsOk(segs) && !Exact(segs)
    ensures CleanWords(FailingWords(segs))
    decreases |segs|
  {
    hide SharedWords, ApartFromMandatory;
    if !segs[0].optional {
      KeywordClean(segs[0].keyword, 0);
      FailingClean(segs[1..]);
    } else if ApartFromMandatory(segs[0].keyword, segs[1..]) {
      FailingClean(segs[1..]);
    } else {
      SharedClean(segs[0].keyword, segs[1..]);
    }
  }

  // ------------------------------------------------------------ the rule on commands

  lemma SomeIsChooses(segs: seq<Segment>, ws: seq<string>)
    ensures SomeChoice(segs, ws) <==> Chooses(segs, ws)
  {
    hide KeywordMatches;
    if Chooses(segs, ws) {
      var _ := ChoosesSome(segs, ws);
    }
    if SomeChoice(segs, ws) {
      var keep :| IsChoice(segs, keep) && MatchEach(Kept(segs, keep), ws);
      SomeChooses(segs, keep, ws);
    }
  }

  /**
   * For a command without a question mark inside, the matcher accepts only when some
   * choice of the optional keywords matches its words, and for exact segments whenever one does.
   */
  lemma AcceptsByChoice(segs: seq<Segment>, cmd: string)
    requires |segs| > 0 && '?' !in cmd
    ensures AcceptsFrom(segs, cmd) ==> SomeChoice(segs, Words(cmd))
    ensures Exact(segs) ==> (AcceptsFrom(segs, cmd) <==> SomeChoice(segs, Words(cmd)))
  {
    hide KeywordMatches, AcceptsFrom, AcceptsWords, Words, Exact, SomeChoice, Chooses;
    AcceptsByWords(segs, cmd);
    WordsByChoice(segs, Words(cmd));
    SomeIsChooses(segs, Words(cmd));
  }

  /** For segments that are not exact there is a command some choice matches and the matcher rejects. */
  lemma FailingCommand(segs: seq<Segment>) returns (cmd: string)
    requires |segs| > 0 && KeywordsOk(segs) && !Exact(segs)
    ensures '?' !in cmd && SomeChoice(segs, Words(cmd)) && !AcceptsFrom(segs, cmd)
    ensures FailingWords(segs) != [] && cmd == Join(FailingWords(segs))
  {
    hide AcceptsFrom, AcceptsWords, Words, Exact, SomeChoice, Chooses, FailingWords, KeywordsOk;
    var ws := FailingWords(segs);
    FailingChosen(segs);
    FailingClean(segs);
    WordsOfJoin(ws);
    cmd := Join(ws);
    AcceptsByWords(segs, cmd);
    SomeIsChooses(segs, ws);
  }

  /** So left to right is "some choice" for every command exactly when the segments are exact. */
  lemma ChoiceExactly(segs: seq<Segment>)
    requires |segs| > 0 && KeywordsOk(segs)
    ensures (forall cmd: string :: '?' !in cmd ==> (AcceptsFrom(segs, cmd) <==> SomeChoice(segs, Words(cmd)))) <==> Exact(segs)
  {
    hide AcceptsFrom, Words, Exact, SomeChoice, KeywordsOk;
    if Exact(segs) {
      forall cmd: string | '?' !in cmd ensures AcceptsFrom(segs, cmd) <==> SomeChoice(segs, Words(cmd)) {
        AcceptsByChoice(segs, cmd);
      }
    } else {
      var _ := FailingCommand(segs);
    }
  }

  /** With an overlap it need not: the pattern [:A]:A and the command A. */
  lemma OverlapExample()
    ensures var segs := [Segment("A", true), Segment("A", false)];
            SomeChoice(segs, Words("A")) && !AcceptsFrom(segs, "A") && KeywordsOk(segs)
  {
    var segs := [Segment("A", true), Segment("A", false)];
    assert WordLength("A"[1..]) == 0 && WordLength("A") == 1;
    assert "A"[..1] == "A";
    assert Words("A") == ["A"];
    assert KeywordMatches("A", "A");
    assert segs[1..] == [Segment("A", false)] && segs[1..][1..] == [];
    var keep := [false, true];
    assert keep[1..] == [true] && [true][1..] == [];
    assert Kept([], []) == [];
    assert Kept(segs[1..], [true]) == ["A"];
    assert Kept(segs, keep) == ["A"];
    assert IsChoice(segs, keep) && MatchEach(Kept(segs, keep), Words("A"));
  }

  /** The words part of a command for a pattern: without the query mark it needs and one leading colon. */
  datatype Stripped = NotThis | Body(text: string)

  function Strip(query: bool, cmd: string): Stripped
    requires |cmd| > 0
  {
    if query && cmd[|cmd| - 1] != '?' then NotThis
    else
      var body := if query then cmd[..|cmd| - 1] else cmd;
      if |body| >= 2 && body[0] == ':' then (if body[1] == '*' then NotThis else Body(body[1..])) else Body(body)
  }

  /** Some choice of the optional keywords of a pattern matches a command. */
  ghost predicate ChoiceMatches(p: Pattern, cmd: string)
    requires |cmd| > 0
  {
    var b := Strip(p.query, cmd);
    b.Body? && '?' !in b.text && SomeChoice(p.segments, Words(b.text))
  }

  /** The whole of matchCommand in terms of choices. */
  lemma AcceptsIsChoice(p: Pattern, cmd: string)
    requires WellFormed(p) && |cmd| > 0
    ensures Accepts(p, cmd) ==> ChoiceMatches(p, cmd)
    ensures Exact(p.segments) ==> (Accepts(p, cmd) <==> ChoiceMatches(p, cmd))
  {
    hide AcceptsFrom, SomeChoice, Words, Exact;
    var b := Strip(p.query, cmd);
    if b.Body? {
      if '?' in b.text {
        NoQuestionMark(p.segments, b.text);
      } else {
        AcceptsByChoice(p.segments, b.text);
      }
    }
  }

  /** The command whose stripped text is given; there is none without text for a pattern without a query mark. */
  function Dressed(query: bool, text: string): string {
    (if text != "" && text[0] == ':' then ":" else "") + (text + if query then "?" else "")
  }

  lemma StripDressed(query: bool, text: string)
    requires '?' !in text && (query || text != "")
    ensures |Dressed(query, text)| > 0 && Strip(query, Dressed(query, text)) == Body(text)
  {
    var cmd := Dressed(query, text);
    var colon := if text != "" && text[0] == ':' then ":" else "";
    assert query ==> cmd[..|cmd| - 1] == colon + text;
    assert !query ==> cmd == colon + text;
    assert colon == ":" ==> (colon + text)[1..] == text;
    assert colon == "" ==> colon + text == text;
  }

  /** Every keyword has a short form, as in all patterns of the standard. */
  predicate HaveShortForms(segs: seq<Segment>) { forall i :: 0 <= i < |segs| ==> ShortLength(segs[i].keyword) > 0 }

  lemma {:induction false} SharedStart(keyword: string, segs: seq<Segment>)
    requires KeywordsOk(segs) && HaveShortForms(segs) && !ApartFromMandatory(keyword, segs)
    ensures SharedWords(keyword, segs) != [] && SharedWords(keyword, segs)[0] != ""
    decreases |segs|
  {
    if segs[0].optional { SharedStart(keyword, segs[1..]); }
  }

  lemma {:induction false} FailingStart(segs: seq<Segment>)
    requires KeywordsOk(segs) && HaveShortForms(segs) && !Exact(segs)
    ensures FailingWords(segs) != [] && FailingWords(segs)[0] != ""
    decreases |segs|
  {
    hide SharedWords, ApartFromMandatory;
    if !segs[0].optional {
    } else if ApartFromMandatory(segs[0].keyword, segs[1..]) {
      FailingStart(segs[1..]);
    } else {
      SharedChosen(segs[0].keyword, segs[1..]);
      SharedStart(segs[0].keyword, segs[1..]);
    }
  }

  /**
   * The matcher of a pattern is "some choice" for every command exactly when its segments
   * are exact.  Only where the failing word could be the empty short form of a keyword in
   * a pattern without query mark, the failing command would be empty, and is not one.
   */
  lemma PatternExactly(p: Pattern)
    requires WellFormed(p)
    ensures Exact(p.segments) ==> forall cmd: string :: |cmd| > 0 ==> (Accepts(p, cmd) <==> ChoiceMatches(p, cmd))
    ensures !Exact(p.segments) && (p.query || HaveShortForms(p.segments)) ==>
              exists cmd: string :: |cmd| > 0 && !Accepts(p, cmd) && ChoiceMatches(p, cmd)
  {
    hide AcceptsFrom, SomeChoice, Words, Exact, KeywordsOk, FailingWords, Dressed, Accepts;
    forall cmd: string | |cmd| > 0 ensures Exact(p.segments) ==> (Accepts(p, cmd) <==> ChoiceMatches(p, cmd)) {
      AcceptsIsChoice(p, cmd);
    }
    if !Exact(p.segments) && (p.query || HaveShortForms(p.segments)) {
      var text := FailingCommand(p.segments);
      if !p.query { FailingStart(p.segments); }
      var cmd := Dressed(p.query, text);
      StripDressed(p.query, text);
      AcceptsStripped(p, cmd);
      assert !Accepts(p, cmd) && ChoiceMatches(p, cmd);
    }
  }

  lemma AcceptsStripped(p: Pattern, cmd: string)
    requires WellFormed(p) && |cmd| > 0
    ensures Accepts(p, cmd) <==> var b := Strip(p.query, cmd); b.Body? && AcceptsFrom(p.segments, b.text)
  {
    hide AcceptsFrom;
  }
}
