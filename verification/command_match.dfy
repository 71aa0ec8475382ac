// Command headers against patterns such as "SYSTem:ERRor[:NEXT]?": matchCommand
// of utils.c and the helpers it is built from.

module CommandMatch {

  /** One keyword of a pattern; an optional one is written "[:KEYword]". */
  datatype Segment = Segment(keyword: string, optional: bool)

  /** A pattern without numeric suffixes. */
  datatype Pattern = Pattern(leadingColon: bool, segments: seq<Segment>, query: bool)

  // ------------------------------------------------------------ specification

  predicate IsSeparator(c: char) { c == '?' || c == ':' || c == '[' || c == ']' }

  predicate KeywordOk(k: string) {
    |k| > 0 && forall i :: 0 <= i < |k| ==> !IsSeparator(k[i]) && k[i] != '#' && k[i] != '\0'
  }

  predicate KeywordsOk(segs: seq<Segment>) {
    forall i :: 0 <= i < |segs| ==> KeywordOk(segs[i].keyword)
  }

  predicate WellFormed(p: Pattern) { |p.segments| > 0 && KeywordsOk(p.segments) }

  function ToLower(c: char): char {
    if 'A' <= c <= 'Z' then ((c as int) + 32) as char else c
  }

  predicate IsLower(c: char) { 'a' <= c <= 'z' }

  predicate SameIgnoringCase(a: string, b: string) {
    |a| == |b| && forall i :: 0 <= i < |a| ==> ToLower(a[i]) == ToLower(b[i])
  }

  /** The short form of a keyword: what precedes its first lower-case letter. */
  function ShortLength(k: string): (n: nat)
    ensures n <= |k|
    ensures forall i :: 0 <= i < n ==> !IsLower(k[i])
    ensures n < |k| ==> IsLower(k[n])
  {
    if k == "" || IsLower(k[0]) then 0 else 1 + ShortLength(k[1..])
  }

  predicate KeywordMatches(k: string, word: string) {
    SameIgnoringCase(k, word) || SameIgnoringCase(k[..ShortLength(k)], word)
  }

  /** The length of the first word of a command. */
  function WordLength(cmd: string): (e: nat)
    ensures e <= |cmd|
    ensures forall i :: 0 <= i < e ==> cmd[i] != ':' && cmd[i] != '?'
    ensures e < |cmd| ==> cmd[e] == ':' || cmd[e] == '?'
  {
    if cmd == "" || cmd[0] == ':' || cmd[0] == '?' then 0 else 1 + WordLength(cmd[1..])
  }

  predicate AllOptional(segs: seq<Segment>) {
    segs == [] || (segs[0].optional && AllOptional(segs[1..]))
  }

  /**
   * The left-to-right rule: a word is taken by the first segment it matches; an
   * optional segment that does not match is passed over; once the words are used
   * up, only optional segments may remain.
   */
  predicate AcceptsFrom(segs: seq<Segment>, cmd: string)
    requires |segs| > 0
    decreases |segs|
  {
    var e := WordLength(cmd);
    if KeywordMatches(segs[0].keyword, cmd[..e]) then
      if e == |cmd| then AllOptional(segs[1..])
      else cmd[e] == ':' && |segs| > 1 && AcceptsFrom(segs[1..], cmd[e + 1..])
    else segs[0].optional && |segs| > 1 && AcceptsFrom(segs[1..], cmd)
  }

  /** The query marks must agree when the pattern has one, and a leading colon is dropped. */
  predicate Accepts(p: Pattern, cmd: string)
    requires WellFormed(p) && |cmd| > 0
  {
    if p.query && cmd[|cmd| - 1] != '?' then false
    else
      var body := if p.query then cmd[..|cmd| - 1] else cmd;
      if |body| >= 2 && body[0] == ':' then body[1] != '*' && AcceptsFrom(p.segments, body[1..])
      else AcceptsFrom(p.segments, body)
  }

  /** The pattern text of the segments after the first keyword. */
  function RenderTail(segs: seq<Segment>): string
    decreases |segs|, 2
  {
    if segs == [] then "" else (if segs[0].optional then "[:" else ":") + RenderKeywords(segs)
  }

  /** The pattern text from the first keyword on, its bracket already open if it is optional. */
  function RenderKeywords(segs: seq<Segment>): string
    requires |segs| > 0
    decreases |segs|, 1
  {
    segs[0].keyword + RenderAfter(segs)
  }

  function RenderAfter(segs: seq<Segment>): string
    requires |segs| > 0
    decreases |segs|, 0
  {
    if segs[0].optional then "]" + RenderTail(segs[1..]) else RenderTail(segs[1..])
  }

  function RenderHead(p: Pattern): string
    requires WellFormed(p)
  {
    (if p.segments[0].optional then "[" else "") + (if p.leadingColon then ":" else "")
  }

  function Render(p: Pattern): string
    requires WellFormed(p)
  {
    RenderHead(p) + RenderKeywords(p.segments) + (if p.query then "?" else "")
  }

  // ------------------------------------------------------------ the C functions

  /** strnpbrk: where the first character of any occurs in s, or -1. */
  method StrNPbrk(s: string, any: string) returns (r: int)
    requires '\0' !in s
    ensures r == -1 ==> forall i :: 0 <= i < |s| ==> s[i] !in any
    ensures r != -1 ==> 0 <= r < |s| && s[r] in any && forall i :: 0 <= i < r ==> s[i] !in any
  {
    var i := 0;
    while i < |s| && s[i] != '\0'
      invariant 0 <= i <= |s|
      invariant forall j :: 0 <= j < i ==> s[j] !in any
    {
      if s[i] in any {
        return i;
      }
      i := i + 1;
    }
    r := -1;
  }

  method CompareStr(str1: string, str2: string) returns (same: bool)
    requires '\0' !in str1
    ensures same == SameIgnoringCase(str1, str2)
  {
    if |str1| != |str2| {
      return false;
    }
    var n := 0;
    while n < |str2|
      invariant 0 <= n <= |str2|
      invariant forall i :: 0 <= i < n ==> ToLower(str1[i]) == ToLower(str2[i])
    {
      var c1, c2 := ToLower(str1[n]), ToLower(str2[n]);
      if c1 != c2 {
        return false;
      }
      if c1 == '\0' {
        return true;
      }
      n := n + 1;
    }
    same := true;
  }

  method PatternSeparatorShortPos(pattern: string) returns (i: nat)
    requires '\0' !in pattern
    ensures i == ShortLength(pattern)
  {
    i := 0;
    while i < |pattern| && pattern[i] != '\0'
      invariant 0 <= i <= |pattern|
      invariant i + ShortLength(pattern[i..]) == ShortLength(pattern)
    {
      if IsLower(pattern[i]) {
        return;
      }
      i := i + 1;
    }
  }

  method MatchPattern(pattern: string, str: string) returns (result: bool)
    requires KeywordOk(pattern)
    ensures result == KeywordMatches(pattern, str)
  {
    var shortPos := PatternSeparatorShortPos(pattern);
    result := CompareStr(pattern, str);
    if !result {
      result := CompareStr(pattern[..shortPos], str);
    }
  }

  method PatternSeparatorPos(pattern: string) returns (n: nat)
    requires '\0' !in pattern
    ensures n <= |pattern|
    ensures forall i :: 0 <= i < n ==> !IsSeparator(pattern[i])
    ensures n < |pattern| ==> IsSeparator(pattern[n])
  {
    var separator := StrNPbrk(pattern, "?:[]");
    n := if separator == -1 then |pattern| else separator;
  }

  method CmdSeparatorPos(cmd: string) returns (n: nat)
    requires '\0' !in cmd
    ensures n == WordLength(cmd)
  {
    var separator := StrNPbrk(cmd, ":?");
    n := if separator == -1 then |cmd| else separator;
    WordLengthIs(cmd, n);
  }

  lemma {:induction false} WordLengthIs(cmd: string, e: nat)
    requires e <= |cmd|
    requires forall i :: 0 <= i < e ==> cmd[i] != ':' && cmd[i] != '?'
    requires e < |cmd| ==> cmd[e] == ':' || cmd[e] == '?'
    ensures WordLength(cmd) == e
  {
    if e > 0 {
      WordLengthIs(cmd[1..], e - 1);
    }
  }

  /** The character a C pointer into a string sees, which ends with a zero. */
  function CharAt(s: string, i: nat): char { if i < |s| then s[i] else '\0' }

  /** matchCommand without numeric suffixes. */
  method MatchCommand(ghost p: Pattern, pattern: string, cmd: string) returns (result: bool)
    requires WellFormed(p) && pattern == Render(p)
    requires |cmd| > 0 && '\0' !in cmd
    ensures result == Accepts(p, cmd)
  {
    ghost var segs := p.segments;
    RenderClean(segs);
    var rest, body := pattern, cmd;
    assert |pattern| > 0 && (pattern[|pattern| - 1] == '?' <==> p.query);
    if pattern[|pattern| - 1] == '?' {
      if cmd[|cmd| - 1] == '?' {
        body := cmd[..|cmd| - 1];
        rest := pattern[..|pattern| - 1];
      } else {
        return false;
      }
    }
    assert rest == RenderHead(p) + RenderKeywords(segs);
    assert KeywordOk(segs[0].keyword) && RenderKeywords(segs)[0] == segs[0].keyword[0];
    var brackets := 0;
    if rest[0] == '[' {
      rest := rest[1..];
      brackets := brackets + 1;
    }
    if rest[0] == ':' {
      rest := rest[1..];
    }
    if cmd[0] == ':' && |body| >= 2 {
      if cmd[1] != '*' {
        body := body[1..];
      } else {
        return false;
      }
    }
    result := MatchWords(segs, rest, body, brackets);
  }

  /**
   * The loop of matchCommand.  Each pointer and the length that goes with it
   * delimit a string, which is what rest and cmd hold.
   */
  method MatchWords(ghost segments: seq<Segment>, pattern: string, command: string, openBrackets: int)
    returns (result: bool)
    requires |segments| > 0 && KeywordsOk(segments)
    requires pattern == RenderKeywords(segments) && '\0' !in pattern && '\0' !in command
    requires openBrackets == if segments[0].optional then 1 else 0
    ensures result == AcceptsFrom(segments, command)
  {
    hide KeywordMatches, KeywordOk;
    ghost var segs := segments;
    var rest, cmd, brackets := pattern, command, openBrackets;
    while true
      invariant |segs| > 0 && KeywordsOk(segs) && rest == RenderKeywords(segs)
      invariant '\0' !in rest && '\0' !in cmd
      invariant brackets == if segs[0].optional then 1 else 0
      invariant AcceptsFrom(segments, command) == AcceptsFrom(segs, cmd)
      decreases |segs|
    {
      var sepPos := PatternSeparatorPos(rest);
      var cmdSepPos := CmdSeparatorPos(cmd);
      KeywordAt(segs, rest, sepPos);
      var matched := MatchPattern(rest[..sepPos], cmd[..cmdSepPos]);
      rest := rest[sepPos..];
      if matched {
        cmd := cmd[cmdSepPos..];
        if |rest| == 0 && |cmd| == 0 {
          return true;
        }
        if |rest| == 0 && |cmd| > 0 {
          return false;
        }
        if |cmd| == 0 {
          result := RestIsOptional(segs, rest, brackets);
          return;
        }
        if rest[0] == cmd[0] && rest[0] == ':' {
          rest, cmd := rest[1..], cmd[1..];
        } else if |rest| > 1 && rest[1] == cmd[0] && rest[0] == '[' && rest[1] == ':' {
          rest, cmd := rest[2..], cmd[1..];
          brackets := brackets + 1;
        } else if |rest| > 1 && rest[1] == cmd[0] && rest[0] == ']' && rest[1] == ':' {
          rest, cmd := rest[2..], cmd[1..];
          brackets := brackets - 1;
        } else if |rest| > 2 && rest[2] == cmd[0] && rest[0] == ']' && rest[1] == '[' && rest[2] == ':' {
          rest, cmd := rest[3..], cmd[1..];
        } else {
          return false;
        }
      } else {
        if CharAt(rest, 0) == ']' && CharAt(rest, 1) == ':' {
          rest := rest[2..];
          brackets := brackets - 1;
        } else if |rest| > 2 && rest[0] == ']' && rest[1] == '[' && rest[2] == ':' {
          rest := rest[3..];
        } else {
          return false;
        }
      }
      segs := segs[1..];
    }
  }

  /** The inner loop of matchCommand: the words are used up, is every keyword left optional? */
  method RestIsOptional(ghost segments: seq<Segment>, pattern: string, openBrackets: int)
    returns (result: bool)
    requires |segments| > 0 && KeywordsOk(segments)
    requires pattern == RenderAfter(segments) && |pattern| > 0 && '\0' !in pattern
    requires openBrackets == if segments[0].optional then 1 else 0
    ensures result == AllOptional(segments[1..])
  {
    hide KeywordOk;
    var rest, brackets := pattern, openBrackets;
    // segs is what is left to render, phase says where in it rest begins
    ghost var segs := segments[1..];
    ghost var phase := if segments[0].optional then Closing else Between;
    while |rest| > 0
      invariant KeywordsOk(segs) && '\0' !in rest
      invariant rest == RenderPhase(phase, segs)
      invariant brackets == if phase == Between then 0 else 1
      invariant phase in {Opened, AtKeyword} ==> |rest| > 0 && segs != [] && segs[0].optional
      invariant AllOptional(segs) == AllOptional(segments[1..])
      decreases |rest|
    {
      var sepPos := PatternSeparatorPos(rest);
      PhaseStep(phase, segs, rest, sepPos);
      var separator := CharAt(rest, sepPos);
      if separator == '[' {
        brackets := brackets + 1;
      } else if separator == ']' {
        brackets := brackets - 1;
      }
      rest := rest[sepPos + 1..];
      if phase == Between && !segs[0].optional {
        assert brackets == 0 && rest[0] != '[' && !AllOptional(segments[1..]);
      }
      segs := if phase == AtKeyword then segs[1..] else segs;
      phase := if phase == Between then Opened else if phase == Opened then AtKeyword else Between;
      if brackets == 0 {
        if |rest| > 0 && rest[0] == '[' {
          continue;
        } else {
          break;
        }
      }
    }
    result := |rest| == 0;
  }

  // ------------------------------------------------------------ the shape of a rendered pattern

  /** Where in a rendered pattern the inner loop of matchCommand stands. */
  datatype Phase = Closing | Between | Opened | AtKeyword

  ghost function RenderPhase(phase: Phase, segs: seq<Segment>): string {
    match phase
    case Closing => "]" + RenderTail(segs)
    case Between => RenderTail(segs)
    case Opened => if segs == [] then "" else ":" + RenderKeywords(segs)
    case AtKeyword => if segs == [] then "" else RenderKeywords(segs)
  }

  /** Cutting a rendered pattern after its first separator. */
  lemma PhaseStep(phase: Phase, segs: seq<Segment>, rest: string, n: nat)
    requires KeywordsOk(segs) && rest == RenderPhase(phase, segs) && |rest| > 0
    requires phase in {Opened, AtKeyword} ==> segs != [] && segs[0].optional
    requires n <= |rest| && (forall i :: 0 <= i < n ==> !IsSeparator(rest[i])) && (n < |rest| ==> IsSeparator(rest[n]))
    ensures n < |rest|
    ensures phase == Closing ==> rest[n] == ']' && rest[n + 1..] == RenderPhase(Between, segs)
    ensures phase == Between && segs[0].optional ==> rest[n] == '[' && rest[n + 1..] == RenderPhase(Opened, segs)
    ensures phase == Between && !segs[0].optional ==>
              rest[n] == ':' && |rest| > n + 1 && rest[n + 1..] == RenderPhase(AtKeyword, segs) && rest[n + 1] != '['
    ensures phase == Opened ==> rest[n] == ':' && |rest| > n + 1 && rest[n + 1..] == RenderPhase(AtKeyword, segs)
    ensures phase == AtKeyword ==> rest[n] == ']' && rest[n + 1..] == RenderPhase(Between, segs[1..])
  {
    if phase == AtKeyword {
      KeywordAt(segs, rest, n);
    } else {
      assert IsSeparator(rest[0]);
      if segs != [] {
        assert KeywordOk(segs[0].keyword) && RenderKeywords(segs)[0] == segs[0].keyword[0];
      }
    }
  }

  /** The first separator comes right after the first keyword. */
  lemma KeywordAt(segs: seq<Segment>, rest: string, n: nat)
    requires |segs| > 0 && KeywordsOk(segs) && rest == RenderKeywords(segs)
    requires n <= |rest| && (forall i :: 0 <= i < n ==> !IsSeparator(rest[i])) && (n < |rest| ==> IsSeparator(rest[n]))
    ensures n == |segs[0].keyword| && rest[..n] == segs[0].keyword && rest[n..] == RenderAfter(segs)
  {
    var k := segs[0].keyword;
    assert KeywordOk(k);
    assert forall i :: 0 <= i < |k| ==> rest[i] == k[i];
    assert |rest| > |k| ==> rest[|k|] == RenderAfter(segs)[0];
    assert n == |k|;
  }

  /** A pattern contains no zero character, and has a question mark at its end only if it is a query. */
  lemma {:induction false} RenderClean(segs: seq<Segment>)
    requires |segs| > 0 && KeywordsOk(segs)
    ensures var r := RenderKeywords(segs); '\0' !in r && |r| > 0 && r[|r| - 1] != '?'
    decreases |segs|
  {
    assert KeywordOk(segs[0].keyword);
    var r := RenderKeywords(segs);
    if |segs| > 1 {
      RenderClean(segs[1..]);
      var tail := RenderKeywords(segs[1..]);
      assert RenderTail(segs[1..]) == (if segs[1].optional then "[:" else ":") + tail;
      assert RenderAfter(segs) == (if segs[0].optional then "]" else "") + RenderTail(segs[1..]);
      assert r[|r| - 1] == tail[|tail| - 1];
    } else {
      assert RenderTail(segs[1..]) == "";
    }
  }
}
