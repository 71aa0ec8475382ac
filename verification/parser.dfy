// SCPI_Input and SCPI_Parse of parser.c: lines are cut out of the input buffer,
// and the headers of a line are completed in place before they are looked up.

module Parser {
  import opened Lexer
  import opened ProgramUnits
  import opened LexerStability
  import opened UnitStability
  import opened CommandMatch
  import Basics
  import LexerGrammar

  /** What SCPI_Parse and SCPI_Input report: a command handed to its callback, or an error. */
  datatype Event =
    | Call(command: nat, header: string, data: string)
    | UndefinedHeader(text: string)
    | InvalidCharacter
    | BufferOverrun

  datatype Found = NotFound | At(index: nat)

  // ------------------------------------------------------------ headers

  predicate IsHeaderChar(c: char) { Is(MnemonicChar, c) || c == ':' || c == '*' || c == '?' }

  predicate HeaderText(h: string) { forall i :: 0 <= i < |h| ==> IsHeaderChar(h[i]) }

  predicate CommandsOk(commands: seq<Pattern>) {
    forall i :: 0 <= i < |commands| ==> WellFormed(commands[i])
  }

  /** First match wins. */
  function FindFrom(commands: seq<Pattern>, header: string, i: nat): (r: Found)
    requires CommandsOk(commands) && |header| > 0 && i <= |commands|
    ensures r.At? ==> i <= r.index < |commands| && Accepts(commands[r.index], header)
    ensures forall j :: i <= j < (if r.At? then r.index else |commands|) ==> !Accepts(commands[j], header)
    decreases |commands| - i
  {
    if i == |commands| then NotFound
    else if Accepts(commands[i], header) then At(i)
    else FindFrom(commands, header, i + 1)
  }

  /** The length of a header up to and including its last colon. */
  function PathLength(h: string): (n: nat)
    ensures n <= |h|
    ensures n > 0 ==> h[n - 1] == ':'
    ensures forall i :: n <= i < |h| ==> h[i] != ':'
  {
    if h == "" || h[|h| - 1] == ':' then |h| else PathLength(h[..|h| - 1])
  }

  /** What a header hands down to a relative one. */
  function PathOf(header: string): string { header[..PathLength(header)] }

  /** How much of the previous header goes in front of the current one. */
  function InheritedLength(prev: string, cur: string): (n: nat)
    requires |cur| > 0
    ensures n <= |prev|
  {
    if prev == "" || cur[0] == '*' || cur[0] == ':' || prev[0] == '*' then 0 else PathLength(prev)
  }

  /**
   * The tree walk: a relative header is completed with the path of the header
   * before it; a star or a leading colon starts afresh, and so does any header
   * that follows a common command.
   */
  function Effective(prev: string, cur: string): (r: string)
    requires |cur| > 0
    ensures |cur| <= |r|
  {
    prev[..InheritedLength(prev, cur)] + cur
  }

  // ------------------------------------------------------------ a line, without buffers

  predicate Inside(t: Token, s: string) { 0 <= t.ptr && 0 <= t.len && t.ptr + t.len <= |s| }

  function Text(s: string, t: Token): (r: string)
    requires Inside(t, s)
    ensures |r| == t.len
  {
    s[t.ptr..t.ptr + t.len]
  }

  /** The text of a unit without the line end. */
  function Trimmed(s: string): string
  {
    if s != "" && IsNl(s[|s| - 1]) then Trimmed(s[..|s| - 1]) else s
  }

  /** The events of a line by the tree walk, from unit position p; prev is the last header found. */
  function Walk(commands: seq<Pattern>, line: string, p: nat, prev: string): seq<Event>
    requires CommandsOk(commands) && p <= |line|
    decreases |line| - p
  {
    var u := Detect(line, p);
    UnitTokens(line, p);
    if u.header.kind == Invalid then
      [InvalidCharacter] + (if u.next < |line| then Walk(commands, line, u.next, prev) else [])
    else if u.header.len > 0 then
      var header := Effective(prev, Text(line, u.header));
      var f := FindFrom(commands, header, 0);
      match f
      case At(n) =>
        [Call(n, header, Text(line, u.data))] + (if u.next < |line| then Walk(commands, line, u.next, header) else [])
      case NotFound =>
        [UndefinedHeader(Trimmed(line[p..u.next]))] + (if u.next < |line| then Walk(commands, line, u.next, prev) else [])
    else if u.next < |line| then Walk(commands, line, u.next, prev) else []
  }

  // ------------------------------------------------------------ a line, in the buffer

  const NO_TOKEN := Token(Unknown, 0, 0)

  /** In-place composition: the bytes before the header are overwritten with the inherited path. */
  function Compose(buf: string, prev: Token, cur: Token): (r: (string, Token))
    requires Inside(prev, buf) && Inside(cur, buf) && cur.len > 0 && prev.ptr + prev.len <= cur.ptr
    ensures |r.0| == |buf| && Inside(r.1, r.0) && r.1.len > 0
    ensures r.1.ptr + r.1.len == cur.ptr + cur.len && prev.ptr <= r.1.ptr <= cur.ptr
  {
    var n := InheritedLength(Text(buf, prev), Text(buf, cur));
    (buf[..cur.ptr - n] + buf[prev.ptr..prev.ptr + n] + buf[cur.ptr..], Token(cur.kind, cur.ptr - n, cur.len + n))
  }

  /** The events of a line as SCPI_Parse produces them, prev being a token in the changing buffer. */
  function Run(commands: seq<Pattern>, buf: string, p: nat, prev: Token): seq<Event>
    requires CommandsOk(commands) && p <= |buf| && Inside(prev, buf) && prev.ptr + prev.len <= p
    decreases |buf| - p
  {
    var u := Detect(buf, p);
    UnitTokens(buf, p);
    if u.header.kind == Invalid then
      [InvalidCharacter] + (if u.next < |buf| then Run(commands, buf, u.next, prev) else [])
    else if u.header.len > 0 then
      var (buf', h) := Compose(buf, prev, u.header);
      var f := FindFrom(commands, Text(buf', h), 0);
      match f
      case At(n) =>
        [Call(n, Text(buf', h), Text(buf', u.data))] + (if u.next < |buf| then Run(commands, buf', u.next, h) else [])
      case NotFound =>
        [UndefinedHeader(Trimmed(buf'[p..u.next]))] + (if u.next < |buf| then Run(commands, buf', u.next, prev) else [])
    else if u.next < |buf| then Run(commands, buf, u.next, prev) else []
  }

  /** One unit of a run. */
  lemma RunUnit(commands: seq<Pattern>, buf: string, p: nat, prev: Token)
    requires CommandsOk(commands) && p <= |buf| && Inside(prev, buf) && prev.ptr + prev.len <= p
    ensures (UnitTokens(buf, p);
             var u := Detect(buf, p);
             var run := Run(commands, buf, p, prev);
             var more := u.next < |buf|;
             if u.header.kind == Invalid then
               run == [InvalidCharacter] + if more then Run(commands, buf, u.next, prev) else []
             else if u.header.len > 0 then
               var (buf', h) := Compose(buf, prev, u.header);
               var f := FindFrom(commands, Text(buf', h), 0);
               if f.At? then
                 run == [Call(f.index, Text(buf', h), Text(buf', u.data))] + if more then Run(commands, buf', u.next, h) else []
               else
                 run == [UndefinedHeader(Trimmed(buf'[p..u.next]))] + if more then Run(commands, buf', u.next, prev) else []
             else run == if more then Run(commands, buf, u.next, prev) else [])
  {
    hide Detect, Compose, FindFrom, Trimmed, Text;
  }

  /** Where the tokens of a unit lie. */
  lemma UnitTokens(s: string, p: nat)
    requires p <= |s|
    ensures var u := Detect(s, p);
            && p <= u.header.ptr
            && (u.header.kind != Invalid ==> 0 <= u.header.len && u.header.ptr + u.header.len <= u.next)
            && 0 <= u.data.len && p <= u.data.ptr && u.data.ptr + u.data.len <= u.next
            && (u.header.kind != Invalid && u.header.len > 0 ==> u.header.ptr + u.header.len <= u.data.ptr)
  {
    hide Span, HeaderExtent, AllProgramDataFrom;
    var h := Header(s, Span(s, p, Blank));
    AllProgramDataLength(s, Span(s, h.pos, Blank));
  }

  lemma {:induction false} AllProgramDataLength(s: string, p: nat)
    requires p <= |s|
    ensures var d := AllProgramDataFrom(s, p); d.len <= d.pos - p
    decreases |s| - p
  {
    hide DataItem, Span;
    var d := ProgramData(s, p);
    if d.tok.kind != Unknown && Lexer.At(s, d.pos, ',') {
      AllProgramDataLength(s, d.pos + 1);
    }
  }

  // ------------------------------------------------------------ composing in place

  /** Composition completes the header, and changes only bytes in front of it. */
  lemma ComposeEffect(buf: string, prev: Token, cur: Token)
    requires Inside(prev, buf) && Inside(cur, buf) && cur.len > 0 && prev.ptr + prev.len <= cur.ptr
    ensures var (buf', h) := Compose(buf, prev, cur);
            && Text(buf', h) == Effective(Text(buf, prev), Text(buf, cur))
            && buf'[cur.ptr..] == buf[cur.ptr..]
            && buf'[..h.ptr] == buf[..h.ptr]
  {
    hide InheritedLength;
    var n := InheritedLength(Text(buf, prev), Text(buf, cur));
    var (buf', h) := Compose(buf, prev, cur);
    assert Text(buf, prev)[..n] == buf[prev.ptr..prev.ptr + n];
    assert buf' == buf[..h.ptr] + (buf[prev.ptr..prev.ptr + n] + Text(buf, cur)) + buf[cur.ptr + cur.len..];
  }

  /** A text with the same bytes from p on breaks into the same units from p on. */
  lemma SameUnits(s: string, t: string, p: nat)
    requires |s| == |t| && p <= |s| && s[p..] == t[p..]
    ensures Detect(s, p) == Detect(t, p)
  {
    hide Detect;
    assert forall i :: p <= i < |s| ==> s[i] == s[p..][i - p] == t[p..][i - p] == t[i];
    DetectLineCut(s, t, p);
  }

  lemma SameText(s: string, t: string, p: nat, tok: Token)
    requires |s| == |t| && p <= |s| && s[p..] == t[p..] && p <= tok.ptr && Inside(tok, s)
    ensures Text(s, tok) == Text(t, tok)
  {
    forall i | 0 <= i < tok.len
      ensures Text(s, tok)[i] == Text(t, tok)[i]
    {
      assert s[p..][tok.ptr - p + i] == t[p..][tok.ptr - p + i];
    }
  }

  lemma SameSuffix(s: string, t: string, p: nat, q: nat)
    requires |s| == |t| && p <= q <= |s| && s[p..] == t[p..]
    ensures s[q..] == t[q..]
  {
    assert s[q..] == s[p..][q - p..];
  }

  /** What is left of the last header found when its last d bytes are overwritten with its first d bytes. */
  function Damaged(held: string, d: int): (r: string)
    requires d <= |held|
    ensures |r| == |held|
  {
    if d <= 0 then held else held[..|held| - d] + held[..d]
  }

  /** The header takes its path from the one before it. */
  predicate Relative(prev: string, cur: string)
    requires |cur| > 0
  {
    prev != "" && prev[0] != '*' && cur[0] != '*' && cur[0] != ':'
  }

  /**
   * held is what the buffer shows of the last header found, prev, which ends at end.
   * An undefined header leaves its inherited path in the buffer and may damage held;
   * that does no harm as long as every relative header still finds the path of prev there.
   */
  predicate PathsKept(commands: seq<Pattern>, line: string, p: nat, prev: string, held: string, end: nat)
    requires CommandsOk(commands) && end <= p <= |line| && |held| == |prev|
    decreases |line| - p
  {
    var u := Detect(line, p);
    UnitTokens(line, p);
    if u.header.kind == Invalid || u.header.len == 0 then
      u.next < |line| ==> PathsKept(commands, line, u.next, prev, held, end)
    else
      var cur := Text(line, u.header);
      var header := Effective(prev, cur);
      && (Relative(prev, cur) ==> PathOf(held) == PathOf(prev))
      && (u.next < |line| ==>
            if FindFrom(commands, header, 0).At? then
              PathsKept(commands, line, u.next, header, header, u.header.ptr + u.header.len)
            else
              PathsKept(commands, line, u.next, prev, Damaged(held, end + InheritedLength(prev, cur) - u.header.ptr), end))
  }

  predicate SameStart(a: string, b: string) { |a| == |b| && (a != "" ==> a[0] == b[0]) }

  /** A header is completed in the same way exactly if it is not relative or the path is still there. */
  lemma SameCompletion(prev: string, held: string, cur: string)
    requires SameStart(held, prev) && |cur| > 0
    ensures Effective(held, cur) == Effective(prev, cur) <==> (Relative(prev, cur) ==> PathOf(held) == PathOf(prev))
    ensures Effective(held, cur) == Effective(prev, cur) ==> InheritedLength(held, cur) == InheritedLength(prev, cur)
  {
    hide PathLength;
    if Relative(prev, cur) {
      SameFront(PathOf(held), PathOf(prev), cur);
    }
  }

  lemma DamagedStart(held: string, d: int)
    requires d <= |held|
    ensures SameStart(Damaged(held, d), held)
  {
  }

  /** One unit with a header: what composition does to it, seen from the original line. */
  lemma ComposeStep(line: string, buf: string, p: nat, prev: Token)
    requires p <= |line| == |buf| && buf[p..] == line[p..]
    requires Inside(prev, buf) && prev.ptr + prev.len <= p
    requires Detect(line, p).header.kind != Invalid && Detect(line, p).header.len > 0
    ensures Detect(buf, p) == Detect(line, p)
    ensures (var u := Detect(line, p);
            UnitTokens(line, p);
            var (buf', h) := Compose(buf, prev, u.header);
            && Text(buf', h) == Effective(Text(buf, prev), Text(line, u.header))
            && Text(buf', u.data) == Text(line, u.data)
            && buf'[u.next..] == line[u.next..]
            && Text(buf', prev) == Damaged(Text(buf, prev), prev.ptr + prev.len
                                           + InheritedLength(Text(buf, prev), Text(line, u.header)) - u.header.ptr))
  {
    hide Detect, InheritedLength, Damaged;
    var u := Detect(line, p);
    UnitTokens(line, p);
    SameUnits(buf, line, p);
    SameText(buf, line, p, u.header);
    var (buf', h) := Compose(buf, prev, u.header);
    ComposeEffect(buf, prev, u.header);
    SameSuffix(buf, line, p, u.header.ptr);
    SameText(buf', line, u.header.ptr, u.data);
    SameSuffix(buf', line, u.header.ptr, u.next);
    DamagedText(buf, prev, u.header);
  }

  lemma EventsAgreeCons(a: Event, b: Event, as_: seq<Event>, bs: seq<Event>)
    requires a == b || (a.UndefinedHeader? && b.UndefinedHeader?)
    requires EventsAgree(as_, bs)
    ensures EventsAgree([a] + as_, [b] + bs)
  {
  }

  /** The headers a line is looked up under, as SCPI_Parse composes them in the buffer. */
  function Lookups(commands: seq<Pattern>, buf: string, p: nat, prev: Token): seq<string>
    requires CommandsOk(commands) && p <= |buf| && Inside(prev, buf) && prev.ptr + prev.len <= p
    decreases |buf| - p
  {
    var u := Detect(buf, p);
    UnitTokens(buf, p);
    if u.header.kind == Invalid || u.header.len == 0 then
      if u.next < |buf| then Lookups(commands, buf, u.next, prev) else []
    else
      var (buf', h) := Compose(buf, prev, u.header);
      var prev' := if FindFrom(commands, Text(buf', h), 0).At? then h else prev;
      [Text(buf', h)] + if u.next < |buf| then Lookups(commands, buf', u.next, prev') else []
  }

  /** And by the tree walk. */
  function WalkLookups(commands: seq<Pattern>, line: string, p: nat, prev: string): seq<string>
    requires CommandsOk(commands) && p <= |line|
    decreases |line| - p
  {
    var u := Detect(line, p);
    UnitTokens(line, p);
    if u.header.kind == Invalid || u.header.len == 0 then
      if u.next < |line| then WalkLookups(commands, line, u.next, prev) else []
    else
      var header := Effective(prev, Text(line, u.header));
      var prev' := if FindFrom(commands, header, 0).At? then header else prev;
      [header] + if u.next < |line| then WalkLookups(commands, line, u.next, prev') else []
  }

  /**
   * In-place composition looks every header of a line up under the name the tree walk
   * gives it, exactly if every relative header still finds its path in the buffer.
   */
  lemma {:induction false} LookupsExact(commands: seq<Pattern>, line: string, buf: string, p: nat, prev: Token, prevHeader: string)
    requires CommandsOk(commands) && p <= |line| == |buf| && buf[p..] == line[p..]
    requires Inside(prev, buf) && prev.ptr + prev.len <= p && SameStart(Text(buf, prev), prevHeader)
    ensures Lookups(commands, buf, p, prev) == WalkLookups(commands, line, p, prevHeader)
            <==> PathsKept(commands, line, p, prevHeader, Text(buf, prev), prev.ptr + prev.len)
    decreases |line| - p
  {
    hide Detect, FindFrom, InheritedLength, Compose, Effective, Text, Damaged, PathOf, Relative, SameStart;
    var u := Detect(line, p);
    UnitTokens(line, p);
    SameUnits(buf, line, p);
    if u.header.kind == Invalid || u.header.len == 0 {
      if u.next < |line| {
        SameSuffix(buf, line, p, u.next);
        LookupsExact(commands, line, buf, u.next, prev, prevHeader);
      }
    } else {
      ComposeStep(line, buf, p, prev);
      var (buf', h) := Compose(buf, prev, u.header);
      var held, cur := Text(buf, prev), Text(line, u.header);
      SameCompletion(prevHeader, held, cur);
      if Effective(held, cur) != Effective(prevHeader, cur) {
        assert Lookups(commands, buf, p, prev)[0] != WalkLookups(commands, line, p, prevHeader)[0];
      } else if u.next < |line| {
        if FindFrom(commands, Text(buf', h), 0).At? {
          Alike(Text(buf', h));
          LookupsExact(commands, line, buf', u.next, h, Text(buf', h));
          ConsEqual(Text(buf', h), Lookups(commands, buf', u.next, h), WalkLookups(commands, line, u.next, Text(buf', h)));
        } else {
          ConsEqual(Text(buf', h), Lookups(commands, buf', u.next, prev), WalkLookups(commands, line, u.next, prevHeader));
          StillAlike(held, prevHeader, prev.ptr + prev.len + InheritedLength(held, cur) - u.header.ptr);
          LookupsExact(commands, line, buf', u.next, prev, prevHeader);
        }
      }
    }
  }

  lemma ConsEqual(x: string, a: seq<string>, b: seq<string>)
    ensures [x] + a == [x] + b <==> a == b
  {
    if [x] + a == [x] + b {
      assert a == ([x] + a)[1..] && b == ([x] + b)[1..];
    }
  }

  lemma Alike(a: string)
    ensures SameStart(a, a)
  {
  }

  lemma StillAlike(held: string, prev: string, d: int)
    requires SameStart(held, prev) && d <= |held|
    ensures SameStart(Damaged(held, d), prev)
  {
    DamagedStart(held, d);
  }

  /** Then the whole run is the walk: the command of every unit is called with the program data of the original line. */
  lemma {:induction false} ComposedInPlace(commands: seq<Pattern>, line: string, buf: string, p: nat, prev: Token, prevHeader: string)
    requires CommandsOk(commands) && p <= |line| == |buf| && buf[p..] == line[p..]
    requires Inside(prev, buf) && prev.ptr + prev.len <= p && SameStart(Text(buf, prev), prevHeader)
    requires PathsKept(commands, line, p, prevHeader, Text(buf, prev), prev.ptr + prev.len)
    ensures EventsAgree(Run(commands, buf, p, prev), Walk(commands, line, p, prevHeader))
    decreases |line| - p
  {
    hide Detect, FindFrom, InheritedLength, Compose, Effective, Text, Trimmed, EventsAgree, Damaged, PathOf, Relative, SameStart;
    var u := Detect(line, p);
    UnitTokens(line, p);
    SameUnits(buf, line, p);
    EventsAgreeNil();
    if u.header.kind == Invalid || u.header.len == 0 {
      if u.next < |line| {
        SameSuffix(buf, line, p, u.next);
        ComposedInPlace(commands, line, buf, u.next, prev, prevHeader);
        if u.header.kind == Invalid {
          EventsAgreeCons(InvalidCharacter, InvalidCharacter,
                          Run(commands, buf, u.next, prev), Walk(commands, line, u.next, prevHeader));
        }
      } else if u.header.kind == Invalid {
        EventsAgreeCons(InvalidCharacter, InvalidCharacter, [], []);
      }
    } else {
      ComposeStep(line, buf, p, prev);
      var (buf', h) := Compose(buf, prev, u.header);
      var held, cur := Text(buf, prev), Text(line, u.header);
      SameCompletion(prevHeader, held, cur);
      var f := FindFrom(commands, Text(buf', h), 0);
      var runs, walks := [], [];
      if u.next < |line| {
        if f.At? {
          Alike(Text(buf', h));
          ComposedInPlace(commands, line, buf', u.next, h, Text(buf', h));
          runs, walks := Run(commands, buf', u.next, h), Walk(commands, line, u.next, Text(buf', h));
        } else {
          StillAlike(held, prevHeader, prev.ptr + prev.len + InheritedLength(held, cur) - u.header.ptr);
          ComposedInPlace(commands, line, buf', u.next, prev, prevHeader);
          runs, walks := Run(commands, buf', u.next, prev), Walk(commands, line, u.next, prevHeader);
        }
      }
      if f.At? {
        var e := Call(f.index, Text(buf', h), Text(buf', u.data));
        EventsAgreeCons(e, e, runs, walks);
      } else {
        EventsAgreeCons(UndefinedHeader(Trimmed(buf'[p..u.next])), UndefinedHeader(Trimmed(line[p..u.next])), runs, walks);
      }
    }
  }

  /** For a whole line: exactly then every header is looked up as the walk says, and then the events are the walk's. */
  lemma LineComposed(commands: seq<Pattern>, line: string)
    requires CommandsOk(commands)
    ensures Lookups(commands, line, 0, NO_TOKEN) == WalkLookups(commands, line, 0, "")
            <==> PathsKept(commands, line, 0, "", "", 0)
    ensures PathsKept(commands, line, 0, "", "", 0) ==>
              EventsAgree(Run(commands, line, 0, NO_TOKEN), Walk(commands, line, 0, ""))
  {
    hide Lookups, WalkLookups, PathsKept, EventsAgree, Run, Walk;
    assert Text(line, NO_TOKEN) == "";
    LookupsExact(commands, line, line, 0, NO_TOKEN, "");
    if PathsKept(commands, line, 0, "", "", 0) {
      ComposedInPlace(commands, line, line, 0, NO_TOKEN, "");
    }
  }

  lemma EventsAgreeNil()
    ensures EventsAgree([], [])
  {
  }

  /** Same events; the text quoted for an undefined header may show an inherited path. */
  predicate EventsAgree(a: seq<Event>, b: seq<Event>) {
    |a| == |b| && forall i :: 0 <= i < |a| ==> a[i] == b[i] || (a[i].UndefinedHeader? && b[i].UndefinedHeader?)
  }

  /** With every header found there is no damage. */
  lemma {:induction false} AllFoundKept(commands: seq<Pattern>, line: string, p: nat, prev: string, end: nat)
    requires CommandsOk(commands) && end <= p <= |line|
    requires forall e :: e in Walk(commands, line, p, prev) ==> !e.UndefinedHeader?
    ensures PathsKept(commands, line, p, prev, prev, end)
    decreases |line| - p
  {
    hide Detect, FindFrom, InheritedLength, Effective, Text, Trimmed, Damaged, PathOf, Relative;
    var u := Detect(line, p);
    UnitTokens(line, p);
    var walk := Walk(commands, line, p, prev);
    if u.header.kind == Invalid || u.header.len == 0 {
      if u.next < |line| {
        var rest := Walk(commands, line, u.next, prev);
        assert forall e :: e in rest ==> e in walk;
        AllFoundKept(commands, line, u.next, prev, end);
      }
    } else {
      var header := Effective(prev, Text(line, u.header));
      assert walk[0] in walk;
      if u.next < |line| {
        var rest := Walk(commands, line, u.next, header);
        assert forall e :: e in rest ==> e in walk;
        AllFoundKept(commands, line, u.next, header, u.header.ptr + u.header.len);
      }
    }
  }

  /** For a line in which every header is found, SCPI_Parse produces exactly the events of the tree walk. */
  lemma FoundLine(commands: seq<Pattern>, line: string)
    requires CommandsOk(commands)
    requires forall e :: e in Walk(commands, line, 0, "") ==> !e.UndefinedHeader?
    ensures Run(commands, line, 0, NO_TOKEN) == Walk(commands, line, 0, "")
  {
    hide Walk, Run, PathsKept, Lookups, WalkLookups;
    AllFoundKept(commands, line, 0, "", 0);
    LineComposed(commands, line);
    var a, b := Run(commands, line, 0, NO_TOKEN), Walk(commands, line, 0, "");
    assert forall i :: 0 <= i < |b| ==> b[i] in b;
  }

  /**
   * Exactly when an undefined header damages what later headers inherit: the
   * inherited path overwrites the last d bytes of the last header found with its
   * first d bytes, and its path is then another one.
   */
  lemma UndefinedHeaderDamage(buf: string, prev: Token, cur: Token)
    requires Inside(prev, buf) && Inside(cur, buf) && cur.len > 0 && prev.ptr + prev.len <= cur.ptr
    ensures var before, after := Text(buf, prev), Text(Compose(buf, prev, cur).0, prev);
            var d := prev.ptr + prev.len + InheritedLength(before, Text(buf, cur)) - cur.ptr;
            (forall y: string :: |y| > 0 ==> Effective(after, y) == Effective(before, y))
            <==> PathOf(Damaged(before, d)) == PathOf(before)
  {
    hide PathLength;
    var before := Text(buf, prev);
    var n := InheritedLength(before, Text(buf, cur));
    var d := prev.ptr + prev.len + n - cur.ptr;
    var after := Text(Compose(buf, prev, cur).0, prev);
    DamagedText(buf, prev, cur);
    DamagedStart(before, d);
    if d > 0 {
      SameInheritance(before, after);
    }
  }

  /** The text of the last header found after another one has been completed in place. */
  lemma DamagedText(buf: string, prev: Token, cur: Token)
    requires Inside(prev, buf) && Inside(cur, buf) && cur.len > 0 && prev.ptr + prev.len <= cur.ptr
    ensures var before := Text(buf, prev);
            var d := prev.ptr + prev.len + InheritedLength(before, Text(buf, cur)) - cur.ptr;
            && Text(Compose(buf, prev, cur).0, prev) == Damaged(before, d)
            && (d > 0 ==> before != "" && before[0] != '*')
  {
    hide PathLength, InheritedLength;
    var before := Text(buf, prev);
    var n := InheritedLength(before, Text(buf, cur));
    var d := prev.ptr + prev.len + n - cur.ptr;
    if d > 0 {
      InheritedFrom(before, Text(buf, cur));
      var m := |before| - d;
      OverwrittenTail(buf, prev.ptr, prev.len, cur.ptr, n);
      assert buf[prev.ptr..prev.ptr + m] == before[..m] && buf[prev.ptr..prev.ptr + d] == before[..d];
    } else {
      UntouchedFront(buf, prev.ptr, prev.len, cur.ptr, n);
    }
  }

  lemma InheritedFrom(prev: string, cur: string)
    requires |cur| > 0 && InheritedLength(prev, cur) > 0
    ensures prev != "" && prev[0] != '*'
  {
  }

  /** Two headers that are not common commands hand down the same exactly if their paths are the same. */
  lemma SameInheritance(before: string, after: string)
    requires before != "" && before[0] != '*' && after != "" && after[0] != '*'
    ensures (forall y: string :: |y| > 0 ==> Effective(after, y) == Effective(before, y)) <==> PathOf(after) == PathOf(before)
  {
    hide PathLength, PathOf, Effective;
    forall y: string | |y| > 0 ensures PathOf(after) == PathOf(before) ==> Effective(after, y) == Effective(before, y) {
      Inherits(before, y);
      Inherits(after, y);
    }
    Inherits(before, "Y");
    Inherits(after, "Y");
    SameFront(PathOf(before), PathOf(after), "Y");
  }

  lemma Inherits(prev: string, y: string)
    requires prev != "" && prev[0] != '*' && |y| > 0
    ensures Effective(prev, y) == (if y[0] == '*' || y[0] == ':' then "" else PathOf(prev)) + y
  {
    hide PathLength;
  }

  lemma SameFront(a: string, b: string, y: string)
    ensures a + y == b + y <==> a == b
  {
    if a + y == b + y {
      assert a == (a + y)[..|a|] && b == (b + y)[..|b|];
    }
  }

  lemma UntouchedFront(buf: string, a: nat, len: nat, c: nat, n: nat)
    requires a + len + n <= c <= |buf| && a + n <= |buf|
    ensures (buf[..c - n] + buf[a..a + n] + buf[c..])[a..a + len] == buf[a..a + len]
  {
    var front, path, back := buf[..c - n], buf[a..a + n], buf[c..];
    assert (front + path + back)[a..a + len] == front[a..a + len];
  }

  lemma OverwrittenTail(buf: string, a: nat, len: nat, c: nat, n: nat)
    requires a + len <= c <= |buf| && n <= len && c < a + len + n
    ensures var d := a + len + n - c;
            (buf[..c - n] + buf[a..a + n] + buf[c..])[a..a + len] == buf[a..a + (len - d)] + buf[a..a + d]
  {
    var d := a + len + n - c;
    var front, path, back := buf[..c - n], buf[a..a + n], buf[c..];
    assert (front + path + back)[a..a + len] == front[a..] + path[..d];
    assert path[..d] == buf[a..a + d];
  }

  /** One more line taken off the buffer. */
  lemma LineTaken(commands: seq<Pattern>, done: seq<string>, buffered: string)
    requires CommandsOk(commands) && ScanLine(buffered, 0).found
    ensures var end := ScanLine(buffered, 0).end;
            var line, rest := buffered[..end], Feed(buffered[end..]);
            && Feed(buffered).tail == rest.tail
            && done + Feed(buffered).lines == (done + [line]) + rest.lines
            && LineEvents(commands, done + [line]) == LineEvents(commands, done) + Run(commands, line, 0, NO_TOKEN)
  {
    hide Run, Feed, ScanLine, LineEvents;
    FeedUnfold(buffered);
    var end := ScanLine(buffered, 0).end;
    LineEventsSnoc(commands, done, buffered[..end]);
    ConsLines(done, buffered[..end], Feed(buffered[end..]).lines);
  }

  /** One more call of SCPI_Input. */
  lemma FeedOneMore(chunks: seq<string>, i: nat, buffered: string, done: seq<string>, capacity: nat)
    requires i < |chunks|
    ensures var fed, all := Feed(buffered + chunks[i]), FeedChunks(chunks[i..], buffered);
            var rest := FeedChunks(chunks[i + 1..], fed.tail);
            && all.tail == rest.tail && done + all.lines == (done + fed.lines) + rest.lines
            && (NeverOverruns(chunks[i..], buffered, capacity) <==>
                  |chunks[i]| > 0 && |buffered| + |chunks[i]| < capacity && NeverOverruns(chunks[i + 1..], fed.tail, capacity))
  {
    hide Feed;
    assert chunks[i..][0] == chunks[i] && chunks[i..][1..] == chunks[i + 1..];
    var fed := Feed(buffered + chunks[i]);
    var rest := FeedChunks(chunks[i + 1..], fed.tail);
    assert FeedChunks(chunks[i..], buffered) == Fed(fed.lines + rest.lines, rest.tail);
  }

  lemma FeedNoMore(buffered: string)
    ensures FeedChunks([], buffered) == Fed([], buffered)
  {
  }

  lemma ConsLines(done: seq<string>, line: string, rest: seq<string>)
    ensures done + ([line] + rest) == (done + [line]) + rest
  {
  }

  /** A token inside the line reads the same in the whole buffer. */
  lemma WindowText(whole: string, buf: string, t: Token)
    requires |buf| <= |whole| && whole[..|buf|] == buf && Inside(t, buf)
    ensures whole[t.ptr..t.ptr + t.len] == Text(buf, t)
  {
    forall i | t.ptr <= i < t.ptr + t.len ensures whole[i] == buf[i] {
      assert whole[..|buf|][i] == whole[i];
    }
  }

  /** A relative or absolute path that is a whole unit. */
  lemma PathUnit(s: string, p: nat, ms: seq<string>)
    requires ms != [] && LexerGrammar.AllMnemonics(ms) && Basics.Stands(s, p, LexerGrammar.PathText(ms))
    requires var e := p + |LexerGrammar.PathText(ms)|; e < |s| ==> s[e] == ';'
    ensures var n := |LexerGrammar.PathText(ms)|;
            var e := p + n;
            Detect(s, p) == Unit(Token(CompoundHeader, p, n), Token(Unknown, e, 0), 0,
                                 if e < |s| then SemicolonTermination else NoTermination, if e < |s| then e + 1 else e)
    ensures |LexerGrammar.PathText(ms)| > 0
  {
    hide Header, Span, Detect, LexerGrammar.PathText, LexerGrammar.HeaderText, LexerGrammar.IsMnemonic, Basics.Stands;
    PathStart(s, p, ms);
    BarePath(ms);
    Basics.StandsStart(s, p, LexerGrammar.PathText(ms));
    LexerGrammar.CompoundHeaderLexed(s, p, false, ms, false);
    BareUnit(s, p, p + |LexerGrammar.PathText(ms)|);
  }

  lemma BarePath(ms: seq<string>)
    requires ms != []
    ensures LexerGrammar.HeaderText(false, ms, false) == LexerGrammar.PathText(ms)
  {
    hide LexerGrammar.PathText;
  }

  lemma PathStart(s: string, p: nat, ms: seq<string>)
    requires ms != [] && LexerGrammar.AllMnemonics(ms) && Basics.Stands(s, p, LexerGrammar.PathText(ms))
    ensures |LexerGrammar.PathText(ms)| > 0 && p < |s| && IsAlpha(s[p])
  {
    hide LexerGrammar.PathText, Basics.Stands;
    LexerGrammar.NextMnemonic(s, p, ms);
    assert LexerGrammar.IsMnemonic(ms[0]);
    Basics.StandsStart(s, p, ms[0]);
  }

  /** A header without data that ends at e. */
  lemma BareUnit(s: string, p: nat, e: nat)
    requires p < e <= |s| && IsAlpha(s[p]) && (e < |s| ==> s[e] == ';')
    requires Header(s, p) == Lexed(Token(CompoundHeader, p, e - p), e, e - p)
    ensures Detect(s, p) == Unit(Token(CompoundHeader, p, e - p), Token(Unknown, e, 0), 0,
                                 if e < |s| then SemicolonTermination else NoTermination, if e < |s| then e + 1 else e)
  {
    hide Header, AllProgramDataFrom;
    assert Span(s, p, Blank) == p && Span(s, e, Blank) == e;
  }

  /** The units of a line of this form. */
  lemma ExampleUnits(line: string)
    requires |line| == 9 && line[1] == ':' && line[3] == ':' && line[5] == ';' && line[7] == ';'
    requires IsAlpha(line[0]) && IsAlpha(line[2]) && IsAlpha(line[4]) && IsAlpha(line[6]) && IsAlpha(line[8])
    ensures Detect(line, 0) == Unit(Token(CompoundHeader, 0, 5), Token(Unknown, 5, 0), 0, SemicolonTermination, 6)
    ensures Detect(line, 6) == Unit(Token(CompoundHeader, 6, 1), Token(Unknown, 7, 0), 0, SemicolonTermination, 8)
    ensures Detect(line, 8) == Unit(Token(CompoundHeader, 8, 1), Token(Unknown, 9, 0), 0, NoTermination, 9)
  {
    hide Detect;
    var a, b, c, x, y := [line[0]], [line[2]], [line[4]], [line[6]], [line[8]];
    assert [a, b, c][1..] == [b, c] && [b, c][1..] == [c];
    assert LexerGrammar.PathText([c]) == c && LexerGrammar.PathText([x]) == x && LexerGrammar.PathText([y]) == y;
    assert LexerGrammar.PathText([b, c]) == b + (":" + c);
    assert LexerGrammar.PathText([a, b, c]) == a + (":" + (b + (":" + c))) == line[..5];
    assert Basics.Stands(line, 0, line[..5]) && Basics.Stands(line, 6, x) && Basics.Stands(line, 8, y);
    PathUnit(line, 0, [a, b, c]);
    PathUnit(line, 6, [x]);
    PathUnit(line, 8, [y]);
  }

  const EXAMPLE := "A:B:C;X;Y"
  const DAMAGED := "A:A:B:X;Y"

  lemma ExampleFirst()
    ensures var prev := Token(CompoundHeader, 0, 5);
            Compose(EXAMPLE, NO_TOKEN, prev) == (EXAMPLE, prev) && Text(EXAMPLE, prev) == "A:B:C"
            && Text(EXAMPLE, Token(Unknown, 5, 0)) == ""
  {
    hide Compose, PathLength;
    NothingInherited(EXAMPLE, NO_TOKEN, Token(CompoundHeader, 0, 5));
    assert Text(EXAMPLE, NO_TOKEN) == "";
  }

  /** X is completed to A:B:X, over the end of A:B:C. */
  lemma ExampleX()
    ensures var prev, x, h := Token(CompoundHeader, 0, 5), Token(CompoundHeader, 6, 1), Token(CompoundHeader, 2, 5);
            Compose(EXAMPLE, prev, x) == (DAMAGED, h) && Text(DAMAGED, h) == "A:B:X" && DAMAGED[6..8] == "X;"
  {
    hide PathLength;
    var prev, x := Token(CompoundHeader, 0, 5), Token(CompoundHeader, 6, 1);
    LastColonAt("A:B:C", 3);
    assert Text(EXAMPLE, prev) == "A:B:C" && Text(EXAMPLE, x) == "X";
    assert InheritedLength("A:B:C", "X") == 4;
    assert EXAMPLE[..2] + EXAMPLE[0..4] + EXAMPLE[6..] == DAMAGED;
    assert DAMAGED[2..7] == "A:B:X" && DAMAGED[6..8] == "X;";
  }

  /** Y is completed to A:A:Y. */
  lemma ExampleY()
    ensures var prev, y, h := Token(CompoundHeader, 0, 5), Token(CompoundHeader, 8, 1), Token(CompoundHeader, 4, 5);
            Compose(DAMAGED, prev, y) == ("A:A:A:A:Y", h) && Text("A:A:A:A:Y", h) == "A:A:Y"
            && Text("A:A:A:A:Y", Token(Unknown, 9, 0)) == "" && "A:A:A:A:Y"[8..9] == "Y"
  {
    hide PathLength;
    var prev, y := Token(CompoundHeader, 0, 5), Token(CompoundHeader, 8, 1);
    LastColonAt("A:A:B", 3);
    assert Text(DAMAGED, prev) == "A:A:B" && Text(DAMAGED, y) == "Y";
    assert InheritedLength("A:A:B", "Y") == 4;
    assert DAMAGED[..4] + DAMAGED[0..4] + DAMAGED[8..] == "A:A:A:A:Y";
    assert "A:A:A:A:Y"[4..9] == "A:A:Y" && "A:A:A:A:Y"[9..9] == "" && "A:A:A:A:Y"[8..9] == "Y";
  }

  /** The tree walk completes them to A:B:X and A:B:Y. */
  lemma ExampleWalk()
    ensures Effective("", "A:B:C") == "A:B:C" && Effective("A:B:C", "X") == "A:B:X" && Effective("A:B:C", "Y") == "A:B:Y"
    ensures Detect(EXAMPLE, 0).header.len > 0 && Detect(EXAMPLE, 6).header.len > 0 && Detect(EXAMPLE, 8).header.len > 0
    ensures Detect(EXAMPLE, 0).header.kind == Detect(EXAMPLE, 6).header.kind == Detect(EXAMPLE, 8).header.kind == CompoundHeader
    ensures UnitTexts(EXAMPLE, 0, "A:B:C", "", "A:B:C;") && UnitTexts(EXAMPLE, 6, "X", "", "X;") && UnitTexts(EXAMPLE, 8, "Y", "", "Y")
  {
    hide PathLength, Detect;
    LastColonAt("A:B:C", 3);
    ExampleUnits(EXAMPLE);
  }

  lemma ExampleTrimmed()
    ensures Trimmed("X;") == "X;" && Trimmed("Y") == "Y" && Trimmed("A:B:C;") == "A:B:C;"
  {
  }

  lemma ExampleRest()
    ensures Detect(DAMAGED, 8) == Unit(Token(CompoundHeader, 8, 1), Token(Unknown, 9, 0), 0, NoTermination, 9)
  {
    hide Detect;
    assert LexerGrammar.PathText(["Y"]) == "Y" && Basics.Stands(DAMAGED, 8, "Y");
    PathUnit(DAMAGED, 8, ["Y"]);
  }

  function Answer(commands: seq<Pattern>, header: string, quoted: string): Event
    requires CommandsOk(commands) && |header| > 0
  {
    var f := FindFrom(commands, header, 0);
    if f.At? then Call(f.index, header, "") else UndefinedHeader(quoted)
  }

  /**
   * For every table that has A:B:C and not A:B:X: from the line A:B:C;X;Y the header Y is
   * looked up as A:A:Y, while the tree walk looks A:B:Y up.
   */
  lemma UndefinedHeaderExample(commands: seq<Pattern>)
    requires CommandsOk(commands) && FindFrom(commands, "A:B:C", 0).At? && FindFrom(commands, "A:B:X", 0) == NotFound
    ensures Run(commands, EXAMPLE, 0, NO_TOKEN)
            == [Answer(commands, "A:B:C", ""), UndefinedHeader("X;"), Answer(commands, "A:A:Y", "Y")]
    ensures Walk(commands, EXAMPLE, 0, "")
            == [Answer(commands, "A:B:C", ""), UndefinedHeader("X;"), Answer(commands, "A:B:Y", "Y")]
  {
    hide *;
    ExampleRun(commands);
    ExampleWalked(commands);
  }

  lemma ExampleRun(commands: seq<Pattern>)
    requires CommandsOk(commands) && FindFrom(commands, "A:B:C", 0).At? && FindFrom(commands, "A:B:X", 0) == NotFound
    ensures Run(commands, EXAMPLE, 0, NO_TOKEN)
            == [Answer(commands, "A:B:C", ""), UndefinedHeader("X;"), Answer(commands, "A:A:Y", "Y")]
  {
    hide Detect, FindFrom, Compose, Trimmed, Run, Text, CommandsOk;
    var prev := Token(CompoundHeader, 0, 5);
    ExampleUnits(EXAMPLE);
    ExampleRest();
    ExampleFirst();
    ExampleX();
    ExampleY();
    ExampleTrimmed();
    RunUnit(commands, EXAMPLE, 0, NO_TOKEN);
    RunUnit(commands, EXAMPLE, 6, prev);
    RunUnit(commands, DAMAGED, 8, prev);
  }

  /** One unit of the walk, given its texts. */
  lemma WalkUnit(commands: seq<Pattern>, line: string, p: nat, prev: string, cur: string, header: string, data: string, unit: string)
    requires CommandsOk(commands) && p <= |line| && Detect(line, p).header.kind != Invalid && Detect(line, p).header.len > 0
    requires UnitTexts(line, p, cur, data, unit) && |cur| > 0 && header == Effective(prev, cur) && Trimmed(unit) == unit
    ensures var f, next := FindFrom(commands, header, 0), Detect(line, p).next;
            Walk(commands, line, p, prev)
            == [if f.At? then Call(f.index, header, data) else UndefinedHeader(unit)]
               + if next < |line| then Walk(commands, line, next, if f.At? then header else prev) else []
  {
    hide Detect, FindFrom, Trimmed, Text, Effective, CommandsOk;
    UnitTokens(line, p);
  }

  predicate UnitTexts(line: string, p: nat, header: string, data: string, unit: string)
    requires p <= |line| && Detect(line, p).header.kind != Invalid && Detect(line, p).header.len > 0
  {
    var u := Detect(line, p);
    UnitTokens(line, p);
    Text(line, u.header) == header && Text(line, u.data) == data && line[p..u.next] == unit
  }

  lemma ExampleWalked(commands: seq<Pattern>)
    requires CommandsOk(commands) && FindFrom(commands, "A:B:C", 0).At? && FindFrom(commands, "A:B:X", 0) == NotFound
    ensures Walk(commands, EXAMPLE, 0, "")
            == [Answer(commands, "A:B:C", ""), UndefinedHeader("X;"), Answer(commands, "A:B:Y", "Y")]
  {
    hide Detect, FindFrom, Trimmed, Walk, Effective, CommandsOk, UnitTexts;
    ExampleUnits(EXAMPLE);
    ExampleWalk();
    ExampleTrimmed();
    WalkUnit(commands, EXAMPLE, 8, "A:B:C", "Y", "A:B:Y", "", "Y");
    WalkUnit(commands, EXAMPLE, 6, "A:B:C", "X", "A:B:X", "", "X;");
    WalkUnit(commands, EXAMPLE, 0, "", "A:B:C", "A:B:C", "", "A:B:C;");
  }

  function ThreeSegments(a: char, b: char, c: char): seq<Segment> {
    [Segment([a], false), Segment([b], false), Segment([c], false)]
  }

  predicate Capital(c: char) { 'A' <= c <= 'Z' }

  lemma OneLetter(a: char, rest: string)
    requires Capital(a) && (rest != "" ==> rest[0] == ':')
    ensures WordLength([a] + rest) == 1 && ([a] + rest)[..1] == [a] && ([a] + rest)[1..] == rest
    ensures forall x: char :: Capital(x) ==> (KeywordMatches([x], [a]) <==> x == a)
  {
  }

  lemma ThreeLetters(a: char, b: char, c: char, x: char, y: char, z: char)
    requires Capital(a) && Capital(b) && Capital(c) && Capital(x) && Capital(y) && Capital(z)
    ensures AcceptsFrom(ThreeSegments(a, b, c), [x, ':', y, ':', z]) <==> a == x && b == y && c == z
  {
    hide KeywordMatches, WordLength;
    var s1, s2 := [Segment([b], false), Segment([c], false)], [Segment([c], false)];
    assert ThreeSegments(a, b, c)[1..] == s1 && s1[1..] == s2 && AllOptional(s2[1..]);
    OneLetter(x, [':', y, ':', z]);
    OneLetter(y, [':', z]);
    OneLetter(z, []);
    assert [x] + [':', y, ':', z] == [x, ':', y, ':', z] && [y] + [':', z] == [y, ':', z] && [z] + [] == [z];
    assert [x, ':', y, ':', z][2..] == [y, ':', z] && [y, ':', z][2..] == [z];
    assert AcceptsFrom(s2, [z]) <==> c == z;
    assert AcceptsFrom(s1, [y, ':', z]) <==> b == y && c == z;
  }

  function ThreeLetterPattern(c: char): Pattern { Pattern(false, ThreeSegments('A', 'B', c), false) }

  lemma ThreeLetterAccepts(c: char, y: char, z: char)
    requires Capital(c) && Capital(y) && Capital(z)
    ensures WellFormed(ThreeLetterPattern(c))
    ensures Accepts(ThreeLetterPattern(c), ['A', ':', y, ':', z]) <==> y == 'B' && z == c
  {
    hide AcceptsFrom;
    ThreeLetters('A', 'B', c, 'A', y, z);
  }

  lemma FoundInTwo(commands: seq<Pattern>, header: string)
    requires |commands| == 2 && CommandsOk(commands) && |header| > 0
    ensures FindFrom(commands, header, 0)
            == if Accepts(commands[0], header) then At(0) else if Accepts(commands[1], header) then At(1) else NotFound
  {
  }

  /** A table with A:B:C and A:B:Y: the line calls A:B:C, and Y is reported as undefined. */
  lemma UndefinedHeaderTable()
    ensures var commands := [ThreeLetterPattern('C'), ThreeLetterPattern('Y')];
            && CommandsOk(commands)
            && Run(commands, EXAMPLE, 0, NO_TOKEN) == [Call(0, "A:B:C", ""), UndefinedHeader("X;"), UndefinedHeader("Y")]
            && Walk(commands, EXAMPLE, 0, "") == [Call(0, "A:B:C", ""), UndefinedHeader("X;"), Call(1, "A:B:Y", "")]
  {
    hide Run, Walk, Accepts, WellFormed, FindFrom, ThreeLetterPattern;
    var commands := [ThreeLetterPattern('C'), ThreeLetterPattern('Y')];
    ThreeLetterAccepts('C', 'B', 'C');
    ThreeLetterAccepts('C', 'B', 'X');
    ThreeLetterAccepts('C', 'A', 'Y');
    ThreeLetterAccepts('C', 'B', 'Y');
    ThreeLetterAccepts('Y', 'B', 'X');
    ThreeLetterAccepts('Y', 'A', 'Y');
    ThreeLetterAccepts('Y', 'B', 'Y');
    FoundInTwo(commands, "A:B:C");
    FoundInTwo(commands, "A:B:X");
    FoundInTwo(commands, "A:A:Y");
    FoundInTwo(commands, "A:B:Y");
    UndefinedHeaderExample(commands);
  }

  lemma LastColonAt(h: string, i: nat)
    requires |h| == i + 2 && h[i] == ':' && h[i + 1] != ':'
    ensures PathLength(h) == i + 1
  {
    assert h[..|h| - 1][|h| - 2] == ':';
  }

  // ------------------------------------------------------------ header characters

  predicate HeaderRange(s: string, p: nat, e: nat)
    requires e <= |s|
  {
    forall i :: p <= i < e ==> IsHeaderChar(s[i])
  }

  lemma MnemonicChars(s: string, p: nat)
    requires p <= |s|
    ensures HeaderRange(s, p, Mnemonic(s, p))
  {
    if p < |s| && IsAlpha(s[p]) {
      SpanRun(s, p + 1, MnemonicChar);
    }
  }

  lemma {:induction false} CompoundTailChars(s: string, p: nat)
    requires p <= |s|
    ensures HeaderRange(s, p, CompoundTail(s, p).1)
    decreases |s| - p
  {
    hide Mnemonic;
    if Lexer.At(s, p, ':') {
      MnemonicChars(s, p + 1);
      var e := Mnemonic(s, p + 1);
      if e > p + 1 {
        CompoundTailChars(s, e);
      }
    }
  }

  lemma HeaderChars(s: string, p: nat)
    requires p <= |s|
    ensures HeaderRange(s, p, Header(s, p).pos)
  {
    hide Mnemonic, CompoundTail;
    var start := if Lexer.At(s, p, '*') || Lexer.At(s, p, ':') then p + 1 else p;
    MnemonicChars(s, start);
    CompoundTailChars(s, Mnemonic(s, start));
  }

  lemma UnitHeaderChars(s: string, p: nat)
    requires p <= |s|
    ensures var h := Detect(s, p).header;
            h.kind != Invalid && Inside(h, s) ==> HeaderText(Text(s, h))
  {
    hide Span, HeaderExtent, AllProgramDataFrom, NewLineEnd;
    HeaderChars(s, Span(s, p, Blank));
  }

  // ------------------------------------------------------------ the C functions

  /** The part of scpi_t that SCPI_Input and SCPI_Parse work on. */
  class Context {
    const commands: seq<Pattern>
    const data: array<char>      // buffer.data, buffer.length characters long
    var position: nat            // buffer.position
    var lines: seq<string>       // every slice handed to SCPI_Parse, as it was handed over
    var events: seq<Event>       // what the calls of SCPI_Parse and SCPI_Input reported

    constructor (commands: seq<Pattern>, length: nat)
      requires CommandsOk(commands) && length > 0
      ensures Valid() && this.commands == commands && data.Length == length && fresh(data)
      ensures Content() == "" && lines == [] && events == []
    {
      this.commands := commands;
      data := new char[length](_ => '\0');
      position, lines, events := 0, [], [];
    }

    ghost predicate Valid()
      reads this
    {
      CommandsOk(commands) && position < data.Length
    }

    /** What is buffered. */
    ghost function Content(): string
      requires position <= data.Length
      reads this, data
    {
      data[..position]
    }

    method FindCommandHeader(header: string) returns (f: Found)
      requires CommandsOk(commands) && |header| > 0 && HeaderText(header)
      ensures f == FindFrom(commands, header, 0)
    {
      var i := 0;
      while i < |commands|
        invariant 0 <= i <= |commands|
        invariant FindFrom(commands, header, 0) == FindFrom(commands, header, i)
      {
        var matched := MatchCommand(commands[i], Render(commands[i]), header);
        if matched {
          return At(i);
        }
        i := i + 1;
      }
      f := NotFound;
    }

    /** The loop of composeCompoundCommand: where the last colon of the previous header is. */
    method LastColon(ghost before: string, prev: Token) returns (i: nat)
      requires data[..] == before && Inside(prev, before)
      ensures i == PathLength(Text(before, prev))
    {
      ghost var text := Text(before, prev);
      i := prev.len;
      assert text[..i] == text;
      while i > 0 && data[prev.ptr + i - 1] != ':'
        invariant 0 <= i <= prev.len && PathLength(text) == PathLength(text[..i])
      {
        assert text[i - 1] == data[prev.ptr + i - 1];
        assert text[..i][..i - 1] == text[..i - 1];
        i := i - 1;
      }
      assert i > 0 ==> text[i - 1] == data[prev.ptr + i - 1];
    }

    /** memmove inside the buffer, which holds before: as if through a copy of the source. */
    method MemMove(ghost before: string, dst: nat, src: nat, n: nat)
      requires data[..] == before && src + n <= |before| && dst + n <= |before|
      modifies data
      ensures data[..] == before[..dst] + before[src..src + n] + before[dst + n..]
    {
      forall j | 0 <= j < n {
        data[dst + j] := data[src + j];
      }
    }

    method ComposeCompoundCommand(ghost before: string, prev: Token, current: Token) returns (r: Token)
      requires data[..] == before && Inside(prev, before) && Inside(current, before) && current.len > 0
      requires prev.ptr + prev.len <= current.ptr
      modifies data
      ensures (data[..], r) == Compose(before, prev, current)
    {
      hide InheritedLength, PathLength, Text;
      NothingInherited(before, prev, current);
      r := current;
      assert before[current.ptr] == data[current.ptr] && (prev.len > 0 ==> before[prev.ptr] == data[prev.ptr]);
      if prev.len == 0 || data[current.ptr] == '*' || data[current.ptr] == ':' || data[prev.ptr] == '*' {
        return;
      }
      var i := LastColon(before, prev);
      if i == 0 {
        return;
      }
      r := Token(current.kind, current.ptr - i, current.len + i);
      MemMove(before, r.ptr, prev.ptr, i);
    }

    /** A unit with a header: complete it, look it up, call it or report it. */
    method DispatchHeader(ghost buf: string, len: nat, p: nat, prev: Token, u: Unit) returns (prev': Token)
      requires CommandsOk(commands) && len <= data.Length && data[..len] == buf
      requires p <= len && u == Detect(buf, p) && u.header.kind != Invalid && u.header.len > 0
      requires Inside(prev, buf) && prev.ptr + prev.len <= p && HeaderText(Text(buf, prev))
      modifies `events, data
      ensures data[len..] == old(data[len..])
      ensures (UnitTokens(buf, p); data[..len] == Compose(buf, prev, u.header).0)
      ensures (UnitTokens(buf, p);
              var (buf', h) := Compose(buf, prev, u.header);
              var f := FindFrom(commands, Text(buf', h), 0);
              && prev' == (if f.At? then h else prev) && HeaderText(Text(buf', prev'))
              && events == old(events) +
                           [if f.At? then Call(f.index, Text(buf', h), Text(buf', u.data))
                            else UndefinedHeader(Trimmed(buf'[p..u.next]))])
    {
      hide Detect, FindFrom, Compose, Trimmed, Text, HeaderText;
      ghost var whole := data[..];
      DispatchTexts(whole, buf, p, prev, u);
      var header := ComposeCompoundCommand(whole, prev, u.header);
      ghost var after := Compose(whole, prev, u.header).0;
      assert data[..] == after && data[..len] == after[..len] && data[len..] == after[len..];
      var text := data[header.ptr..header.ptr + header.len];
      assert text == after[header.ptr..header.ptr + header.len];
      var found := FindCommandHeader(text);
      if found.At? {
        var params := data[u.data.ptr..u.data.ptr + u.data.len];
        assert params == after[u.data.ptr..u.data.ptr + u.data.len];
        events := events + [Call(found.index, text, params)];
        prev' := header;
      } else {
        var slice := data[p..u.next];
        assert slice == after[p..u.next];
        events := events + [UndefinedHeader(Trimmed(slice))];
        prev' := prev;
      }
    }

    /** One turn of the loop of SCPI_Parse over the line data[..len]: the next unit and the new cmd_prev. */
    method ParseUnit(ghost buf: string, len: nat, p: nat, prev: Token) returns (next: nat, prev': Token)
      requires CommandsOk(commands) && len <= data.Length && data[..len] == buf && p <= len
      requires Inside(prev, buf) && prev.ptr + prev.len <= p && HeaderText(Text(buf, prev))
      modifies `events, data
      ensures p <= next <= len && (p < len ==> p < next)
      ensures Inside(prev', data[..len]) && prev'.ptr + prev'.len <= next && HeaderText(Text(data[..len], prev'))
      ensures data[len..] == old(data[len..])
      ensures old(events) + Run(commands, buf, p, prev)
              == events + if next < len then Run(commands, data[..len], next, prev') else []
    {
      hide Detect, Run, FindFrom, Compose, Trimmed, Text;
      UnitTokens(buf, p);
      RunUnit(commands, buf, p, prev);
      var u := DetectProgramMessageUnit(data[..len], p);
      next, prev' := u.next, prev;
      ghost var before := events;
      if u.header.kind == Invalid {
        events := events + [InvalidCharacter];
      } else if u.header.len > 0 {
        prev' := DispatchHeader(buf, len, p, prev, u);
      }
      ghost var rest := if next < len then Run(commands, data[..len], next, prev') else [];
      assert before + (events[|before|..] + rest) == events + rest;
    }

    /** SCPI_Parse over the line data[..len]. */
    method Parse(len: nat)
      requires Valid() && len <= data.Length
      modifies `events, `lines, data
      ensures Valid() && data[len..] == old(data[len..])
      ensures lines == old(lines) + [old(data[..len])]
      ensures events == old(events) + Run(commands, old(data[..len]), 0, NO_TOKEN)
    {
      hide Run;
      ghost var line, before := data[..len], events;
      lines := lines + [data[..len]];
      var p, prev := 0, NO_TOKEN;
      var next: nat;
      next, prev := ParseUnit(line, len, p, prev);
      while next < len
        invariant next <= len && data[len..] == old(data[len..]) && lines == old(lines) + [line]
        invariant Inside(prev, data[..len]) && prev.ptr + prev.len <= next && HeaderText(Text(data[..len], prev))
        invariant before + Run(commands, line, 0, NO_TOKEN)
                  == events + if next < len then Run(commands, data[..len], next, prev) else []
        decreases len - next
      {
        p := next;
        next, prev := ParseUnit(data[..len], len, p, prev);
      }
      assert events + [] == events;
    }

    /** SCPI_Input. */
    method Input(chunk: string)
      requires Valid()
      modifies this, data
      ensures Valid()
      ensures if |chunk| == 0 then
                && position == 0 && lines == old(lines) + [old(Content())]
                && events == old(events) + Run(commands, old(Content()), 0, NO_TOKEN)
              else if |chunk| > data.Length - old(position) - 1 then
                position == 0 && lines == old(lines) && events == old(events) + [BufferOverrun]
              else
                var fed := Feed(old(Content()) + chunk);
                && Content() == fed.tail && lines == old(lines) + fed.lines
                && events == old(events) + LineEvents(commands, fed.lines)
    {
      hide Run, Feed;
      if |chunk| == 0 {
        ghost var line := data[..position];
        data[position] := '\0';
        assert data[..position] == line;
        Parse(position);
        position := 0;
        return;
      }
      var bufferFree := data.Length - position;
      if |chunk| > bufferFree - 1 {
        position := 0;
        data[position] := '\0';
        events := events + [BufferOverrun];
        return;
      }
      ghost var whole := Content() + chunk;
      forall j | 0 <= j < |chunk| {
        data[position + j] := chunk[j];
      }
      position := position + |chunk|;
      data[position] := '\0';
      assert Content() == whole;
      ScanBuffer(whole);
    }

    /**
     * Call after call of SCPI_Input, none of which overruns the buffer: the commands run are
     * those of the lines handed on.  For a plain stream, however it is split into calls,
     * these are the lines of the stream, and its unterminated tail stays in the buffer.
     */
    method InputAll(chunks: seq<string>)
      requires Valid() && NeverOverruns(chunks, Content(), data.Length)
      modifies this, data
      ensures Valid()
      ensures var fed := FeedChunks(chunks, old(Content()));
              && Content() == fed.tail && lines == old(lines) + fed.lines
              && events == old(events) + LineEvents(commands, fed.lines)
      ensures var stream := old(Content()) + Concat(chunks);
              Plain(stream) && LineFeed(old(Content()), 0) == |old(Content())| ==>
                && lines == old(lines) + Lines(stream).lines && Content() == Lines(stream).tail
                && events == old(events) + LineEvents(commands, Lines(stream).lines)
    {
      hide Run, Feed, FeedChunks, NeverOverruns, LineEvents, Plain, Lines, LineFeed, Concat;
      LineEventsNone(commands);
      ghost var done: seq<string> := [];
      ghost var first, all := Content(), FeedChunks(chunks, Content());
      var i := 0;
      assert chunks[0..] == chunks && [] + all.lines == all.lines;
      while i < |chunks|
        invariant i <= |chunks| && Valid() && NeverOverruns(chunks[i..], Content(), data.Length)
        invariant var rest := FeedChunks(chunks[i..], Content()); all.lines == done + rest.lines && all.tail == rest.tail
        invariant lines == old(lines) + done && events == old(events) + LineEvents(commands, done)
      {
        ghost var fed := Feed(Content() + chunks[i]);
        LineEventsConcat(commands, done, fed.lines);
        FeedOneMore(chunks, i, Content(), done, data.Length);
        Input(chunks[i]);
        done := done + fed.lines;
        i := i + 1;
      }
      FeedNoMore(Content());
      assert chunks[i..] == [];
      assert done + [] == done;
      if Plain(first + Concat(chunks)) && LineFeed(first, 0) == |first| {
        ChunkingIrrelevant(chunks, first);
      }
    }

    /** One turn of the loop of SCPI_Input: the new totcmdlen, and whether the loop ends. */
    method ScanUnit(ghost buffered: string, tot: nat) returns (tot': nat, stop: bool, ghost taken: bool)
      requires Valid() && Content() == buffered && tot <= position
      modifies this, data
      ensures Valid() && tot' <= position && (!stop ==> position - tot' < old(position) - tot)
      ensures var scan := ScanLine(buffered, tot);
              if taken then
                && !stop && tot' == 0 && scan.found && Content() == buffered[scan.end..]
                && lines == old(lines) + [buffered[..scan.end]]
                && events == old(events) + Run(commands, buffered[..scan.end], 0, NO_TOKEN)
              else
                && Content() == buffered && lines == old(lines) && events == old(events)
                && if stop then !scan.found
                   else var next := ScanLine(buffered, tot'); scan.found == next.found && scan.end == next.end
    {
      hide Run, Detect, ScanLine;
      ScanUnfold(buffered, tot);
      var state := DetectProgramMessageUnit(data[..position], tot);
      tot', stop, taken := state.next, false, false;
      if state.termination == NewLineTermination {
        TakeLine(buffered, tot');
        tot', taken := 0, true;
      } else {
        stop := (state.header.kind == Unknown && state.termination == NoTermination) || tot' >= position;
      }
    }

    /** The loop of SCPI_Input. */
    method ScanBuffer(ghost whole: string)
      requires Valid() && Content() == whole
      modifies this, data
      ensures Valid()
      ensures var fed := Feed(whole);
              && Content() == fed.tail && lines == old(lines) + fed.lines
              && events == old(events) + LineEvents(commands, fed.lines)
    {
      hide Run, Detect, Feed, ScanLine, LineEvents;
      LineEventsNone(commands);
      var tot: nat := 0;
      var stop := false;
      ghost var taken;
      ghost var done: seq<string> := [];
      ghost var buffered := whole;
      assert [] + Feed(whole).lines == Feed(whole).lines;
      while !stop
        invariant Valid() && tot <= position && buffered == Content()
        invariant Feed(whole).lines == done + Feed(buffered).lines && Feed(whole).tail == Feed(buffered).tail
        invariant lines == old(lines) + done && events == old(events) + LineEvents(commands, done)
        invariant stop ==> !ScanLine(buffered, 0).found
        invariant !stop ==> ScanLine(buffered, 0).found == ScanLine(buffered, tot).found && ScanLine(buffered, 0).end == ScanLine(buffered, tot).end
        decreases !stop, position - tot
      {
        tot, stop, taken := ScanUnit(buffered, tot);
        if taken {
          LineTaken(commands, done, buffered);
          ghost var end := ScanLine(buffered, 0).end;
          done, buffered := done + [buffered[..end]], buffered[end..];
        }
      }
      FeedUnfold(buffered);
      assert done + [] == done;
    }

    /** A complete line: parse it, and move the rest of the buffer down. */
    method TakeLine(ghost buffered: string, tot: nat)
      requires Valid() && Content() == buffered && tot <= position
      modifies this, data
      ensures Valid() && position == old(position) - tot && Content() == buffered[tot..]
      ensures lines == old(lines) + [buffered[..tot]]
      ensures events == old(events) + Run(commands, buffered[..tot], 0, NO_TOKEN)
    {
      hide Run;
      assert data[..tot] == buffered[..tot];
      ghost var rest := data[tot..];
      assert rest[..position - tot] == buffered[tot..];
      Parse(tot);
      ghost var moved := data[..];
      assert moved[tot..position] == rest[..position - tot];
      MemMove(moved, 0, tot, position - tot);
      position := position - tot;
    }
  }

  /** The events of the lines handed to SCPI_Parse, one after the other. */
  function LineEvents(commands: seq<Pattern>, lines: seq<string>): seq<Event>
    requires CommandsOk(commands)
  {
    if lines == [] then [] else Run(commands, lines[0], 0, NO_TOKEN) + LineEvents(commands, lines[1..])
  }

  lemma LineEventsNone(commands: seq<Pattern>)
    requires CommandsOk(commands)
    ensures LineEvents(commands, []) == []
  {
  }

  /** Every chunk fits the buffer next to what is still there. */
  predicate NeverOverruns(chunks: seq<string>, buffered: string, capacity: nat)
    decreases |chunks|
  {
    chunks == [] ||
    (|chunks[0]| > 0 && |buffered| + |chunks[0]| < capacity
     && NeverOverruns(chunks[1..], Feed(buffered + chunks[0]).tail, capacity))
  }

  lemma {:induction false} LineEventsConcat(commands: seq<Pattern>, a: seq<string>, b: seq<string>)
    requires CommandsOk(commands)
    ensures LineEvents(commands, a + b) == LineEvents(commands, a) + LineEvents(commands, b)
    decreases |a|
  {
    hide Run;
    if a == [] {
      assert a + b == b;
    } else {
      LineEventsConcat(commands, a[1..], b);
      assert (a + b)[1..] == a[1..] + b;
    }
  }

  lemma LineEventsCons(commands: seq<Pattern>, line: string, rest: seq<string>)
    requires CommandsOk(commands)
    ensures LineEvents(commands, [line] + rest) == Run(commands, line, 0, NO_TOKEN) + LineEvents(commands, rest)
  {
    hide Run;
    assert ([line] + rest)[1..] == rest;
  }

  lemma {:induction false} LineEventsSnoc(commands: seq<Pattern>, lines: seq<string>, line: string)
    requires CommandsOk(commands)
    ensures LineEvents(commands, lines + [line]) == LineEvents(commands, lines) + Run(commands, line, 0, NO_TOKEN)
    decreases |lines|
  {
    hide Run;
    if lines == [] {
      assert LineEvents(commands, [line]) == Run(commands, line, 0, NO_TOKEN) + [];
    } else {
      assert (lines + [line])[1..] == lines[1..] + [line];
      LineEventsSnoc(commands, lines[1..], line);
    }
  }

  /** Composition in the whole array is composition in the line. */
  lemma ComposeInWindow(whole: string, buf: string, prev: Token, cur: Token)
    requires buf <= whole && Inside(prev, buf) && Inside(cur, buf) && cur.len > 0 && prev.ptr + prev.len <= cur.ptr
    ensures Text(whole, prev) == Text(buf, prev) && Text(whole, cur) == Text(buf, cur)
    ensures var (w, h) := Compose(whole, prev, cur);
            h == Compose(buf, prev, cur).1 && w[..|buf|] == Compose(buf, prev, cur).0 && w[|buf|..] == whole[|buf|..]
  {
    hide InheritedLength;
    assert Text(whole, prev) == Text(buf, prev) && Text(whole, cur) == Text(buf, cur);
  }

  lemma NothingInherited(buf: string, prev: Token, cur: Token)
    requires Inside(prev, buf) && Inside(cur, buf) && cur.len > 0 && prev.ptr + prev.len <= cur.ptr
    ensures var n := InheritedLength(Text(buf, prev), Text(buf, cur));
            && (n == 0 ==> Compose(buf, prev, cur) == (buf, cur))
            && n == if prev.len == 0 || buf[cur.ptr] == '*' || buf[cur.ptr] == ':' || buf[prev.ptr] == '*' then 0
                    else PathLength(Text(buf, prev))
  {
    assert Text(buf, cur)[0] == buf[cur.ptr];
    assert prev.len > 0 ==> Text(buf, prev)[0] == buf[prev.ptr];
    assert buf == buf[..cur.ptr] + buf[prev.ptr..prev.ptr] + buf[cur.ptr..];
  }

  /** What the array holds after composition, read through the line it begins with. */
  lemma DispatchTexts(whole: string, buf: string, p: nat, prev: Token, u: Unit)
    requires buf <= whole && p <= |buf| && u == Detect(buf, p) && u.header.kind != Invalid && u.header.len > 0
    requires Inside(prev, buf) && prev.ptr + prev.len <= p && HeaderText(Text(buf, prev))
    ensures Inside(u.header, buf) && Inside(u.data, buf) && prev.ptr + prev.len <= u.header.ptr && u.next <= |buf|
    ensures Inside(prev, whole) && Inside(u.header, whole)
    ensures var (w, h) := Compose(whole, prev, u.header);
            var buf' := Compose(buf, prev, u.header).0;
            && h == Compose(buf, prev, u.header).1 && h.len > 0
            && w[..|buf|] == buf' && w[|buf|..] == whole[|buf|..]
            && w[h.ptr..h.ptr + h.len] == Text(buf', h)
            && w[u.data.ptr..u.data.ptr + u.data.len] == Text(buf', u.data)
            && w[p..u.next] == buf'[p..u.next]
            && HeaderText(Text(buf', h)) && HeaderText(Text(buf', prev))
  {
    hide Detect, Compose, Text, HeaderText;
    UnitTokens(buf, p);
    UnitHeaderChars(buf, p);
    ComposeInWindow(whole, buf, prev, u.header);
    ComposedHeader(buf, prev, u.header);
    UndefinedPrevChars(buf, prev, u.header);
    var (w, h) := Compose(whole, prev, u.header);
    var buf' := Compose(buf, prev, u.header).0;
    WindowText(w, buf', h);
    WindowText(w, buf', u.data);
    WindowText(w, buf', Token(u.data.kind, p, u.next - p));
    TokenText(buf', Token(u.data.kind, p, u.next - p));
  }

  lemma TokenText(s: string, t: Token)
    requires Inside(t, s)
    ensures Text(s, t) == s[t.ptr..t.ptr + t.len]
  {
  }

  /** A completed header consists of header characters. */
  lemma ComposedHeader(buf: string, prev: Token, cur: Token)
    requires Inside(prev, buf) && Inside(cur, buf) && cur.len > 0 && prev.ptr + prev.len <= cur.ptr
    requires HeaderText(Text(buf, prev)) && HeaderText(Text(buf, cur))
    ensures var (buf', h) := Compose(buf, prev, cur); HeaderText(Text(buf', h))
  {
    hide InheritedLength, Compose;
    ComposeEffect(buf, prev, cur);
  }

  /** Even when damaged, the last header found consists of header characters. */
  lemma UndefinedPrevChars(buf: string, prev: Token, cur: Token)
    requires Inside(prev, buf) && Inside(cur, buf) && cur.len > 0 && prev.ptr + prev.len <= cur.ptr
    requires HeaderText(Text(buf, prev)) && HeaderText(Text(buf, cur))
    ensures HeaderText(Text(Compose(buf, prev, cur).0, prev))
  {
    hide InheritedLength;
    var (buf', h) := Compose(buf, prev, cur);
    ComposedHeader(buf, prev, cur);
    forall k | 0 <= k < prev.len
      ensures IsHeaderChar(Text(buf', prev)[k])
    {
      if prev.ptr + k < h.ptr {
        assert Text(buf', prev)[k] == Text(buf, prev)[k];
      } else {
        assert Text(buf', prev)[k] == Text(buf', h)[prev.ptr + k - h.ptr];
      }
    }
  }
}
