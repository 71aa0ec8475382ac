// The command table of scpi_def.c: no command is accepted by two of its patterns,
// so the first match in the table is the only one.

module CommandTable {
  import opened CommandMatch
  import opened CommandChoice
  import Parser

  // ------------------------------------------------------------ the table

  /** A pattern without optional keywords. */
  function Command(keywords: seq<string>, query: bool): (p: Pattern)
    ensures |p.segments| == |keywords| && forall i :: 0 <= i < |keywords| ==> p.segments[i] == Segment(keywords[i], false)
  {
    Pattern(false, seq(|keywords|, i requires 0 <= i < |keywords| => Segment(keywords[i], false)), query)
  }

  /** The spelling of a row: keywords with colons between them. */
  function Spelled(keywords: seq<string>): string
    requires keywords != []
  {
    if |keywords| == 1 then keywords[0] else keywords[0] + ":" + Spelled(keywords[1..])
  }

  lemma {:induction false} TailSpelled(segs: seq<Segment>, keywords: seq<string>)
    requires |segs| == |keywords| > 0 && forall i :: 0 <= i < |segs| ==> segs[i] == Segment(keywords[i], false)
    ensures RenderKeywords(segs) == Spelled(keywords)
    decreases |segs|
  {
    if |segs| == 1 {
      assert RenderTail(segs[1..]) == "";
      assert segs[0].keyword + "" == keywords[0];
    } else {
      TailSpelled(segs[1..], keywords[1..]);
      assert RenderTail(segs[1..]) == ":" + Spelled(keywords[1..]);
    }
  }

  /** The pattern text of a row without optional keywords is its spelling and the query mark. */
  lemma CommandText(keywords: seq<string>, query: bool)
    requires keywords != [] && forall i :: 0 <= i < |keywords| ==> KeywordOk(keywords[i])
    ensures Render(Command(keywords, query)) == Spelled(keywords) + if query then "?" else ""
  {
    hide RenderKeywords, KeywordOk;
    var p := Command(keywords, query);
    TailSpelled(p.segments, keywords);
    assert "" + Spelled(keywords) == Spelled(keywords);
  }

  const BOARD_SIZE := 53

  /** Rows: IEEE 488.2 mandatory commands. */
  function MandatoryRow(i: nat): Pattern
    requires i < 13
  {
    if i == 0 then Command(["*CLS"], false)
    else if i == 1 then Command(["*ESE"], false)
    else if i == 2 then Command(["*ESE"], true)
    else if i == 3 then Command(["*ESR"], true)
    else if i == 4 then Command(["*IDN"], true)
    else if i == 5 then Command(["*OPC"], false)
    else if i == 6 then Command(["*OPC"], true)
    else if i == 7 then Command(["*RST"], false)
    else if i == 8 then Command(["*SRE"], false)
    else if i == 9 then Command(["*SRE"], true)
    else if i == 10 then Command(["*STB"], true)
    else if i == 11 then Command(["*TST"], true)
    else Command(["*WAI"], false)
  }

  /** Rows: required SCPI commands. */
  function RequiredRow(i: nat): Pattern
    requires i < 3
  {
    if i == 0 then Pattern(false, [Segment("SYSTem", false), Segment("ERRor", false), Segment("NEXT", true)], true)
    else if i == 1 then Command(["SYSTem", "ERRor", "COUNt"], true)
    else Command(["SYSTem", "VERSion"], true)
  }

  /** Rows: system control. */
  function SystemRow(i: nat): Pattern
    requires i < 6
  {
    if i == 0 then Command(["SYSTem", "BOOTloader", "ENter"], false)
    else if i == 1 then Command(["SYSTem", "RST"], false)
    else if i == 2 then Command(["SYSTem", "ID"], true)
    else if i == 3 then Command(["SYSTem", "FRAM", "PING"], true)
    else if i == 4 then Command(["SYSTem", "FRAM", "DIAG"], true)
    else Command(["SYSTem", "I2C", "SCAN"], true)
  }

  /** Rows: resistance decade control. */
  function ResistanceRow(i: nat): Pattern
    requires i < 4
  {
    if i == 0 then Command(["RESistance", "VALue"], false)
    else if i == 1 then Command(["RESistance", "VALue"], true)
    else if i == 2 then Command(["RESistance", "DECade"], false)
    else Command(["RESistance", "DECade"], true)
  }

  /** Rows: output terminal relay and relay supply. */
  function OutputRow(i: nat): Pattern
    requires i < 4
  {
    if i == 0 then Command(["OUTPut", "STATe"], false)
    else if i == 1 then Command(["OUTPut", "STATe"], true)
    else if i == 2 then Command(["OUTPut", "RELay", "ENable"], false)
    else Command(["OUTPut", "RELay", "ENable"], true)
  }

  /** Rows: raw relay access. */
  function RelayRow(i: nat): Pattern
    requires i < 4
  {
    if i == 0 then Command(["RELay", "RAW"], false)
    else if i == 1 then Command(["RELay", "RAW"], true)
    else if i == 2 then Command(["RELay", "STATe"], false)
    else Command(["RELay", "STATe"], true)
  }

  /** Rows: network configuration. */
  function NetworkRow(i: nat): Pattern
    requires i < 12
  {
    if i == 0 then Command(["NET", "IPADdress"], false)
    else if i == 1 then Command(["NET", "IPADdress"], true)
    else if i == 2 then Command(["NET", "SMASk"], false)
    else if i == 3 then Command(["NET", "SMASk"], true)
    else if i == 4 then Command(["NET", "GATEway"], false)
    else if i == 5 then Command(["NET", "GATEway"], true)
    else if i == 6 then Command(["NET", "DHCP"], false)
    else if i == 7 then Command(["NET", "DHCP"], true)
    else if i == 8 then Command(["NET", "PHY", "MODE"], false)
    else if i == 9 then Command(["NET", "PHY", "MODE"], true)
    else if i == 10 then Command(["NET", "APPLy"], false)
    else Command(["NET", "STATe"], true)
  }

  /** Rows: decade calibration. */
  function CalibrationRow(i: nat): Pattern
    requires i < 7
  {
    if i == 0 then Command(["CALibration", "DECade"], false)
    else if i == 1 then Command(["CALibration", "DECade"], true)
    else if i == 2 then Command(["CALibration", "SAVE"], false)
    else if i == 3 then Command(["CALibration", "LOAD"], false)
    else if i == 4 then Command(["CALibration", "RESet"], false)
    else if i == 5 then Command(["CALibration", "ENable"], false)
    else Command(["CALibration", "ENable"], true)
  }

  /** scpi_commands, in its order. */
  function Board(i: nat): Pattern
    requires i < BOARD_SIZE
  {
    if i < 13 then MandatoryRow(i)
    else if i < 16 then RequiredRow(i - 13)
    else if i < 22 then SystemRow(i - 16)
    else if i < 26 then ResistanceRow(i - 22)
    else if i < 30 then OutputRow(i - 26)
    else if i < 34 then RelayRow(i - 30)
    else if i < 46 then NetworkRow(i - 34)
    else CalibrationRow(i - 46)
  }

  // ------------------------------------------------------------ telling keywords apart

  function CharOf(w: string, i: nat): char { if i < |w| then ToLower(w[i]) else '\0' }

  /** How many characters of a word tell which keyword of the table it can match. */
  function Width(w: string): nat {
    if CharOf(w, 0) == '*' then 4 else if CharOf(w, 0) == 'e' && CharOf(w, 1) == 'n' then 2 else 3
  }

  /** Those characters, in lower case. */
  function Code(w: string): (char, char, char, char) {
    var n := Width(w);
    (CharOf(w, 0), CharOf(w, 1), if n > 2 then CharOf(w, 2) else '\0', if n > 3 then CharOf(w, 3) else '\0')
  }

  /** Words that match the same keyword have the same number; the numbers grow along the table. */
  function Id(w: string): (id: nat)
    ensures id < 100
  {
    var c := Code(w);
    if c.0 == '*' then
      (if c == ('*', 'c', 'l', 's') then 1
      else if c == ('*', 'e', 's', 'e') then 2
      else if c == ('*', 'e', 's', 'r') then 3
      else if c == ('*', 'i', 'd', 'n') then 4
      else if c == ('*', 'o', 'p', 'c') then 5
      else if c == ('*', 'r', 's', 't') then 6
      else if c == ('*', 's', 'r', 'e') then 7
      else if c == ('*', 's', 't', 'b') then 8
      else if c == ('*', 't', 's', 't') then 9
      else if c == ('*', 'w', 'a', 'i') then 10 else 0)
    else if c.0 == 's' then
      (if c == ('s', 'y', 's', '\0') then 11
      else if c == ('s', 'c', 'a', '\0') then 23
      else if c == ('s', 'a', 'v', '\0') then 26
      else if c == ('s', 'm', 'a', '\0') then 31
      else if c == ('s', 't', 'a', '\0') then 38 else 0)
    else if c.0 == 'e' then
      (if c == ('e', 'r', 'r', '\0') then 12
      else if c == ('e', 'n', '\0', '\0') then 42 else 0)
    else if c.0 == 'n' then
      (if c == ('n', 'e', 'x', '\0') then 13
      else if c == ('n', 'e', 't', '\0') then 40 else 0)
    else if c.0 == 'c' then
      (if c == ('c', 'o', 'u', '\0') then 14
      else if c == ('c', 'a', 'l', '\0') then 41 else 0)
    else if c.0 == 'v' then
      (if c == ('v', 'e', 'r', '\0') then 15
      else if c == ('v', 'a', 'l', '\0') then 24 else 0)
    else if c.0 == 'b' then
      (if c == ('b', 'o', 'o', '\0') then 16 else 0)
    else if c.0 == 'r' then
      (if c == ('r', 's', 't', '\0') then 17
      else if c == ('r', 'e', 's', '\0') then 28
      else if c == ('r', 'a', 'w', '\0') then 36
      else if c == ('r', 'e', 'l', '\0') then 39 else 0)
    else if c.0 == 'i' then
      (if c == ('i', 'd', '\0', '\0') then 18
      else if c == ('i', '2', 'c', '\0') then 22
      else if c == ('i', 'p', 'a', '\0') then 30 else 0)
    else if c.0 == 'f' then
      (if c == ('f', 'r', 'a', '\0') then 19 else 0)
    else if c.0 == 'p' then
      (if c == ('p', 'i', 'n', '\0') then 20
      else if c == ('p', 'h', 'y', '\0') then 34 else 0)
    else if c.0 == 'd' then
      (if c == ('d', 'i', 'a', '\0') then 21
      else if c == ('d', 'e', 'c', '\0') then 25
      else if c == ('d', 'h', 'c', '\0') then 33 else 0)
    else if c.0 == 'l' then
      (if c == ('l', 'o', 'a', '\0') then 27 else 0)
    else if c.0 == 'o' then
      (if c == ('o', 'u', 't', '\0') then 29 else 0)
    else if c.0 == 'g' then
      (if c == ('g', 'a', 't', '\0') then 32 else 0)
    else if c.0 == 'm' then
      (if c == ('m', 'o', 'd', '\0') then 35 else 0)
    else if c.0 == 'a' then
      (if c == ('a', 'p', 'p', '\0') then 37 else 0)
    else 0
  }

  /** A keyword whose short form is long enough to show its code. */
  predicate Steady(k: string) {
    forall i :: 0 <= i < Width(k) && i < |k| ==> !IsLower(k[i])
  }

  predicate IsKeyword(k: string, id: nat) { KeywordOk(k) && Steady(k) && Id(k) == id }

  lemma {:induction false} ShortAtLeast(k: string, n: nat)
    requires n <= |k| && forall i :: 0 <= i < n ==> !IsLower(k[i])
    ensures ShortLength(k) >= n
    decreases n
  {
    if n > 0 { ShortAtLeast(k[1..], n - 1); }
  }

  lemma SamePrefix(k: string, m: nat, w: string)
    requires m <= |k| && (m == |k| || m >= Width(k)) && SameIgnoringCase(k[..m], w)
    ensures Code(w) == Code(k)
  {
    forall i: nat | i < m ensures CharOf(w, i) == CharOf(k, i) {
      assert ToLower(k[..m][i]) == ToLower(w[i]);
    }
    assert Width(w) == Width(k);
  }

  /** Every word a keyword matches has its number. */
  lemma KeywordId(k: string, w: string)
    requires Steady(k) && KeywordMatches(k, w)
    ensures Id(w) == Id(k)
  {
    hide Code, SameIgnoringCase;
    assert k[..|k|] == k;
    if SameIgnoringCase(k, w) {
      SamePrefix(k, |k|, w);
    } else {
      ShortAtLeast(k, if Width(k) < |k| then Width(k) else |k|);
      SamePrefix(k, ShortLength(k), w);
    }
  }

  // ------------------------------------------------------------ keys of commands

  function Ids(ws: seq<string>): (ids: seq<nat>)
    ensures |ids| == |ws| && forall i :: 0 <= i < |ws| ==> ids[i] == Id(ws[i])
  {
    seq(|ws|, i requires 0 <= i < |ws| => Id(ws[i]))
  }

  function At(ids: seq<nat>, i: nat): nat { if i < |ids| then ids[i] else 0 }

  /** Up to three numbers and the query mark as one number. */
  function Key(ids: seq<nat>, query: bool): nat {
    2 * (10000 * At(ids, 0) + 100 * At(ids, 1) + At(ids, 2)) + if query then 1 else 0
  }

  function Keywords(segs: seq<Segment>): (ks: seq<string>)
    ensures |ks| == |segs| && forall i :: 0 <= i < |segs| ==> ks[i] == segs[i].keyword
  {
    seq(|segs|, i requires 0 <= i < |segs| => segs[i].keyword)
  }

  /** Only the last keyword may be optional, and not the only one. */
  predicate Shaped(p: Pattern) {
    && 1 <= |p.segments| <= 3 && !p.segments[0].optional
    && (|p.segments| == 3 ==> !p.segments[1].optional)
    && forall i :: 0 <= i < |p.segments| ==> KeywordOk(p.segments[i].keyword) && Steady(p.segments[i].keyword)
  }

  function HighKey(p: Pattern): nat { Key(Ids(Keywords(p.segments)), p.query) }

  /** The key without the last keyword if that is optional. */
  function LowKey(p: Pattern): nat {
    var n := |p.segments|;
    if n > 0 && p.segments[n - 1].optional then Key(Ids(Keywords(p.segments[..n - 1])), p.query) else HighKey(p)
  }

  /** The key of a command, whatever the table. */
  function CommandKey(cmd: string): nat
    requires |cmd| > 0
  {
    var query := cmd[|cmd| - 1] == '?';
    match Strip(query, cmd)
    case NotThis => 0
    case Body(text) => Key(Ids(Words(text)), query)
  }

  lemma AcceptedIds(segs: seq<Segment>, ws: seq<string>)
    requires 1 <= |segs| <= 3 && |ws| > 0 && AcceptsWords(segs, ws)
    requires forall i :: 0 <= i < |segs| ==> Steady(segs[i].keyword)
    requires !segs[0].optional && (|segs| == 3 ==> !segs[1].optional)
    ensures Ids(ws) == Ids(Keywords(segs))
            || (segs[|segs| - 1].optional && Ids(ws) == Ids(Keywords(segs[..|segs| - 1])))
    decreases |segs|
  {
    hide KeywordMatches, Steady, Id;
    KeywordId(segs[0].keyword, ws[0]);
    if |ws| == 1 {
      assert |segs| == 1 || (|segs| == 2 && segs[1].optional) by {
        if |segs| > 1 { assert segs[1..][0].optional; }
      }
    } else {
      var rest, more := segs[1..], ws[1..];
      if rest[0].optional {
        assert |rest| == 1 && AcceptsWords(rest, more);
        assert KeywordMatches(rest[0].keyword, more[0]) && |more| == 1;
        KeywordId(rest[0].keyword, more[0]);
      } else {
        AcceptedIds(rest, more);
        assert rest[..|rest| - 1] == segs[..|segs| - 1][1..];
      }
    }
  }

  /** An accepted command has the key of its pattern, with or without the optional keyword. */
  lemma AcceptedKey(p: Pattern, cmd: string)
    requires WellFormed(p) && Shaped(p) && |cmd| > 0 && Accepts(p, cmd)
    ensures CommandKey(cmd) == HighKey(p) || CommandKey(cmd) == LowKey(p)
  {
    hide AcceptsFrom, Words, Ids, Key, SomeChoice, AcceptsWords, Steady;
    AcceptsIsChoice(p, cmd);
    var b := Strip(p.query, cmd);
    QueryKnown(p.query, cmd);
    AcceptsByWords(p.segments, b.text);
    AcceptedIds(p.segments, Words(b.text));
  }

  /** A command without a question mark in its words ends in one exactly when it was stripped. */
  lemma QueryKnown(query: bool, cmd: string)
    requires |cmd| > 0
    requires var b := Strip(query, cmd); b.Body? && '?' !in b.text
    ensures query == (cmd[|cmd| - 1] == '?')
  {
    var b := Strip(query, cmd);
    if !query {
      assert b.text[|b.text| - 1] == cmd[|cmd| - 1];
    }
  }

  // ------------------------------------------------------------ the table is unambiguous

  // The numbers of the keywords, in the order of the table; the proofs evaluate Id on each.

  lemma KeywordIds1()
    ensures IsKeyword("*CLS", 1)
    ensures IsKeyword("*ESE", 2)
    ensures IsKeyword("*ESR", 3)
  {
  }

  lemma KeywordIds2()
    ensures IsKeyword("*IDN", 4)
    ensures IsKeyword("*OPC", 5)
    ensures IsKeyword("*RST", 6)
  {
  }

  lemma KeywordIds3()
    ensures IsKeyword("*SRE", 7)
    ensures IsKeyword("*STB", 8)
    ensures IsKeyword("*TST", 9)
  {
  }

  lemma KeywordIds4()
    ensures IsKeyword("*WAI", 10)
    ensures IsKeyword("SYSTem", 11)
    ensures IsKeyword("ERRor", 12)
  {
  }

  lemma KeywordIds5()
    ensures IsKeyword("NEXT", 13)
    ensures IsKeyword("COUNt", 14)
    ensures IsKeyword("VERSion", 15)
  {
  }

  lemma KeywordIds6()
    ensures IsKeyword("BOOTloader", 16)
    ensures IsKeyword("RST", 17)
    ensures IsKeyword("ID", 18)
  {
  }

  lemma KeywordIds7()
    ensures IsKeyword("FRAM", 19)
    ensures IsKeyword("PING", 20)
    ensures IsKeyword("DIAG", 21)
  {
  }

  lemma KeywordIds8()
    ensures IsKeyword("I2C", 22)
    ensures IsKeyword("SCAN", 23)
    ensures IsKeyword("VALue", 24)
  {
  }

  lemma KeywordIds9()
    ensures IsKeyword("DECade", 25)
    ensures IsKeyword("SAVE", 26)
    ensures IsKeyword("LOAD", 27)
  {
  }

  lemma KeywordIds10()
    ensures IsKeyword("RESistance", 28)
    ensures IsKeyword("RESet", 28)
    ensures IsKeyword("OUTPut", 29)
  {
  }

  lemma KeywordIds11()
    ensures IsKeyword("IPADdress", 30)
    ensures IsKeyword("SMASk", 31)
    ensures IsKeyword("GATEway", 32)
  {
  }

  lemma KeywordIds12()
    ensures IsKeyword("DHCP", 33)
    ensures IsKeyword("PHY", 34)
    ensures IsKeyword("MODE", 35)
  {
  }

  lemma KeywordIds13()
    ensures IsKeyword("RAW", 36)
    ensures IsKeyword("APPLy", 37)
    ensures IsKeyword("STATe", 38)
  {
  }

  lemma KeywordIds14()
    ensures IsKeyword("RELay", 39)
    ensures IsKeyword("NET", 40)
    ensures IsKeyword("CALibration", 41)
  {
  }

  lemma KeywordIds15()
    ensures IsKeyword("ENter", 42)
    ensures IsKeyword("ENable", 42)
  {
  }

  /** A row whose accepted commands have the key of its pattern. */
  predicate Good(p: Pattern) { WellFormed(p) && Shaped(p) && LowKey(p) <= HighKey(p) }

  /** A row comes, by its key, before the next. */
  predicate Ordered(i: nat)
    requires i + 1 < BOARD_SIZE
  {
    Good(Board(i)) && HighKey(Board(i)) < LowKey(Board(i + 1))
  }

  predicate RowAt(i: nat, low: nat, high: nat)
    requires i < BOARD_SIZE
  {
    Good(Board(i)) && LowKey(Board(i)) == low && HighKey(Board(i)) == high
  }

  lemma CommandRow(keywords: seq<string>, ids: seq<nat>, query: bool)
    requires 1 <= |keywords| == |ids| <= 3
    requires forall i :: 0 <= i < |keywords| ==> IsKeyword(keywords[i], ids[i])
    ensures var p := Command(keywords, query);
            Good(p) && LowKey(p) == HighKey(p) == Key(ids, query)
  {
    hide Id, Steady, KeywordOk;
    var p := Command(keywords, query);
    assert Ids(Keywords(p.segments)) == ids;
    assert !p.segments[|p.segments| - 1].optional;
  }

  /** The one row with an optional keyword is spelled as in the table. */
  lemma NextText()
    ensures WellFormed(Board(13)) && Render(Board(13)) == "SYSTem:ERRor[:NEXT]?"
  {
    NextRow();
    SpelledNext();
    var p := Board(13);
    assert RenderHead(p) == "";
    assert Render(p) == RenderKeywords(p.segments) + "?";
  }

  lemma SpelledNext()
    ensures RenderKeywords([Segment("SYSTem", false), Segment("ERRor", false), Segment("NEXT", true)]) == "SYSTem:ERRor[:NEXT]"
  {
    var a, b, c := Segment("SYSTem", false), Segment("ERRor", false), Segment("NEXT", true);
    assert [a, b, c][1..] == [b, c] && [b, c][1..] == [c] && [c][1..] == [];
    assert RenderAfter([c]) == "]" + RenderTail([]) == "]" + "" == "]";
    assert RenderKeywords([c]) == "NEXT" + "]" == "NEXT]";
    assert RenderAfter([b, c]) == RenderTail([c]) == "[:" + "NEXT]" == "[:NEXT]";
    assert RenderKeywords([b, c]) == "ERRor" + "[:NEXT]" == "ERRor[:NEXT]";
    assert RenderAfter([a, b, c]) == RenderTail([b, c]) == ":" + "ERRor[:NEXT]" == ":ERRor[:NEXT]";
    assert RenderKeywords([a, b, c]) == "SYSTem" + ":ERRor[:NEXT]";
  }

  lemma NextRow()
    ensures var p := Board(13);
            Good(p) && LowKey(p) == Key([11, 12], true) && HighKey(p) == Key([11, 12, 13], true)
  {
    hide Id, Steady, KeywordOk;
    KeywordIds4();
    KeywordIds5();
    var p := Board(13);
    assert Ids(Keywords(p.segments)) == [11, 12, 13];
    assert Ids(Keywords(p.segments[..2])) == [11, 12];
  }

  // The keys of the rows, section by section, from the numbers of their keywords.

  lemma Rows1()
    ensures RowAt(0, Key([1], false), Key([1], false))
    ensures RowAt(1, Key([2], false), Key([2], false))
    ensures RowAt(2, Key([2], true), Key([2], true))
    ensures RowAt(3, Key([3], true), Key([3], true))
  {
    hide IsKeyword, HighKey, LowKey, Shaped, WellFormed, Command, Key;
    KeywordIds1();
    CommandRow(["*CLS"], [1], false);
    CommandRow(["*ESE"], [2], false);
    CommandRow(["*ESE"], [2], true);
    CommandRow(["*ESR"], [3], true);
  }

  lemma Rows2()
    ensures RowAt(4, Key([4], true), Key([4], true))
    ensures RowAt(5, Key([5], false), Key([5], false))
    ensures RowAt(6, Key([5], true), Key([5], true))
    ensures RowAt(7, Key([6], false), Key([6], false))
  {
    hide IsKeyword, HighKey, LowKey, Shaped, WellFormed, Command, Key;
    KeywordIds2();
    CommandRow(["*IDN"], [4], true);
    CommandRow(["*OPC"], [5], false);
    CommandRow(["*OPC"], [5], true);
    CommandRow(["*RST"], [6], false);
  }

  lemma Rows3()
    ensures RowAt(8, Key([7], false), Key([7], false))
    ensures RowAt(9, Key([7], true), Key([7], true))
    ensures RowAt(10, Key([8], true), Key([8], true))
    ensures RowAt(11, Key([9], true), Key([9], true))
  {
    hide IsKeyword, HighKey, LowKey, Shaped, WellFormed, Command, Key;
    KeywordIds3();
    CommandRow(["*SRE"], [7], false);
    CommandRow(["*SRE"], [7], true);
    CommandRow(["*STB"], [8], true);
    CommandRow(["*TST"], [9], true);
  }

  lemma Rows4()
    ensures RowAt(12, Key([10], false), Key([10], false))
  {
    hide IsKeyword, HighKey, LowKey, Shaped, WellFormed, Command, Key;
    KeywordIds4();
    CommandRow(["*WAI"], [10], false);
  }

  lemma Rows5()
    ensures RowAt(13, Key([11, 12], true), Key([11, 12, 13], true))
    ensures RowAt(14, Key([11, 12, 14], true), Key([11, 12, 14], true))
    ensures RowAt(15, Key([11, 15], true), Key([11, 15], true))
  {
    hide IsKeyword, HighKey, LowKey, Shaped, WellFormed, Command, Key;
    KeywordIds4(); KeywordIds5();
    NextRow();
    CommandRow(["SYSTem", "ERRor", "COUNt"], [11, 12, 14], true);
    CommandRow(["SYSTem", "VERSion"], [11, 15], true);
  }

  lemma Rows6()
    ensures RowAt(16, Key([11, 16, 42], false), Key([11, 16, 42], false))
    ensures RowAt(17, Key([11, 17], false), Key([11, 17], false))
    ensures RowAt(18, Key([11, 18], true), Key([11, 18], true))
    ensures RowAt(19, Key([11, 19, 20], true), Key([11, 19, 20], true))
  {
    hide IsKeyword, HighKey, LowKey, Shaped, WellFormed, Command, Key;
    KeywordIds4(); KeywordIds6(); KeywordIds7(); KeywordIds15();
    CommandRow(["SYSTem", "BOOTloader", "ENter"], [11, 16, 42], false);
    CommandRow(["SYSTem", "RST"], [11, 17], false);
    CommandRow(["SYSTem", "ID"], [11, 18], true);
    CommandRow(["SYSTem", "FRAM", "PING"], [11, 19, 20], true);
  }

  lemma Rows7()
    ensures RowAt(20, Key([11, 19, 21], true), Key([11, 19, 21], true))
    ensures RowAt(21, Key([11, 22, 23], true), Key([11, 22, 23], true))
  {
    hide IsKeyword, HighKey, LowKey, Shaped, WellFormed, Command, Key;
    KeywordIds4(); KeywordIds7(); KeywordIds8();
    CommandRow(["SYSTem", "FRAM", "DIAG"], [11, 19, 21], true);
    CommandRow(["SYSTem", "I2C", "SCAN"], [11, 22, 23], true);
  }

  lemma Rows8()
    ensures RowAt(22, Key([28, 24], false), Key([28, 24], false))
    ensures RowAt(23, Key([28, 24], true), Key([28, 24], true))
    ensures RowAt(24, Key([28, 25], false), Key([28, 25], false))
    ensures RowAt(25, Key([28, 25], true), Key([28, 25], true))
  {
    hide IsKeyword, HighKey, LowKey, Shaped, WellFormed, Command, Key;
    KeywordIds8(); KeywordIds9(); KeywordIds10();
    CommandRow(["RESistance", "VALue"], [28, 24], false);
    CommandRow(["RESistance", "VALue"], [28, 24], true);
    CommandRow(["RESistance", "DECade"], [28, 25], false);
    CommandRow(["RESistance", "DECade"], [28, 25], true);
  }

  lemma Rows9()
    ensures RowAt(26, Key([29, 38], false), Key([29, 38], false))
    ensures RowAt(27, Key([29, 38], true), Key([29, 38], true))
    ensures RowAt(28, Key([29, 39, 42], false), Key([29, 39, 42], false))
    ensures RowAt(29, Key([29, 39, 42], true), Key([29, 39, 42], true))
  {
    hide IsKeyword, HighKey, LowKey, Shaped, WellFormed, Command, Key;
    KeywordIds10(); KeywordIds13(); KeywordIds14(); KeywordIds15();
    CommandRow(["OUTPut", "STATe"], [29, 38], false);
    CommandRow(["OUTPut", "STATe"], [29, 38], true);
    CommandRow(["OUTPut", "RELay", "ENable"], [29, 39, 42], false);
    CommandRow(["OUTPut", "RELay", "ENable"], [29, 39, 42], true);
  }

  lemma Rows10()
    ensures RowAt(30, Key([39, 36], false), Key([39, 36], false))
    ensures RowAt(31, Key([39, 36], true), Key([39, 36], true))
    ensures RowAt(32, Key([39, 38], false), Key([39, 38], false))
    ensures RowAt(33, Key([39, 38], true), Key([39, 38], true))
  {
    hide IsKeyword, HighKey, LowKey, Shaped, WellFormed, Command, Key;
    KeywordIds13(); KeywordIds14();
    CommandRow(["RELay", "RAW"], [39, 36], false);
    CommandRow(["RELay", "RAW"], [39, 36], true);
    CommandRow(["RELay", "STATe"], [39, 38], false);
    CommandRow(["RELay", "STATe"], [39, 38], true);
  }

  lemma Rows11()
    ensures RowAt(34, Key([40, 30], false), Key([40, 30], false))
    ensures RowAt(35, Key([40, 30], true), Key([40, 30], true))
    ensures RowAt(36, Key([40, 31], false), Key([40, 31], false))
    ensures RowAt(37, Key([40, 31], true), Key([40, 31], true))
  {
    hide IsKeyword, HighKey, LowKey, Shaped, WellFormed, Command, Key;
    KeywordIds11(); KeywordIds14();
    CommandRow(["NET", "IPADdress"], [40, 30], false);
    CommandRow(["NET", "IPADdress"], [40, 30], true);
    CommandRow(["NET", "SMASk"], [40, 31], false);
    CommandRow(["NET", "SMASk"], [40, 31], true);
  }

  lemma Rows12()
    ensures RowAt(38, Key([40, 32], false), Key([40, 32], false))
    ensures RowAt(39, Key([40, 32], true), Key([40, 32], true))
    ensures RowAt(40, Key([40, 33], false), Key([40, 33], false))
    ensures RowAt(41, Key([40, 33], true), Key([40, 33], true))
  {
    hide IsKeyword, HighKey, LowKey, Shaped, WellFormed, Command, Key;
    KeywordIds11(); KeywordIds12(); KeywordIds14();
    CommandRow(["NET", "GATEway"], [40, 32], false);
    CommandRow(["NET", "GATEway"], [40, 32], true);
    CommandRow(["NET", "DHCP"], [40, 33], false);
    CommandRow(["NET", "DHCP"], [40, 33], true);
  }

  lemma Rows13()
    ensures RowAt(42, Key([40, 34, 35], false), Key([40, 34, 35], false))
    ensures RowAt(43, Key([40, 34, 35], true), Key([40, 34, 35], true))
    ensures RowAt(44, Key([40, 37], false), Key([40, 37], false))
    ensures RowAt(45, Key([40, 38], true), Key([40, 38], true))
  {
    hide IsKeyword, HighKey, LowKey, Shaped, WellFormed, Command, Key;
    KeywordIds12(); KeywordIds13(); KeywordIds14();
    CommandRow(["NET", "PHY", "MODE"], [40, 34, 35], false);
    CommandRow(["NET", "PHY", "MODE"], [40, 34, 35], true);
    CommandRow(["NET", "APPLy"], [40, 37], false);
    CommandRow(["NET", "STATe"], [40, 38], true);
  }

  lemma Rows14()
    ensures RowAt(46, Key([41, 25], false), Key([41, 25], false))
    ensures RowAt(47, Key([41, 25], true), Key([41, 25], true))
    ensures RowAt(48, Key([41, 26], false), Key([41, 26], false))
    ensures RowAt(49, Key([41, 27], false), Key([41, 27], false))
  {
    hide IsKeyword, HighKey, LowKey, Shaped, WellFormed, Command, Key;
    KeywordIds9(); KeywordIds14();
    CommandRow(["CALibration", "DECade"], [41, 25], false);
    CommandRow(["CALibration", "DECade"], [41, 25], true);
    CommandRow(["CALibration", "SAVE"], [41, 26], false);
    CommandRow(["CALibration", "LOAD"], [41, 27], false);
  }

  lemma Rows15()
    ensures RowAt(50, Key([41, 28], false), Key([41, 28], false))
    ensures RowAt(51, Key([41, 42], false), Key([41, 42], false))
    ensures RowAt(52, Key([41, 42], true), Key([41, 42], true))
  {
    hide IsKeyword, HighKey, LowKey, Shaped, WellFormed, Command, Key;
    KeywordIds10(); KeywordIds14(); KeywordIds15();
    CommandRow(["CALibration", "RESet"], [41, 28], false);
    CommandRow(["CALibration", "ENable"], [41, 42], false);
    CommandRow(["CALibration", "ENable"], [41, 42], true);
  }

  /** The keys grow along the table. */
  lemma RowOrdered(i: nat)
    requires i + 1 < BOARD_SIZE
    ensures Ordered(i) && Good(Board(i + 1))
  {
    hide Good, Board, HighKey, LowKey;
    Rows1(); Rows2(); Rows3(); Rows4(); Rows5(); Rows6(); Rows7(); Rows8(); Rows9(); Rows10(); Rows11(); Rows12(); Rows13(); Rows14(); Rows15();
  }

  lemma RowGood(i: nat)
    requires i < BOARD_SIZE
    ensures Good(Board(i))
  {
    hide Good, Board;
    RowOrdered(if i + 1 < BOARD_SIZE then i else i - 1);
  }

  lemma {:induction false} RowsApart(i: nat, j: nat)
    requires i < j < BOARD_SIZE
    ensures HighKey(Board(i)) < LowKey(Board(j)) && Good(Board(i)) && Good(Board(j))
    decreases j - i
  {
    hide HighKey, LowKey, Board, Shaped, WellFormed;
    RowOrdered(i);
    RowGood(j);
    if i + 1 < j {
      RowsApart(i + 1, j);
    }
  }

  /** No command is accepted by two patterns of the table: the row that answers it is determined. */
  lemma Unambiguous(cmd: string, i: nat, j: nat)
    requires |cmd| > 0 && i < BOARD_SIZE && j < BOARD_SIZE
    ensures WellFormed(Board(i)) && WellFormed(Board(j))
    ensures Accepts(Board(i), cmd) && Accepts(Board(j), cmd) ==> i == j
  {
    hide HighKey, LowKey, Board, Shaped, WellFormed, Accepts, CommandKey;
    RowGood(i);
    RowGood(j);
    if Accepts(Board(i), cmd) { AcceptedKey(Board(i), cmd); }
    if Accepts(Board(j), cmd) { AcceptedKey(Board(j), cmd); }
    if i < j {
      RowsApart(i, j);
    } else if j < i {
      RowsApart(j, i);
    }
  }

  /** Optional keywords come last, so for every row acceptance is some choice of them. */
  lemma RowByChoice(cmd: string, i: nat)
    requires |cmd| > 0 && i < BOARD_SIZE
    ensures WellFormed(Board(i))
    ensures Accepts(Board(i), cmd) <==> ChoiceMatches(Board(i), cmd)
  {
    hide Board, AcceptsFrom, SomeChoice, HighKey, LowKey, Accepts, Words;
    RowGood(i);
    LastOptional(Board(i).segments);
    AcceptsIsChoice(Board(i), cmd);
  }

  lemma {:induction false} LastOptional(segs: seq<Segment>)
    requires forall i :: 0 <= i < |segs| - 1 ==> !segs[i].optional
    ensures Exact(segs)
    decreases |segs|
  {
    if segs != [] { LastOptional(segs[1..]); }
  }

  function BoardCommands(): (cs: seq<Pattern>)
    ensures |cs| == BOARD_SIZE && forall i :: 0 <= i < BOARD_SIZE ==> cs[i] == Board(i)
  {
    seq(BOARD_SIZE, i requires 0 <= i < BOARD_SIZE => Board(i))
  }

  /** First-match dispatch over the table: the row found is the only one that accepts, and one is found if one accepts. */
  lemma BoardDispatch(header: string, i: nat)
    requires |header| > 0 && i < BOARD_SIZE
    ensures Parser.CommandsOk(BoardCommands()) && WellFormed(Board(i))
    ensures Accepts(Board(i), header) <==> Parser.FindFrom(BoardCommands(), header, 0) == Parser.At(i)
  {
    hide Board, Accepts, WellFormed, Shaped, HighKey, LowKey, Parser.FindFrom;
    forall j | 0 <= j < BOARD_SIZE ensures WellFormed(BoardCommands()[j]) {
      RowGood(j);
    }
    var f := Parser.FindFrom(BoardCommands(), header, 0);
    RowGood(i);
    if f.At? {
      Unambiguous(header, i, f.index);
    }
  }
}
