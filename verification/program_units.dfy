// Detection of one program message unit: the scpiParser_* functions of parser.c.

module ProgramUnits {
  import opened Lexer

  datatype Termination = NoTermination | NewLineTermination | SemicolonTermination

  /** scpi_parser_state_t after a detection, with the position of the next unit. */
  datatype Unit = Unit(header: Token, data: Token, numberOfParameters: int, termination: Termination, next: nat)

  /** The program data of a unit: all parameters recognised?, summed length, their tokens, cursor. */
  datatype AllData = AllData(ok: bool, len: nat, toks: seq<Token>, pos: nat)

  // ------------------------------------------------------------ specification

  /** A decimal number takes in white space and a suffix; white space alone is passed but not counted. */
  function WithSuffix(s: string, d: Lexed): (r: Lexed)
    requires d.tok.kind == DecimalNumeric && 0 < d.ret == d.tok.len && 0 <= d.tok.ptr
    requires d.tok.ptr + d.tok.len == d.pos <= |s|
    ensures Sound(s, d.tok.ptr, r) && 0 < r.ret == r.tok.len && r.tok.ptr == d.tok.ptr && d.tok.len <= r.tok.len
  {
    var w := Span(s, d.pos, Blank);
    var e := SuffixEnd(s, w);
    if e == w then d.(pos := w)
    else
      var len := d.tok.len + (w - d.pos) + (e - w);
      Lexed(Token(DecimalNumericWithSuffix, d.tok.ptr, len), e, len)
  }

  /** A decimal number with the suffix it may have. */
  function Number(s: string, p: nat): (r: Lexed)
    requires p <= |s|
    ensures Sound(s, p, r) && (r.ret == 0 ==> r.pos == p)
  {
    var d := Decimal(s, p);
    if d.ret == 0 then d else WithSuffix(s, d)
  }

  /** The recognisers tried first: non-decimal numbers, names and decimal numbers. */
  function PlainItem(s: string, p: nat): (r: Lexed)
    requires p <= |s|
    ensures Sound(s, p, r) && (r.ret == 0 ==> r.pos == p)
  {
    var n := Nondecimal(s, p);
    if n.ret != 0 then n else
    var c := CharacterData(s, p);
    if c.ret != 0 then c else Number(s, p)
  }

  /** The recognisers tried next: strings, blocks and expressions. */
  function DelimitedItem(s: string, p: nat): (r: Lexed)
    requires p <= |s|
    ensures Sound(s, p, r)
  {
    var q := StringData(s, p);
    if q.ret != 0 then q else
    var b := Block(s, p);
    if b.ret != 0 then b else Expression(s, b.pos)
  }

  /** One parameter without the white space around it. */
  function DataItem(s: string, p: nat): (r: Lexed)
    requires p <= |s|
    ensures Sound(s, p, r)
  {
    var x := PlainItem(s, p);
    if x.ret != 0 then x else DelimitedItem(s, p)
  }

  /** One parameter with the white space around it. */
  function ProgramData(s: string, p: nat): (r: Lexed)
    requires p <= |s|
    ensures p <= r.pos <= |s|
    ensures r.tok.kind != Unknown ==> p < r.pos && 0 < r.ret
  {
    var w := Span(s, p, Blank);
    var x := DataItem(s, w);
    var e := Span(s, x.pos, Blank);
    Lexed(x.tok, e, (w - p) + x.ret + (e - x.pos))
  }

  /** Comma-separated parameters from p. */
  function AllProgramDataFrom(s: string, p: nat): (r: AllData)
    requires p <= |s|
    ensures p <= r.pos <= |s|
    ensures r.ok ==> 0 < r.len && 0 < |r.toks|
    decreases |s| - p
  {
    var d := ProgramData(s, p);
    if d.tok.kind == Unknown then AllData(false, 0, [], d.pos)
    else if At(s, d.pos, ',') then
      var rest := AllProgramDataFrom(s, d.pos + 1);
      AllData(rest.ok, if rest.ok then d.ret + 1 + rest.len else 0, [d.tok] + rest.toks, rest.pos)
    else AllData(true, d.ret, [d.tok], d.pos)
  }

  /** The data token and parameter count the C code reports for that. */
  function DataToken(p: nat, d: AllData): (Token, int) {
    if d.ok then (Token(TokenType.AllProgramData, p, d.len), |d.toks|) else (Token(Unknown, p, 0), -1)
  }

  /** Header and data of the unit at p, and the position after them. */
  function UnitBody(s: string, p: nat): (r: (Token, Token, int, nat))
    requires p <= |s|
    ensures p <= r.3 <= |s|
  {
    var h := Header(s, Span(s, p, Blank));
    var w := Span(s, h.pos, Blank);
    if w > h.pos then
      var d := AllProgramDataFrom(s, w);
      var (tok, n) := DataToken(w, d);
      (h.tok, tok, n, d.pos)
    else (h.tok, Token(Unknown, h.pos, 0), 0, h.pos)
  }

  /** The program message unit at p. */
  function Detect(s: string, p: nat): (u: Unit)
    requires p <= |s|
    ensures p <= u.next <= |s|
    ensures p < |s| ==> p < u.next
    ensures u.header.kind == Unknown && u.termination == NoTermination ==> u.next == |s|
  {
    var (header, data, n, pos) := UnitBody(s, p);
    var nl := NewLineEnd(s, pos);
    if nl > pos then Unit(header, data, n, NewLineTermination, nl)
    else if At(s, pos, ';') then Unit(header, data, n, SemicolonTermination, pos + 1)
    else if pos < |s| then
      Unit(header.(len := 1, kind := Invalid), Token(Unknown, p, 0), n, NoTermination, pos + 1)
    else Unit(header, data, n, NoTermination, pos)
  }

  // ------------------------------------------------------------ the C functions

  method ParseProgramData(state: LexState) returns (token: Token, ret: nat)
    requires state.Valid()
    modifies state
    ensures state.Valid() && Lexed(token, state.pos, ret) == ProgramData(state.text, old(state.pos))
  {
    hide DataItem, Span;
    var _, realLen := state.WhiteSpace();
    var result;
    token, result := ParseDataItem(state);
    var _, after := state.WhiteSpace();
    ret := result + realLen + after;
  }

  /** The chain of recognisers inside scpiParser_parseProgramData: three methods, one chain. */
  method ParseDataItem(state: LexState) returns (token: Token, ret: nat)
    requires state.Valid()
    modifies state
    ensures state.Valid() && Lexed(token, state.pos, ret) == DataItem(state.text, old(state.pos))
  {
    hide PlainItem, DelimitedItem;
    token, ret := ParsePlainItem(state);
    if ret == 0 {
      token, ret := ParseDelimitedItem(state);
    }
  }

  method ParsePlainItem(state: LexState) returns (token: Token, ret: nat)
    requires state.Valid()
    modifies state
    ensures state.Valid() && Lexed(token, state.pos, ret) == PlainItem(state.text, old(state.pos))
  {
    hide Nondecimal, CharacterData, Number;
    token, ret := state.NondecimalNumericData();
    if ret == 0 { token, ret := state.CharacterProgramData(); }
    if ret == 0 { token, ret := ParseNumber(state); }
  }

  method ParseNumber(state: LexState) returns (token: Token, ret: nat)
    requires state.Valid()
    modifies state
    ensures state.Valid() && Lexed(token, state.pos, ret) == Number(state.text, old(state.pos))
  {
    hide Decimal, Span, SuffixEnd;
    token, ret := state.DecimalNumericProgramData();
    if ret != 0 {
      var _, wsLen := state.WhiteSpace();
      var _, suffixLen := state.SuffixProgramData();
      if suffixLen > 0 {
        token := Token(DecimalNumericWithSuffix, token.ptr, token.len + wsLen + suffixLen);
        ret := token.len;
      }
    }
  }

  method ParseDelimitedItem(state: LexState) returns (token: Token, ret: nat)
    requires state.Valid()
    modifies state
    ensures state.Valid() && Lexed(token, state.pos, ret) == DelimitedItem(state.text, old(state.pos))
  {
    hide StringData, Block, Expression;
    token, ret := state.StringProgramData();
    if ret == 0 { token, ret := state.ArbitraryBlockProgramData(); }
    if ret == 0 { token, ret := state.ProgramExpression(token.len); }
  }

  /** How one parameter contributes to the sums the loop below keeps. */
  lemma AllProgramDataStep(s: string, p: nat)
    requires p <= |s|
    ensures var d := ProgramData(s, p);
            var all := AllProgramDataFrom(s, p);
            if d.tok.kind == Unknown then !all.ok && all.pos == d.pos
            else if At(s, d.pos, ',') then
              var rest := AllProgramDataFrom(s, d.pos + 1);
              && all.ok == rest.ok && all.pos == rest.pos && |all.toks| == 1 + |rest.toks|
              && (all.ok ==> all.len == d.ret + 1 + rest.len)
            else all.ok && all.pos == d.pos && |all.toks| == 1 && all.len == d.ret
  {
  }

  method ParseAllProgramData(state: LexState) returns (token: Token, numberOfParameters: int)
    requires state.Valid()
    modifies state
    ensures state.Valid()
    ensures var d := AllProgramDataFrom(state.text, old(state.pos));
            state.pos == d.pos && (token, numberOfParameters) == DataToken(old(state.pos), d)
  {
    hide AllProgramDataFrom, ProgramData;
    ghost var s, start := state.text, state.pos;
    ghost var all := AllProgramDataFrom(s, start);
    token := Token(TokenType.AllProgramData, state.pos, -1);
    var paramCount := 0;
    var result := 1;
    ghost var rest := all;
    while result != 0
      invariant state.Valid() && 0 <= result <= 1
      invariant token.kind == TokenType.AllProgramData && token.ptr == start && -1 <= token.len && 0 <= paramCount
      invariant all.ok == rest.ok && all.pos == rest.pos && |all.toks| == paramCount + |rest.toks|
      invariant all.ok ==> all.len == token.len + result + rest.len
      invariant if result == 1 then rest == AllProgramDataFrom(s, state.pos) else rest == AllData(true, 0, [], state.pos)
      decreases |s| - state.pos, result
    {
      token := token.(len := token.len + result);
      ghost var p := state.pos;
      AllProgramDataStep(s, p);
      var tmp, len := ParseProgramData(state);
      if tmp.kind != Unknown {
        token := token.(len := token.len + len);
      } else {
        token := token.(kind := Unknown, len := 0);
        paramCount := -1;
        break;
      }
      paramCount := paramCount + 1;
      var _, comma := state.Character(',', Comma);
      rest := if comma == 1 then AllProgramDataFrom(s, state.pos) else AllData(true, 0, [], state.pos);
      result := comma;
    }
    numberOfParameters := paramCount;
  }

  method DetectProgramMessageUnit(text: string, buffer: nat) returns (state: Unit)
    requires buffer <= |text|
    ensures state == Detect(text, buffer)
  {
    hide AllProgramDataFrom, HeaderExtent, Span;
    var lex := new LexState(text, buffer);
    var _, _ := lex.WhiteSpace();
    var header, _ := lex.ProgramHeader();
    var data := Token(Unknown, lex.pos, 0);
    var numberOfParameters := 0;
    var _, ws := lex.WhiteSpace();
    if ws > 0 {
      data, numberOfParameters := ParseAllProgramData(lex);
    }
    var tmp, result := lex.NewLine();
    if result == 0 { tmp, result := lex.Character(';', Semicolon); }
    if !lex.IsEos() && result == 0 {
      lex.pos := lex.pos + 1;
      header := header.(len := 1, kind := Invalid);
      data := Token(Unknown, lex.buffer, 0);
    }
    var termination :=
      if tmp.kind == Semicolon then SemicolonTermination
      else if tmp.kind == TokenType.NewLine then NewLineTermination
      else NoTermination;
    state := Unit(header, data, numberOfParameters, termination, lex.pos);
  }
}
