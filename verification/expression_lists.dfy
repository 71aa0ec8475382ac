// The indexed accessors of numeric and channel list expressions: expression.c.

module ExpressionLists {
  import opened Basics
  import opened Lexer
  import opened IntegerText
  import opened Parameters
  import ProgramUnits

  const EXPRESSION_PARSING_ERROR := -170

  datatype Outcome = OK | ERROR | NO_MORE

  // ------------------------------------------------------------ what the parser functions compute

  /** One entry of a numeric list: a number or a range of two. */
  datatype Numeric = Numeric(outcome: Outcome, isRange: bool, from: Token, to: Token, pos: nat)

  /** numericRange */
  function NumericRange(t: string, p: nat): (r: Numeric)
    requires p <= |t|
    ensures p <= r.pos <= |t| && (r.outcome == OK ==> p < r.pos)
  {
    var d := Decimal(t, p);
    if d.ret == 0 then Numeric(NO_MORE, false, d.tok, d.tok, p)
    else if !At(t, d.pos, ':') then Numeric(OK, false, d.tok, d.tok, d.pos)
    else
      var e := Decimal(t, d.pos + 1);
      Numeric(if e.ret == 0 then ERROR else OK, true, d.tok, e.tok, e.pos)
  }

  /** The loop of SCPI_ExprNumericListEntry. */
  function NumericEntry(t: string, p: nat, index: nat): Numeric
    requires p <= |t|
    decreases index
  {
    var r := NumericRange(t, p);
    if r.outcome != OK || index == 0 then r
    else if At(t, r.pos, ',') then NumericEntry(t, r.pos + 1, index - 1)
    else r.(outcome := if r.pos == |t| then NO_MORE else ERROR)
  }

  /** What strtol makes of a number in 32 bits. */
  function Clamped(v: int): int { if v < -0x8000_0000 then -0x8000_0000 else if v > 0x7fff_ffff then 0x7fff_ffff else v }

  function AllClamped(vals: seq<int>): (r: seq<int>)
    ensures |r| == |vals|
  {
    if vals == [] then [] else [Clamped(vals[0])] + AllClamped(vals[1..])
  }

  /** A channel specification: its coordinates. */
  datatype Spec = Spec(outcome: Outcome, values: seq<int>, pos: nat)

  /** channelSpec, after the coordinates vals. */
  function ChannelSpecFrom(t: string, p: nat, vals: seq<int>): (r: Spec)
    requires p <= |t|
    ensures p <= r.pos <= |t| && vals <= r.values
    ensures r.outcome == OK ==> |vals| < |r.values|
    ensures r.outcome == NO_MORE ==> vals == []
    decreases |t| - p
  {
    var d := Decimal(t, p);
    if d.ret == 0 then Spec(if vals == [] then NO_MORE else ERROR, vals, p)
    else
      var all := vals + [Clamped(LeadingInteger(t, p))];
      if At(t, d.pos, '!') then ChannelSpecFrom(t, d.pos + 1, all) else Spec(OK, all, d.pos)
  }

  /** An entry of a channel list. */
  datatype Channel = Channel(outcome: Outcome, isRange: bool, from: seq<int>, to: seq<int>, pos: nat)

  /** channelRange */
  function ChannelRange(t: string, p: nat): (r: Channel)
    requires p <= |t|
    ensures p <= r.pos <= |t| && r.outcome != NO_MORE
  {
    var a := ChannelSpecFrom(t, p, []);
    if a.outcome != OK then Channel(ERROR, false, a.values, [], a.pos)
    else if !At(t, a.pos, ':') then Channel(OK, false, a.values, [], a.pos)
    else
      var b := ChannelSpecFrom(t, a.pos + 1, []);
      Channel(if b.outcome == OK && |a.values| == |b.values| then OK else ERROR, true, a.values, b.values, b.pos)
  }

  /** The loop of SCPI_ExprChannelListEntry. */
  function ChannelEntry(t: string, p: nat, index: nat): Channel
    requires p <= |t|
    decreases index
  {
    var r := ChannelRange(t, p);
    if r.outcome != OK || index == 0 then r
    else if At(t, r.pos, ',') then ChannelEntry(t, r.pos + 1, index - 1)
    else r.(outcome := if r.pos == |t| then NO_MORE else ERROR)
  }

  /** The text the accessors scan: the buffer up to the closing parenthesis. */
  function Inside(text: string, param: Token): (t: string)
    requires 0 <= param.ptr && 2 <= param.len && param.ptr + param.len <= |text|
    ensures param.ptr + 1 <= |t|
  {
    text[..param.ptr + param.len - 1]
  }

  // ------------------------------------------------------------ the C functions

  method ReadNumericRange(state: LexState) returns (res: Outcome, isRange: bool, valueFrom: Token, valueTo: Token)
    requires state.Valid()
    modifies state
    ensures state.Valid()
    ensures var r := NumericRange(state.text, old(state.pos));
            && res == r.outcome && state.pos == r.pos
            && (res == OK ==> isRange == r.isRange && valueFrom == r.from && (isRange ==> valueTo == r.to))
  {
    hide Decimal;
    isRange := false;
    var len;
    valueFrom, len := state.DecimalNumericProgramData();
    valueTo := Token(Unknown, 0, 0);
    if len > 0 {
      var colon;
      valueTo, colon := state.Character(':', Colon);
      if colon > 0 {
        isRange := true;
        valueTo, len := state.DecimalNumericProgramData();
        return if len > 0 then OK else ERROR, isRange, valueFrom, valueTo;
      }
      return OK, isRange, valueFrom, valueTo;
    }
    res := NO_MORE;
  }

  /** SCPI_ExprNumericListEntry; null pointers, a system error, are not modelled. */
  method ExprNumericListEntry(context: CommandContext, text: string, param: Token, index: nat)
    returns (res: Outcome, isRange: bool, valueFrom: Token, valueTo: Token)
    requires 0 <= param.ptr && 2 <= param.len && param.ptr + param.len <= |text|
    modifies context`errors, context`cmdError
    ensures param.kind != ProgramExpression ==> res == ERROR && context.errors == old(context.errors) + [-104]
    ensures param.kind == ProgramExpression ==>
              var r := NumericEntry(Inside(text, param), param.ptr + 1, index);
              && res == r.outcome
              && context.errors == old(context.errors) + (if res == ERROR then [-170] else [])
              && (res == OK ==> isRange == r.isRange && valueFrom == r.from && (isRange ==> valueTo == r.to))
  {
    hide NumericRange;
    res, isRange, valueFrom, valueTo := OK, false, param, param;
    if param.kind != ProgramExpression {
      context.ErrorPush(DATA_TYPE_ERROR);
      return ERROR, isRange, valueFrom, valueTo;
    }
    var lex := new LexState(Inside(text, param), param.ptr + 1);
    ghost var all := NumericEntry(lex.text, lex.pos, index);
    var i := 0;
    var more := true;
    while more
      invariant lex.Valid() && 0 <= i && context.errors == old(context.errors)
      invariant more ==> i <= index && all == NumericEntry(lex.text, lex.pos, index - i)
      invariant !more ==> res == all.outcome
                          && (res == OK ==> isRange == all.isRange && valueFrom == all.from && (isRange ==> valueTo == all.to))
      decreases index - i, more
    {
      res, isRange, valueFrom, valueTo := ReadNumericRange(lex);
      if res != OK || i == index {
        more := false;
      } else {
        var _, comma := lex.Character(',', Comma);
        if comma == 0 {
          res := if lex.IsEos() then NO_MORE else ERROR;
          more := false;
        } else {
          i := i + 1;
        }
      }
    }
    if res == ERROR {
      context.ErrorPush(EXPRESSION_PARSING_ERROR);
    }
  }

  /** channelSpec: every coordinate is counted, the first ones are stored. */
  method ReadChannelSpec(state: LexState, values: array<int>, length: nat) returns (res: Outcome, dimensions: nat)
    requires state.Valid() && length <= values.Length
    modifies state, values
    ensures state.Valid()
    ensures var r := ChannelSpecFrom(state.text, old(state.pos), []);
            && res == r.outcome && state.pos == r.pos
            && (res == OK ==> dimensions == |r.values|
                              && values[..Min(length, dimensions)] == r.values[..Min(length, dimensions)])
    ensures forall k :: length <= k < values.Length ==> values[k] == old(values[k])
  {
    hide Decimal, LeadingInteger, ChannelSpecFrom;
    dimensions := 0;
    var i := 0;
    ghost var all, vals := ChannelSpecFrom(state.text, state.pos, []), [];
    var start := state.pos;
    var param, len := state.DecimalNumericProgramData();
    while len > 0
      invariant state.Valid() && start <= |state.text| && |vals| == i
      invariant ChannelSpecFrom(state.text, start, vals) == all
      invariant var d := Decimal(state.text, start); len == d.ret && state.pos == d.pos
      invariant values[..Min(length, i)] == vals[..Min(length, i)]
      invariant forall k :: length <= k < values.Length ==> values[k] == old(values[k])
      decreases |state.text| - start
    {
      ChannelSpecStep(state.text, start, vals);
      if i < length {
        values[i] := Clamped(LeadingInteger(state.text, start));
      }
      vals := vals + [Clamped(LeadingInteger(state.text, start))];
      var _, bang := state.Character('!', SpecificCharacter);
      if bang > 0 {
        i := i + 1;
        start := state.pos;
        param, len := state.DecimalNumericProgramData();
      } else {
        dimensions := i + 1;
        return OK, dimensions;
      }
    }
    ChannelSpecStep(state.text, start, vals);
    res := if i == 0 then NO_MORE else ERROR;
  }

  lemma ChannelSpecStep(t: string, p: nat, vals: seq<int>)
    requires p <= |t|
    ensures var d := Decimal(t, p);
            var all := vals + [Clamped(LeadingInteger(t, p))];
            ChannelSpecFrom(t, p, vals)
            == if d.ret == 0 then Spec(if vals == [] then NO_MORE else ERROR, vals, p)
               else if At(t, d.pos, '!') then ChannelSpecFrom(t, d.pos + 1, all) else Spec(OK, all, d.pos)
  {
  }

  method ReadChannelRange(state: LexState, valuesFrom: array<int>, valuesTo: array<int>, length: nat)
    returns (res: Outcome, isRange: bool, dimensions: nat)
    requires state.Valid() && length <= valuesFrom.Length && length <= valuesTo.Length && valuesFrom != valuesTo
    modifies state, valuesFrom, valuesTo
    ensures state.Valid()
    ensures var r := ChannelRange(state.text, old(state.pos));
            && res == r.outcome && state.pos == r.pos
            && (res == OK ==> StoredChannel(r, isRange, valuesFrom[..], valuesTo[..], length, dimensions))
  {
    hide ChannelSpecFrom;
    isRange, dimensions := false, 0;
    var fromDimensions;
    res, fromDimensions := ReadChannelSpec(state, valuesFrom, length);
    if res == OK {
      var _, colon := state.Character(':', Colon);
      if colon > 0 {
        isRange := true;
        var toDimensions;
        res, toDimensions := ReadChannelSpec(state, valuesTo, length);
        if res != OK || fromDimensions != toDimensions {
          return ERROR, isRange, dimensions;
        }
        dimensions := fromDimensions;
      } else {
        dimensions := fromDimensions;
      }
    } else if res == NO_MORE {
      res := ERROR;
    }
  }

  /** What a successful read leaves in the caller's variables. */
  ghost predicate StoredChannel(r: Channel, isRange: bool, from: seq<int>, to: seq<int>, length: nat, dimensions: nat) {
    && isRange == r.isRange && dimensions == |r.from| && length <= |from| && length <= |to|
    && from[..Min(length, dimensions)] == r.from[..Min(length, dimensions)]
    && (isRange ==> |r.to| == dimensions && to[..Min(length, dimensions)] == r.to[..Min(length, dimensions)])
  }

  /** SCPI_ExprChannelListEntry */
  method ExprChannelListEntry(context: CommandContext, text: string, param: Token, index: nat,
                              valuesFrom: array<int>, valuesTo: array<int>, length: nat)
    returns (res: Outcome, isRange: bool, dimensions: nat)
    requires 0 <= param.ptr && 2 <= param.len && param.ptr + param.len <= |text|
    requires length <= valuesFrom.Length && length <= valuesTo.Length && valuesFrom != valuesTo
    modifies context`errors, context`cmdError, valuesFrom, valuesTo
    ensures param.kind != ProgramExpression ==> res == ERROR && context.errors == old(context.errors) + [-104]
    ensures param.kind == ProgramExpression ==>
              var t := Inside(text, param);
              if !At(t, param.ptr + 1, '@') then res == ERROR && context.errors == old(context.errors) + [-170]
              else
                var r := ChannelEntry(t, param.ptr + 2, index);
                && res == r.outcome
                && context.errors == old(context.errors) + (if res == ERROR then [-170] else [])
                && (res == OK ==> StoredChannel(r, isRange, valuesFrom[..], valuesTo[..], length, dimensions))
  {
    hide ChannelRange, StoredChannel;
    res, isRange, dimensions := OK, false, 0;
    if param.kind != ProgramExpression {
      context.ErrorPush(DATA_TYPE_ERROR);
      return ERROR, isRange, dimensions;
    }
    var lex := new LexState(Inside(text, param), param.ptr + 1);
    var _, at := lex.Character('@', SpecificCharacter);
    if at == 0 {
      context.ErrorPush(EXPRESSION_PARSING_ERROR);
      return ERROR, isRange, dimensions;
    }
    ghost var all := ChannelEntry(lex.text, lex.pos, index);
    var i := 0;
    var more := true;
    while more
      invariant lex.Valid() && 0 <= i && context.errors == old(context.errors)
      invariant more ==> i <= index && all == ChannelEntry(lex.text, lex.pos, index - i)
      invariant !more ==> res == all.outcome && (res == NO_MORE ==> lex.pos == |lex.text|)
                          && (res == OK ==> StoredChannel(all, isRange, valuesFrom[..], valuesTo[..], length, dimensions))
      decreases index - i, more
    {
      res, isRange, dimensions := ReadChannelRange(lex, valuesFrom, valuesTo, if i == index then length else 0);
      if res != OK || i == index {
        more := false;
      } else {
        var _, comma := lex.Character(',', Comma);
        if comma == 0 {
          res := if lex.IsEos() then NO_MORE else ERROR;
          more := false;
        } else {
          i := i + 1;
        }
      }
    }
    if res == NO_MORE && !lex.IsEos() {
      res := ERROR;
    }
    if res == ERROR {
      context.ErrorPush(EXPRESSION_PARSING_ERROR);
    }
  }

  // ------------------------------------------------------------ printed lists

  /** A list entry: one place or a range; a numeric list has one coordinate per place. */
  datatype Entry = Single(from: seq<int>) | Range(from: seq<int>, to: seq<int>)

  predicate WellShaped(e: Entry) { e.from != [] && (e.Range? ==> |e.to| == |e.from|) }

  predicate IsNumber(e: Entry) { |e.from| == 1 && (e.Range? ==> |e.to| == 1) }

  function PrintSpec(vals: seq<int>): string
    requires vals != []
  {
    Printed(vals[0]) + if |vals| == 1 then "" else "!" + PrintSpec(vals[1..])
  }

  function PrintEntry(e: Entry): string
    requires WellShaped(e)
  {
    PrintSpec(e.from) + if e.Single? then "" else ":" + PrintSpec(e.to)
  }

  predicate AllShaped(list: seq<Entry>) { forall i :: 0 <= i < |list| ==> WellShaped(list[i]) }

  function PrintList(list: seq<Entry>): string
    requires list != [] && AllShaped(list)
  {
    PrintEntry(list[0]) + if |list| == 1 then "" else "," + PrintList(list[1..])
  }

  /** What may follow a specification in a printed list. */
  predicate EndsSpec(t: string, e: nat) { e <= |t| && (e == |t| || t[e] == ',' || t[e] == ':') }

  predicate EndsEntry(t: string, e: nat) { e <= |t| && (e == |t| || t[e] == ',') }

  /** Where the next coordinate of a printed specification stands. */
  lemma NextCoordinate(t: string, p: nat, vals: seq<int>)
    requires vals != [] && Stands(t, p, PrintSpec(vals)) && EndsSpec(t, p + |PrintSpec(vals)|)
    ensures Stands(t, p, Printed(vals[0])) && EndsNumber(t, p + |Printed(vals[0])|)
    ensures var e := p + |Printed(vals[0])|;
            if |vals| == 1 then e == p + |PrintSpec(vals)| && !At(t, e, '!')
            else At(t, e, '!') && Stands(t, e + 1, PrintSpec(vals[1..])) && e + 1 + |PrintSpec(vals[1..])| == p + |PrintSpec(vals)|
  {
    hide Printed, PrintSpec, Stands;
    var first := Printed(vals[0]);
    StandsStart(t, p, PrintSpec(vals));
    if |vals| == 1 {
      PrintOne(vals);
    } else {
      var rest := PrintSpec(vals[1..]);
      PrintMore(vals);
      StandsApart(t, p, first, "!" + rest);
      StandsApart(t, p + |first|, "!", rest);
      assert t[p + |first| + 0] == '!';
    }
  }

  lemma PrintMore(vals: seq<int>)
    requires |vals| > 1
    ensures PrintSpec(vals) == Printed(vals[0]) + ("!" + PrintSpec(vals[1..]))
  {
  }

  lemma ClampedHead(vals: seq<int>)
    requires vals != []
    ensures AllClamped(vals) == [Clamped(vals[0])] + AllClamped(vals[1..])
    ensures |vals| == 1 ==> AllClamped(vals) == [Clamped(vals[0])]
  {
    hide Clamped;
  }

  /** A stored coordinate is the number itself within 32 bits, and the nearest of the bounds outside them. */
  lemma {:induction false} StoredCoordinate(vals: seq<int>, i: nat)
    requires i < |vals|
    ensures var c := AllClamped(vals)[i];
            && -2147483648 <= c <= 2147483647
            && (-2147483648 <= vals[i] <= 2147483647 ==> c == vals[i])
            && (vals[i] > 2147483647 ==> c == 2147483647) && (vals[i] < -2147483648 ==> c == -2147483648)
    decreases i
  {
    if i > 0 {
      StoredCoordinate(vals[1..], i - 1);
      assert vals[1..][i - 1] == vals[i];
    }
  }

  lemma OneMoreClamped(done: seq<int>, vals: seq<int>)
    requires vals != []
    ensures (done + [Clamped(vals[0])]) + AllClamped(vals[1..]) == done + AllClamped(vals)
    ensures |vals| == 1 ==> done + [Clamped(vals[0])] == done + AllClamped(vals)
  {
    hide Clamped, AllClamped;
    ClampedHead(vals);
    ConsConcat(done, Clamped(vals[0]), AllClamped(vals[1..]));
  }

  lemma ConsConcat(a: seq<int>, x: int, b: seq<int>)
    ensures (a + [x]) + b == a + ([x] + b)
  {
  }

  lemma {:induction false} SpecRead(t: string, p: nat, vals: seq<int>, done: seq<int>)
    requires vals != [] && Stands(t, p, PrintSpec(vals)) && EndsSpec(t, p + |PrintSpec(vals)|)
    ensures ChannelSpecFrom(t, p, done) == Spec(OK, done + AllClamped(vals), p + |PrintSpec(vals)|)
    decreases |vals|
  {
    hide ChannelSpecFrom, Printed, PrintSpec, LeadingInteger, Decimal, Stands, Clamped, AllClamped;
    NextCoordinate(t, p, vals);
    PrintedRead(t, p, vals[0]);
    ChannelSpecStep(t, p, done);
    OneMoreClamped(done, vals);
    if |vals| > 1 {
      SpecRead(t, p + |Printed(vals[0])| + 1, vals[1..], done + [Clamped(vals[0])]);
    }
  }

  /** Where the parts of a printed entry stand. */
  lemma EntryParts(t: string, p: nat, e: Entry)
    requires WellShaped(e) && Stands(t, p, PrintEntry(e)) && EndsEntry(t, p + |PrintEntry(e)|)
    ensures Stands(t, p, PrintSpec(e.from)) && EndsSpec(t, p + |PrintSpec(e.from)|)
    ensures var at := p + |PrintSpec(e.from)|;
            if e.Single? then at == p + |PrintEntry(e)| && !At(t, at, ':')
            else && At(t, at, ':') && Stands(t, at + 1, PrintSpec(e.to)) && EndsSpec(t, at + 1 + |PrintSpec(e.to)|)
                 && at + 1 + |PrintSpec(e.to)| == p + |PrintEntry(e)|
  {
    hide PrintSpec, Stands;
    var at := p + |PrintSpec(e.from)|;
    if e.Single? {
      assert PrintSpec(e.from) + "" == PrintSpec(e.from);
    } else {
      StandsApart(t, p, PrintSpec(e.from), ":" + PrintSpec(e.to));
      StandsApart(t, at, ":", PrintSpec(e.to));
      assert t[at + 0] == ':';
      StandsStart(t, at, ":");
    }
  }

  lemma ChannelEntryRead(t: string, p: nat, e: Entry)
    requires WellShaped(e) && Stands(t, p, PrintEntry(e)) && EndsEntry(t, p + |PrintEntry(e)|)
    ensures ChannelRange(t, p)
            == Channel(OK, e.Range?, AllClamped(e.from), if e.Range? then AllClamped(e.to) else [], p + |PrintEntry(e)|)
  {
    hide ChannelSpecFrom, PrintSpec, PrintEntry, Stands, AllClamped;
    EntryParts(t, p, e);
    SpecRead(t, p, e.from, []);
    assert [] + AllClamped(e.from) == AllClamped(e.from);
    if e.Range? {
      SpecRead(t, p + |PrintSpec(e.from)| + 1, e.to, []);
      assert [] + AllClamped(e.to) == AllClamped(e.to);
    }
  }

  /** A range between places of different dimensions is an error, however it is placed. */
  lemma MismatchedRange(t: string, p: nat, from: seq<int>, to: seq<int>)
    requires from != [] && to != [] && |from| != |to|
    requires Stands(t, p, PrintSpec(from) + (":" + PrintSpec(to))) && EndsEntry(t, p + |PrintSpec(from) + (":" + PrintSpec(to))|)
    ensures ChannelRange(t, p).outcome == ERROR
  {
    hide ChannelSpecFrom, PrintSpec, Stands, AllClamped;
    var at := p + |PrintSpec(from)|;
    StandsApart(t, p, PrintSpec(from), ":" + PrintSpec(to));
    StandsApart(t, at, ":", PrintSpec(to));
    StandsStart(t, at, ":");
    SpecRead(t, p, from, []);
    SpecRead(t, at + 1, to, []);
  }

  /** In a numeric list a dimension mark behind a number is an error for every later entry, and none for this one. */
  lemma MarkedNumber(t: string, p: nat, v: int, k: nat)
    requires Stands(t, p, Printed(v)) && At(t, p + |Printed(v)|, '!')
    ensures NumericEntry(t, p, k).outcome == if k == 0 then OK else ERROR
  {
    hide Decimal, Printed, LeadingInteger;
    PrintedRead(t, p, v);
  }

  /** Where the next entry of a printed list stands. */
  lemma NextEntry(t: string, p: nat, list: seq<Entry>)
    requires list != [] && AllShaped(list) && Stands(t, p, PrintList(list)) && p + |PrintList(list)| == |t|
    ensures WellShaped(list[0]) && Stands(t, p, PrintEntry(list[0]))
    ensures var e := p + |PrintEntry(list[0])|;
            if |list| == 1 then e == |t|
            else At(t, e, ',') && Stands(t, e + 1, PrintList(list[1..])) && e + 1 + |PrintList(list[1..])| == |t|
  {
    hide PrintEntry, Stands;
    StandsStart(t, p, PrintList(list));
    var first := PrintEntry(list[0]);
    if |list| == 1 {
      assert first + "" == first;
    } else {
      var rest := PrintList(list[1..]);
      StandsApart(t, p, first, "," + rest);
      StandsApart(t, p + |first|, ",", rest);
      assert t[p + |first| + 0] == ',';
    }
  }

  /**
   * The indexed accessor of a channel list: entry k, its coordinates clamped to 32 bits,
   * for every k below the length, and no more beyond it.
   */
  lemma {:induction false} ChannelListRead(t: string, p: nat, list: seq<Entry>, k: nat)
    requires list != [] && AllShaped(list) && Stands(t, p, PrintList(list)) && p + |PrintList(list)| == |t|
    ensures var r := ChannelEntry(t, p, k);
            if k < |list| then
              r.outcome == OK && r.isRange == list[k].Range? && r.from == AllClamped(list[k].from)
              && (r.isRange ==> r.to == AllClamped(list[k].to))
            else r.outcome == NO_MORE
    decreases |list|
  {
    hide ChannelRange, PrintList, PrintEntry;
    NextEntry(t, p, list);
    ChannelEntryRead(t, p, list[0]);
    if k > 0 && |list| > 1 {
      var e := p + |PrintEntry(list[0])|;
      ChannelListRead(t, e + 1, list[1..], k - 1);
      assert k < |list| ==> list[1..][k - 1] == list[k];
    }
  }

  /** The numbers at a token. */
  predicate IsPrinted(t: string, token: Token, v: int) {
    && 0 <= token.ptr && 0 <= token.len && token.ptr + token.len <= |t|
    && token.kind == DecimalNumeric && t[token.ptr..token.ptr + token.len] == Printed(v)
    && LeadingInteger(t, token.ptr) == v
  }

  lemma NumberRead(t: string, p: nat, v: int)
    requires Stands(t, p, Printed(v)) && EndsSpec(t, p + |Printed(v)|)
    ensures var d := Decimal(t, p);
            d.ret > 0 && d.pos == p + |Printed(v)| && IsPrinted(t, d.tok, v)
  {
    hide Printed, LeadingInteger, Decimal;
    PrintedRead(t, p, v);
  }

  lemma PrintOne(vals: seq<int>)
    requires |vals| == 1
    ensures PrintSpec(vals) == Printed(vals[0])
  {
    assert Printed(vals[0]) + "" == Printed(vals[0]);
  }

  lemma NumericEntryRead(t: string, p: nat, e: Entry)
    requires WellShaped(e) && IsNumber(e) && Stands(t, p, PrintEntry(e)) && EndsEntry(t, p + |PrintEntry(e)|)
    ensures var r := NumericRange(t, p);
            && r.outcome == OK && r.isRange == e.Range? && r.pos == p + |PrintEntry(e)|
            && IsPrinted(t, r.from, e.from[0]) && (e.Range? ==> IsPrinted(t, r.to, e.to[0]))
  {
    hide Decimal, Printed, PrintSpec, PrintEntry, IsPrinted, Stands;
    EntryParts(t, p, e);
    PrintOne(e.from);
    NumberRead(t, p, e.from[0]);
    if e.Range? {
      PrintOne(e.to);
      NumberRead(t, p + |Printed(e.from[0])| + 1, e.to[0]);
    }
  }

  /** The indexed accessor of a numeric list, likewise: the tokens are the written numbers. */
  lemma {:induction false} NumericListRead(t: string, p: nat, list: seq<Entry>, k: nat)
    requires list != [] && AllShaped(list) && Stands(t, p, PrintList(list)) && p + |PrintList(list)| == |t|
    requires forall i :: 0 <= i < |list| ==> IsNumber(list[i])
    ensures var r := NumericEntry(t, p, k);
            if k < |list| then
              && r.outcome == OK && r.isRange == list[k].Range? && IsPrinted(t, r.from, list[k].from[0])
              && (r.isRange ==> IsPrinted(t, r.to, list[k].to[0]))
            else r.outcome == NO_MORE
    decreases |list|
  {
    hide NumericRange, PrintList, PrintEntry, IsPrinted;
    NextEntry(t, p, list);
    NumericEntryRead(t, p, list[0]);
    if k > 0 && |list| > 1 {
      var e := p + |PrintEntry(list[0])|;
      NumericListRead(t, e + 1, list[1..], k - 1);
      assert k < |list| ==> list[1..][k - 1] == list[k];
    }
  }

  // ------------------------------------------------------------ printed lists are expression parameters

  /** Section 7.7.7: printable characters, without quotes, parentheses, the number sign and the semicolon. */
  predicate AllExpression(s: string) {
    forall i :: 0 <= i < |s| ==>
      ' ' <= s[i] <= '~' && s[i] != '"' && s[i] != '\'' && s[i] != '(' && s[i] != ')' && s[i] != '#' && s[i] != ';'
  }

  lemma AllConcat(a: string, b: string)
    requires AllExpression(a) && AllExpression(b)
    ensures AllExpression(a + b)
  {
  }

  lemma PrintedChars(v: int)
    ensures AllExpression(Printed(v))
  {
    hide Show, Numeral;
    var digits := Show(if v < 0 then -v else v, 10);
    ShowIsNumeral(if v < 0 then -v else v, 10);
    NumeralIsDigits(digits);
    AllConcat(if v < 0 then "-" else "", digits);
  }

  lemma {:induction false} SpecChars(vals: seq<int>)
    requires vals != []
    ensures AllExpression(PrintSpec(vals))
    decreases |vals|
  {
    hide AllExpression, Printed;
    PrintedChars(vals[0]);
    Marks();
    if |vals| == 1 {
      PrintOne(vals);
    } else {
      SpecChars(vals[1..]);
      AllConcat("!", PrintSpec(vals[1..]));
      AllConcat(Printed(vals[0]), "!" + PrintSpec(vals[1..]));
    }
  }

  lemma Marks()
    ensures AllExpression("") && AllExpression("!") && AllExpression(":") && AllExpression(",") && AllExpression("@")
  {
  }

  lemma {:induction false} ListChars(list: seq<Entry>)
    requires list != [] && AllShaped(list)
    ensures AllExpression(PrintList(list))
    decreases |list|
  {
    hide AllExpression, PrintSpec;
    var e := list[0];
    assert WellShaped(e);
    Marks();
    SpecChars(e.from);
    if e.Range? {
      SpecChars(e.to);
      AllConcat(":", PrintSpec(e.to));
    }
    AllConcat(PrintSpec(e.from), if e.Single? then "" else ":" + PrintSpec(e.to));
    if |list| > 1 {
      ListChars(list[1..]);
      AllConcat(",", PrintList(list[1..]));
    }
    AllConcat(PrintEntry(e), if |list| == 1 then "" else "," + PrintList(list[1..]));
  }

  /** A body of expression characters in parentheses is one expression parameter. */
  lemma ParenthesesRead(s: string, p: nat, body: string)
    requires AllExpression(body) && Stands(s, p, "(" + body + ")")
    ensures ProgramUnits.DataItem(s, p) == Lexed(Token(ProgramExpression, p, |body| + 2), p + |body| + 2, |body| + 2)
  {
    hide Span, AllExpression;
    var e := p + 1 + |body|;
    assert "(" + body + ")" == "(" + (body + ")");
    StandsApart(s, p, "(", body + ")");
    StandsApart(s, p + 1, body, ")");
    assert s[p + 0] == '(' && s[e + 0] == ')';
    BodySpan(s, p + 1, body);
    OnlyExpression(s, p);
  }

  /** Without the closing parenthesis behind them there is no parameter. */
  lemma UnclosedRead(s: string, p: nat, body: string)
    requires AllExpression(body) && Stands(s, p, "(" + body)
    requires var e := p + 1 + |body|; e < |s| ==> s[e] != ')' && !AllExpression([s[e]])
    ensures ProgramUnits.DataItem(s, p) == Miss(p)
  {
    hide Span;
    var e := p + 1 + |body|;
    StandsApart(s, p, "(", body);
    assert s[p + 0] == '(';
    UnclosedSpan(s, p + 1, body);
    OnlyExpression(s, p);
  }

  lemma UnclosedSpan(s: string, p: nat, body: string)
    requires AllExpression(body) && Stands(s, p, body)
    requires var e := p + |body|; e < |s| ==> !AllExpression([s[e]])
    ensures Span(s, p, ExpressionChar) == p + |body|
  {
    var e := p + |body|;
    forall i | p <= i < e ensures Is(ExpressionChar, s[i]) {
      assert s[i] == body[i - p];
    }
    if e < |s| { assert [s[e]][0] == s[e]; }
    SpanStops(s, p, e, ExpressionChar);
  }

  lemma BodySpan(s: string, p: nat, body: string)
    requires AllExpression(body) && Stands(s, p, body) && At(s, p + |body|, ')')
    ensures Span(s, p, ExpressionChar) == p + |body|
  {
    var e := p + |body|;
    forall i | p <= i < e ensures Is(ExpressionChar, s[i]) {
      assert s[i] == body[i - p];
    }
    SpanStops(s, p, e, ExpressionChar);
  }

  lemma OnlyExpression(s: string, p: nat)
    requires At(s, p, '(')
    ensures ProgramUnits.PlainItem(s, p).ret == 0 && StringData(s, p).ret == 0 && Block(s, p) == Miss(p)
  {
  }

  /**
   * End to end, for a numeric list: the printed list is scanned as one parameter,
   * and from that parameter the accessor yields exactly the printed entries.
   */
  lemma NumericListRoundTrip(s: string, p: nat, list: seq<Entry>, k: nat)
    requires list != [] && AllShaped(list) && forall i :: 0 <= i < |list| ==> IsNumber(list[i])
    requires Stands(s, p, "(" + PrintList(list) + ")")
    ensures var param := ProgramUnits.DataItem(s, p).tok;
            && param == Token(ProgramExpression, p, |PrintList(list)| + 2)
            && var t := Inside(s, param);
            var r := NumericEntry(t, param.ptr + 1, k);
            if k < |list| then
              && r.outcome == OK && r.isRange == list[k].Range? && IsPrinted(t, r.from, list[k].from[0])
              && (r.isRange ==> IsPrinted(t, r.to, list[k].to[0]))
            else r.outcome == NO_MORE
  {
    hide PrintList, IsPrinted, ProgramUnits.DataItem, NumericEntry, AllExpression;
    var body := PrintList(list);
    ListChars(list);
    ParenthesesRead(s, p, body);
    InsideBody(s, p, body);
    NumericListRead(Inside(s, Token(ProgramExpression, p, |body| + 2)), p + 1, list, k);
  }

  /** End to end, for a channel list. */
  lemma ChannelListRoundTrip(s: string, p: nat, list: seq<Entry>, k: nat)
    requires list != [] && AllShaped(list) && Stands(s, p, "(" + ("@" + PrintList(list)) + ")")
    ensures var param := ProgramUnits.DataItem(s, p).tok;
            && param == Token(ProgramExpression, p, |PrintList(list)| + 3)
            && var t := Inside(s, param);
            var r := ChannelEntry(t, param.ptr + 2, k);
            && At(t, param.ptr + 1, '@')
            && if k < |list| then
                 r.outcome == OK && r.isRange == list[k].Range? && r.from == AllClamped(list[k].from)
              && (r.isRange ==> r.to == AllClamped(list[k].to))
               else r.outcome == NO_MORE
  {
    hide PrintList, ProgramUnits.DataItem, ChannelEntry, AllExpression;
    var body := "@" + PrintList(list);
    ListChars(list);
    Marks();
    AllConcat("@", PrintList(list));
    ParenthesesRead(s, p, body);
    InsideBody(s, p, body);
    var t := Inside(s, Token(ProgramExpression, p, |body| + 2));
    StandsApart(t, p + 1, "@", PrintList(list));
    assert t[p + 1 + 0] == '@';
    ChannelListRead(t, p + 2, list, k);
  }

  lemma InsideBody(s: string, p: nat, body: string)
    requires Stands(s, p, "(" + body + ")")
    ensures var t := Inside(s, Token(ProgramExpression, p, |body| + 2));
            Stands(t, p + 1, body) && p + 1 + |body| == |t|
  {
    assert "(" + body + ")" == "(" + (body + ")");
    StandsApart(s, p, "(", body + ")");
    StandsApart(s, p + 1, body, ")");
  }
}
