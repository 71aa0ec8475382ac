// The status registers of IEEE 488.2 and SCPI-99: SCPI_RegSet of ieee488.c and
// its cascade from condition to event register to status byte.

module StatusRegisters {

  // scpi_reg_name_t, and the number of registers
  const STB := 0
  const SRE := 1
  const ESR := 2
  const ESE := 3
  const OPER := 4
  const OPERE := 5
  const OPERC := 6
  const QUES := 7
  const QUESE := 8
  const QUESC := 9
  const REG_COUNT := 10

  const STB_QMA: bv16 := 0x04
  const STB_QES: bv16 := 0x08
  const STB_ESR: bv16 := 0x20
  const STB_SRQ: bv16 := 0x40
  const STB_OPS: bv16 := 0x80

  datatype RegClass = StatusByte | ServiceEnable | EventReg | EnableReg | ConditionReg

  /** A register group without transition filters; the status byte group has no parent. */
  datatype Group = Group(event: nat, enable: nat, parentBit: bv16)

  const EVENT_REGISTERS := [ESR, OPER, QUES]

  function ClassOf(name: nat): RegClass {
    if name == STB then StatusByte
    else if name == SRE then ServiceEnable
    else if name == ESR || name == OPER || name == QUES then EventReg
    else if name == OPERC || name == QUESC then ConditionReg
    else EnableReg
  }

  function GroupOf(name: nat): (g: Group)
    ensures g.event < REG_COUNT && g.enable < REG_COUNT
  {
    if name == STB || name == SRE then Group(STB, SRE, 0)
    else if name == ESR || name == ESE then Group(ESR, ESE, STB_ESR)
    else if name == OPER || name == OPERE || name == OPERC then Group(OPER, OPERE, STB_OPS)
    else Group(QUES, QUESE, STB_QES)
  }

  type Regs = r: seq<bv16> | |r| == REG_COUNT witness seq(REG_COUNT, _ => 0)

  // ------------------------------------------------------------ specification

  predicate Any(bits: bv16, mask: bv16) { bits & mask != 0 }

  function Without(bits: bv16, mask: bv16): bv16 { bits & !mask }

  function With(bits: bv16, mask: bv16): bv16 { bits | mask }

  /** The bits that go from 0 to 1. */
  function Rising(before: bv16, after: bv16): bv16 { (before ^ after) & after }

  /** Some status bit other than SRQ is set and enabled. */
  predicate Requesting(stb: bv16, sre: bv16) { Any(Without(stb, STB_SRQ), Without(sre, STB_SRQ)) }

  /** The service request bit follows the enabled rest of the status byte. */
  function WithServiceRequest(r: Regs): Regs {
    r[STB := if Requesting(r[STB], r[SRE]) then With(r[STB], STB_SRQ) else Without(r[STB], STB_SRQ)]
  }

  function SetStatus(r: Regs, name: nat, val: bv16): Regs
    requires name == STB || name == SRE
  {
    if r[name] == val then r else WithServiceRequest(r[name := val])
  }

  /** A changed event register decides its summary bit in the status byte. */
  function SetEvent(r: Regs, name: nat, val: bv16): Regs
    requires ClassOf(name) == EventReg
  {
    if r[name] == val then r
    else
      var r1 := r[name := val];
      var g := GroupOf(name);
      SetStatus(r1, STB, if Any(val, r1[g.enable]) then With(r1[STB], g.parentBit) else Without(r1[STB], g.parentBit))
  }

  /** A changed condition register adds its rising edges to its event register. */
  function SetCondition(r: Regs, name: nat, val: bv16): Regs
    requires ClassOf(name) == ConditionReg && name < REG_COUNT
  {
    if r[name] == val then r
    else
      var r1 := r[name := val];
      var event := GroupOf(name).event;
      SetEvent(r1, event, With(Rising(r[name], val), r1[event]))
  }

  function Written(r: Regs, name: nat, val: bv16): Regs
    requires name < REG_COUNT
  {
    match ClassOf(name)
    case StatusByte => SetStatus(r, name, val)
    case ServiceEnable => SetStatus(r, name, val)
    case EventReg => SetEvent(r, name, val)
    case ConditionReg => SetCondition(r, name, val)
    case EnableReg => r[name := val]
  }

  /** A write through SCPI_RegSet. */
  datatype Write = Write(name: nat, val: bv16)

  function Writes(r: Regs, ws: seq<Write>): Regs
    requires forall i :: 0 <= i < |ws| ==> ws[i].name < REG_COUNT
    decreases |ws|
  {
    if ws == [] then r else Writes(Written(r, ws[0].name, ws[0].val), ws[1..])
  }

  const RESET: Regs := seq(REG_COUNT, _ => 0)

  // ------------------------------------------------------------ what every run keeps

  /** The service request bit is set iff some other status bit is set and enabled. */
  predicate ServiceRequestOk(r: Regs) { Any(r[STB], STB_SRQ) <==> Requesting(r[STB], r[SRE]) }

  lemma ServiceRequestAfter(r: Regs)
    ensures var r' := WithServiceRequest(r);
            && ServiceRequestOk(r')
            && Without(r'[STB], STB_SRQ) == Without(r[STB], STB_SRQ)
            && forall i :: 0 < i < REG_COUNT ==> r'[i] == r[i]
  {
    hide With, Without, Any, Requesting;
    RequestBits(r[STB], r[SRE]);
  }

  lemma RequestBits(stb: bv16, sre: bv16)
    ensures var after := if Requesting(stb, sre) then With(stb, STB_SRQ) else Without(stb, STB_SRQ);
            (Any(after, STB_SRQ) <==> Requesting(after, sre)) && Without(after, STB_SRQ) == Without(stb, STB_SRQ)
  {
  }

  lemma SetStatusServiceRequest(r: Regs, name: nat, val: bv16)
    requires name == STB || name == SRE
    requires ServiceRequestOk(r)
    ensures ServiceRequestOk(SetStatus(r, name, val))
  {
    hide WithServiceRequest, ServiceRequestOk, Without;
    ServiceRequestAfter(r[name := val]);
  }

  lemma SetEventServiceRequest(r: Regs, name: nat, val: bv16)
    requires ClassOf(name) == EventReg && ServiceRequestOk(r)
    ensures ServiceRequestOk(SetEvent(r, name, val))
  {
    hide SetStatus, ServiceRequestOk, With, Without, Any;
    var r1, g := r[name := val], GroupOf(name);
    SameStatus(r, r1);
    SetStatusServiceRequest(r1, STB, With(r1[STB], g.parentBit));
    SetStatusServiceRequest(r1, STB, Without(r1[STB], g.parentBit));
  }

  lemma SameStatus(r: Regs, r1: Regs)
    requires r[STB] == r1[STB] && r[SRE] == r1[SRE]
    ensures ServiceRequestOk(r) == ServiceRequestOk(r1)
  {
    hide Requesting, Any;
  }

  /** Each write keeps the service request bit right. */
  lemma RegSetServiceRequest(r: Regs, name: nat, val: bv16)
    requires name < REG_COUNT && ServiceRequestOk(r)
    ensures ServiceRequestOk(Written(r, name, val))
  {
    hide SetStatus, SetEvent, ServiceRequestOk, With, Rising;
    match ClassOf(name)
    case StatusByte => SetStatusServiceRequest(r, name, val);
    case ServiceEnable => SetStatusServiceRequest(r, name, val);
    case EventReg => SetEventServiceRequest(r, name, val);
    case EnableReg => SameStatus(r, r[name := val]);
    case ConditionReg =>
      var r1, event := r[name := val], GroupOf(name).event;
      SameStatus(r, r1);
      SetEventServiceRequest(r1, event, With(Rising(r[name], val), r1[event]));
  }

  /** In every state reachable through SCPI_RegSet, SRQ is set iff STB & SRE without SRQ is not zero. */
  lemma {:induction false} ServiceRequestAlways(r: Regs, ws: seq<Write>)
    requires ServiceRequestOk(r) && forall i :: 0 <= i < |ws| ==> ws[i].name < REG_COUNT
    ensures ServiceRequestOk(Writes(r, ws))
    decreases |ws|
  {
    hide Written, ServiceRequestOk;
    if ws != [] {
      RegSetServiceRequest(r, ws[0].name, ws[0].val);
      ServiceRequestAlways(Written(r, ws[0].name, ws[0].val), ws[1..]);
    }
  }

  lemma SetStatusEffect(r: Regs, val: bv16)
    ensures var r' := SetStatus(r, STB, val);
            Without(r'[STB], STB_SRQ) == Without(val, STB_SRQ) && forall i :: 0 < i < REG_COUNT ==> r'[i] == r[i]
  {
    hide WithServiceRequest, Without;
    ServiceRequestAfter(r[STB := val]);
  }

  /**
   * A write that changes an event register makes its summary bit say whether an
   * enabled event is present, and leaves the other status bits but SRQ, and
   * every other register, alone.
   */
  lemma EventWrite(r: Regs, name: nat, val: bv16)
    requires ClassOf(name) == EventReg && r[name] != val
    ensures var r', g := Written(r, name, val), GroupOf(name);
            && r'[name] == val
            && (Any(r'[STB], g.parentBit) <==> Any(val, r[g.enable]))
            && Without(r'[STB], With(g.parentBit, STB_SRQ)) == Without(r[STB], With(g.parentBit, STB_SRQ))
            && forall i :: 0 < i < REG_COUNT && i != name ==> r'[i] == r[i]
  {
    hide SetStatus, With, Without, Any;
    var g := GroupOf(name);
    var r1 := r[name := val];
    var stb := if Any(val, r1[g.enable]) then With(r1[STB], g.parentBit) else Without(r1[STB], g.parentBit);
    SetStatusEffect(r1, stb);
    SummaryBit(r[STB], g.parentBit, Any(val, r1[g.enable]), Written(r, name, val)[STB]);
  }

  lemma SummaryBit(before: bv16, bit: bv16, on: bool, after: bv16)
    requires bit == STB_ESR || bit == STB_OPS || bit == STB_QES
    requires Without(after, STB_SRQ) ==
             if on then Without(With(before, bit), STB_SRQ) else Without(Without(before, bit), STB_SRQ)
    ensures Any(after, bit) <==> on
    ensures Without(after, With(bit, STB_SRQ)) == Without(before, With(bit, STB_SRQ))
  {
    if on {
      SummaryOn(before, bit, after);
    } else {
      SummaryOff(before, bit, after);
    }
  }

  lemma SummaryOn(before: bv16, bit: bv16, after: bv16)
    requires Without(bit, STB_SRQ) == bit && bit != 0
    requires Without(after, STB_SRQ) == Without(With(before, bit), STB_SRQ)
    ensures Any(after, bit) && Without(after, With(bit, STB_SRQ)) == Without(before, With(bit, STB_SRQ))
  {
  }

  lemma SummaryOff(before: bv16, bit: bv16, after: bv16)
    requires Without(bit, STB_SRQ) == bit
    requires Without(after, STB_SRQ) == Without(Without(before, bit), STB_SRQ)
    ensures !Any(after, bit) && Without(after, With(bit, STB_SRQ)) == Without(before, With(bit, STB_SRQ))
  {
  }

  /** A condition register hands every rising edge on, and its event register never loses a bit by it. */
  lemma ConditionWrite(r: Regs, name: nat, val: bv16)
    requires ClassOf(name) == ConditionReg && name < REG_COUNT
    ensures var r', event := Written(r, name, val), GroupOf(name).event;
            && r'[name] == val && r'[event] == With(Rising(r[name], val), r[event])
            && forall i :: 0 < i < REG_COUNT && i != name && i != event ==> r'[i] == r[i]
  {
    hide SetStatus, With, Without, Any;
    var event := GroupOf(name).event;
    if r[name] == val {
      NothingRises(val, r[event]);
    } else {
      var r1 := r[name := val];
      var v := With(Rising(r[name], val), r1[event]);
      if r1[event] != v {
        EventWrite(r1, event, v);
      }
    }
  }

  lemma NothingRises(val: bv16, event: bv16)
    ensures With(Rising(val, val), event) == event
  {
  }

  /** A write that does not clear the bits of mask in the register name. */
  predicate Keeps(w: Write, name: nat, mask: bv16) {
    w.name != name || Without(mask, w.val) == 0
  }

  /**
   * A rising edge stays latched: whatever is written afterwards, the event bit
   * stays set as long as no write to the event register clears it.
   */
  lemma {:induction false} EdgeLatched(r: Regs, event: nat, mask: bv16, ws: seq<Write>)
    requires ClassOf(event) == EventReg && Without(mask, r[event]) == 0
    requires forall i :: 0 <= i < |ws| ==> ws[i].name < REG_COUNT && Keeps(ws[i], event, mask)
    ensures Without(mask, Writes(r, ws)[event]) == 0
    decreases |ws|
  {
    hide Written, Without;
    if ws != [] {
      WriteKeeps(r, event, mask, ws[0]);
      EdgeLatched(Written(r, ws[0].name, ws[0].val), event, mask, ws[1..]);
    }
  }

  lemma WriteKeeps(r: Regs, event: nat, mask: bv16, w: Write)
    requires ClassOf(event) == EventReg && Without(mask, r[event]) == 0
    requires w.name < REG_COUNT && Keeps(w, event, mask)
    ensures Without(mask, Written(r, w.name, w.val)[event]) == 0
  {
    hide Written, SetStatus, Without, With, Rising, Any;
    RegSetEvent(r, event, w);
    MoreBits(mask, Rising(r[w.name], w.val), r[event]);
  }

  /** What a write does to an event register. */
  lemma RegSetEvent(r: Regs, event: nat, w: Write)
    requires ClassOf(event) == EventReg && w.name < REG_COUNT
    ensures Written(r, w.name, w.val)[event] ==
            if w.name == event then w.val
            else if ClassOf(w.name) == ConditionReg && GroupOf(w.name).event == event then With(Rising(r[w.name], w.val), r[event])
            else r[event]
  {
    hide WithServiceRequest, With, Without, Any, Rising;
    match ClassOf(w.name)
    case StatusByte => ServiceRequestAfter(r[STB := w.val]);
    case ServiceEnable => ServiceRequestAfter(r[SRE := w.val]);
    case EventReg =>
      if r[w.name] != w.val {
        EventWrite(r, w.name, w.val);
      }
    case EnableReg =>
    case ConditionReg => ConditionWrite(r, w.name, w.val);
  }

  lemma MoreBits(mask: bv16, more: bv16, bits: bv16)
    requires Without(mask, bits) == 0
    ensures Without(mask, With(more, bits)) == 0
  {
  }

  /** A rising edge on a condition register sets its event bits. */
  lemma EdgeCaught(r: Regs, name: nat, val: bv16)
    requires ClassOf(name) == ConditionReg && name < REG_COUNT
    ensures Without(Rising(r[name], val), Written(r, name, val)[GroupOf(name).event]) == 0
  {
    hide Written, Rising;
    ConditionWrite(r, name, val);
  }

  // ------------------------------------------------------------ what error handling relies on

  /** A summary bit is only set while its event register is not empty. */
  predicate SummariesBacked(r: Regs) {
    && (Any(r[STB], STB_ESR) ==> r[ESR] != 0)
    && (Any(r[STB], STB_OPS) ==> r[OPER] != 0)
    && (Any(r[STB], STB_QES) ==> r[QUES] != 0)
  }

  /** The bits of the status byte that neither a summary, an error nor a service request sets. */
  const UNUSED_BITS: bv16 := 0xFF13

  predicate StatusOk(r: Regs) {
    ServiceRequestOk(r) && SummariesBacked(r) && !Any(r[STB], UNUSED_BITS)
  }

  lemma OtherBits(before: bv16, after: bv16, bit: bv16)
    requires Without(after, With(bit, STB_SRQ)) == Without(before, With(bit, STB_SRQ))
    ensures bit & STB_ESR == 0 ==> (Any(after, STB_ESR) <==> Any(before, STB_ESR))
    ensures bit & STB_OPS == 0 ==> (Any(after, STB_OPS) <==> Any(before, STB_OPS))
    ensures bit & STB_QES == 0 ==> (Any(after, STB_QES) <==> Any(before, STB_QES))
    ensures bit & STB_QMA == 0 ==> (Any(after, STB_QMA) <==> Any(before, STB_QMA))
    ensures bit & UNUSED_BITS == 0 ==> (Any(after, UNUSED_BITS) <==> Any(before, UNUSED_BITS))
  {
  }

  lemma OnlyServiceRequest(before: bv16, after: bv16)
    requires Without(after, STB_SRQ) == Without(before, STB_SRQ)
    ensures Without(after, With(0, STB_SRQ)) == Without(before, With(0, STB_SRQ))
  {
  }

  lemma NoBits(mask: bv16)
    ensures !Any(0, mask)
  {
  }

  /** Every write but one to the status byte keeps the status consistent and QMA as it is. */
  lemma StatusKept(r: Regs, name: nat, val: bv16)
    requires StatusOk(r) && STB < name < REG_COUNT
    ensures var r' := Written(r, name, val);
            StatusOk(r') && (Any(r'[STB], STB_QMA) <==> Any(r[STB], STB_QMA))
  {
    RegSetServiceRequest(r, name, val);
    hide WithServiceRequest, ServiceRequestOk, With, Without, Any, Rising;
    match ClassOf(name)
    case EnableReg =>
    case ServiceEnable => ServiceEnableKept(r, name, val);
    case EventReg => EventKept(r, name, val);
    case ConditionReg =>
      var r1 := r[name := val];
      EventKept(r1, GroupOf(name).event, With(Rising(r[name], val), r1[GroupOf(name).event]));
  }

  lemma ServiceEnableKept(r: Regs, name: nat, val: bv16)
    requires StatusOk(r) && STB < name < REG_COUNT && ClassOf(name) == ServiceEnable
    ensures var r' := Written(r, name, val);
            && SummariesBacked(r') && !Any(r'[STB], UNUSED_BITS)
            && (Any(r'[STB], STB_QMA) <==> Any(r[STB], STB_QMA))
  {
    hide WithServiceRequest, ServiceRequestOk, With, Without, Any, Rising;
    if r[SRE] != val {
      ServiceRequestAfter(r[SRE := val]);
      var r' := Written(r, name, val);
      OnlyServiceRequest(r[STB], r'[STB]);
      OtherBits(r[STB], r'[STB], 0);
    }
  }

  lemma EventKept(r: Regs, name: nat, val: bv16)
    requires SummariesBacked(r) && !Any(r[STB], UNUSED_BITS) && ClassOf(name) == EventReg
    ensures var r' := SetEvent(r, name, val);
            && SummariesBacked(r') && !Any(r'[STB], UNUSED_BITS)
            && (Any(r'[STB], STB_QMA) <==> Any(r[STB], STB_QMA))
  {
    hide With, Without, Any, SetStatus;
    if r[name] != val {
      EventWrite(r, name, val);
      OtherBits(r[STB], SetEvent(r, name, val)[STB], GroupOf(name).parentBit);
      NoBits(r[GroupOf(name).enable]);
    }
  }

  /** The one status bit written directly: a message is available in the error queue. */
  lemma MessageBit(r: Regs, on: bool)
    requires StatusOk(r)
    ensures var r' := Written(r, STB, if on then With(r[STB], STB_QMA) else Without(r[STB], STB_QMA));
            && StatusOk(r') && (Any(r'[STB], STB_QMA) <==> on)
            && forall i :: 0 < i < REG_COUNT ==> r'[i] == r[i]
  {
    var val := if on then With(r[STB], STB_QMA) else Without(r[STB], STB_QMA);
    RegSetServiceRequest(r, STB, val);
    hide SetStatus, ServiceRequestOk, With, Without, Any;
    SetStatusEffect(r, val);
    MessageStatus(r[STB], on, Written(r, STB, val)[STB]);
    OtherBits(r[STB], Written(r, STB, val)[STB], STB_QMA);
  }

  lemma MessageStatus(before: bv16, on: bool, after: bv16)
    requires Without(after, STB_SRQ) ==
             if on then Without(With(before, STB_QMA), STB_SRQ) else Without(Without(before, STB_QMA), STB_SRQ)
    ensures Any(after, STB_QMA) <==> on
    ensures Without(after, With(STB_QMA, STB_SRQ)) == Without(before, With(STB_QMA, STB_SRQ))
  {
    if on {
      SummaryOn(before, STB_QMA, after);
    } else {
      SummaryOff(before, STB_QMA, after);
    }
  }

  /** Setting the message bit once more changes nothing. */
  lemma MessageAgain(r: Regs)
    requires Any(r[STB], STB_QMA)
    ensures Written(r, STB, With(r[STB], STB_QMA)) == r
  {
    BitAgain(r[STB]);
  }

  lemma BitAgain(bits: bv16)
    requires bits & STB_QMA != 0
    ensures bits | STB_QMA == bits
  {
  }

  /** With no event and no message there is nothing to report. */
  lemma NothingToReport(r: Regs)
    requires StatusOk(r) && r[ESR] == 0 && r[OPER] == 0 && r[QUES] == 0 && !Any(r[STB], STB_QMA)
    ensures r[STB] == 0
  {
    NoStatusBits(r[STB], r[SRE]);
  }

  lemma NoStatusBits(stb: bv16, sre: bv16)
    requires !Any(stb, STB_ESR) && !Any(stb, STB_OPS) && !Any(stb, STB_QES) && !Any(stb, STB_QMA) && !Any(stb, UNUSED_BITS)
    requires Any(stb, STB_SRQ) <==> Requesting(stb, sre)
    ensures stb == 0
  {
    assert Without(stb, STB_SRQ) == 0;
  }

  // ------------------------------------------------------------ when the summary bits are exact

  /** A summary bit is set exactly if an enabled event of its group is present. */
  predicate SummaryOf(r: Regs, event: nat)
    requires ClassOf(event) == EventReg
  {
    Any(r[STB], GroupOf(event).parentBit) <==> Any(r[event], r[GroupOf(event).enable])
  }

  predicate SummaryExact(r: Regs) { SummaryOf(r, ESR) && SummaryOf(r, OPER) && SummaryOf(r, QUES) }

  /** A write to an enable register, which does not refresh the summary bit, must not change what the bit should say. */
  predicate Refreshed(r: Regs, name: nat, val: bv16)
    requires name < REG_COUNT
  {
    ClassOf(name) == EnableReg ==> (Any(r[GroupOf(name).event], val) <==> Any(r[GroupOf(name).event], r[name]))
  }

  lemma EventSummary(r: Regs, name: nat, val: bv16)
    requires ClassOf(name) == EventReg && SummaryExact(r)
    ensures SummaryExact(SetEvent(r, name, val))
  {
    hide With, Without, Any, SetStatus;
    if r[name] != val {
      EventWrite(r, name, val);
      OtherBits(r[STB], SetEvent(r, name, val)[STB], GroupOf(name).parentBit);
    }
  }

  /** For exact summaries, every write but one to the status byte leaves them exact if and only if it is so refreshed. */
  lemma SummaryWrite(r: Regs, name: nat, val: bv16)
    requires SummaryExact(r) && STB < name < REG_COUNT
    ensures SummaryExact(Written(r, name, val)) <==> Refreshed(r, name, val)
  {
    hide With, Without, Any, SetStatus, SetEvent, Rising;
    match ClassOf(name)
    case EnableReg =>
    case ServiceEnable => ServiceEnableSummary(r, name, val);
    case EventReg => EventSummary(r, name, val);
    case ConditionReg =>
      var r1 := r[name := val];
      assert SummaryExact(r1);
      EventSummary(r1, GroupOf(name).event, With(Rising(r[name], val), r1[GroupOf(name).event]));
  }

  lemma ServiceEnableSummary(r: Regs, name: nat, val: bv16)
    requires SummaryExact(r) && STB < name < REG_COUNT && ClassOf(name) == ServiceEnable
    ensures SummaryExact(Written(r, name, val))
  {
    hide With, Without, Any, WithServiceRequest;
    if r[SRE] != val {
      ServiceRequestAfter(r[SRE := val]);
      var r' := Written(r, name, val);
      OnlyServiceRequest(r[STB], r'[STB]);
      OtherBits(r[STB], r'[STB], 0);
    }
  }

  /** The message bit has no part in it. */
  lemma MessageSummary(r: Regs, on: bool)
    requires SummaryExact(r)
    ensures SummaryExact(Written(r, STB, if on then With(r[STB], STB_QMA) else Without(r[STB], STB_QMA)))
  {
    hide Any, SetStatus;
    var val := if on then With(r[STB], STB_QMA) else Without(r[STB], STB_QMA);
    SetStatusEffect(r, val);
    MessageStatus(r[STB], on, SetStatus(r, STB, val)[STB]);
    OtherBits(r[STB], SetStatus(r, STB, val)[STB], STB_QMA);
  }

  /** The summaries are exact now and after every write of a run. */
  predicate AlwaysExact(r: Regs, ws: seq<Write>)
    requires forall i :: 0 <= i < |ws| ==> ws[i].name < REG_COUNT
    decreases |ws|
  {
    SummaryExact(r) && (ws == [] || AlwaysExact(Written(r, ws[0].name, ws[0].val), ws[1..]))
  }

  predicate AllRefreshed(r: Regs, ws: seq<Write>)
    requires forall i :: 0 <= i < |ws| ==> ws[i].name < REG_COUNT
    decreases |ws|
  {
    ws == [] || (Refreshed(r, ws[0].name, ws[0].val) && AllRefreshed(Written(r, ws[0].name, ws[0].val), ws[1..]))
  }

  /** Over every run without direct writes to the status byte, exactness is kept if and only if every write is refreshed. */
  lemma {:induction false} SummaryRun(r: Regs, ws: seq<Write>)
    requires SummaryExact(r) && forall i :: 0 <= i < |ws| ==> STB < ws[i].name < REG_COUNT
    ensures AlwaysExact(r, ws) <==> AllRefreshed(r, ws)
    decreases |ws|
  {
    hide Written, SummaryExact, Refreshed;
    if ws != [] {
      SummaryWrite(r, ws[0].name, ws[0].val);
      var next := Written(r, ws[0].name, ws[0].val);
      if SummaryExact(next) {
        SummaryRun(next, ws[1..]);
      } else {
        NotExact(next, ws[1..]);
      }
    }
  }

  lemma NotExact(r: Regs, ws: seq<Write>)
    requires (forall i :: 0 <= i < |ws| ==> ws[i].name < REG_COUNT) && !SummaryExact(r)
    ensures !AlwaysExact(r, ws)
  {
  }

  /** It is lost: a command error is recorded while it is disabled, and enabling it leaves the summary bit clear. */
  lemma StaleSummaryExample()
    ensures var r := Writes(RESET, [Write(ESR, 0x20), Write(ESE, 0x20)]);
            Any(r[ESR], r[ESE]) && !Any(r[STB], STB_ESR) && SummaryExact(RESET)
  {
    var w1, w2 := Write(ESR, 0x20), Write(ESE, 0x20);
    var r1 := Written(RESET, ESR, 0x20);
    var r2 := Written(r1, ESE, 0x20);
    EventWrite(RESET, ESR, 0x20);
    assert [w1, w2][1..] == [w2] && [w2][1..] == [];
    assert Writes(r2, []) == r2;
    assert Writes(r1, [w2]) == r2;
  }

  // ------------------------------------------------------------ the C functions

  class Registers {
    const regs: array<bv16>

    constructor ()
      ensures Valid() && fresh(regs) && regs[..] == RESET
    {
      regs := new bv16[REG_COUNT](_ => 0);
    }

    ghost predicate Valid()
    {
      regs.Length == REG_COUNT
    }

    /** SCPI_RegGet */
    function RegGet(name: nat): (val: bv16)
      requires Valid()
      reads regs
      ensures name >= REG_COUNT ==> val == 0
    {
      if name < REG_COUNT then regs[name] else 0
    }

    /** SCPI_RegSet: one write, carried on to the event register and the status byte. */
    method RegSet(name0: nat, val0: bv16)
      requires Valid()
      modifies regs
      ensures regs[..] == if name0 < REG_COUNT then Written(old(regs[..]), name0, val0) else old(regs[..])
    {
      hide WithServiceRequest, With, Without, Any, Rising;
      if name0 >= REG_COUNT {
        return;
      }
      var name: nat, val := name0, val0;
      ghost var before := regs[..];
      while true
        invariant name < REG_COUNT && Valid()
        invariant Written(before, name0, val0) == Written(regs[..], name, val)
        decreases Rank(name)
      {
        ghost var r := regs[..];
        var oldVal := regs[name];
        if oldVal == val {
          return;
        }
        regs[name] := val;
        assert regs[..] == r[name := val];
        match ClassOf(name) {
          case StatusByte =>
            UpdateServiceRequest();
            return;
          case ServiceEnable =>
            UpdateServiceRequest();
            return;
          case EventReg =>
            var group := GroupOf(name);
            var summary := Any(val, RegGet(group.enable));
            name := STB;
            val := if summary then With(RegGet(STB), group.parentBit) else Without(RegGet(STB), group.parentBit);
          case ConditionReg =>
            name := GroupOf(name).event;
            val := With(Rising(oldVal, val), RegGet(name));
          case EnableReg =>
            return;
        }
      }
    }

    method UpdateServiceRequest()
      requires Valid()
      modifies regs
      ensures regs[..] == WithServiceRequest(old(regs[..]))
    {
      hide With, Without, Any;
      if Requesting(regs[STB], regs[SRE]) {
        regs[STB] := With(regs[STB], STB_SRQ);
      } else {
        regs[STB] := Without(regs[STB], STB_SRQ);
      }
    }
  }

  /** The cascade goes from condition to event register to status byte. */
  function Rank(name: nat): nat {
    match ClassOf(name)
    case ConditionReg => 2
    case EventReg => 1
    case _ => 0
  }
}
