// The status registers bit by bit: STB is register 0, SRE 1, ESR 2, ESE 3, OPERation 4 to 6
// and QUEStionable 7 to 9, each event, enable, condition.

module StatusBits {
  import opened StatusRegisters
  import opened ErrorQueue

  /** Bit 6 of the status byte is set exactly if another bit is set there and in the service enable register. */
  predicate RequestRight(r: Regs) { r[0] & 0x40 != 0 <==> r[0] & r[1] & 0xFFBF != 0 }

  lemma RequestIs(r: Regs)
    ensures RequestRight(r) <==> ServiceRequestOk(r)
  {
    RequestMasks(r[0], r[1]);
  }

  lemma RequestMasks(stb: bv16, sre: bv16)
    ensures (stb & !0x40) & (sre & !0x40) == stb & sre & 0xFFBF
  {
  }

  /** Over every run of register writes from reset, the status byte included. */
  lemma RequestAlways(ws: seq<Write>)
    requires forall i :: 0 <= i < |ws| ==> ws[i].name < 10
    ensures RequestRight(Writes(RESET, ws))
  {
    hide Writes, RequestRight, ServiceRequestOk;
    RequestIs(RESET);
    ResetRequest();
    ServiceRequestAlways(RESET, ws);
    RequestIs(Writes(RESET, ws));
  }

  lemma ResetRequest()
    ensures ServiceRequestOk(RESET)
  {
    NoBitsAnd(0);
  }

  lemma NoBitsAnd(m: bv16)
    ensures 0 & m == 0
  {
  }

  /** The summary bits written out: bit 5 for ESR, bit 7 for OPERation, bit 3 for QUEStionable. */
  predicate SummariesRight(r: Regs) {
    && (r[0] & 0x20 != 0 <==> r[2] & r[3] != 0)
    && (r[0] & 0x80 != 0 <==> r[4] & r[5] != 0)
    && (r[0] & 0x08 != 0 <==> r[7] & r[8] != 0)
  }

  lemma SummariesAre(r: Regs)
    ensures SummariesRight(r) <==> SummaryExact(r)
  {
    hide Any;
    AnyIs(r[0], 0x20);
    AnyIs(r[0], 0x80);
    AnyIs(r[0], 0x08);
    AnyIs(r[2], r[3]);
    AnyIs(r[4], r[5]);
    AnyIs(r[7], r[8]);
  }

  /** An event register that changes decides its summary bit, with the enable register as it is. */
  predicate Decides(r: Regs, event: nat, enable: nat, bit: bv16, val: bv16)
    requires event < 10 && enable < 10
  {
    r[event] != val ==>
      var r' := Written(r, event, val);
      r'[event] == val && (r'[0] & bit != 0 <==> val & r[enable] != 0)
  }

  lemma EventDecides(r: Regs, val: bv16)
    ensures Decides(r, 2, 3, 0x20, val) && Decides(r, 4, 5, 0x80, val) && Decides(r, 7, 8, 0x08, val)
  {
    hide Decides;
    OneEvent(r, 2, 3, 0x20, val);
    OneEvent(r, 4, 5, 0x80, val);
    OneEvent(r, 7, 8, 0x08, val);
  }

  lemma OneEvent(r: Regs, event: nat, enable: nat, bit: bv16, val: bv16)
    requires ClassOf(event) == EventReg && GroupOf(event) == Group(event, enable, bit)
    ensures Decides(r, event, enable, bit, val)
  {
    hide Written, With, Without, Any, SetStatus;
    if r[event] != val {
      EventWrite(r, event, val);
      AnyIs(Written(r, event, val)[0], bit);
      AnyIs(val, r[enable]);
    }
  }

  lemma AnyIs(bits: bv16, mask: bv16)
    ensures Any(bits, mask) <==> bits & mask != 0
  {
  }

  lemma EventKept(r: Regs, event: nat, val: bv16)
    requires ClassOf(event) == EventReg
    ensures Written(r, event, val)[event] == val && forall i :: 0 < i < 10 && i != event ==> Written(r, event, val)[i] == r[i]
  {
    hide WithServiceRequest, With, Without, Any;
    var r1 := r[event := val];
    var bit := GroupOf(event).parentBit;
    ServiceRequestAfter(r1[STB := With(r1[STB], bit)]);
    ServiceRequestAfter(r1[STB := Without(r1[STB], bit)]);
  }

  /** A condition register adds the bits that go from 0 to 1 to its event register, and nothing else: a falling edge sets no bit. */
  lemma EdgesRecorded(r: Regs, val: bv16)
    ensures var r' := Written(r, 6, val); r'[6] == val && r'[4] == r[4] | (val & !r[6])
    ensures var r' := Written(r, 9, val); r'[9] == val && r'[7] == r[7] | (val & !r[9])
  {
    hide Written;
    ConditionWrite(r, 6, val);
    ConditionWrite(r, 9, val);
    EdgeBits(r[6], val, r[4]);
    EdgeBits(r[9], val, r[7]);
  }

  lemma EdgeBits(before: bv16, val: bv16, event: bv16)
    ensures ((before ^ val) & val) | event == event | (val & !before)
  {
  }

  /** A write to an enable register or to the service enable register stores the value. */
  lemma EnableStored(r: Regs, val: bv16)
    ensures Written(r, 3, val) == r[3 := val] && Written(r, 5, val) == r[5 := val] && Written(r, 8, val) == r[8 := val]
    ensures Written(r, 1, val)[1] == val && Written(r, 1, val)[2..] == r[2..]
  {
    hide WithServiceRequest;
    ServiceRequestAfter(r[1 := val]);
  }

  // ------------------------------------------------------------ errors

  /** Section 21.8 of SCPI-99: the bit of the standard event register for each range of codes. */
  function ClassBit(code: int): bv16 {
    if -899 <= code <= -100 then
      var hundreds := -code / 100;
      if hundreds == 1 then 0x20
      else if hundreds == 2 then 0x10
      else if hundreds == 3 then 0x08
      else if hundreds == 4 then 0x04
      else if hundreds == 5 then 0x80
      else if hundreds == 6 then 0x40
      else if hundreds == 7 then 0x02
      else 0x01
    else 0
  }

  /** A push adds exactly that bit to the standard event register, none for a code of no range, and sets bit 2 of the status byte. */
  lemma PushBits(s: State, code: int, info: Info, capacity: nat, heapSize: nat)
    requires 0 < capacity && code != 0
    ensures var r := Step(s, Push(code, info), capacity, heapSize).regs;
            && r[2] == s.regs[2] | ClassBit(code)
            && r[0] & 0x04 != 0
            && forall i :: 2 < i < 10 ==> r[i] == s.regs[i]
  {
    hide Written, Pushed, With, Without, EventBit;
    ClassBits(code);
    var bit := EventBit(code);
    NoBit(s.regs[2]);
    WithIs(s.regs[2], bit);
    if bit != 0 { EventKept(s.regs, ESR, With(s.regs[ESR], bit)); }
    MessageSet(if bit != 0 then Written(s.regs, ESR, With(s.regs[ESR], bit)) else s.regs);
  }

  lemma WithIs(bits: bv16, mask: bv16)
    ensures With(bits, mask) == bits | mask
  {
  }

  lemma MessageSet(r: Regs)
    ensures var r' := Written(r, STB, With(r[STB], STB_QMA));
            r'[0] & 0x04 != 0 && forall i :: 0 < i < 10 ==> r'[i] == r[i]
  {
    hide WithServiceRequest, With, Without;
    var val := With(r[STB], STB_QMA);
    ServiceRequestAfter(r[STB := val]);
    var after := Written(r, STB, val)[STB];
    assert after == val || Without(after, STB_SRQ) == Without(val, STB_SRQ);
    WithIs(r[STB], STB_QMA);
    WithoutIs(after, STB_SRQ);
    WithoutIs(val, STB_SRQ);
    MessageMask(r[STB], after);
  }

  lemma WithoutIs(bits: bv16, mask: bv16)
    ensures Without(bits, mask) == bits & !mask
  {
  }

  lemma MessageMask(before: bv16, after: bv16)
    ensures after == before | 0x04 || after & !0x40 == (before | 0x04) & !0x40 ==> after & 0x04 != 0
  {
  }

  lemma ClassBits(code: int)
    ensures EventBit(code) == ClassBit(code)
  {
  }

  lemma NoBit(b: bv16)
    ensures b | 0 == b
  {
  }

  /** Over every run from reset bit 2 of the status byte says whether the error queue holds anything. */
  lemma MessageAlways(ops: seq<Op>, capacity: nat, heapSize: nat)
    requires 0 < capacity && forall i :: 0 <= i < |ops| ==> OpOk(ops[i])
    ensures var s := Steps(State([], RESET), ops, capacity, heapSize); s.regs[0] & 0x04 != 0 <==> s.items != []
  {
    hide Steps;
    RunFromReset(ops, capacity, heapSize);
  }
}
