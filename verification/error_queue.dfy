// The SCPI error queue with its texts, the status registers and the error
// indicator: error.c, SCPI_CoreCls of ieee488.c, SCPI_SystemErrorNextQ of
// minimal.c and the callback SCPI_Error of scpi_def.c.

module ErrorQueue {
  import opened Circular
  import opened ErrorHeap
  import opened ErrorFifo
  import opened StatusRegisters
  import Responses

  const QUEUE_OVERFLOW := -350
  const MAX_DESCRIPTION := 255

  const ESR_OPC: bv16 := 0x01
  const ESR_REQ: bv16 := 0x02
  const ESR_QER: bv16 := 0x04
  const ESR_DER: bv16 := 0x08
  const ESR_EER: bv16 := 0x10
  const ESR_CER: bv16 := 0x20
  const ESR_URQ: bv16 := 0x40
  const ESR_PON: bv16 := 0x80

  /** A queued error; the text is empty when there is none. */
  datatype Item = Item(code: int, text: string)

  /** The text given with an error, if any, and its length (0 for automatic). */
  datatype Info = NoInfo | Info(text: string, len: nat)

  // ------------------------------------------------------------ the queue as a value

  /** The texts of the errors that have one, oldest first. */
  function Texts(items: seq<Item>): seq<string> {
    if items == [] then []
    else Texts(items[..|items| - 1]) + TextOf(items[|items| - 1])
  }

  function TextOf(item: Item): seq<string> { if item.text == "" then [] else [item.text] }

  lemma {:induction false} TextsFirst(items: seq<Item>)
    requires items != []
    ensures Texts(items) == TextOf(items[0]) + Texts(items[1..])
    decreases |items|
  {
    hide TextOf;
    if |items| == 1 {
      assert items[..0] == [] && items[1..] == [];
      assert [] + TextOf(items[0]) == TextOf(items[0]) + [];
    } else {
      var front, last := items[..|items| - 1], TextOf(items[|items| - 1]);
      TextsFirst(front);
      assert items[1..][..|items| - 2] == front[1..];
      assert (TextOf(items[0]) + Texts(front[1..])) + last == TextOf(items[0]) + (Texts(front[1..]) + last);
    }
  }

  lemma TextsNil(items: seq<Item>)
    requires |items| == 0
    ensures Texts(items) == []
  {
  }

  lemma TextsLast(items: seq<Item>, item: Item)
    ensures Texts(items + [item]) == Texts(items) + TextOf(item)
  {
    assert (items + [item])[..|items|] == items;
  }

  /** The text that gets stored, if it is not empty and fits the free bytes with its zero. */
  function KeptText(info: Info, room: nat): string {
    match info
    case NoInfo => ""
    case Info(text, len) =>
      var stored := Stored(text, if len == 0 then StrNLen(text, MAX_DESCRIPTION) else len);
      if |stored| + 1 <= room then stored else ""
  }

  /** A bounded queue: when it is full its newest error is replaced by an overflow mark. */
  function Pushed(items: seq<Item>, capacity: nat, room: nat, code: int, info: Info): seq<Item>
    requires 0 < capacity && |items| <= capacity
  {
    if |items| < capacity then items + [Item(code, KeptText(info, room))]
    else items[..capacity - 1] + [Item(QUEUE_OVERFLOW, "")]
  }

  // ------------------------------------------------------------ error classes

  /** A row of the class table: codes from `from` down to `to`. */
  datatype ErrorClass = ErrorClass(from: int, to: int, esrBit: bv16)

  const ERRS := [
    ErrorClass(-100, -199, ESR_CER), ErrorClass(-200, -299, ESR_EER), ErrorClass(-300, -399, ESR_DER),
    ErrorClass(1, 32767, ESR_DER), ErrorClass(-400, -499, ESR_QER), ErrorClass(-500, -599, ESR_PON),
    ErrorClass(-600, -699, ESR_URQ), ErrorClass(-700, -799, ESR_REQ), ErrorClass(-800, -899, ESR_OPC)]

  /** The event bit of an error code, section 21.8 of SCPI-99; 0 for a code of no class. */
  function EventBit(code: int): bv16 {
    if -199 <= code <= -100 then ESR_CER
    else if -299 <= code <= -200 then ESR_EER
    else if -399 <= code <= -300 then ESR_DER
    else if -499 <= code <= -400 then ESR_QER
    else if -599 <= code <= -500 then ESR_PON
    else if -699 <= code <= -600 then ESR_URQ
    else if -799 <= code <= -700 then ESR_REQ
    else if -899 <= code <= -800 then ESR_OPC
    else 0
  }

  /** The test of the loop over the table. */
  predicate InClass(code: int, c: ErrorClass) { code <= c.from && code >= c.to }

  /**
   * A code matches at most one row, the one with its event bit; device-designer
   * codes 1 to 32767 match none, because the bounds of their row are reversed.
   */
  lemma ClassTable(code: int, i: nat)
    requires i < |ERRS|
    ensures InClass(code, ERRS[i]) ==> ERRS[i].esrBit == EventBit(code) != 0 && code < 0
    ensures forall j :: 0 <= j < |ERRS| && InClass(code, ERRS[i]) && InClass(code, ERRS[j]) ==> i == j
    ensures EventBit(code) != 0 ==> exists j :: 0 <= j < |ERRS| && InClass(code, ERRS[j])
  {
    var rows := [0, 1, 2, 4, 5, 6, 7, 8];
    if EventBit(code) != 0 {
      var k := (-code) / 100 - 1;
      assert InClass(code, ERRS[rows[k]]);
    }
  }

  /** The registers after the events of a push: the class bit, then the message bit. */
  function AfterPush(r: Regs, code: int): Regs {
    var r1 := if EventBit(code) != 0 then Written(r, ESR, With(r[ESR], EventBit(code))) else r;
    Written(r1, STB, With(r1[STB], STB_QMA))
  }

  /** The registers once the queue has run empty. */
  function AfterEmpty(r: Regs): Regs { Written(r, STB, Without(r[STB], STB_QMA)) }

  /** The registers after SCPI_CoreCls has emptied the queue. */
  function EventsCleared(r: Regs): Regs { Written(Written(Written(r, ESR, 0), OPER, 0), QUES, 0) }

  // ------------------------------------------------------------ runs, as values

  /** What can happen to the error queue and the registers; direct writes to the status byte are not among it. */
  datatype Op = Push(code: int, info: Info) | Next | Cls | WriteRegister(name: nat, val: bv16)

  datatype State = State(items: seq<Item>, regs: Regs)

  predicate OpOk(op: Op) {
    (op.Push? ==> op.code != 0) && (op.WriteRegister? ==> STB < op.name < REG_COUNT)
  }

  /** The free bytes of the heap. */
  function Room(items: seq<Item>, heapSize: nat): nat {
    var used := |Flat(Texts(items))|;
    if used <= heapSize then heapSize - used else 0
  }

  function Step(s: State, op: Op, capacity: nat, heapSize: nat): State
    requires OpOk(op) && 0 < capacity
  {
    match op
    case Push(code, info) =>
      State(if |s.items| <= capacity then Pushed(s.items, capacity, Room(s.items, heapSize), code, info) else s.items,
            AfterPush(s.regs, code))
    case Next => if s.items == [] then s else State(s.items[1..], if |s.items| == 1 then AfterEmpty(s.regs) else s.regs)
    case Cls => State([], EventsCleared(if s.items == [] then s.regs else AfterEmpty(s.regs)))
    case WriteRegister(name, val) => State(s.items, Written(s.regs, name, val))
  }

  function Steps(s: State, ops: seq<Op>, capacity: nat, heapSize: nat): State
    requires (forall i :: 0 <= i < |ops| ==> OpOk(ops[i])) && 0 < capacity
    decreases |ops|
  {
    if ops == [] then s else Steps(Step(s, ops[0], capacity, heapSize), ops[1..], capacity, heapSize)
  }

  /** What SYSTem:ERRor? reports for a queue: its oldest error, or no error. */
  function Report(items: seq<Item>, describe: int -> string): string {
    if items == [] then Responses.ErrorResult(0, Responses.Description(describe(0), ""))
    else Responses.ErrorResult(items[0].code, Responses.Description(describe(items[0].code), items[0].text))
  }

  function Reply(items: seq<Item>, op: Op, describe: int -> string): string {
    if op.Next? then Report(items, describe) else ""
  }

  function Replies(s: State, ops: seq<Op>, capacity: nat, heapSize: nat, describe: int -> string): seq<string>
    requires (forall i :: 0 <= i < |ops| ==> OpOk(ops[i])) && 0 < capacity
    decreases |ops|
  {
    if ops == [] then []
    else [Reply(s.items, ops[0], describe)]
         + Replies(Step(s, ops[0], capacity, heapSize), ops[1..], capacity, heapSize, describe)
  }

  /** The queue is bounded, its texts are stored strings, and the status byte reports it truthfully. */
  predicate StateOk(s: State, capacity: nat) {
    && |s.items| <= capacity
    && (forall i :: 0 <= i < |s.items| ==> s.items[i].code != 0 && Clean(s.items[i].text))
    && StatusOk(s.regs)
    && (Any(s.regs[STB], STB_QMA) <==> s.items != [])
  }

  lemma StepOk(s: State, op: Op, capacity: nat, heapSize: nat)
    requires StateOk(s, capacity) && OpOk(op) && 0 < capacity
    ensures StateOk(Step(s, op, capacity, heapSize), capacity)
  {
    hide StatusOk, Written, Any, With, Without, Texts;
    match op
    case Push(code, info) =>
      PushOk(s.regs, code);
    case Next =>
      MessageBit(s.regs, false);
    case Cls =>
      MessageBit(s.regs, false);
      ClearedOk(if s.items == [] then s.regs else AfterEmpty(s.regs));
    case WriteRegister(name, val) =>
      StatusKept(s.regs, name, val);
  }

  lemma PushOk(r: Regs, code: int)
    requires StatusOk(r)
    ensures StatusOk(AfterPush(r, code)) && Any(AfterPush(r, code)[STB], STB_QMA)
  {
    hide StatusOk, Written, Any, With, EventBit;
    StatusKept(r, ESR, With(r[ESR], EventBit(code)));
    MessageBit(if EventBit(code) != 0 then Written(r, ESR, With(r[ESR], EventBit(code))) else r, true);
  }

  lemma ClearedOk(r: Regs)
    requires StatusOk(r)
    ensures var r' := EventsCleared(r);
            && StatusOk(r') && (Any(r'[STB], STB_QMA) <==> Any(r[STB], STB_QMA))
            && r'[ESR] == 0 && r'[OPER] == 0 && r'[QUES] == 0
            && forall i :: i in [SRE, ESE, OPERE, OPERC, QUESE, QUESC] ==> r'[i] == r[i]
  {
    hide StatusOk, Written, Any;
    var r1 := Written(r, ESR, 0);
    var r2 := Written(r1, OPER, 0);
    StatusKept(r, ESR, 0);
    EventCleared(r, ESR);
    StatusKept(r1, OPER, 0);
    EventCleared(r1, OPER);
    StatusKept(r2, QUES, 0);
    EventCleared(r2, QUES);
  }

  /** A push sets exactly the event bit of its own class, if it has one. */
  lemma PushSetsOwnClass(r: Regs, code: int)
    ensures AfterPush(r, code)[ESR] == With(r[ESR], EventBit(code))
    ensures forall i :: i in [SRE, ESE, OPER, OPERE, OPERC, QUES, QUESE, QUESC] ==> AfterPush(r, code)[i] == r[i]
  {
    hide Any, Without, SetStatus;
    var r1 := if EventBit(code) != 0 then Written(r, ESR, With(r[ESR], EventBit(code))) else r;
    if EventBit(code) != 0 && With(r[ESR], EventBit(code)) != r[ESR] {
      EventWrite(r, ESR, With(r[ESR], EventBit(code)));
    }
    SetStatusEffect(r1, With(r1[STB], STB_QMA));
  }

  /** Over every run the message bit is set exactly while there are errors, and the status stays consistent. */
  lemma {:induction false} RunOk(s: State, ops: seq<Op>, capacity: nat, heapSize: nat)
    requires StateOk(s, capacity) && 0 < capacity && forall i :: 0 <= i < |ops| ==> OpOk(ops[i])
    ensures StateOk(Steps(s, ops, capacity, heapSize), capacity)
    decreases |ops|
  {
    hide StateOk, Step;
    if ops != [] {
      StepOk(s, ops[0], capacity, heapSize);
      RunOk(Step(s, ops[0], capacity, heapSize), ops[1..], capacity, heapSize);
    }
  }

  /** *CLS from any reachable state leaves no error, no event and a status byte of 0. */
  lemma ClsClears(s: State, ops: seq<Op>, capacity: nat, heapSize: nat)
    requires StateOk(s, capacity) && 0 < capacity && forall i :: 0 <= i < |ops| ==> OpOk(ops[i])
    ensures var r := Step(Steps(s, ops, capacity, heapSize), Cls, capacity, heapSize);
            r.items == [] && r.regs[STB] == 0 && r.regs[ESR] == 0 && r.regs[OPER] == 0 && r.regs[QUES] == 0
  {
    hide StatusOk, Written, Any, Steps, Without;
    RunOk(s, ops, capacity, heapSize);
    var reached := Steps(s, ops, capacity, heapSize);
    StepOk(reached, Cls, capacity, heapSize);
    MessageBit(reached.regs, false);
    ClearedOk(if reached.items == [] then reached.regs else AfterEmpty(reached.regs));
    NothingToReport(Step(reached, Cls, capacity, heapSize).regs);
  }

  lemma ResetOk(capacity: nat)
    ensures StateOk(State([], RESET), capacity)
  {
    NoBits(STB_QMA);
    NoBits(STB_ESR);
    NoBits(STB_OPS);
    NoBits(STB_QES);
    NoBits(STB_SRQ);
    NoBits(UNUSED_BITS);
    assert Without(0, STB_SRQ) == 0;
    NoBits(Without(0, STB_SRQ));
  }

  /** Over every run from start-up. */
  lemma RunFromReset(ops: seq<Op>, capacity: nat, heapSize: nat)
    requires 0 < capacity && forall i :: 0 <= i < |ops| ==> OpOk(ops[i])
    ensures var s := Steps(State([], RESET), ops, capacity, heapSize);
            && |s.items| <= capacity && (Any(s.regs[STB], STB_QMA) <==> s.items != [])
            && ServiceRequestOk(s.regs) && StateOk(s, capacity)
    ensures var r := Step(Steps(State([], RESET), ops, capacity, heapSize), Cls, capacity, heapSize);
            r.items == [] && r.regs[STB] == 0 && r.regs[ESR] == 0 && r.regs[OPER] == 0 && r.regs[QUES] == 0
  {
    hide Step, Steps, Any, SummariesBacked, ServiceRequestOk;
    ResetOk(capacity);
    RunOk(State([], RESET), ops, capacity, heapSize);
    ClsClears(State([], RESET), ops, capacity, heapSize);
  }

  // ------------------------------------------------------------ summary bits over runs

  /** Only a write to an enable register can make a summary bit stale. */
  predicate OpRefreshed(s: State, op: Op)
    requires OpOk(op)
  {
    op.WriteRegister? ==> Refreshed(s.regs, op.name, op.val)
  }

  lemma SummaryStep(s: State, op: Op, capacity: nat, heapSize: nat)
    requires SummaryExact(s.regs) && OpOk(op) && 0 < capacity
    ensures SummaryExact(Step(s, op, capacity, heapSize).regs) <==> OpRefreshed(s, op)
  {
    hide SummaryExact, Written, Any, With, Without, Pushed, EventBit, Refreshed;
    match op
    case Push(code, info) =>
      var r1 := if EventBit(code) != 0 then Written(s.regs, ESR, With(s.regs[ESR], EventBit(code))) else s.regs;
      if EventBit(code) != 0 { EventKeepsSummary(s.regs, ESR, With(s.regs[ESR], EventBit(code))); }
      MessageSummary(r1, true);
    case Next => MessageSummary(s.regs, false);
    case Cls =>
      MessageSummary(s.regs, false);
      var r := if s.items == [] then s.regs else AfterEmpty(s.regs);
      EventKeepsSummary(r, ESR, 0);
      EventKeepsSummary(Written(r, ESR, 0), OPER, 0);
      EventKeepsSummary(Written(Written(r, ESR, 0), OPER, 0), QUES, 0);
    case WriteRegister(name, val) => SummaryWrite(s.regs, name, val);
  }

  lemma EventKeepsSummary(r: Regs, name: nat, val: bv16)
    requires SummaryExact(r) && ClassOf(name) == EventReg
    ensures SummaryExact(Written(r, name, val))
  {
    hide SummaryExact, Written;
    SummaryWrite(r, name, val);
  }

  /** Every operation of a run is refreshed where it stands. */
  predicate OpsRefreshed(s: State, ops: seq<Op>, capacity: nat, heapSize: nat)
    requires (forall i :: 0 <= i < |ops| ==> OpOk(ops[i])) && 0 < capacity
    decreases |ops|
  {
    ops == [] || (OpRefreshed(s, ops[0]) && OpsRefreshed(Step(s, ops[0], capacity, heapSize), ops[1..], capacity, heapSize))
  }

  /** The summary bits are exact now and after every operation of a run. */
  predicate SummariesStay(s: State, ops: seq<Op>, capacity: nat, heapSize: nat)
    requires (forall i :: 0 <= i < |ops| ==> OpOk(ops[i])) && 0 < capacity
    decreases |ops|
  {
    SummaryExact(s.regs) && (ops == [] || SummariesStay(Step(s, ops[0], capacity, heapSize), ops[1..], capacity, heapSize))
  }

  lemma {:induction false} SummaryOverRun(s: State, ops: seq<Op>, capacity: nat, heapSize: nat)
    requires SummaryExact(s.regs) && 0 < capacity && forall i :: 0 <= i < |ops| ==> OpOk(ops[i])
    ensures SummariesStay(s, ops, capacity, heapSize) <==> OpsRefreshed(s, ops, capacity, heapSize)
    decreases |ops|
  {
    hide Step, SummaryExact, OpRefreshed;
    if ops != [] {
      SummaryStep(s, ops[0], capacity, heapSize);
      var next := Step(s, ops[0], capacity, heapSize);
      if SummaryExact(next.regs) {
        SummaryOverRun(next, ops[1..], capacity, heapSize);
      } else {
        NotStaying(next, ops[1..], capacity, heapSize);
      }
    }
  }

  lemma NotStaying(s: State, ops: seq<Op>, capacity: nat, heapSize: nat)
    requires !SummaryExact(s.regs) && 0 < capacity && forall i :: 0 <= i < |ops| ==> OpOk(ops[i])
    ensures !SummariesStay(s, ops, capacity, heapSize)
  {
    hide SummaryExact, Step;
  }

  /** From start-up the summary bits are exact throughout exactly if no enable write makes one stale. */
  lemma SummaryFromReset(ops: seq<Op>, capacity: nat, heapSize: nat)
    requires 0 < capacity && forall i :: 0 <= i < |ops| ==> OpOk(ops[i])
    ensures SummariesStay(State([], RESET), ops, capacity, heapSize) <==> OpsRefreshed(State([], RESET), ops, capacity, heapSize)
  {
    hide SummariesStay, OpsRefreshed, Step;
    SummaryOverRun(State([], RESET), ops, capacity, heapSize);
  }

  // ------------------------------------------------------------ entries and their texts

  /**
   * The entries of the ring buffer carry the errors, and each points to its text
   * if it has one; ptrs says where the texts are, oldest first, the first
   * `pending` of them belonging to no queued error any more.
   */
  predicate Links(items: seq<Item>, entries: seq<Entry>, ptrs: seq<nat>, pending: nat) {
    && |items| == |entries|
    && |ptrs| == pending + |Texts(items)|
    && forall i :: 0 <= i < |items| ==> LinkOk(items, entries[i], ptrs, pending, i)
  }

  predicate LinkOk(items: seq<Item>, entry: Entry, ptrs: seq<nat>, pending: nat, i: nat)
    requires i < |items|
  {
    var k := pending + |Texts(items[..i])|;
    && entry.code == items[i].code
    && entry.info == (if items[i].text == "" then Null else if k < |ptrs| then Ptr(ptrs[k]) else Null)
    && (items[i].text != "" ==> k < |ptrs|)
  }

  lemma LinksAdd(items: seq<Item>, entries: seq<Entry>, ptrs: seq<nat>, item: Item, entry: Entry, more: seq<nat>)
    requires Links(items, entries, ptrs, 0) && entry.code == item.code && |more| == |TextOf(item)|
    requires entry.info == if item.text == "" then Null else Ptr(more[0])
    ensures Links(items + [item], entries + [entry], ptrs + more, 0)
  {
    hide Texts;
    TextsLast(items, item);
    forall i | 0 <= i < |items + [item]|
      ensures LinkOk(items + [item], (entries + [entry])[i], ptrs + more, 0, i)
    {
      assert (items + [item])[..i] == items[..i];
      if i < |items| {
        assert LinkOk(items, entries[i], ptrs, 0, i);
      } else {
        assert items[..i] == items;
      }
    }
  }

  lemma LinksDropLast(items: seq<Item>, entries: seq<Entry>, ptrs: seq<nat>)
    requires Links(items, entries, ptrs, 0) && items != []
    ensures var n := |items| - 1;
            && |Texts(items[..n])| + |TextOf(items[n])| == |ptrs|
            && Links(items[..n], entries[..n], ptrs[..|Texts(items[..n])|], 0)
            && LinkOk(items, entries[n], ptrs, 0, n)
  {
    hide Texts;
    var n := |items| - 1;
    assert items[..n] + [items[n]] == items;
    TextsLast(items[..n], items[n]);
    var front := ptrs[..|Texts(items[..n])|];
    forall i | 0 <= i < n
      ensures LinkOk(items[..n], entries[..n][i], front, 0, i)
    {
      assert LinkOk(items, entries[i], ptrs, 0, i);
      assert items[..n][..i] == items[..i];
      PrefixTexts(items[..n], i);
    }
  }

  lemma {:induction false} PrefixTexts(items: seq<Item>, i: nat)
    requires i < |items|
    ensures |Texts(items[..i])| + |TextOf(items[i])| <= |Texts(items)|
    decreases |items|
  {
    if i + 1 < |items| {
      var front := items[..|items| - 1];
      PrefixTexts(front, i);
      assert front[..i] == items[..i];
    }
  }

  lemma LinksDropFirst(items: seq<Item>, entries: seq<Entry>, ptrs: seq<nat>)
    requires Links(items, entries, ptrs, 0) && items != []
    ensures LinkOk(items, entries[0], ptrs, 0, 0) && Texts(items[..0]) == []
    ensures Links(items[1..], entries[1..], ptrs, |TextOf(items[0])|)
    ensures Texts(items) == TextOf(items[0]) + Texts(items[1..])
  {
    hide Texts;
    TextsNil(items[..0]);
    TextsFirst(items);
    var rest := items[1..];
    forall i | 0 <= i < |rest|
      ensures LinkOk(rest, entries[1..][i], ptrs, |TextOf(items[0])|, i)
    {
      assert LinkOk(items, entries[i + 1], ptrs, 0, i + 1);
      assert items[..i + 1][0] == items[0] && items[..i + 1][1..] == rest[..i];
      TextsFirst(items[..i + 1]);
    }
  }

  /** The first texts are freed once they belong to no queued error. */
  lemma LinksFree(items: seq<Item>, entries: seq<Entry>, ptrs: seq<nat>, pending: nat)
    requires Links(items, entries, ptrs, pending)
    ensures Links(items, entries, ptrs[pending..], 0)
  {
    hide Texts;
    forall i | 0 <= i < |items|
      ensures LinkOk(items, entries[i], ptrs[pending..], 0, i)
    {
      assert LinkOk(items, entries[i], ptrs, pending, i);
      PrefixTexts(items, i);
    }
  }

  // ------------------------------------------------------------ the C functions

  /** The part of scpi_t that error handling works on, and the indicator the error callback drives. */
  class ErrorContext {
    const queue: Fifo
    const heap: Heap
    const registers: Registers
    var cmdError: bool
    var errorActive: bool          // scpi_error_active
    ghost var items: seq<Item>     // the errors queued, oldest first

    constructor (queueSize: nat, heapSize: nat)
      requires queueSize > 0
      ensures Valid() && items == []
      ensures fresh(queue) && fresh(heap) && fresh(registers) && fresh(queue.data) && fresh(heap.data) && fresh(registers.regs)
      ensures queue.data.Length == queueSize && heap.data.Length == heapSize && registers.regs[..] == RESET
    {
      queue := new Fifo(queueSize);
      heap := new Heap(heapSize);
      registers := new Registers();
      cmdError, errorActive, items := false, false, [];
    }

    /** The registers are no part of the queue or the heap. */
    ghost predicate Separate()
    {
      (registers.regs as object) != queue.data && (registers.regs as object) != heap.data
    }

    /** The queue and the heap hold the errors, after the texts that are popped but not freed yet. */
    ghost predicate Linked(pending: seq<string>)
      reads this, queue, queue.data, heap, heap.data
    {
      && queue.Valid() && heap.Valid() && Separate()
      && heap.live == pending + Texts(items)
      && Links(items, queue.Contents(), heap.Indices(), |pending|)
    }

    /** The status byte and the indicator say that there are errors exactly when there are. */
    ghost predicate Signalled()
      reads this, registers.regs
    {
      && registers.Valid() && StatusOk(registers.regs[..])
      && (Any(registers.regs[STB], STB_QMA) <==> items != [])
      && (errorActive <==> items != [])
    }

    ghost predicate Valid()
      reads this, queue, queue.data, heap, heap.data, registers.regs
    {
      Linked([]) && Signalled()
    }

    /** SCPI_ErrorAddInternal */
    method AddInternal(err: int, info: Info) returns (ok: bool)
      requires Linked([])
      modifies `items, queue, queue.data, heap, heap.data
      ensures Linked([])
      ensures ok <==> |old(items)| < queue.data.Length
      ensures items == Pushed(old(items), queue.data.Length, old(heap.count), err, info)
    {
      hide Texts, KeptText, Links;
      ghost var ptrs := heap.Indices();
      ghost var item := Item(err, KeptText(info, heap.count));
      LinksLength(items, queue.Contents(), ptrs, 0);
      var infoPtr := StoreInfo(info);
      ok := AddStored(Entry(err, infoPtr), item, ptrs);
      if !ok {
        Overflow(infoPtr, item, ptrs);
      }
    }

    /** The queue is full: the text just stored is given up, and so is the newest error. */
    method Overflow(infoPtr: Pointer, ghost item: Item, ghost ptrs: seq<nat>)
      requires queue.Valid() && heap.Valid() && Separate() && Links(items, queue.Contents(), ptrs, 0) && items != []
      requires |items| == queue.data.Length
      requires heap.live == Texts(items) + TextOf(item) && (infoPtr.Ptr? <==> item.text != "")
      requires heap.Indices() == ptrs + if infoPtr.Ptr? then [infoPtr.index] else []
      modifies `items, queue, queue.data, heap, heap.data
      ensures Linked([]) && items == old(items)[..|old(items)| - 1] + [Item(QUEUE_OVERFLOW, "")]
    {
      hide Texts, Links;
      LinksLength(items, queue.Contents(), ptrs, 0);
      FreeNewest(infoPtr, Texts(items));
      assert heap.Indices() == ptrs && [] + Texts(items) == Texts(items);
      MakeRoom();
      AddOverflow();
    }

    /** The heap's part: a text that is kept becomes the newest one. */
    method StoreInfo(info: Info) returns (p: Pointer)
      requires heap.Valid()
      modifies heap, heap.data
      ensures heap.Valid()
      ensures var text := KeptText(info, old(heap.count));
              && (p.Ptr? <==> text != "")
              && heap.live == old(heap.live) + (if p.Ptr? then [text] else [])
              && heap.Indices() == old(heap.Indices()) + (if p.Ptr? then [p.index] else [])
    {
      hide Stored;
      p := Null;
      if info.Info? {
        p := heap.StrNDup(info.text, if info.len == 0 then StrNLen(info.text, MAX_DESCRIPTION) else info.len);
      }
    }

    /** The queue's part: the entry is added if there is room. */
    method AddStored(value: Entry, ghost item: Item, ghost ptrs: seq<nat>) returns (ok: bool)
      requires queue.Valid() && heap.Valid() && Separate() && Links(items, queue.Contents(), ptrs, 0)
      requires value.code == item.code && (value.info.Ptr? <==> item.text != "")
      requires heap.live == Texts(items) + TextOf(item)
      requires heap.Indices() == ptrs + if value.info.Ptr? then [value.info.index] else []
      modifies `items, queue, queue.data
      ensures queue.Valid() && (ok <==> |old(items)| < queue.data.Length)
      ensures if ok then Linked([]) && items == old(items) + [item]
              else items == old(items) && queue.Contents() == old(queue.Contents())
    {
      hide Texts, Links;
      LinksLength(items, queue.Contents(), ptrs, 0);
      LinksAdd(items, queue.Contents(), ptrs, item, value, if value.info.Ptr? then [value.info.index] else []);
      TextsLast(items, item);
      ok := queue.Add(value);
      if ok {
        items := items + [item];
      }
    }

    method AddOverflow()
      requires Linked([]) && |items| < queue.data.Length
      modifies `items, queue, queue.data
      ensures Linked([]) && items == old(items) + [Item(QUEUE_OVERFLOW, "")]
    {
      hide Texts, Links;
      ghost var entries, ptrs := queue.Contents(), heap.Indices();
      var overflow, value := Item(QUEUE_OVERFLOW, ""), Entry(QUEUE_OVERFLOW, Null);
      LinksLength(items, entries, ptrs, 0);
      LinksAdd(items, entries, ptrs, overflow, value, []);
      TextsLast(items, overflow);
      assert ptrs + [] == ptrs && Texts(items) + [] == Texts(items);
      var _ := queue.Add(value);
      items := items + [overflow];
    }

    /** Roll back the newest text, if p points to one; front is what stays. */
    method FreeNewest(p: Pointer, ghost front: seq<string>)
      requires heap.Valid()
      requires p == Null ==> heap.live == front
      requires p.Ptr? ==> |heap.live| == |front| + 1 && heap.live[..|front|] == front && p.index == heap.Indices()[|front|]
      modifies heap, heap.data
      ensures heap.Valid() && heap.live == front && heap.Indices() == old(heap.Indices())[..|front|]
    {
      if p.Ptr? {
        heap.LiveText(|front|);
      }
      heap.Free(|front|, p, true);
    }

    /** The newest error leaves the full queue, and its text the heap. */
    method MakeRoom()
      requires Linked([]) && items != []
      modifies `items, queue, heap, heap.data
      ensures Linked([]) && items == old(items)[..|old(items)| - 1]
    {
      hide Texts, Links;
      ghost var n, entries, ptrs := |items| - 1, queue.Contents(), heap.Indices();
      LinksLength(items, entries, ptrs, 0);
      LinksDropLast(items, entries, ptrs);
      assert items[..n] + [items[n]] == items;
      TextsLast(items[..n], items[n]);
      var _, last := queue.RemoveLast(Entry(0, Null));
      FreeNewest(last.info, Texts(items[..n]));
      items := items[..n];
    }

    /** SCPI_RegSetBits */
    method RegSetBits(name: nat, bits: bv16)
      requires registers.Valid() && name < REG_COUNT
      modifies registers.regs
      ensures registers.regs[..] == Written(old(registers.regs[..]), name, With(old(registers.regs[name]), bits))
    {
      hide Written;
      registers.RegSet(name, With(registers.RegGet(name), bits));
    }

    /** SCPI_RegClearBits */
    method RegClearBits(name: nat, bits: bv16)
      requires registers.Valid() && name < REG_COUNT
      modifies registers.regs
      ensures registers.regs[..] == Written(old(registers.regs[..]), name, Without(old(registers.regs[name]), bits))
    {
      hide Written;
      registers.RegSet(name, Without(registers.RegGet(name), bits));
    }

    /** SCPI_ErrorEmit, with the error callback of the board */
    method Emit(err: int)
      requires registers.Valid() && StatusOk(registers.regs[..])
      modifies `errorActive, registers.regs
      ensures registers.Valid() && StatusOk(registers.regs[..]) && Any(registers.regs[STB], STB_QMA)
      ensures var r := old(registers.regs[..]); registers.regs[..] == Written(r, STB, With(r[STB], STB_QMA))
      ensures errorActive == (err != 0)
    {
      hide Written, StatusOk, Any, With;
      MessageBit(registers.regs[..], true);
      RegSetBits(STB, STB_QMA);
      errorActive := err != 0;
    }

    /** SCPI_ErrorEmitEmpty */
    method EmitEmpty()
      requires registers.Valid() && StatusOk(registers.regs[..]) && queue.Valid()
      requires errorActive == Any(registers.regs[STB], STB_QMA)
      modifies `errorActive, registers.regs
      ensures registers.Valid() && StatusOk(registers.regs[..])
      ensures errorActive == Any(registers.regs[STB], STB_QMA)
      ensures errorActive == (old(errorActive) && |queue.Contents()| != 0)
      ensures var r := old(registers.regs[..]);
              registers.regs[..] == if old(errorActive) && |queue.Contents()| == 0 then AfterEmpty(r) else r
    {
      hide Written, StatusOk, Any, Without;
      if queue.count == 0 && Any(registers.RegGet(STB), STB_QMA) {
        ghost var r := registers.regs[..];
        MessageBit(r, false);
        RegClearBits(STB, STB_QMA);
        errorActive := false;
      }
    }

    /** SCPI_ErrorPushEx, for a code other than 0. */
    method PushEx(err: int, info: Info)
      requires Valid() && err != 0
      modifies this, queue, queue.data, heap, heap.data, registers.regs
      ensures Valid() && cmdError
      ensures items == Pushed(old(items), queue.data.Length, old(heap.count), err, info)
      ensures registers.regs[..] == AfterPush(old(registers.regs[..]), err)
    {
      hide Written, StatusOk, Any, With, Texts, Links, KeptText;
      ghost var r := registers.regs[..];
      var ok := AddInternal(err, info);
      ClassEvents(err);
      Emit(err);
      if !ok {
        MessageAgain(registers.regs[..]);
        Emit(QUEUE_OVERFLOW);
      }
      cmdError := true;
    }

    /** The loop of SCPI_ErrorPushEx over the class table. */
    method ClassEvents(err: int)
      requires registers.Valid() && StatusOk(registers.regs[..])
      modifies registers.regs
      ensures StatusOk(registers.regs[..])
      ensures var r := old(registers.regs[..]);
              registers.regs[..] == if EventBit(err) != 0 then Written(r, ESR, With(r[ESR], EventBit(err))) else r
    {
      hide Written, StatusOk, Any, With, EventBit;
      ghost var r := registers.regs[..];
      ghost var matched := false;
      for i := 0 to |ERRS|
        invariant matched <==> exists j :: 0 <= j < i && InClass(err, ERRS[j])
        invariant matched ==> EventBit(err) != 0
        invariant registers.regs[..] == if matched then Written(r, ESR, With(r[ESR], EventBit(err))) else r
      {
        ClassTable(err, i);
        if InClass(err, ERRS[i]) {
          RegSetBits(ESR, ERRS[i].esrBit);
          matched := true;
        }
      }
      if matched {
        StatusKept(r, ESR, With(r[ESR], EventBit(err)));
      }
      ClassTable(err, 0);
    }

    /** SCPI_ErrorPop: the oldest error, or none; its text is still in the heap. */
    method Pop() returns (error: Entry)
      requires Valid()
      modifies this, queue, registers.regs
      ensures if old(items) == [] then
                items == [] && error == Entry(0, Null) && Linked([]) && Signalled()
              else
                && items == old(items)[1..] && error.code == old(items)[0].code
                && (error.info.Ptr? <==> old(items)[0].text != "")
                && (error.info.Ptr? ==> heap.live != [] && error.info.index == heap.Indices()[0] && heap.live[0] == old(items)[0].text)
                && Linked(TextOf(old(items)[0])) && Signalled()
      ensures var r := old(registers.regs[..]); registers.regs[..] == if |old(items)| == 1 then AfterEmpty(r) else r
    {
      hide Texts, StatusOk, Any, Links;
      ghost var entries, ptrs := queue.Contents(), heap.Indices();
      LinksLength(items, entries, ptrs, 0);
      if items != [] {
        LinksDropFirst(items, entries, ptrs);
      }
      var _, oldest := queue.Remove(Entry(0, Null));
      error := oldest;
      if items != [] {
        items := items[1..];
      }
      EmitEmpty();
    }

    /** Free the text of a popped error, if it has one. */
    method FreePopped(error: Entry, ghost text: seq<string>)
      requires Linked(text) && |text| <= 1 && (error.info.Ptr? <==> text != [])
      requires error.info.Ptr? ==> heap.live != [] && error.info.index == heap.Indices()[0]
      modifies heap, heap.data
      ensures Linked([])
    {
      hide Texts, Links;
      LinksLength(items, queue.Contents(), heap.Indices(), |text|);
      LinksFree(items, queue.Contents(), heap.Indices(), |text|);
      if error.info.Ptr? {
        heap.LiveText(0);
      } else {
        assert heap.Indices()[0..] == heap.Indices();
      }
      ghost var live, ptrs := heap.live, heap.Indices();
      heap.Free(0, error.info, false);
      assert heap.live == live[|text|..] && heap.Indices() == ptrs[|text|..];
      assert live[|text|..] == Texts(items) == [] + Texts(items);
    }

    /** SCPI_SystemErrorNextQ: the oldest error is reported with its text and removed; 0 when there is none. */
    method SystemErrorNextQ(results: Responses.ResultContext, describe: int -> string)
      requires Valid() && forall c :: '\0' !in describe(c)
      modifies this, queue, heap, heap.data, registers.regs, results
      ensures Valid()
      ensures items == if old(items) == [] then [] else old(items)[1..]
      ensures results.output == old(results.output) + Responses.Delimiter(old(results.outputCount))
                                + Report(old(items), describe)
      ensures results.outputCount == old(results.outputCount) + 1
      ensures var r := old(registers.regs[..]); registers.regs[..] == if |old(items)| == 1 then AfterEmpty(r) else r
    {
      hide Texts, StatusOk, Any, Links, Responses.ErrorResult, Responses.Description;
      var error := Pop();
      var _ := results.ResultError(error.code, describe(error.code), heap, error.info, 0);
      FreePopped(error, if old(items) == [] then [] else TextOf(old(items)[0]));
    }

    /** SCPI_ErrorClear */
    method ErrorClear()
      requires Valid()
      modifies this, queue, heap, heap.data, registers.regs
      ensures Valid() && items == []
      ensures var r := old(registers.regs[..]); registers.regs[..] == if old(items) != [] then AfterEmpty(r) else r
    {
      hide Texts, StatusOk, Any, Links;
      var more := true;
      while more
        invariant Linked([]) && (!more ==> items == [])
        invariant registers.regs[..] == old(registers.regs[..]) && errorActive == old(errorActive)
        decreases |items|, more
      {
        ghost var entries, ptrs := queue.Contents(), heap.Indices();
        LinksLength(items, entries, ptrs, 0);
        if items != [] {
          LinksDropFirst(items, entries, ptrs);
        }
        var error;
        more, error := queue.Remove(Entry(0, Null));
        if more {
          ghost var text := TextOf(items[0]);
          items := items[1..];
          FreePopped(error, text);
        }
      }
      LinksLength(items, queue.Contents(), heap.Indices(), 0);
      TextsNil(items);
      NoLinks(heap.Indices());
      queue.Clear();
      EmitEmpty();
    }

    /** SCPI_CoreCls: nothing is left to report. */
    method CoreCls()
      requires Valid()
      modifies this, queue, heap, heap.data, registers.regs
      ensures Valid() && items == [] && !errorActive
      ensures var r := old(registers.regs[..]);
              registers.regs[..] == EventsCleared(if old(items) != [] then AfterEmpty(r) else r)
      ensures registers.regs[STB] == 0
    {
      hide StatusOk, Any, Written, Texts, Links, Without;
      ErrorClear();
      ghost var r := registers.regs[..];
      ClearedOk(r);
      var groups := [STB, ESR, OPER, QUES];
      for i := 0 to |groups|
        invariant Linked([]) && items == [] && !errorActive && registers.Valid()
        invariant registers.regs[..] == if i <= 1 then r else if i == 2 then Written(r, ESR, 0)
                                        else if i == 3 then Written(Written(r, ESR, 0), OPER, 0) else EventsCleared(r)
      {
        var event := groups[i];
        if event != STB {
          registers.RegSet(event, 0);
        }
      }
      NothingToReport(registers.regs[..]);
    }

    /** A write through SCPI_RegSet to any register but the status byte. */
    method WriteRegister(name: nat, val: bv16)
      requires Valid() && STB < name < REG_COUNT
      modifies registers.regs
      ensures Valid() && registers.regs[..] == Written(old(registers.regs[..]), name, val)
    {
      hide StatusOk, Any, Written, Texts, Links;
      StatusKept(registers.regs[..], name, val);
      registers.RegSet(name, val);
    }

    ghost function Abstract(): State
      requires registers.Valid()
      reads this, registers.regs
    {
      State(items, registers.regs[..])
    }

    /** One operation does what Step says. */
    method Execute(op: Op, describe: int -> string) returns (reply: string)
      requires Valid() && OpOk(op) && forall c :: '\0' !in describe(c)
      modifies this, queue, queue.data, heap, heap.data, registers.regs
      ensures Valid() && reply == Reply(old(items), op, describe)
      ensures Abstract() == Step(old(Abstract()), op, queue.data.Length, heap.data.Length)
    {
      hide StatusOk, Any, Written, Texts, Links, Without, Flat, AfterPush, AfterEmpty, EventsCleared;
      LinksLength(items, queue.Contents(), heap.Indices(), 0);
      assert [] + Texts(items) == Texts(items);
      reply := "";
      match op {
        case Push(code, info) => PushEx(code, info);
        case Next =>
          var results := new Responses.ResultContext();
          SystemErrorNextQ(results, describe);
          reply := results.output;
        case Cls => CoreCls();
        case WriteRegister(name, val) => WriteRegister(name, val);
      }
    }

    /**
     * Every run: the queue, its texts, the registers and what is reported are those
     * of the model, and the indicator is on exactly while there are errors.
     */
    method ExecuteAll(ops: seq<Op>, describe: int -> string) returns (replies: seq<string>)
      requires Valid() && (forall i :: 0 <= i < |ops| ==> OpOk(ops[i])) && forall c :: '\0' !in describe(c)
      modifies this, queue, queue.data, heap, heap.data, registers.regs
      ensures Valid() && (errorActive <==> items != [])
      ensures Abstract() == Steps(old(Abstract()), ops, queue.data.Length, heap.data.Length)
      ensures replies == Replies(old(Abstract()), ops, queue.data.Length, heap.data.Length, describe)
    {
      hide Step, Reply, StatusOk, Any, Links, Texts;
      var i := 0;
      replies := [];
      assert ops[0..] == ops;
      while i < |ops|
        invariant Valid() && 0 <= i <= |ops|
        invariant Steps(old(Abstract()), ops, queue.data.Length, heap.data.Length)
                  == Steps(Abstract(), ops[i..], queue.data.Length, heap.data.Length)
        invariant Replies(old(Abstract()), ops, queue.data.Length, heap.data.Length, describe)
                  == replies + Replies(Abstract(), ops[i..], queue.data.Length, heap.data.Length, describe)
      {
        assert ops[i..][0] == ops[i] && ops[i..][1..] == ops[i + 1..];
        var reply := Execute(ops[i], describe);
        replies := replies + [reply];
        i := i + 1;
      }
    }
  }

  /** A device from its start: the run is that of the model from reset, and what every run keeps holds of it. */
  method ExecuteFromStart(queueSize: nat, heapSize: nat, ops: seq<Op>, describe: int -> string)
    returns (context: ErrorContext, replies: seq<string>)
    requires 0 < queueSize && (forall i :: 0 <= i < |ops| ==> OpOk(ops[i])) && forall c :: '\0' !in describe(c)
    ensures fresh(context) && context.Valid()
    ensures context.Abstract() == Steps(State([], RESET), ops, queueSize, heapSize) && StateOk(context.Abstract(), queueSize)
    ensures replies == Replies(State([], RESET), ops, queueSize, heapSize, describe)
    ensures context.errorActive <==> context.items != []
  {
    hide Steps, Replies, Step, StateOk, Any;
    context := new ErrorContext(queueSize, heapSize);
    RunFromReset(ops, queueSize, heapSize);
    replies := context.ExecuteAll(ops, describe);
  }

  lemma NoLinks(ptrs: seq<nat>)
    requires |ptrs| == 0
    ensures Links([], [], ptrs, 0)
  {
  }

  /** Clearing an event register touches no other register but the status byte. */
  lemma EventCleared(r: Regs, event: nat)
    requires ClassOf(event) == EventReg
    ensures var r' := Written(r, event, 0);
            r'[event] == 0 && forall i :: 0 < i < REG_COUNT && i != event ==> r'[i] == r[i]
  {
    hide SetStatus, With, Without, Any;
    if r[event] != 0 {
      EventWrite(r, event, 0);
    }
  }

  lemma LinksLength(items: seq<Item>, entries: seq<Entry>, ptrs: seq<nat>, pending: nat)
    requires Links(items, entries, ptrs, pending)
    ensures |items| == |entries| && |ptrs| == pending + |Texts(items)|
  {
  }
}
