// What SYSTem:ERRor? answers for the errors pushed before: their codes, the standard
// texts and the information that came with them, in order, and the overflow mark.

module ErrorReports {
  import opened ErrorHeap
  import opened StatusRegisters
  import opened ErrorQueue
  import opened QuotedText
  import IntegerText
  import Responses

  // ------------------------------------------------------------ one report

  /**
   * The reply for an error: its number, a comma, and in quotes the longest prefix of the
   * description that takes at most 255 characters with its quotes doubled.
   */
  ghost predicate Reports(reply: string, code: int, description: string) {
    exists k: nat :: k <= |description| && LongestFit(description, k)
                     && reply == IntegerText.Printed(code) + (",\"" + (Escaped(description[..k], '"') + "\""))
  }

  predicate LongestFit(description: string, k: nat)
    requires k <= |description|
  {
    |Escaped(description[..k], '"')| <= 255 && forall m :: k < m <= |description| ==> |Escaped(description[..m], '"')| > 255
  }

  lemma PrintedCode(code: int)
    requires -32768 <= code <= 32767
    ensures IntegerText.IntegerResult(false, Responses.Unsigned(code), 10, true) == IntegerText.Printed(code)
  {
    hide IntegerText.Show;
    var u := Responses.Unsigned(code);
    assert code < 0 ==> u == 0x1_0000_0000 + code;
    assert "" + IntegerText.PrintedInteger(false, u, 10, true) == IntegerText.PrintedInteger(false, u, 10, true);
  }

  lemma ResultReports(code: int, description: string)
    requires -32768 <= code <= 32767
    ensures Reports(Responses.ErrorResult(code, description), code, description)
  {
    hide Fit, Escaped, FitCount, IntegerText.IntegerResult, IntegerText.Printed, Responses.Unsigned;
    PrintedCode(code);
    Responses.DescriptionLimited(description);
    var k := FitCount(description, 255, '"');
    var body := Escaped(description[..k], '"');
    var number := IntegerText.Printed(code);
    assert LongestFit(description, k);
    assert number + ",\"" + body + "\"" == number + (",\"" + (body + "\""));
  }

  // ------------------------------------------------------------ errors with their information

  /** An error as it is pushed, with the text its information comes down to. */
  datatype Given = Given(code: int, info: Info, text: string)

  /** The information is read up to its first zero, and no further than the length given with it, or 255. */
  predicate IsTextOf(info: Info, t: string) {
    match info
    case NoInfo => t == ""
    case Info(text, len) =>
      var n := if len == 0 then 255 else len;
      && |t| <= n && |t| <= |text| && t == text[..|t|] && '\0' !in t
      && (|t| == n || |t| == |text| || text[|t|] == '\0')
  }

  predicate GivenOk(g: Given) { g.code != 0 && -32768 <= g.code <= 32767 && IsTextOf(g.info, g.text) }

  predicate AllGiven(gs: seq<Given>) { forall i :: 0 <= i < |gs| ==> GivenOk(gs[i]) }

  lemma {:induction false} SameLength(text: string, n: nat, t: string)
    requires |t| <= n && |t| <= |text| && t == text[..|t|] && '\0' !in t
    requires |t| == n || |t| == |text| || text[|t|] == '\0'
    ensures StrNLen(text, n) == |t|
    decreases |t|
  {
    if t != "" {
      assert text[0] == t[0] && t[0] in t;
      assert t[1..] == text[1..][..|t| - 1];
      assert forall c :: c in t[1..] ==> c in t;
      SameLength(text[1..], n - 1, t[1..]);
    }
  }

  /** What the heap keeps of it. */
  lemma KeptOf(g: Given, room: nat)
    requires GivenOk(g)
    ensures KeptText(g.info, room) == if |g.text| + 1 <= room then g.text else ""
  {
    if g.info.Info? {
      SameLength(g.info.text, if g.info.len == 0 then 255 else g.info.len, g.text);
    }
  }

  /** The bytes texts take in the heap, each with its zero. */
  function Used(gs: seq<Given>): nat {
    if gs == [] then 0
    else Used(gs[..|gs| - 1]) + if gs[|gs| - 1].text == "" then 0 else |gs[|gs| - 1].text| + 1
  }

  function ItemsOf(gs: seq<Given>): (items: seq<Item>)
    ensures |items| == |gs| && forall i :: 0 <= i < |gs| ==> items[i] == Item(gs[i].code, gs[i].text)
  {
    seq(|gs|, i requires 0 <= i < |gs| => Item(gs[i].code, gs[i].text))
  }

  lemma {:induction false} UsedIs(gs: seq<Given>)
    ensures |Flat(Texts(ItemsOf(gs)))| == Used(gs)
    decreases |gs|
  {
    if gs != [] {
      var front, last := gs[..|gs| - 1], gs[|gs| - 1];
      UsedIs(front);
      assert ItemsOf(gs)[..|gs| - 1] == ItemsOf(front);
      var texts := Texts(ItemsOf(front));
      if last.text != "" {
        assert (texts + [last.text])[..|texts|] == texts;
      } else {
        assert texts + [] == texts;
      }
    }
  }

  lemma {:induction false} UsedGrows(gs: seq<Given>, i: nat)
    requires i <= |gs|
    ensures Used(gs[..i]) <= Used(gs)
    decreases |gs| - i
  {
    if i == |gs| {
      assert gs[..i] == gs;
    } else {
      UsedGrows(gs, i + 1);
      assert gs[..i + 1][..i] == gs[..i];
    }
  }

  // ------------------------------------------------------------ pushing

  function Pushes(gs: seq<Given>): (ops: seq<Op>)
    requires AllGiven(gs)
    ensures |ops| == |gs| && forall i :: 0 <= i < |ops| ==> ops[i] == Push(gs[i].code, gs[i].info) && OpOk(ops[i])
  {
    seq(|gs|, i requires 0 <= i < |gs| => Push(gs[i].code, gs[i].info))
  }

  /** Those errors that the overflow mark cannot replace. */
  function Safe(gs: seq<Given>, capacity: nat): seq<Given>
    requires 0 < capacity
  {
    if |gs| < capacity then gs else gs[..capacity - 1]
  }

  lemma StepsSnoc(s: State, ops: seq<Op>, op: Op, capacity: nat, heapSize: nat)
    requires (forall i :: 0 <= i < |ops| ==> OpOk(ops[i])) && OpOk(op) && 0 < capacity
    ensures Steps(s, ops + [op], capacity, heapSize) == Step(Steps(s, ops, capacity, heapSize), op, capacity, heapSize)
    decreases |ops|
  {
    hide Step;
    if ops == [] {
      assert ops + [op] == [op] && [op][1..] == [];
      assert Steps(Step(s, op, capacity, heapSize), [], capacity, heapSize) == Step(s, op, capacity, heapSize);
    } else {
      assert (ops + [op])[0] == ops[0] && (ops + [op])[1..] == ops[1..] + [op];
      StepsSnoc(Step(s, ops[0], capacity, heapSize), ops[1..], op, capacity, heapSize);
    }
  }

  lemma PushesSnoc(gs: seq<Given>)
    requires gs != [] && AllGiven(gs)
    ensures AllGiven(gs[..|gs| - 1]) && GivenOk(gs[|gs| - 1])
    ensures Pushes(gs) == Pushes(gs[..|gs| - 1]) + [Push(gs[|gs| - 1].code, gs[|gs| - 1].info)]
  {
  }

  /**
   * The queue after pushing errors into an empty one: as many as there are or have room, in
   * order and with their texts, and the overflow mark in the last place if there were more.
   */
  lemma {:induction false} PushedAll(gs: seq<Given>, r: Regs, capacity: nat, heapSize: nat)
    requires AllGiven(gs) && 0 < capacity && Used(Safe(gs, capacity)) <= heapSize
    ensures var items, safe := Steps(State([], r), Pushes(gs), capacity, heapSize).items, Safe(gs, capacity);
            && (|gs| <= capacity ==> |items| == |gs|) && (|gs| > capacity ==> |items| == capacity)
            && items[..|safe|] == ItemsOf(safe)
            && (|gs| > capacity ==> items[capacity - 1] == Item(-350, ""))
            && (|gs| <= capacity && Used(gs) <= heapSize ==> items == ItemsOf(gs))
    decreases |gs|
  {
    hide Step, Steps, Used, AllGiven, GivenOk, IsTextOf, Texts, KeptText, Flat;
    if gs == [] {
      NoSteps(State([], r), capacity, heapSize);
    } else {
      var n := |gs|;
      var front, last := gs[..n - 1], gs[n - 1];
      PushesSnoc(gs);
      SafeFront(gs, capacity, heapSize);
      PushedAll(front, r, capacity, heapSize);
      StepsSnoc(State([], r), Pushes(front), Push(last.code, last.info), capacity, heapSize);
      var t := Steps(State([], r), Pushes(front), capacity, heapSize);
      PushOne(t, last, capacity, heapSize);
      if n <= capacity {
        UsedFront(gs);
        if Used(gs) <= heapSize { UsedIs(front); }
        ItemsSnoc(gs);
      }
      SafeItems(gs, capacity);
    }
  }

  lemma NoSteps(s: State, capacity: nat, heapSize: nat)
    requires 0 < capacity
    ensures Steps(s, [], capacity, heapSize) == s
  {
  }

  lemma ItemsSnoc(gs: seq<Given>)
    requires gs != []
    ensures ItemsOf(gs) == ItemsOf(gs[..|gs| - 1]) + [Item(gs[|gs| - 1].code, gs[|gs| - 1].text)]
  {
  }

  lemma UsedFront(gs: seq<Given>)
    requires gs != []
    ensures Used(gs) == Used(gs[..|gs| - 1]) + if gs[|gs| - 1].text == "" then 0 else |gs[|gs| - 1].text| + 1
  {
  }

  lemma SafeFront(gs: seq<Given>, capacity: nat, heapSize: nat)
    requires gs != [] && 0 < capacity && Used(Safe(gs, capacity)) <= heapSize
    ensures Used(Safe(gs[..|gs| - 1], capacity)) <= heapSize
    ensures |gs| < capacity ==> Safe(gs, capacity) == gs && Safe(gs[..|gs| - 1], capacity) == gs[..|gs| - 1]
    ensures |gs| >= capacity ==> Safe(gs[..|gs| - 1], capacity) == Safe(gs, capacity)
  {
    hide Used;
    if |gs| < capacity {
      UsedGrows(gs, |gs| - 1);
    } else {
      assert gs[..|gs| - 1][..capacity - 1] == gs[..capacity - 1];
    }
  }

  lemma SafeItems(gs: seq<Given>, capacity: nat)
    requires 0 < capacity && gs != []
    ensures var safe := Safe(gs, capacity);
            |safe| <= |gs| && ItemsOf(safe) == ItemsOf(gs)[..|safe|]
  {
  }

  /** One push into any queue within its bound: the error comes last with its text if that has room, or the overflow mark replaces the last. */
  lemma PushOne(s: State, g: Given, capacity: nat, heapSize: nat)
    requires GivenOk(g) && 0 < capacity && |s.items| <= capacity
    ensures OpOk(Push(g.code, g.info))
    ensures var items := Step(s, Push(g.code, g.info), capacity, heapSize).items;
            if |s.items| == capacity then items == s.items[..capacity - 1] + [Item(-350, "")]
            else items == s.items + [Item(g.code, if |Flat(Texts(s.items))| + |g.text| + 1 <= heapSize then g.text else "")]
  {
    hide Texts, KeptText, Flat, Written, IsTextOf;
    KeptOf(g, Room(s.items, heapSize));
  }

  // ------------------------------------------------------------ reading

  function Nexts(n: nat): (ops: seq<Op>)
    ensures |ops| == n && forall i :: 0 <= i < n ==> ops[i] == Next && OpOk(ops[i])
  {
    seq(n, i requires 0 <= i < n => Next)
  }

  lemma {:induction false} RepliesConcat(s: State, a: seq<Op>, b: seq<Op>, capacity: nat, heapSize: nat, describe: int -> string)
    requires (forall i :: 0 <= i < |a| ==> OpOk(a[i])) && (forall i :: 0 <= i < |b| ==> OpOk(b[i])) && 0 < capacity
    ensures forall i :: 0 <= i < |a + b| ==> OpOk((a + b)[i])
    ensures Replies(s, a + b, capacity, heapSize, describe)
            == Replies(s, a, capacity, heapSize, describe)
               + Replies(Steps(s, a, capacity, heapSize), b, capacity, heapSize, describe)
    ensures |Replies(s, a, capacity, heapSize, describe)| == |a|
    decreases |a|
  {
    hide Step, Reply;
    if a == [] {
      assert a + b == b;
      assert [] + Replies(s, b, capacity, heapSize, describe) == Replies(s, b, capacity, heapSize, describe);
    } else {
      assert (a + b)[0] == a[0] && (a + b)[1..] == a[1..] + b;
      RepliesConcat(Step(s, a[0], capacity, heapSize), a[1..], b, capacity, heapSize, describe);
    }
  }

  /** Reading n times answers for the errors in turn, and then that there is none. */
  lemma {:induction false} RepliesNext(s: State, n: nat, capacity: nat, heapSize: nat, describe: int -> string)
    requires 0 < capacity
    ensures var replies := Replies(s, Nexts(n), capacity, heapSize, describe);
            |replies| == n && forall k :: 0 <= k < n ==> replies[k] == Report(if k < |s.items| then s.items[k..] else [], describe)
    decreases n
  {
    hide Report, Written;
    if n > 0 {
      assert Nexts(n)[1..] == Nexts(n - 1);
      var next := Step(s, Next, capacity, heapSize);
      RepliesNext(next, n - 1, capacity, heapSize, describe);
      var rest := Replies(next, Nexts(n - 1), capacity, heapSize, describe);
      forall k | 0 < k < n ensures rest[k - 1] == Report(if k < |s.items| then s.items[k..] else [], describe) {
        if k < |s.items| { assert s.items[1..][k - 1..] == s.items[k..]; }
      }
      assert s.items[0..] == s.items;
    }
  }

  /** The description of an error: the standard text, and behind a semicolon the information that came with it. */
  function Full(describe: int -> string, item: Item): string {
    describe(item.code) + if item.text == "" then "" else ";" + item.text
  }

  lemma ReportIs(items: seq<Item>, describe: int -> string)
    requires items != [] ==> -32768 <= items[0].code <= 32767
    ensures if items == [] then Reports(Report(items, describe), 0, describe(0))
            else Reports(Report(items, describe), items[0].code, Full(describe, items[0]))
  {
    hide Reports, Responses.ErrorResult;
    if items == [] {
      ResultReports(0, describe(0));
    } else {
      ResultReports(items[0].code, Full(describe, items[0]));
      var d, t := describe(items[0].code), items[0].text;
      assert d + "" == d && (d + ";") + t == d + (";" + t);
    }
  }

  /** The reply to read k after these errors. */
  ghost predicate Answers(reply: string, gs: seq<Given>, k: nat, capacity: nat, describe: int -> string) {
    if k < |gs| && (k < capacity - 1 || |gs| <= capacity) then
      Reports(reply, gs[k].code, describe(gs[k].code) + if gs[k].text == "" then "" else ";" + gs[k].text)
    else if k == capacity - 1 && |gs| > capacity then Reports(reply, -350, describe(-350))
    else Reports(reply, 0, describe(0))
  }

  /**
   * From reset, any errors pushed and then read: each read answers for the next error with its
   * number, standard text and own information; when there were more than the queue holds the
   * last place answers -350, and when all are read the answer is 0.
   */
  lemma ReportsInOrder(gs: seq<Given>, n: nat, capacity: nat, heapSize: nat, describe: int -> string)
    requires AllGiven(gs) && 0 < capacity && Used(if |gs| <= capacity then gs else gs[..capacity - 1]) <= heapSize
    ensures forall i :: 0 <= i < |Pushes(gs) + Nexts(n)| ==> OpOk((Pushes(gs) + Nexts(n))[i])
    ensures var replies := Replies(State([], RESET), Pushes(gs) + Nexts(n), capacity, heapSize, describe);
            && |replies| == |gs| + n
            && var answers := replies[|gs|..];
               forall k: nat :: k < n ==> Answers(answers[k], gs, k, capacity, describe)
  {
    hide Steps, Used, AllGiven, Replies, Report, Reports, Safe;
    var s := Steps(State([], RESET), Pushes(gs), capacity, heapSize);
    RepliesConcat(State([], RESET), Pushes(gs), Nexts(n), capacity, heapSize, describe);
    RepliesNext(s, n, capacity, heapSize, describe);
    EnoughRoom(gs, capacity, heapSize);
    PushedAll(gs, RESET, capacity, heapSize);
    var replies := Replies(State([], RESET), Pushes(gs) + Nexts(n), capacity, heapSize, describe);
    var answers := replies[|gs|..];
    forall k: nat | k < n ensures Answers(answers[k], gs, k, capacity, describe) {
      QueuedItem(gs, s.items, k, capacity, heapSize);
      ReportIs(if k < |s.items| then s.items[k..] else [], describe);
      MarkFull(describe);
    }
  }

  lemma MarkFull(describe: int -> string)
    ensures Full(describe, Item(-350, "")) == describe(-350)
  {
  }

  lemma EnoughRoom(gs: seq<Given>, capacity: nat, heapSize: nat)
    requires 0 < capacity && Used(if |gs| <= capacity then gs else gs[..capacity - 1]) <= heapSize
    ensures Used(Safe(gs, capacity)) <= heapSize
  {
    hide Used;
    if |gs| == capacity { UsedGrows(gs, capacity - 1); }
  }

  /** The k-th of the queued errors. */
  lemma QueuedItem(gs: seq<Given>, items: seq<Item>, k: nat, capacity: nat, heapSize: nat)
    requires AllGiven(gs) && 0 < capacity && Used(if |gs| <= capacity then gs else gs[..capacity - 1]) <= heapSize
    requires var safe := Safe(gs, capacity);
             && (|gs| <= capacity ==> |items| == |gs|) && (|gs| > capacity ==> |items| == capacity)
             && items[..|safe|] == ItemsOf(safe)
             && (|gs| > capacity ==> items[capacity - 1] == Item(-350, ""))
             && (|gs| <= capacity && Used(gs) <= heapSize ==> items == ItemsOf(gs))
    ensures k < |items| ==>
              && items[k..] != [] && -32768 <= items[k..][0].code <= 32767
              && items[k..][0] == if k < |gs| && (k < capacity - 1 || |gs| <= capacity) then Item(gs[k].code, gs[k].text) else Item(-350, "")
    ensures k >= |items| ==> !(k < |gs| && (k < capacity - 1 || |gs| <= capacity)) && !(k == capacity - 1 && |gs| > capacity)
  {
    hide Used, IsTextOf;
    if k < |items| {
      assert items[k..][0] == items[k];
      if |gs| > capacity && k < capacity - 1 {
        assert items[..capacity - 1][k] == items[k];
      }
      if k < |gs| { assert GivenOk(gs[k]); }
    }
  }
}
