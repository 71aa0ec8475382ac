// relay_ctrl.c, SCPI_RelayRawSet and relay_cal_total_milliohm as programs.

module RelayControl {
  import opened RelayState
  import opened Basics
  import opened FramBlocks
  import opened FramStore

  class RelayCtrl {
    const relayState: array<bv8>
    const decadeDigits: array<nat>
    var currentResistance: nat
    var outputConnected: bool

    /** relay_init and the static initialisers. */
    constructor ()
      ensures Valid() && fresh(relayState) && fresh(decadeDigits) && Abstract() == Initial()
    {
      relayState := new bv8[6](_ => 0);
      decadeDigits := new nat[6](_ => 0);
      currentResistance, outputConnected := 0, false;
      new;
      assert relayState[..] == Idle() && decadeDigits[..] == [0, 0, 0, 0, 0, 0];
    }

    ghost predicate Valid()
      reads this
    {
      relayState.Length == 6 && decadeDigits.Length == 6 && (relayState as object) != decadeDigits
    }

    ghost function Abstract(): (s: Relays)
      requires Valid()
      reads this, relayState, decadeDigits
      ensures Shaped(s)
    {
      Relays(relayState[..], decadeDigits[..], currentResistance, outputConnected)
    }

    /** build_data: the digits are taken off one by one. */
    static method BuildData(ohms: nat) returns (data: seq<bv8>)
      ensures data == Build(Digits(ohms))
    {
      hide DecadeByte, DigitsFrom;
      var r: nat := ohms;
      data := [];
      ghost var done: seq<nat> := [];
      for i := 0 to 6
        invariant |data| == |done| == i && done + DigitsFrom(r, i) == Digits(ohms)
        invariant forall k :: 0 <= k < i ==> data[k] == DecadeByte(done[k])
      {
        DigitsStep(r, i);
        var d := r / Scale(i);
        data := data + [DecadeByte(d)];
        done := done + [d];
        r := r % Scale(i);
      }
      assert done == Digits(ohms);
    }

    /** relay_set_raw: what is sent to the chips is remembered. */
    method SetRaw(data: seq<bv8>)
      requires Valid() && |data| == 6
      modifies relayState
      ensures relayState[..] == data
    {
      forall i | 0 <= i < 6 {
        relayState[i] := data[i];
      }
    }

    /** The loop of relay_set_resistance that fills decade_digits. */
    method StoreDigits(ohms: nat)
      requires Valid()
      modifies decadeDigits
      ensures decadeDigits[..] == Digits(ohms)
    {
      hide DigitsFrom;
      var r2: nat := ohms;
      ghost var done: seq<nat> := [];
      for i := 0 to 6
        invariant decadeDigits[..i] == done && done + DigitsFrom(r2, i) == Digits(ohms)
      {
        DigitsStep(r2, i);
        decadeDigits[i] := r2 / Scale(i);
        done := done + [r2 / Scale(i)];
        r2 := r2 % Scale(i);
      }
    }

    /** relay_set_resistance */
    method SetResistance(ohms0: nat)
      requires Valid()
      modifies this, relayState, decadeDigits
      ensures Valid() && Abstract() == AfterResistance(old(Abstract()), ohms0)
    {
      hide Build, Digits, With, Without;
      var ohms := ohms0;
      if ohms > MAX_OHMS {
        ohms := MAX_OHMS;
      }
      currentResistance := ohms;
      StoreDigits(ohms);
      ghost var digits := decadeDigits[..];
      Send(ohms);
      assert decadeDigits[..] == digits;
      outputConnected := true;
    }

    /** What relay_set_resistance and relay_set_decade both do with the value: build, apply and send. */
    method Send(ohms: nat)
      requires Valid()
      modifies relayState
      ensures relayState[..] == BitsFor(ohms)
    {
      hide Build, Digits, With, Without;
      var data;
      if ohms == 0 {
        data := [0, 0, 0, 0, 0, 0];
      } else {
        data := BuildData(ohms);
      }
      SetRaw(ApplyOutput(data, ohms));
    }

    /** apply_output, on the caller's local array. */
    static function ApplyOutput(data: seq<bv8>, ohms: nat): (r: seq<bv8>)
      requires |data| == 6
      ensures r == Applied(data, ohms)
    {
      if ohms == 0 then
        var open := data[5 := Without(data[5], CONNECT)];
        open[5 := With(open[5], SHORT)]
      else
        var closed := data[5 := With(data[5], CONNECT)];
        closed[5 := Without(closed[5], SHORT)]
    }

    /** relay_set_output */
    method SetOutput(connected: bool)
      requires Valid()
      modifies this, relayState
      ensures Valid() && Abstract() == AfterOutput(old(Abstract()), connected)
    {
      hide Build, Digits, With, Without, Applied;
      outputConnected := connected;
      var data := relayState[..];
      if !connected {
        SetRaw(data[5 := Without(data[5], CONNECT)]);
        return;
      }
      if currentResistance != 0 && currentResistance != UNKNOWN {
        data := BuildData(currentResistance);
      }
      SetRaw(ApplyOutput(data, if currentResistance == UNKNOWN then 1 else currentResistance));
    }

    /** The loop of relay_set_decade that adds up the digits. */
    method SumDigits() returns (ohms: nat)
      requires Valid()
      ensures ohms == OhmsFrom(decadeDigits[..], 0)
    {
      ohms := 0;
      assert decadeDigits[0..] == decadeDigits[..];
      for i := 0 to 6
        invariant ohms + OhmsFrom(decadeDigits[i..], i) == OhmsFrom(decadeDigits[..], 0)
      {
        assert decadeDigits[i..][1..] == decadeDigits[i + 1..];
        ohms := ohms + decadeDigits[i] * Scale(i);
      }
    }

    /** relay_set_decade */
    method SetDecade(decade: nat, digit: nat)
      requires Valid()
      modifies this, relayState, decadeDigits
      ensures Valid() && Abstract() == AfterDecade(old(Abstract()), decade, digit)
    {
      hide Build, Digits, With, Without, OhmsFrom;
      if decade < 1 || decade > 6 || digit > 9 {
        return;
      }
      decadeDigits[6 - decade] := digit;
      ghost var digits := decadeDigits[..];
      assert digits == old(decadeDigits[..])[6 - decade := digit];
      var newOhms := SumDigits();
      currentResistance := newOhms;
      Send(newOhms);
      assert decadeDigits[..] == digits;
      outputConnected := true;
    }

    /** relay_get_decade_digit, 0xFF when the resistance is unknown. */
    function DecadeDigit(decade: nat): nat
      requires Valid()
      reads this, decadeDigits
    {
      if decade < 1 || decade > 6 then 0xFF
      else if currentResistance == UNKNOWN then 0xFF
      else decadeDigits[6 - decade]
    }

    /** relay_set_bit */
    method SetBit(decade: nat, bit: nat, on: bool)
      requires Valid()
      modifies this, relayState
      ensures Valid() && Abstract() == AfterBit(old(Abstract()), decade, bit, on)
    {
      hide With, Without;
      if decade < 1 || decade > 6 || bit > 5 {
        return;
      }
      var idx := 6 - decade;
      var data := relayState[..];
      data := data[idx := if on then With(data[idx], bit) else Without(data[idx], bit)];
      currentResistance := UNKNOWN;
      SetRaw(data);
    }

    /** SCPI_RelayRawSet over the values it could read: false when it reports an error instead. */
    method RelayRawSet(vals: seq<nat>) returns (ok: bool)
      requires Valid()
      modifies relayState
      ensures Abstract() == AfterRaw(old(Abstract()), vals)
      ensures ok <==> vals != [] && RawFrom(Idle(), vals).Named?
    {
      hide With, Without;
      var data := [0, 0, 0, 0, 0, 0];
      var gotOne := false;
      var i := 0;
      assert vals[0..] == vals;
      while i < |vals|
        invariant i <= |vals| && |data| == 6 && (gotOne <==> i > 0)
        invariant RawFrom(data, vals[i..]) == RawFrom(Idle(), vals)
      {
        assert vals[i..][1..] == vals[i + 1..] && vals[i..][0] == vals[i];
        var decade, relay := vals[i] / 100 % 256, vals[i] % 10;
        if decade < 1 || decade > 6 || relay > 5 {
          return false;
        }
        var idx := 6 - decade;
        data := data[idx := With(data[idx], relay)];
        gotOne := true;
        i := i + 1;
      }
      if !gotOne {
        return false;
      }
      if outputConnected {
        data := data[5 := With(data[5], CONNECT)];
        data := data[5 := Without(data[5], SHORT)];
      } else {
        data := data[5 := Without(data[5], CONNECT)];
        data := data[5 := With(data[5], SHORT)];
      }
      SetRaw(data);
      ok := true;
    }

    /** One command, as its handler in scpi_def.c passes it on. */
    method Execute(c: Command)
      requires Valid()
      modifies this, relayState, decadeDigits
      ensures Valid() && Abstract() == Step(old(Abstract()), c)
    {
      hide AfterResistance, AfterOutput, AfterDecade, AfterBit, AfterRaw;
      match c
      case Value(ohms) =>
        if ohms <= MAX_OHMS { SetResistance(ohms); }
      case Decade(decade, digit) => SetDecade(decade, digit);
      case State(decade, bit, on) => SetBit(decade, bit, on);
      case Output(connected) => SetOutput(connected);
      case RawRelays(vals) =>
        var _ := RelayRawSet(vals);
      case Reset =>
        SetResistance(0);
        SetOutput(true);
    }

    /** Every run keeps what the value model keeps. */
    method ExecuteAll(cs: seq<Command>)
      requires Valid() && DigitsOk(Abstract()) && Safe(Abstract())
      modifies this, relayState, decadeDigits
      ensures Valid() && Abstract() == Run(old(Abstract()), cs)
      ensures DigitsOk(Abstract()) && Safe(Abstract())
    {
      hide Step, DigitsOk, Safe;
      var i := 0;
      assert cs[0..] == cs;
      RunSafe(Abstract(), cs);
      while i < |cs|
        invariant Valid() && i <= |cs|
        invariant Run(Abstract(), cs[i..]) == Run(old(Abstract()), cs)
      {
        assert cs[i..][0] == cs[i] && cs[i..][1..] == cs[i + 1..];
        Execute(cs[i]);
        i := i + 1;
      }
    }
  }

  /** The driver from start-up on: safe after every run, and right exactly after the runs ReportedRight and TerminalsRight describe. */
  method RunDriver(cs: seq<Command>) returns (relay: RelayCtrl)
    ensures fresh(relay) && relay.Valid() && relay.Abstract() == Run(Initial(), cs)
    ensures DigitsOk(relay.Abstract()) && Safe(relay.Abstract())
    ensures RawRestored(cs) ==> Realised(relay.Abstract()) && Follows(relay.Abstract())
    ensures Realised(relay.Abstract()) <==> ReportedRight(Initial(), cs)
    ensures Follows(relay.Abstract()) <==> TerminalsRight(Initial(), cs)
  {
    hide DigitsOk, Safe, Realised, Follows, Run, RawRestored, ReportedRight, TerminalsRight;
    InitialOk();
    RunFromStart(cs);
    relay := new RelayCtrl();
    relay.ExecuteAll(cs);
  }

  lemma DigitsStep(r: nat, i: nat)
    requires i < 6
    ensures DigitsFrom(r, i) == [r / Scale(i)] + DigitsFrom(r % Scale(i), i + 1)
  {
  }

  // ------------------------------------------------------------ the calibrated total

  /** The 32-bit word at index i of a table of words. */
  function WordAt(table: seq<byte>, i: nat): nat
    requires 4 * i + 4 <= |table|
  {
    WordValue(table[4 * i..4 * i + 4])
  }

  function WordValue(b: seq<byte>): nat
    requires |b| == 4
  {
    b[0] as int + 256 * b[1] as int + 65536 * b[2] as int + 16777216 * b[3] as int
  }

  lemma WordRoundTrip(v: nat)
    requires v < 0x1_0000_0000
    ensures WordValue(Word(v)) == v
  {
    var q1, q2, q3 := v / 256, v / 65536, v / 16777216;
    assert q2 == q1 / 256 && q3 == q2 / 256;
  }

  lemma {:induction false} NominalAt(m: nat, k: nat)
    requires k < m <= 60
    ensures WordAt(NominalWords(m), k) == Nominal(k / 10, k % 10)
    decreases m
  {
    hide Word;
    var v := Nominal((m - 1) / 10, (m - 1) % 10);
    if k == m - 1 {
      NominalBound(k / 10, k % 10);
      WordRoundTrip(v);
      assert NominalWords(m)[4 * k..4 * k + 4] == Word(v);
    } else {
      NominalAt(m - 1, k);
      assert NominalWords(m)[4 * k..4 * k + 4] == NominalWords(m - 1)[4 * k..4 * k + 4];
    }
  }

  lemma NominalBound(dec: nat, dig: nat)
    requires dec < 6 && dig < 10
    ensures Nominal(dec, dig) <= 900000000
  {
  }

  /** The milliohms of decades 1 to d, each for its present digit, or for 0 when the digits are not known. */
  function TotalTo(cal: seq<byte>, digits: seq<nat>, known: bool, d: nat): nat
    requires |cal| == 240 && |digits| == 6 && d <= 6 && AreDigits(digits)
  {
    if d == 0 then 0
    else TotalTo(cal, digits, known, d - 1) + WordAt(cal, 10 * (d - 1) + if known then digits[6 - d] else 0)
  }

  /** relay_cal_total_milliohm, in 32 bits. */
  method TotalMilliohm(cal: seq<byte>, relay: RelayCtrl) returns (total: nat)
    requires |cal| == 240 && relay.Valid() && DigitsOk(relay.Abstract())
    ensures total == TotalTo(cal, relay.decadeDigits[..], relay.currentResistance != UNKNOWN, 6) % 0x1_0000_0000
  {
    hide WordAt, OhmsFrom, TotalTo;
    total := 0;
    NothingAdded(cal, relay.decadeDigits[..], relay.currentResistance != UNKNOWN);
    ghost var digits, known := relay.decadeDigits[..], relay.currentResistance != UNKNOWN;
    for d := 1 to 7
      invariant total == TotalTo(cal, digits, known, d - 1) % 0x1_0000_0000
    {
      var dig := relay.DecadeDigit(d);
      assert known ==> dig == digits[6 - d] <= 9;
      if dig == 0xFF {
        dig := 0;
      }
      Added(cal, digits, known, d, dig);
      total := (total + WordAt(cal, 10 * (d - 1) + dig)) % 0x1_0000_0000;
    }
  }

  lemma NothingAdded(cal: seq<byte>, digits: seq<nat>, known: bool)
    requires |cal| == 240 && |digits| == 6 && AreDigits(digits)
    ensures TotalTo(cal, digits, known, 0) == 0
  {
  }

  lemma Added(cal: seq<byte>, digits: seq<nat>, known: bool, d: nat, dig: nat)
    requires |cal| == 240 && |digits| == 6 && 1 <= d <= 6 && AreDigits(digits) && dig == (if known then digits[6 - d] else 0)
    ensures TotalTo(cal, digits, known, d) == TotalTo(cal, digits, known, d - 1) + WordAt(cal, 10 * (d - 1) + dig)
  {
  }

  /** With the nominal table the total of known digits is a thousand times what they mean. */
  lemma {:induction false} NominalTotal(digits: seq<nat>, d: nat)
    requires |digits| == 6 && d <= 6 && AreDigits(digits)
    ensures TotalTo(NominalBytes(), digits, true, d) == 1000 * OhmsFrom(digits[6 - d..], 6 - d)
    decreases d
  {
    hide WordAt, NominalWords;
    if d > 0 {
      NominalTotal(digits, d - 1);
      var k := 10 * (d - 1) + digits[6 - d];
      NominalAt(60, k);
      assert k / 10 == d - 1 && k % 10 == digits[6 - d];
      assert digits[6 - d..][1..] == digits[6 - (d - 1)..] && digits[6 - d..][0] == digits[6 - d];
      assert MULTIPLIER[d - 1] == Scale(6 - d);
    }
  }

  /** With the nominal table the total is zero while the digits are not known. */
  lemma {:induction false} NominalUnknown(digits: seq<nat>, d: nat)
    requires |digits| == 6 && d <= 6 && AreDigits(digits)
    ensures TotalTo(NominalBytes(), digits, false, d) == 0
    decreases d
  {
    hide WordAt, NominalWords;
    if d > 0 {
      NominalUnknown(digits, d - 1);
      NominalAt(60, 10 * (d - 1));
      assert (10 * (d - 1)) % 10 == 0;
    }
  }

  /** So an uncalibrated device reports exactly its resistance, and the 32-bit sum cannot overflow. */
  lemma NominalIsResistance(s: Relays)
    requires Shaped(s) && DigitsOk(s) && Known(s)
    ensures TotalTo(NominalBytes(), s.digits, true, 6) == 1000 * s.resistance < 0x1_0000_0000
  {
    NominalTotal(s.digits, 6);
    assert s.digits[0..] == s.digits;
  }
}
