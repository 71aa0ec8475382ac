// The relay decade driver of relay_ctrl.c as a state machine on values, and the
// relay commands of scpi_def.c that drive it.

module RelayState {

  const UNKNOWN := 0xFFFF_FFFF
  const MAX_OHMS := 999999

  // ------------------------------------------------------------ bits

  function Mask(i: nat): bv8
    requires i < 8
  {
    if i == 0 then 1 else if i == 1 then 2 else if i == 2 then 4 else if i == 3 then 8
    else if i == 4 then 16 else if i == 5 then 32 else if i == 6 then 64 else 128
  }

  predicate Has(b: bv8, i: nat)
    requires i < 8
  {
    b & Mask(i) != 0
  }

  function With(b: bv8, i: nat): bv8
    requires i < 8
  {
    b | Mask(i)
  }

  function Without(b: bv8, i: nat): bv8
    requires i < 8
  {
    b & !Mask(i)
  }

  lemma Masks(i: nat, j: nat)
    requires i < 8 && j < 8
    ensures Mask(i) != 0
    ensures i != j ==> Mask(i) & Mask(j) == 0
  {
  }

  lemma MaskedBits(b: bv8, m: bv8, k: bv8)
    ensures (b | m) & m == m && b & !m & m == 0
    ensures m & k == 0 ==> (b | m) & k == b & k && b & !m & k == b & k
  {
  }

  /** Setting or clearing a bit changes that bit and no other. */
  lemma BitChanged(b: bv8, i: nat, j: nat)
    requires i < 8 && j < 8
    ensures Has(With(b, i), j) == (i == j || Has(b, j))
    ensures Has(Without(b, i), j) == (i != j && Has(b, j))
  {
    hide Mask;
    Masks(i, j);
    MaskedBits(b, Mask(i), Mask(j));
  }

  // ------------------------------------------------------------ one decade

  const CONNECT := 6
  const SHORT := 7

  /** decade_byte */
  function DecadeByte(d: nat): bv8 {
    if d == 0 then With(0, 0)
    else if d == 1 then With(0, 2)
    else if d == 2 then With(With(0, 1), 3)
    else if d == 3 then With(0, 3)
    else if d == 4 then With(With(0, 1), 4)
    else if d == 5 then With(0, 4)
    else if d == 6 then With(With(0, 1), 5)
    else if d == 7 then With(0, 5)
    else if d == 8 then With(0, 1)
    else 0
  }

  /**
   * The resistance of one decade in its own unit, from the circuit: Q0 bypasses the
   * whole string, Q1 its first resistor (1 unit), and Q2 to Q5 connect the points
   * after the first, second, third and fourth resistor (2 units each after the
   * first) to the output; without a tap all five resistors are in series.
   */
  function Ladder(b: bv8): nat {
    if Has(b, 0) then 0
    else
      (if Has(b, 1) then 0 else 1)
      + if Has(b, 2) then 0 else if Has(b, 3) then 2 else if Has(b, 4) then 4 else if Has(b, 5) then 6 else 8
  }

  /** Every digit is realised by the relays chosen for it, and the terminal relays are left alone. */
  lemma DecadeRealised(d: nat)
    requires d <= 9
    ensures Ladder(DecadeByte(d)) == d
    ensures !Has(DecadeByte(d), CONNECT) && !Has(DecadeByte(d), SHORT)
  {
  }

  lemma LadderIgnoresTerminals(b: bv8, i: nat)
    requires i == CONNECT || i == SHORT
    ensures Ladder(With(b, i)) == Ladder(b) && Ladder(Without(b, i)) == Ladder(b)
  {
    hide Has, With, Without;
    forall j: nat | j < 6 ensures Has(With(b, i), j) == Has(b, j) == Has(Without(b, i), j) {
      BitChanged(b, i, j);
    }
  }

  // ------------------------------------------------------------ six decades

  /** The unit of decade i, the 100 kilohm decade first. */
  function Scale(i: nat): nat
    requires i < 6
  {
    if i == 0 then 100000 else if i == 1 then 10000 else if i == 2 then 1000
    else if i == 3 then 100 else if i == 4 then 10 else 1
  }

  /** The decimal digits the driver's loops compute, from decade i on. */
  function DigitsFrom(r: nat, i: nat): (ds: seq<nat>)
    requires i <= 6
    ensures |ds| == 6 - i
    decreases 6 - i
  {
    if i == 6 then [] else [r / Scale(i)] + DigitsFrom(r % Scale(i), i + 1)
  }

  function Digits(ohms: nat): (ds: seq<nat>)
    ensures |ds| == 6
  {
    DigitsFrom(ohms, 0)
  }

  /** What digits mean, from decade i on. */
  function OhmsFrom(ds: seq<nat>, i: nat): nat
    requires i <= 6 && |ds| == 6 - i
    decreases 6 - i
  {
    if i == 6 then 0 else ds[0] * Scale(i) + OhmsFrom(ds[1..], i + 1)
  }

  predicate AreDigits(ds: seq<nat>) { forall i :: 0 <= i < |ds| ==> ds[i] <= 9 }

  /** The digits of a value below ten times the first unit are digits, and mean the value. */
  lemma {:induction false} DigitsMean(r: nat, i: nat)
    requires i <= 6 && (if i == 6 then r == 0 else r < 10 * Scale(i))
    ensures AreDigits(DigitsFrom(r, i)) && OhmsFrom(DigitsFrom(r, i), i) == r
    decreases 6 - i
  {
    if i < 6 {
      var s := Scale(i);
      assert r == s * (r / s) + r % s && r / s <= 9;
      DigitsMean(r % s, i + 1);
      assert DigitsFrom(r, i)[1..] == DigitsFrom(r % s, i + 1);
    }
  }

  lemma {:induction false} OhmsBounded(ds: seq<nat>, i: nat)
    requires i <= 6 && |ds| == 6 - i && AreDigits(ds)
    ensures OhmsFrom(ds, i) < if i == 6 then 1 else 10 * Scale(i)
    decreases 6 - i
  {
    if i < 6 {
      OhmsBounded(ds[1..], i + 1);
    }
  }

  /** The resistance between the terminals of the decade chain. */
  function LadderFrom(bits: seq<bv8>, i: nat): nat
    requires i <= 6 && |bits| == 6 - i
    decreases 6 - i
  {
    if i == 6 then 0 else Ladder(bits[0]) * Scale(i) + LadderFrom(bits[1..], i + 1)
  }

  /** build_data */
  function Build(ds: seq<nat>): (bits: seq<bv8>)
    ensures |bits| == |ds| && forall i :: 0 <= i < |ds| ==> bits[i] == DecadeByte(ds[i])
  {
    seq(|ds|, i requires 0 <= i < |ds| => DecadeByte(ds[i]))
  }

  lemma {:induction false} BuildRealises(bits: seq<bv8>, ds: seq<nat>, i: nat)
    requires i <= 6 && |ds| == |bits| == 6 - i && AreDigits(ds)
    requires forall k :: 0 <= k < |bits| ==> Ladder(bits[k]) == Ladder(DecadeByte(ds[k]))
    ensures LadderFrom(bits, i) == OhmsFrom(ds, i)
    decreases 6 - i
  {
    hide Ladder, DecadeByte;
    if i < 6 {
      DecadeRealised(ds[0]);
      forall k | 0 <= k < |bits| - 1 ensures Ladder(bits[1..][k]) == Ladder(DecadeByte(ds[1..][k])) {
        assert bits[1..][k] == bits[k + 1];
      }
      BuildRealises(bits[1..], ds[1..], i + 1);
    }
  }

  // ------------------------------------------------------------ the driver's state and calls

  /** The static variables of relay_ctrl.c. */
  datatype Relays = Relays(bits: seq<bv8>, digits: seq<nat>, resistance: nat, connected: bool)

  predicate Shaped(s: Relays) { |s.bits| == 6 && |s.digits| == 6 }

  function Terminal(s: Relays): bv8
    requires Shaped(s)
  {
    s.bits[5]
  }

  /** apply_output */
  function Applied(bits: seq<bv8>, ohms: nat): (r: seq<bv8>)
    requires |bits| == 6
    ensures |r| == 6
  {
    bits[5 := if ohms == 0 then With(Without(bits[5], CONNECT), SHORT) else Without(With(bits[5], CONNECT), SHORT)]
  }

  function Idle(): (r: seq<bv8>)
    ensures |r| == 6
  {
    [0, 0, 0, 0, 0, 0]
  }

  /** The relays for a value: all open but SHORT at zero. */
  function BitsFor(ohms: nat): (r: seq<bv8>)
    ensures |r| == 6
  {
    Applied(if ohms == 0 then Idle() else Build(Digits(ohms)), ohms)
  }

  /** relay_set_resistance */
  function AfterResistance(s: Relays, ohms0: nat): Relays {
    var ohms := if ohms0 > MAX_OHMS then MAX_OHMS else ohms0;
    Relays(BitsFor(ohms), Digits(ohms), ohms, true)
  }

  /** relay_set_output: opening the output leaves SHORT as it is. */
  function AfterOutput(s: Relays, connected: bool): Relays
    requires Shaped(s)
  {
    if !connected then s.(connected := false, bits := s.bits[5 := Without(s.bits[5], CONNECT)])
    else
      var data := if s.resistance == 0 || s.resistance == UNKNOWN then s.bits else Build(Digits(s.resistance));
      s.(connected := true, bits := Applied(data, if s.resistance == UNKNOWN then 1 else s.resistance))
  }

  /** relay_set_decade; decade 1 is the last of the six. */
  function AfterDecade(s: Relays, decade: nat, digit: nat): Relays
    requires Shaped(s)
  {
    if decade < 1 || decade > 6 || digit > 9 then s
    else
      var digits := s.digits[6 - decade := digit];
      var ohms := OhmsFrom(digits, 0);
      Relays(BitsFor(ohms), digits, ohms, true)
  }

  /** relay_set_bit */
  function AfterBit(s: Relays, decade: nat, bit: nat, on: bool): Relays
    requires Shaped(s)
  {
    if decade < 1 || decade > 6 || bit > 5 then s
    else
      var idx := 6 - decade;
      s.(bits := s.bits[idx := if on then With(s.bits[idx], bit) else Without(s.bits[idx], bit)], resistance := UNKNOWN)
  }

  /** The loop of SCPI_RelayRawSet over the values it reads: the relays named, or none if one is out of range. */
  datatype Raw = Refused | Named(bits: seq<bv8>)

  function RawFrom(bits: seq<bv8>, vals: seq<nat>): (r: Raw)
    requires |bits| == 6
    ensures r.Named? ==> |r.bits| == 6
    decreases |vals|
  {
    if vals == [] then Named(bits)
    else
      var decade, relay := vals[0] / 100 % 256, vals[0] % 10;
      if decade < 1 || decade > 6 || relay > 5 then Refused
      else RawFrom(bits[6 - decade := With(bits[6 - decade], relay)], vals[1..])
  }

  /** SCPI_RelayRawSet: the terminal relays follow the output flag; the reported resistance is not touched. */
  function AfterRaw(s: Relays, vals: seq<nat>): Relays
    requires Shaped(s)
  {
    match RawFrom(Idle(), vals)
    case Refused => s
    case Named(bits) =>
      if vals == [] then s
      else s.(bits := bits[5 := if s.connected then Without(With(bits[5], CONNECT), SHORT)
                                else With(Without(bits[5], CONNECT), SHORT)])
  }

  /** The commands of scpi_def.c that reach the driver, with the values they read. */
  datatype Command =
    | Value(ohms: nat) | Decade(decade: nat, digit: nat) | State(relay: nat, bit: nat, on: bool)
    | Output(connected: bool) | RawRelays(vals: seq<nat>) | Reset

  function Step(s: Relays, c: Command): (r: Relays)
    requires Shaped(s)
    ensures Shaped(r)
  {
    match c
    case Value(ohms) => if ohms > MAX_OHMS then s else AfterResistance(s, ohms)
    case Decade(decade, digit) => AfterDecade(s, decade, digit)
    case State(decade, bit, on) => AfterBit(s, decade, bit, on)
    case Output(connected) => AfterOutput(s, connected)
    case RawRelays(vals) => AfterRaw(s, vals)
    case Reset => AfterOutput(AfterResistance(s, 0), true)
  }

  function Run(s: Relays, cs: seq<Command>): (r: Relays)
    requires Shaped(s)
    ensures Shaped(r)
    decreases |cs|
  {
    if cs == [] then s else Run(Step(s, cs[0]), cs[1..])
  }

  /** relay_init and the initial values. */
  function Initial(): (s: Relays)
    ensures Shaped(s)
  {
    Relays(Idle(), [0, 0, 0, 0, 0, 0], 0, false)
  }

  // ------------------------------------------------------------ what every run keeps

  predicate Known(s: Relays) { s.resistance != UNKNOWN }

  function Resistance(bits: seq<bv8>): nat
    requires |bits| == 6
  {
    LadderFrom(bits, 0)
  }

  /** The digits are digits, and mean the reported resistance while it is known. */
  ghost predicate DigitsOk(s: Relays)
    requires Shaped(s)
  {
    AreDigits(s.digits) && (Known(s) ==> s.resistance == OhmsFrom(s.digits, 0) <= MAX_OHMS)
  }

  /** CONNECT and SHORT are never both closed, and CONNECT is open while the output is off. */
  ghost predicate Safe(s: Relays)
    requires Shaped(s)
  {
    && !(Has(Terminal(s), CONNECT) && Has(Terminal(s), SHORT))
    && (!s.connected ==> !Has(Terminal(s), CONNECT))
  }

  /** A known non-zero resistance is the one the relays realise. */
  ghost predicate Realised(s: Relays)
    requires Shaped(s)
  {
    Known(s) && s.resistance != 0 ==> Resistance(s.bits) == s.resistance
  }

  /** While the output is on and the resistance known, SHORT is closed at zero and CONNECT otherwise. */
  ghost predicate Follows(s: Relays)
    requires Shaped(s)
  {
    s.connected && Known(s) ==>
      (Has(Terminal(s), SHORT) <==> s.resistance == 0) && (Has(Terminal(s), CONNECT) <==> s.resistance != 0)
  }

  lemma TerminalsSet(b: bv8)
    ensures var on := Without(With(b, CONNECT), SHORT);
            Has(on, CONNECT) && !Has(on, SHORT) && Ladder(on) == Ladder(b)
    ensures var off := With(Without(b, CONNECT), SHORT);
            !Has(off, CONNECT) && Has(off, SHORT) && Ladder(off) == Ladder(b)
  {
    hide Has, With, Without, Ladder;
    BitChanged(b, CONNECT, CONNECT);
    BitChanged(With(b, CONNECT), SHORT, CONNECT);
    BitChanged(With(b, CONNECT), SHORT, SHORT);
    BitChanged(Without(b, CONNECT), SHORT, CONNECT);
    BitChanged(b, CONNECT, CONNECT);
    BitChanged(Without(b, CONNECT), SHORT, SHORT);
    LadderIgnoresTerminals(b, CONNECT);
    LadderIgnoresTerminals(With(b, CONNECT), SHORT);
    LadderIgnoresTerminals(Without(b, CONNECT), SHORT);
  }

  /** Building a value realises it; its terminal relays follow it. */
  lemma Built(ohms: nat)
    requires ohms <= MAX_OHMS
    ensures AreDigits(Digits(ohms)) && OhmsFrom(Digits(ohms), 0) == ohms
    ensures ohms != 0 ==> Resistance(Applied(Build(Digits(ohms)), ohms)) == ohms
  {
    hide Has, With, Without, Ladder, DecadeByte, DigitsFrom;
    DigitsMean(ohms, 0);
    var bits := Build(Digits(ohms));
    TerminalsSet(bits[5]);
    BuildRealises(Applied(bits, ohms), Digits(ohms), 0);
  }

  lemma TerminalsFollow(bits: seq<bv8>, ohms: nat)
    requires |bits| == 6
    ensures var t := Applied(bits, ohms)[5];
            (Has(t, SHORT) <==> ohms == 0) && (Has(t, CONNECT) <==> ohms != 0)
  {
    TerminalsSet(bits[5]);
  }

  /** Whatever the relays were before, setting a value realises it. */
  lemma ResistanceStep(s: Relays, ohms: nat)
    requires Shaped(s)
    ensures var r := AfterResistance(s, ohms);
            Shaped(r) && DigitsOk(r) && Safe(r) && Realised(r) && Follows(r)
  {
    hide Has, With, Without, Resistance, Build, Digits, Applied;
    var v := if ohms > MAX_OHMS then MAX_OHMS else ohms;
    Built(v);
    TerminalsFollow(if v == 0 then Idle() else Build(Digits(v)), v);
  }

  /** So does setting one decade, if the digits were digits. */
  lemma DecadeStep(s: Relays, decade: nat, digit: nat)
    requires Shaped(s) && DigitsOk(s) && 1 <= decade <= 6 && digit <= 9
    ensures var r := AfterDecade(s, decade, digit);
            && Shaped(r) && DigitsOk(r) && Safe(r) && Realised(r) && Follows(r)
            && r.digits == s.digits[6 - decade := digit]
  {
    hide Has, With, Without, Resistance, Build, Digits, Applied, OhmsFrom;
    var digits := s.digits[6 - decade := digit];
    OhmsBounded(digits, 0);
    var v := OhmsFrom(digits, 0);
    Built(v);
    TerminalsFollow(if v == 0 then Idle() else Build(Digits(v)), v);
  }

  /** And so does switching the output on while the resistance is known: raw relay settings are undone. */
  lemma OutputOnStep(s: Relays)
    requires Shaped(s) && DigitsOk(s)
    ensures var r := AfterOutput(s, true);
            Shaped(r) && DigitsOk(r) && Safe(r) && Realised(r) && Follows(r)
  {
    hide Has, With, Without, Resistance, Build, Digits, Applied, OhmsFrom;
    if Known(s) {
      Built(s.resistance);
    }
    TerminalsFollow(if s.resistance == 0 || s.resistance == UNKNOWN then s.bits else Build(Digits(s.resistance)),
                    if s.resistance == UNKNOWN then 1 else s.resistance);
  }

  lemma {:induction false} LadderChange(a: seq<bv8>, b: seq<bv8>, i: nat)
    requires i <= 6 && |a| == |b| == 6 - i && forall k :: 0 <= k < |a| ==> Ladder(a[k]) == Ladder(b[k])
    ensures LadderFrom(a, i) == LadderFrom(b, i)
    decreases 6 - i
  {
    hide Ladder;
    if i < 6 {
      forall k | 0 <= k < |a| - 1 ensures Ladder(a[1..][k]) == Ladder(b[1..][k]) {
        assert a[1..][k] == a[k + 1] && b[1..][k] == b[k + 1];
      }
      LadderChange(a[1..], b[1..], i + 1);
    }
  }

  lemma OutputOffStep(s: Relays)
    requires Shaped(s) && Safe(s)
    ensures var r := AfterOutput(s, false);
            && Safe(r) && Follows(r) && (DigitsOk(s) ==> DigitsOk(r)) && (Realised(s) ==> Realised(r))
            && Has(Terminal(r), SHORT) == Has(Terminal(s), SHORT)
  {
    hide Has, With, Without, Ladder, LadderFrom, OhmsFrom;
    var r := AfterOutput(s, false);
    BitChanged(s.bits[5], CONNECT, CONNECT);
    BitChanged(s.bits[5], CONNECT, SHORT);
    LadderIgnoresTerminals(s.bits[5], CONNECT);
    LadderChange(r.bits, s.bits, 0);
  }

  /**
   * So switching off shorts the terminals exactly if they were shorted before; while the
   * output follows a known resistance that is exactly at zero ohms, and otherwise both
   * terminal relays are open.
   */
  lemma OffShorts(s: Relays)
    requires Shaped(s) && Safe(s) && Follows(s) && s.connected && Known(s)
    ensures var t := Terminal(AfterOutput(s, false));
            (Has(t, SHORT) <==> s.resistance == 0) && !Has(t, CONNECT)
  {
    hide Has, With, Without;
    OutputOffStep(s);
  }

  lemma BitStep(s: Relays, decade: nat, bit: nat, on: bool)
    requires Shaped(s) && Safe(s)
    ensures var r := AfterBit(s, decade, bit, on);
            Safe(r) && (DigitsOk(s) ==> DigitsOk(r)) && (Realised(s) ==> Realised(r)) && (Follows(s) ==> Follows(r))
  {
    hide Has, With, Without, LadderFrom, OhmsFrom;
    if 1 <= decade <= 6 && bit <= 5 {
      BitChanged(s.bits[6 - decade], bit, CONNECT);
      BitChanged(s.bits[6 - decade], bit, SHORT);
    }
  }

  lemma RawStep(s: Relays, vals: seq<nat>)
    requires Shaped(s) && Safe(s)
    ensures Safe(AfterRaw(s, vals)) && (DigitsOk(s) ==> DigitsOk(AfterRaw(s, vals)))
  {
    hide Has, With, Without, OhmsFrom, RawFrom;
    match RawFrom(Idle(), vals)
    case Refused =>
    case Named(bits) => TerminalsSet(bits[5]);
  }

  /** Every command keeps the digits and the terminals safe; every command but RELay:RAW keeps the rest as well. */
  lemma StepKeeps(s: Relays, c: Command)
    requires Shaped(s) && DigitsOk(s) && Safe(s)
    ensures DigitsOk(Step(s, c)) && Safe(Step(s, c))
    ensures !c.RawRelays? && Realised(s) && Follows(s) ==> Realised(Step(s, c)) && Follows(Step(s, c))
  {
    hide DigitsOk, Safe, Realised, Follows, AfterResistance, AfterOutput, AfterBit, AfterRaw;
    match c
    case Value(ohms) => ResistanceStep(s, ohms);
    case Decade(decade, digit) =>
      if 1 <= decade <= 6 && digit <= 9 { DecadeStep(s, decade, digit); }
    case State(decade, bit, on) => BitStep(s, decade, bit, on);
    case Output(connected) =>
      if connected { OutputOnStep(s); } else { OutputOffStep(s); }
    case RawRelays(vals) => RawStep(s, vals);
    case Reset =>
      ResistanceStep(s, 0);
      OutputOnStep(AfterResistance(s, 0));
  }

  /** Over every run of commands, raw ones included. */
  lemma {:induction false} RunSafe(s: Relays, cs: seq<Command>)
    requires Shaped(s) && DigitsOk(s) && Safe(s)
    ensures DigitsOk(Run(s, cs)) && Safe(Run(s, cs))
    decreases |cs|
  {
    hide DigitsOk, Safe, Step;
    if cs != [] {
      StepKeeps(s, cs[0]);
      RunSafe(Step(s, cs[0]), cs[1..]);
    }
  }

  /** The commands after which the report is right whatever it was: the relays are built anew, or the resistance is unknown. */
  predicate Restores(c: Command) {
    match c
    case Value(ohms) => ohms <= MAX_OHMS
    case Decade(decade, digit) => 1 <= decade <= 6 && digit <= 9
    case State(decade, bit, on) => 1 <= decade <= 6 && bit <= 5
    case Output(connected) => connected
    case Reset => true
    case RawRelays(vals) => false
  }

  lemma UnknownStep(s: Relays, decade: nat, bit: nat, on: bool)
    requires Shaped(s) && 1 <= decade <= 6 && bit <= 5
    ensures var r := AfterBit(s, decade, bit, on); !Known(r) && Realised(r) && Follows(r)
  {
  }

  /** Whatever RELay:RAW left, a known non-zero resistance is the ladder's after them, and the terminals follow it. */
  lemma RestoringStep(s: Relays, c: Command)
    requires Shaped(s) && DigitsOk(s) && Restores(c)
    ensures Realised(Step(s, c)) && Follows(Step(s, c))
  {
    hide DigitsOk, Safe, Realised, Follows, AfterResistance, AfterOutput, AfterDecade;
    match c
    case Value(ohms) => ResistanceStep(s, ohms);
    case Decade(decade, digit) => DecadeStep(s, decade, digit);
    case State(decade, bit, on) => UnknownStep(s, decade, bit, on);
    case Output(connected) => OutputOnStep(s);
    case Reset =>
      ResistanceStep(s, 0);
      OutputOnStep(AfterResistance(s, 0));
  }

  /** Every RELay:RAW of the run is followed, at some time, by such a command. */
  predicate RawRestored(cs: seq<Command>) {
    forall i :: 0 <= i < |cs| && cs[i].RawRelays? ==> exists j :: i < j < |cs| && Restores(cs[j])
  }

  /** Then the reported resistance is the ladder's in the end. */
  lemma {:induction false} RunRestored(s: Relays, cs: seq<Command>)
    requires Shaped(s) && DigitsOk(s) && Safe(s) && RawRestored(cs)
    requires (Realised(s) && Follows(s)) || exists j :: 0 <= j < |cs| && Restores(cs[j])
    ensures Realised(Run(s, cs)) && Follows(Run(s, cs))
    decreases |cs|
  {
    hide DigitsOk, Safe, Realised, Follows, Step, Restores;
    if cs != [] {
      var next, rest := Step(s, cs[0]), cs[1..];
      StepKeeps(s, cs[0]);
      forall i | 0 <= i < |rest| && rest[i].RawRelays? ensures exists j :: i < j < |rest| && Restores(rest[j]) {
        assert cs[i + 1].RawRelays?;
        var j :| i + 1 < j < |cs| && Restores(cs[j]);
        assert Restores(rest[j - 1]);
      }
      if j :| 0 < j < |cs| && Restores(cs[j]) {
        assert Restores(rest[j - 1]);
      } else {
        if Restores(cs[0]) { RestoringStep(s, cs[0]); }
      }
      RunRestored(next, rest);
    }
  }

  /** RELay:RAW with values it takes. */
  predicate Taken(c: Command) { c.RawRelays? && c.vals != [] && RawFrom(Idle(), c.vals).Named? }

  /** The relays it names realise the reported resistance, if that is known and not zero. */
  ghost predicate NamesReported(s: Relays, c: Command)
    requires Shaped(s) && Taken(c)
  {
    Known(s) && s.resistance != 0 ==> Resistance(RawFrom(Idle(), c.vals).bits) == s.resistance
  }

  /** Whether the report is right after one command. */
  lemma ReportStep(s: Relays, c: Command)
    requires Shaped(s) && DigitsOk(s) && Safe(s)
    ensures Realised(Step(s, c)) <==> Restores(c) || if Taken(c) then NamesReported(s, c) else Realised(s)
    ensures Follows(Step(s, c))
            <==> Restores(c) || c == Output(false)
                 || if Taken(c) then s.connected && Known(s) ==> s.resistance != 0 else Follows(s)
  {
    hide DigitsOk, Safe, AfterResistance, AfterOutput, AfterDecade, Has, With, Without, LadderFrom, RawFrom;
    if Restores(c) {
      RestoringStep(s, c);
    } else if Taken(c) {
      RawExactly(s, c.vals);
    } else if c == Output(false) {
      OffReport(s);
    } else {
      NothingDone(s, c);
    }
  }

  lemma NothingDone(s: Relays, c: Command)
    requires Shaped(s) && !Restores(c) && !Taken(c) && c != Output(false)
    ensures Step(s, c) == s
  {
    hide RawFrom;
  }

  lemma OffReport(s: Relays)
    requires Shaped(s) && Safe(s)
    ensures var r := AfterOutput(s, false);
            Follows(r) && (Realised(r) <==> Realised(s))
  {
    hide Has, With, Without, Ladder, LadderFrom, OhmsFrom;
    OutputOffStep(s);
    LadderIgnoresTerminals(s.bits[5], CONNECT);
    LadderChange(AfterOutput(s, false).bits, s.bits, 0);
  }

  lemma RawExactly(s: Relays, vals: seq<nat>)
    requires Shaped(s) && Taken(RawRelays(vals))
    ensures Realised(AfterRaw(s, vals)) <==> NamesReported(s, RawRelays(vals))
    ensures Follows(AfterRaw(s, vals)) <==> (s.connected && Known(s) ==> s.resistance != 0)
  {
    hide Has, With, Without, LadderFrom, RawFrom, Ladder;
    var bits := RawFrom(Idle(), vals).bits;
    TerminalsSet(bits[5]);
    LadderChange(AfterRaw(s, vals).bits, bits, 0);
  }

  /** The last command that restores, or is a RELay:RAW that names what is reported, or the run has neither and started right. */
  ghost predicate ReportedRight(s: Relays, cs: seq<Command>)
    requires Shaped(s)
    decreases |cs|
  {
    if cs == [] then Realised(s)
    else
      var before, c := cs[..|cs| - 1], cs[|cs| - 1];
      Restores(c) || if Taken(c) then NamesReported(Run(s, before), c) else ReportedRight(s, before)
  }

  ghost predicate TerminalsRight(s: Relays, cs: seq<Command>)
    requires Shaped(s)
    decreases |cs|
  {
    if cs == [] then Follows(s)
    else
      var before, c := cs[..|cs| - 1], cs[|cs| - 1];
      var t := Run(s, before);
      || Restores(c) || c == Output(false)
      || if Taken(c) then t.connected && Known(t) ==> t.resistance != 0 else TerminalsRight(s, before)
  }

  lemma {:induction false} RunSnoc(s: Relays, cs: seq<Command>, c: Command)
    requires Shaped(s)
    ensures Run(s, cs + [c]) == Step(Run(s, cs), c)
    decreases |cs|
  {
    hide Step;
    if cs == [] {
      assert cs + [c] == [c] && [c][1..] == [];
      assert Run(Step(s, c), []) == Step(s, c);
    } else {
      assert (cs + [c])[0] == cs[0] && (cs + [c])[1..] == cs[1..] + [c];
      RunSnoc(Step(s, cs[0]), cs[1..], c);
    }
  }

  /**
   * The report is right after a run exactly if the last command that restores or is a RELay:RAW
   * restores, or names relays that realise what was reported; the terminals follow exactly
   * likewise, where switching off always helps and RELay:RAW hurts only at zero ohms.
   */
  lemma {:induction false} RunExactly(s: Relays, cs: seq<Command>)
    requires Shaped(s) && DigitsOk(s) && Safe(s)
    ensures Realised(Run(s, cs)) <==> ReportedRight(s, cs)
    ensures Follows(Run(s, cs)) <==> TerminalsRight(s, cs)
    decreases |cs|
  {
    hide DigitsOk, Safe, Realised, Follows, Step, Restores, Taken, NamesReported;
    if cs == [] {
    } else {
      var before, c := cs[..|cs| - 1], cs[|cs| - 1];
      assert cs == before + [c];
      RunSnoc(s, before, c);
      RunSafe(s, before);
      ReportStep(Run(s, before), c);
      RunExactly(s, before);
    }
  }

  /**
   * Every run from start-up is safe; if each RELay:RAW in it is followed by a restoring command,
   * a known non-zero resistance is the ladder's in the end, and the terminals follow it;
   * exactly when they do is ReportedRight and TerminalsRight.
   */
  lemma RunFromStart(cs: seq<Command>)
    ensures var s := Run(Initial(), cs);
            && DigitsOk(s) && Safe(s) && (RawRestored(cs) ==> Realised(s) && Follows(s))
            && (Realised(s) <==> ReportedRight(Initial(), cs)) && (Follows(s) <==> TerminalsRight(Initial(), cs))
  {
    hide DigitsOk, Safe, Realised, Follows, Run, RawRestored, ReportedRight, TerminalsRight;
    InitialOk();
    RunSafe(Initial(), cs);
    RunExactly(Initial(), cs);
    if RawRestored(cs) { RunRestored(Initial(), cs); }
  }

  lemma InitialOk()
    ensures var s := Initial(); DigitsOk(s) && Safe(s) && Realised(s) && Follows(s)
  {
    assert OhmsFrom([], 6) == 0;
    assert [0, 0, 0, 0, 0, 0][1..] == [0, 0, 0, 0, 0];
    assert [0, 0, 0, 0, 0][1..] == [0, 0, 0, 0];
    assert [0, 0, 0, 0][1..] == [0, 0, 0];
    assert [0, 0, 0][1..] == [0, 0];
    assert [0, 0][1..] == [0];
    assert [0][1..] == [];
  }

  /** RELay:RAW is the exception: after it the reported resistance is right exactly if the named relays happen to realise it. */
  lemma RawReports(s: Relays, vals: seq<nat>)
    requires Shaped(s) && Known(s) && s.resistance != 0 && vals != [] && RawFrom(Idle(), vals).Named?
    ensures Realised(AfterRaw(s, vals)) <==> Resistance(RawFrom(Idle(), vals).bits) == s.resistance
    ensures AfterRaw(s, vals).resistance == s.resistance
  {
    hide Has, With, Without, LadderFrom, RawFrom, Ladder;
    var bits := RawFrom(Idle(), vals).bits;
    TerminalsSet(bits[5]);
    LadderChange(AfterRaw(s, vals).bits, bits, 0);
  }

  lemma {:induction false} LadderOf(bits: seq<bv8>, i: nat, ds: seq<nat>)
    requires i <= 6 && |bits| == |ds| == 6 - i && forall k :: 0 <= k < |bits| ==> Ladder(bits[k]) == ds[k]
    ensures LadderFrom(bits, i) == OhmsFrom(ds, i)
    decreases 6 - i
  {
    hide Ladder;
    if i < 6 {
      forall k | 0 <= k < |bits| - 1 ensures Ladder(bits[1..][k]) == ds[1..][k] {
        assert bits[1..][k] == bits[k + 1] && ds[1..][k] == ds[k + 1];
      }
      LadderOf(bits[1..], i + 1, ds[1..]);
    }
  }

  /** After 5 ohms and then RELay:RAW 103 the driver still reports 5 ohms, and the ladder has 999993. */
  lemma RawExample()
    ensures var s := Run(Initial(), [Value(5), RawRelays([103])]);
            s.resistance == 5 && Resistance(s.bits) == 999993
  {
    hide Has, With, Without, LadderFrom, Ladder, Applied, Digits;
    var s := Step(Initial(), Value(5));
    var cs := [Value(5), RawRelays([103])];
    assert cs[1..] == [RawRelays([103])] && cs[1..][1..] == [];
    assert Run(s, cs[1..]) == Run(Step(s, RawRelays([103])), []);
    assert RawFrom(Idle(), [103]) == Named(Idle()[5 := With(0, 3)]);
    var bits := AfterRaw(s, [103]).bits;
    TerminalsSet(With(0, 3));
    RawLadders();
    LadderOf(bits, 0, [9, 9, 9, 9, 9, 3]);
    NearlyAll();
  }

  lemma RawLadders()
    ensures Ladder(0) == 9 && Ladder(With(0, 3)) == 3
  {
  }

  lemma NearlyAll()
    ensures OhmsFrom([9, 9, 9, 9, 9, 3], 0) == 999993
  {
    assert [9, 9, 9, 9, 9, 3][1..] == [9, 9, 9, 9, 3] && [9, 9, 9, 9, 3][1..] == [9, 9, 9, 3];
    assert [9, 9, 9, 3][1..] == [9, 9, 3] && [9, 9, 3][1..] == [9, 3] && [9, 3][1..] == [3] && [3][1..] == [];
    assert OhmsFrom([], 6) == 0 && OhmsFrom([3], 5) == 3 && OhmsFrom([9, 3], 4) == 93 && OhmsFrom([9, 9, 3], 3) == 993;
  }

  /** After 5 ohms and then the output off, neither terminal relay is closed. */
  lemma OffExample()
    ensures var t := Terminal(Run(Initial(), [Value(5), Output(false)]));
            !Has(t, CONNECT) && !Has(t, SHORT)
  {
    hide Has, With, Without, Safe, Follows, AfterResistance, AfterOutput, DigitsOk, Realised;
    var cs := [Value(5), Output(false)];
    assert cs[1..] == [Output(false)] && cs[1..][1..] == [];
    var s := AfterResistance(Initial(), 5);
    assert Run(Initial(), cs) == Run(s, cs[1..]) == AfterOutput(s, false);
    ResistanceStep(Initial(), 5);
    ValueOf(5);
    OffShorts(s);
  }

  lemma ValueOf(ohms: nat)
    requires ohms <= MAX_OHMS
    ensures var s := AfterResistance(Initial(), ohms); s.resistance == ohms && s.connected && Known(s)
  {
  }
}
