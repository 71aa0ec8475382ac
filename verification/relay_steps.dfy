// What each relay command does to the report and to every single relay.

module RelaySteps {
  import opened RelayState

  /** Relay `bit` of decade `decade`, decade 1 being the last of the six. */
  predicate Closed(s: Relays, decade: nat, bit: nat)
    requires Shaped(s) && 1 <= decade <= 6 && bit < 8
  {
    ClosedIn(s.bits, decade, bit)
  }

  predicate ClosedIn(bits: seq<bv8>, decade: nat, bit: nat)
    requires |bits| == 6 && 1 <= decade <= 6 && bit < 8
  {
    Has(bits[6 - decade], bit)
  }

  /** Resistance, digits and output flag. */
  function Reported(s: Relays): (nat, seq<nat>, bool) { (s.resistance, s.digits, s.connected) }

  /** A value up to 999999 ohms is reported, its digits are its decimal digits, and the output is on; a larger one does nothing. */
  lemma ValueSets(s: Relays, ohms: nat)
    requires Shaped(s)
    ensures var r := Step(s, Value(ohms));
            if ohms > 999999 then r == s
            else
              && r.resistance == ohms && r.connected && |r.digits| == 6
              && ohms == 100000 * r.digits[0] + 10000 * r.digits[1] + 1000 * r.digits[2] + 100 * r.digits[3] + 10 * r.digits[4] + r.digits[5]
              && AreDigits(r.digits)
  {
    hide BitsFor, DigitsFrom;
    if ohms <= 999999 {
      DigitsMean(ohms, 0);
      SixDigits(Digits(ohms));
    }
  }

  lemma SixDigits(ds: seq<nat>)
    requires |ds| == 6
    ensures OhmsFrom(ds, 0) == 100000 * ds[0] + 10000 * ds[1] + 1000 * ds[2] + 100 * ds[3] + 10 * ds[4] + ds[5]
  {
    assert ds[1..][1..] == ds[2..] && ds[2..][1..] == ds[3..] && ds[3..][1..] == ds[4..] && ds[4..][1..] == ds[5..] && ds[5..][1..] == ds[6..];
    assert OhmsFrom(ds[6..], 6) == 0;
    assert OhmsFrom(ds[5..], 5) == ds[5];
    assert OhmsFrom(ds[4..], 4) == 10 * ds[4] + ds[5];
    assert OhmsFrom(ds[3..], 3) == 100 * ds[3] + OhmsFrom(ds[4..], 4);
    assert OhmsFrom(ds[2..], 2) == 1000 * ds[2] + OhmsFrom(ds[3..], 3);
    assert OhmsFrom(ds[1..], 1) == 10000 * ds[1] + OhmsFrom(ds[2..], 2);
  }

  /** The unit of a decade in ohms. */
  function Unit(decade: nat): nat
    requires 1 <= decade <= 6
  {
    if decade == 1 then 1 else 10 * Unit(decade - 1)
  }

  /** A digit of a decade replaces that digit alone; the report is known and moves by that much, and the output is on. */
  lemma DecadeSets(s: Relays, decade: nat, digit: nat)
    requires Shaped(s) && DigitsOk(s)
    ensures var r := Step(s, Decade(decade, digit));
            if decade < 1 || decade > 6 || digit > 9 then r == s
            else
              && r.digits == s.digits[6 - decade := digit] && r.connected && Known(r)
              && r.resistance == OhmsFrom(s.digits, 0) - s.digits[6 - decade] * Unit(decade) + digit * Unit(decade)
              && (Known(s) ==> r.resistance == s.resistance - s.digits[6 - decade] * Unit(decade) + digit * Unit(decade))
  {
    hide BitsFor, OhmsFrom;
    if 1 <= decade <= 6 && digit <= 9 {
      var digits := s.digits[6 - decade := digit];
      SixDigits(s.digits);
      SixDigits(digits);
      OhmsBounded(digits, 0);
      Units();
    }
  }

  lemma Units()
    ensures Unit(1) == 1 && Unit(2) == 10 && Unit(3) == 100 && Unit(4) == 1000 && Unit(5) == 10000 && Unit(6) == 100000
  {
  }

  /** RELay:STATe closes or opens exactly the relay it names and makes the resistance unknown; out of range it does nothing. */
  lemma StateSets(s: Relays, decade: nat, bit: nat, on: bool)
    requires Shaped(s)
    ensures var r := Step(s, State(decade, bit, on));
            if decade < 1 || decade > 6 || bit > 5 then r == s
            else
              && r.resistance == UNKNOWN && r.digits == s.digits && r.connected == s.connected
              && forall d: nat, b: nat :: 1 <= d <= 6 && b < 8 ==>
                   (Closed(r, d, b) <==> if d == decade && b == bit then on else Closed(s, d, b))
  {
    hide Has, With, Without;
    if 1 <= decade <= 6 && bit <= 5 {
      BitsChanged(s.bits[6 - decade], bit);
    }
  }

  lemma BitsChanged(bits: bv8, i: nat)
    requires i < 8
    ensures forall j: nat :: j < 8 ==> Has(With(bits, i), j) == (i == j || Has(bits, j))
    ensures forall j: nat :: j < 8 ==> Has(Without(bits, i), j) == (i != j && Has(bits, j))
  {
    hide Has, With, Without;
    forall j: nat | j < 8 ensures Has(With(bits, i), j) == (i == j || Has(bits, j)) {
      BitChanged(bits, i, j);
    }
    forall j: nat | j < 8 ensures Has(Without(bits, i), j) == (i != j && Has(bits, j)) {
      BitChanged(bits, i, j);
    }
  }

  // ------------------------------------------------------------ RELay:RAW

  /** A value names a relay: hundreds the decade in one byte, the last digit the relay. */
  predicate Names(val: nat, decade: nat, bit: nat) { val / 100 % 256 == decade && val % 10 == bit }

  predicate InRange(val: nat) { 1 <= val / 100 % 256 <= 6 && val % 10 <= 5 }

  predicate AllInRange(vals: seq<nat>) { forall i :: 0 <= i < |vals| ==> InRange(vals[i]) }

  lemma {:induction false} RawReads(bits: seq<bv8>, vals: seq<nat>)
    requires |bits| == 6
    ensures RawFrom(bits, vals).Named? <==> AllInRange(vals)
    ensures AllInRange(vals) ==>
              forall d: nat, b: nat :: 1 <= d <= 6 && b < 8 ==>
                (ClosedIn(RawFrom(bits, vals).bits, d, b) <==> ClosedIn(bits, d, b) || exists i :: 0 <= i < |vals| && Names(vals[i], d, b))
    decreases |vals|
  {
    hide Has, With, Without;
    if vals != [] {
      AllOfFirst(vals);
      if InRange(vals[0]) {
        var decade, relay := vals[0] / 100 % 256, vals[0] % 10;
        var next := bits[6 - decade := With(bits[6 - decade], relay)];
        RawReads(next, vals[1..]);
        BitsChanged(bits[6 - decade], relay);
        forall d: nat, b: nat | AllInRange(vals) && 1 <= d <= 6 && b < 8
          ensures ClosedIn(RawFrom(bits, vals).bits, d, b) <==> ClosedIn(bits, d, b) || exists i :: 0 <= i < |vals| && Names(vals[i], d, b)
        {
          NamedFirst(vals, d, b);
          assert ClosedIn(next, d, b) <==> ClosedIn(bits, d, b) || Names(vals[0], d, b);
        }
      }
    }
  }

  lemma AllOfFirst(vals: seq<nat>)
    requires vals != []
    ensures AllInRange(vals) <==> InRange(vals[0]) && AllInRange(vals[1..])
  {
    if InRange(vals[0]) && AllInRange(vals[1..]) {
      forall i | 0 <= i < |vals| ensures InRange(vals[i]) {
        if i > 0 { assert InRange(vals[1..][i - 1]); }
      }
    }
    if AllInRange(vals) {
      forall i | 0 <= i < |vals[1..]| ensures InRange(vals[1..][i]) {
        assert InRange(vals[i + 1]);
      }
    }
  }

  lemma NamedFirst(vals: seq<nat>, d: nat, b: nat)
    requires vals != []
    ensures (exists i :: 0 <= i < |vals| && Names(vals[i], d, b)) <==>
            Names(vals[0], d, b) || exists i :: 0 <= i < |vals[1..]| && Names(vals[1..][i], d, b)
  {
    if i :| 0 <= i < |vals| && Names(vals[i], d, b) {
      if i > 0 { assert Names(vals[1..][i - 1], d, b); }
    }
    if i :| 0 <= i < |vals[1..]| && Names(vals[1..][i], d, b) {
      assert Names(vals[i + 1], d, b);
    }
  }

  /**
   * RELay:RAW closes exactly the decade relays it names, sets the terminal relays by the output
   * flag, and changes nothing that is reported; with no value or one out of range it does nothing.
   */
  lemma RawSets(s: Relays, vals: seq<nat>)
    requires Shaped(s)
    ensures var r := Step(s, RawRelays(vals));
            if vals == [] || !AllInRange(vals) then r == s
            else
              && Reported(r) == Reported(s)
              && (forall d: nat, b: nat :: 1 <= d <= 6 && b < 6 ==>
                    (Closed(r, d, b) <==> exists i :: 0 <= i < |vals| && Names(vals[i], d, b)))
              && (Closed(r, 1, 6) <==> s.connected) && (Closed(r, 1, 7) <==> !s.connected)
              && forall d: nat, b: nat :: 2 <= d <= 6 && 6 <= b < 8 ==> !Closed(r, d, b)
  {
    hide Has, With, Without, RawFrom;
    RawReads(Idle(), vals);
    if vals != [] && AllInRange(vals) {
      var bits := RawFrom(Idle(), vals).bits;
      TerminalBits(bits[5]);
      var r := Step(s, RawRelays(vals));
      forall d: nat, b: nat | 1 <= d <= 6 && b < 8
        ensures ClosedIn(bits, d, b) <==> exists i :: 0 <= i < |vals| && Names(vals[i], d, b)
      {
        NothingSet(b);
        assert !ClosedIn(Idle(), d, b);
      }
      forall d: nat, b: nat | 1 <= d <= 6 && b < 6
        ensures Closed(r, d, b) <==> exists i :: 0 <= i < |vals| && Names(vals[i], d, b)
      {
        assert Closed(r, d, b) <==> ClosedIn(bits, d, b);
      }
      forall d: nat, b: nat | 2 <= d <= 6 && 6 <= b < 8 ensures !Closed(r, d, b) {
        NoTerminalNamed(vals, d, b);
        assert Closed(r, d, b) <==> ClosedIn(bits, d, b);
      }
    }
  }

  lemma NoTerminalNamed(vals: seq<nat>, d: nat, b: nat)
    requires AllInRange(vals) && b >= 6
    ensures !exists i :: 0 <= i < |vals| && Names(vals[i], d, b)
  {
    forall i | 0 <= i < |vals| ensures !Names(vals[i], d, b) {
      assert InRange(vals[i]);
    }
  }

  lemma NothingSet(b: nat)
    requires b < 8
    ensures !Has(0, b)
  {
  }

  lemma TerminalBits(b: bv8)
    ensures var on := Without(With(b, CONNECT), SHORT);
            Has(on, CONNECT) && !Has(on, SHORT) && forall i: nat :: i < 6 ==> Has(on, i) == Has(b, i)
    ensures var off := With(Without(b, CONNECT), SHORT);
            !Has(off, CONNECT) && Has(off, SHORT) && forall i: nat :: i < 6 ==> Has(off, i) == Has(b, i)
  {
    hide Has, With, Without, Ladder;
    TerminalsSet(b);
    forall i: nat | i < 6
      ensures Has(Without(With(b, CONNECT), SHORT), i) == Has(b, i) && Has(With(Without(b, CONNECT), SHORT), i) == Has(b, i)
    {
      BitChanged(b, CONNECT, i);
      BitChanged(With(b, CONNECT), SHORT, i);
      BitChanged(Without(b, CONNECT), SHORT, i);
    }
  }

  // ------------------------------------------------------------ output and reset

  /** OUTPut changes the output flag and nothing else that is reported; off opens CONNECT and leaves every other relay. */
  lemma OutputSets(s: Relays, connected: bool)
    requires Shaped(s)
    ensures var r := Step(s, Output(connected));
            && r.resistance == s.resistance && r.digits == s.digits && r.connected == connected
            && (!connected ==> forall d: nat, b: nat :: 1 <= d <= 6 && b < 8 ==>
                  (Closed(r, d, b) <==> !(d == 1 && b == 6) && Closed(s, d, b)))
            && (connected ==> (Closed(r, 1, 6) <==> s.resistance != 0) && (Closed(r, 1, 7) <==> s.resistance == 0))
  {
    hide Has, With, Without, Build, Digits;
    if connected {
      TerminalsFollow(if s.resistance == 0 || s.resistance == UNKNOWN then s.bits else Build(Digits(s.resistance)),
                      if s.resistance == UNKNOWN then 1 else s.resistance);
    } else {
      forall b: nat | b < 8 ensures Has(Without(s.bits[5], CONNECT), b) == (CONNECT != b && Has(s.bits[5], b)) {
        BitChanged(s.bits[5], CONNECT, b);
      }
    }
  }

  /** *RST reports zero ohms with the output on, and closes SHORT alone. */
  lemma ResetSets(s: Relays)
    requires Shaped(s)
    ensures var r := Step(s, Reset);
            && Reported(r) == (0, [0, 0, 0, 0, 0, 0], true)
            && forall d: nat, b: nat :: 1 <= d <= 6 && b < 8 ==> (Closed(r, d, b) <==> d == 1 && b == 7)
  {
    hide Has, With, Without;
    ZeroDigits();
    forall b: nat | b < 8 ensures !Has(0, b) {
      NothingSet(b);
    }
    var shorted := With(Without(0, CONNECT), SHORT);
    TerminalBits(0);
    TerminalBits(shorted);
    assert Applied(Idle(), 0)[5] == shorted;
  }

  lemma ZeroDigits()
    ensures Digits(0) == [0, 0, 0, 0, 0, 0]
  {
    assert DigitsFrom(0, 6) == [];
    assert DigitsFrom(0, 5) == [0] && DigitsFrom(0, 4) == [0, 0] && DigitsFrom(0, 3) == [0, 0, 0];
    assert DigitsFrom(0, 2) == [0, 0, 0, 0] && DigitsFrom(0, 1) == [0, 0, 0, 0, 0];
  }

  /** At start-up no relay is closed, the output is off, and zero ohms are reported. */
  lemma StartsOpen()
    ensures Reported(Initial()) == (0, [0, 0, 0, 0, 0, 0], false)
    ensures forall d: nat, b: nat :: 1 <= d <= 6 && b < 8 ==> !Closed(Initial(), d, b)
  {
    hide Has;
    forall b: nat | b < 8 ensures !Has(0, b) {
      NothingSet(b);
    }
  }

  // ------------------------------------------------------------ when the resistance is unknown

  predicate MakesUnknown(c: Command) { c.State? && 1 <= c.relay <= 6 && c.bit <= 5 }

  predicate MakesKnown(c: Command) {
    (c.Value? && c.ohms <= 999999) || (c.Decade? && 1 <= c.decade <= 6 && c.digit <= 9) || c.Reset?
  }

  /** A single relay was set and no value, decade or reset came after it. */
  predicate LeftUnknown(cs: seq<Command>) {
    exists i :: 0 <= i < |cs| && MakesUnknown(cs[i]) && forall j :: i < j < |cs| ==> !MakesKnown(cs[j])
  }

  lemma KnownStep(s: Relays, c: Command)
    requires Shaped(s) && DigitsOk(s)
    ensures Known(Step(s, c)) <==> MakesKnown(c) || (!MakesUnknown(c) && Known(s))
  {
    hide DigitsOk, AfterResistance, AfterOutput, AfterDecade, AfterBit, AfterRaw;
    match c
    case Value(ohms) => ValueSets(s, ohms);
    case Decade(decade, digit) => DecadeSets(s, decade, digit);
    case State(decade, bit, on) => StateSets(s, decade, bit, on);
    case Output(connected) => OutputSets(s, connected);
    case RawRelays(vals) => RawSets(s, vals);
    case Reset => ResetSets(s);
  }

  /** Over every run from a known resistance it is unknown exactly then. */
  lemma {:induction false} UnknownExactly(s: Relays, cs: seq<Command>)
    requires Shaped(s) && DigitsOk(s) && Safe(s) && Known(s)
    ensures !Known(Run(s, cs)) <==> LeftUnknown(cs)
    decreases |cs|
  {
    hide DigitsOk, Safe, Known, Step, MakesKnown, MakesUnknown;
    if cs != [] {
      var before, c := cs[..|cs| - 1], cs[|cs| - 1];
      assert cs == before + [c];
      RunSnoc(s, before, c);
      RunSafe(s, before);
      KnownStep(Run(s, before), c);
      UnknownExactly(s, before);
      NotBoth(c);
      LastDecides(before, c);
    }
  }

  lemma NotBoth(c: Command)
    ensures !(MakesKnown(c) && MakesUnknown(c))
  {
  }

  lemma LastDecides(before: seq<Command>, c: Command)
    requires !(MakesKnown(c) && MakesUnknown(c))
    ensures LeftUnknown(before + [c]) <==> MakesUnknown(c) || (!MakesKnown(c) && LeftUnknown(before))
  {
    hide MakesKnown, MakesUnknown;
    var cs := before + [c];
    assert cs[|before|] == c;
    if i :| 0 <= i < |cs| && MakesUnknown(cs[i]) && forall j :: i < j < |cs| ==> !MakesKnown(cs[j]) {
      if i < |before| {
        assert before[i] == cs[i] && forall j :: i < j < |before| ==> before[j] == cs[j];
        assert !MakesKnown(cs[|before|]);
      }
    }
    if !MakesKnown(c) && LeftUnknown(before) {
      var i :| 0 <= i < |before| && MakesUnknown(before[i]) && forall j :: i < j < |before| ==> !MakesKnown(before[j]);
      assert cs[i] == before[i];
      forall j | i < j < |cs| ensures !MakesKnown(cs[j]) {
        if j < |before| { assert cs[j] == before[j]; }
      }
    }
    if MakesUnknown(c) {
      assert MakesUnknown(cs[|before|]);
    }
  }

  /** In particular from start-up. */
  lemma UnknownFromStart(cs: seq<Command>)
    ensures Run(Initial(), cs).resistance == UNKNOWN <==> LeftUnknown(cs)
  {
    hide DigitsOk, Safe, Run, LeftUnknown;
    InitialOk();
    UnknownExactly(Initial(), cs);
  }
}
