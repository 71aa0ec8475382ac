// Integers as text: UInt32ToStrBaseSign and UInt64ToStrBaseSign of utils.c, which
// are one algorithm at two widths, and what the scanner makes of their output.

module IntegerText {
  import opened Basics
  import opened Lexer
  import opened ProgramUnits

  const DIGITS := "0123456789ABCDEF"

  function DigitChar(d: nat): char
    requires d < 16
  {
    DIGITS[d]
  }

  function DigitOf(c: char): nat {
    if '0' <= c <= '9' then (c - '0') as nat
    else if 'A' <= c <= 'F' then (c - 'A') as nat + 10
    else 16
  }

  /** The characters are the digits below 16, in both directions. */
  lemma DigitChars(d: nat, c: char)
    ensures d < 16 ==> DigitOf(DigitChar(d)) == d && (DigitChar(d) == '0' <==> d == 0)
    ensures DigitOf(c) < 16 ==> DigitChar(DigitOf(c)) == c
    ensures DigitOf(c) == 0 <==> c == '0'
  {
  }

  function Pow(b: nat, k: nat): (r: nat)
    ensures b > 0 ==> r > 0
  {
    if k == 0 then 1 else b * Pow(b, k - 1)
  }

  /** Only upper-case digits of the base. */
  predicate Numeral(s: string, b: nat) {
    forall i :: 0 <= i < |s| ==> DigitOf(s[i]) < b
  }

  predicate NoLeadingZero(s: string) { |s| > 1 ==> s[0] != '0' }

  /** What digits denote, most significant first. */
  function Value(s: string, b: nat): nat {
    if s == "" then 0 else b * Value(s[..|s| - 1], b) + DigitOf(s[|s| - 1])
  }

  /** The numeral of v without leading zeros. */
  function Show(v: nat, b: nat): (s: string)
    requires 2 <= b <= 16
    ensures |s| > 0
    decreases v
  {
    if v < b then [DigitChar(v)] else Quotient(v, b); Show(v / b, b) + [DigitChar(v % b)]
  }

  // ------------------------------------------------------------ arithmetic

  lemma MulLe(a: nat, x: nat, y: nat)
    requires x <= y
    ensures a * x <= a * y
  {
  }

  lemma Quotient(v: nat, b: nat)
    requires 2 <= b <= v
    ensures 1 <= v / b < v && v == b * (v / b) + v % b && v % b < b
  {
    var q := v / b;
    MulLe(q, 2, b);
    assert v == b * q + v % b;
  }

  lemma DivMod(q: nat, r: nat, b: nat)
    requires r < b
    ensures (b * q + r) / b == q && (b * q + r) % b == r
  {
    var v := b * q + r;
    var q' := v / b;
    assert v == b * q' + v % b;
    if q' < q { MulLe(b, q' + 1, q); }
    if q < q' { MulLe(b, q + 1, q'); }
  }

  // ------------------------------------------------------------ numerals

  lemma ValueSnoc(s: string, c: char, b: nat)
    ensures Value(s + [c], b) == b * Value(s, b) + DigitOf(c)
  {
    assert (s + [c])[..|s|] == s;
  }

  /** Printing yields a numeral without leading zeros that denotes the number. */
  lemma {:induction false} ShowIsNumeral(v: nat, b: nat)
    requires 2 <= b <= 16
    ensures Numeral(Show(v, b), b) && NoLeadingZero(Show(v, b)) && Value(Show(v, b), b) == v
    ensures Show(v, b)[0] == '0' <==> v == 0
    decreases v
  {
    hide DigitOf, DigitChar, Value;
    if v < b {
      DigitChars(v, '0');
      ValueSnoc("", DigitChar(v), b);
      assert "" + [DigitChar(v)] == [DigitChar(v)];
      ValueOfNothing(b);
    } else {
      Quotient(v, b);
      ShowIsNumeral(v / b, b);
      DigitChars(v % b, '0');
      ValueSnoc(Show(v / b, b), DigitChar(v % b), b);
    }
  }

  lemma ValueOfNothing(b: nat)
    ensures b * Value("", b) == 0
  {
  }

  /** A numeral without leading zeros is the printed form of the number it denotes. */
  lemma {:induction false} NumeralIsShow(s: string, b: nat)
    requires 2 <= b <= 16 && s != "" && Numeral(s, b) && NoLeadingZero(s)
    ensures s == Show(Value(s, b), b)
    ensures s[0] != '0' ==> Value(s, b) > 0
    decreases |s|
  {
    hide DigitOf, DigitChar;
    var n := |s| - 1;
    var front, d := s[..n], DigitOf(s[n]);
    assert s == front + [s[n]];
    DigitChars(d, s[n]);
    if n == 0 {
      assert front == "";
      ValueOfNothing(b);
    } else {
      NumeralIsShow(front, b);
      DivMod(Value(front, b), d, b);
      MulLe(b, 1, Value(front, b));
    }
  }

  /** v without its last j digits. */
  function Leading(v: nat, b: nat, j: nat): nat
    requires b >= 2
  {
    if j == 0 then v else if v < b then 0 else Quotient(v, b); Leading(v / b, b, j - 1)
  }

  /** A non-empty numeral whose value is v without its last j digits is a prefix of the printed form of v. */
  lemma {:induction false} LeadingDigits(out: string, v: nat, b: nat, j: nat)
    requires 2 <= b <= 16 && out != "" && Numeral(out, b) && NoLeadingZero(out) && (j > 0 ==> out[0] != '0')
    requires Value(out, b) == Leading(v, b, j)
    ensures out <= Show(v, b)
    ensures j == 0 ==> out == Show(v, b)
    decreases j
  {
    hide Value, Numeral;
    NumeralIsShow(out, b);
    if j > 0 {
      ShowStep(v, b);
      LeadingDigits(out, v / b, b, j - 1);
    }
  }

  lemma {:induction false} LeadingIs(v: nat, a: nat, r: nat, b: nat, j: nat)
    requires b >= 2 && a > 0 && v == a * Pow(b, j) + r && r < Pow(b, j)
    ensures Leading(v, b, j) == a
    decreases j
  {
    hide Pow;
    if j > 0 {
      PowStep(b, j);
      DropDigit(v, a, b, Pow(b, j - 1), r);
      LeadingIs(v / b, a, r / b, b, j - 1);
    } else {
      PowZero(b);
    }
  }

  lemma PowStep(b: nat, j: nat)
    requires j > 0
    ensures Pow(b, j) == b * Pow(b, j - 1)
  {
  }

  lemma PowZero(b: nat)
    ensures Pow(b, 0) == 1
  {
  }

  lemma ShowStep(v: nat, b: nat)
    requires 2 <= b <= 16 && b <= v
    ensures v / b < v && Show(v, b) == Show(v / b, b) + [DigitChar(v % b)]
  {
    Quotient(v, b);
  }

  lemma DropDigit(v: nat, a: nat, b: nat, p: nat, r: nat)
    requires v == a * (b * p) + r && r < b * p && 1 <= a && 1 <= b && 1 <= p
    ensures v / b == a * p + r / b && r / b < p && b <= v
  {
    var q, d := r / b, r % b;
    assert r == b * q + d;
    if p <= q { MulLe(b, p, q); }
    Shuffle(a, b, p);
    Distribute(b, a * p, q);
    DivMod(a * p + q, d, b);
    MulLe(p, 1, a);
    MulLe(b, 1, p * a);
  }

  lemma Shuffle(a: nat, b: nat, c: nat)
    ensures a * (b * c) == b * (a * c)
  {
  }

  lemma Distribute(a: nat, b: nat, c: nat)
    ensures a * (b + c) == a * b + a * c
  {
  }

  // ------------------------------------------------------------ the printer

  /** Exclusive bound of an unsigned machine integer. */
  function Bound(wide: bool): nat { if wide then 0x1_0000_0000_0000_0000 else 0x1_0000_0000 }

  predicate Base(b: nat) { b == 2 || b == 8 || b == 10 || b == 16 }

  /** The bases other than 2, 8 and 16 all mean 10. */
  function Radix(base: int): (b: nat)
    ensures Base(b)
  {
    if base == 2 || base == 8 || base == 16 then base else 10
  }

  predicate Negative(wide: bool, val: nat, base: int, sign: bool) {
    sign && Radix(base) == 10 && val >= Bound(wide) / 2
  }

  /** The magnitude: two's complement negation for a negative number. */
  function Magnitude(wide: bool, val: nat, base: int, sign: bool): (r: nat)
    requires val < Bound(wide)
    ensures r < Bound(wide)
    ensures val > 0 ==> r > 0
  {
    if Negative(wide, val, base, sign) then Bound(wide) - val else val
  }

  /** The text of a whole integer. */
  function PrintedInteger(wide: bool, val: nat, base: int, sign: bool): string
    requires val < Bound(wide)
  {
    (if Negative(wide, val, base, sign) then "-" else "") + Show(Magnitude(wide, val, base, sign), Radix(base))
  }

  /** The exponent of the largest power the printer starts from. */
  function TopExponent(wide: bool, b: nat): nat
    requires Base(b)
  {
    if wide then (if b == 2 then 63 else if b == 8 then 21 else if b == 10 then 19 else 15)
    else (if b == 2 then 31 else if b == 8 then 10 else if b == 10 then 9 else 7)
  }

  /** The constants of the two C functions. */
  function TopPower(wide: bool, b: nat): nat
    requires Base(b)
  {
    if wide then
      (if b == 10 then 10000000000000000000 else if b == 16 then 0x1000000000000000 else 0x8000000000000000)
    else (if b == 2 then 0x80000000 else if b == 8 then 0x40000000 else if b == 10 then 1000000000 else 0x10000000)
  }

  /** Each starting constant is a power of its base, and one digit more covers every value. */
  lemma TopPowers(wide: bool, b: nat)
    requires Base(b)
    ensures TopPower(wide, b) == Pow(b, TopExponent(wide, b))
    ensures Bound(wide) <= Pow(b, TopExponent(wide, b) + 1)
  {
    if b == 2 {
      assert Pow(2, 15) == 0x8000;
      assert Pow(2, 23) == 0x800000;
      assert Pow(2, 31) == 0x80000000;
      assert Pow(2, 39) == 0x8000000000;
      assert Pow(2, 47) == 0x800000000000;
      assert Pow(2, 55) == 0x80000000000000;
      assert Pow(2, 63) == 0x8000000000000000;
    } else if b == 8 {
      assert Pow(8, 5) == 0x8000;
      assert Pow(8, 10) == 0x40000000;
      assert Pow(8, 15) == 0x200000000000;
      assert Pow(8, 21) == 0x8000000000000000;
    } else if b == 10 {
      assert Pow(10, 5) == 100000;
      assert Pow(10, 9) == 1000000000;
      assert Pow(10, 14) == 100000000000000;
      assert Pow(10, 19) == 10000000000000000000;
    } else {
      assert Pow(16, 7) == 0x10000000;
      assert Pow(16, 15) == 0x1000000000000000;
    }
  }

  lemma Lower(b: nat, j: nat)
    requires b >= 2 && j > 0
    ensures Div(Pow(b, j), b) == Pow(b, j - 1)
    ensures Div(Pow(b, 0), b) == 0
  {
    hide Pow;
    PowStep(b, j);
    PowZero(b);
    DivMod(Pow(b, j - 1), 0, b);
    DivMod(0, 1, b);
  }

  lemma EmitDigit(v: nat, a: nat, u: nat, b: nat, x: nat)
    requires x > 0 && v == a * (b * x) + u && u < b * x
    ensures Div(u, x) < b && Rest(u, x) < x
    ensures v == (b * a + Div(u, x)) * x + Rest(u, x)
  {
    var d := u / x;
    assert u == x * d + u % x;
    if b <= d { MulLe(x, b, d); }
    Shuffle(a, b, x);
    Distribute(x, b * a, d);
  }

  /** What str holds after text was written to it with a limit of len characters. */
  ghost predicate Holds(str: array<char>, before: seq<char>, len: nat, pos: nat, text: string)
    reads str
  {
    && |before| == str.Length && pos == Min(len, |text|) && len <= str.Length
    && str[..] == text[..pos] + before[pos..]
  }

  /** The macro ADD_CHAR. */
  method AddChar(str: array<char>, len: nat, pos: nat, c: char, ghost before: seq<char>, ghost text: string)
    returns (next: nat)
    requires Holds(str, before, len, pos, text)
    modifies str
    ensures Holds(str, before, len, next, text + [c])
  {
    next := pos;
    if pos < len {
      str[next] := c;
      next := next + 1;
    }
  }

  /** Division of machine integers, and what the C code keeps of u after subtracting the digit's share. */
  function Div(u: nat, x: nat): nat
    requires x > 0
  {
    u / x
  }

  function Rest(u: nat, x: nat): nat
    requires x > 0
  {
    assert u == x * (u / x) + u % x;
    u - u / x * x
  }

  /** The loop that removes leading zeros: x is the largest power of the base not above uval. */
  method SkipZeros(uval: nat, top: nat, base: nat, ghost k0: nat) returns (x: nat, ghost k: nat)
    requires 2 <= base && uval > 0 && top == Pow(base, k0) && uval < Pow(base, k0 + 1)
    ensures x == Pow(base, k) && x <= uval < Pow(base, k + 1)
    ensures 0 < x <= uval < base * x
  {
    hide Pow, Div;
    x, k := top, k0;
    while Div(uval, x) == 0
      invariant x > 0 && x == Pow(base, k) && uval < Pow(base, k + 1)
      decreases k
    {
      Below(uval, x);
      if k == 0 { PowZero(base); }
      Lower(base, k);
      x := Div(x, base);
      k := k - 1;
    }
    Below(uval, x);
    PowStep(base, k + 1);
  }

  lemma Below(u: nat, x: nat)
    requires x > 0
    ensures Div(u, x) == 0 <==> u < x
  {
    if u < x { DivMod(0, u, x); }
  }

  /** The digit loop, for a value whose leading digit has the weight top. */
  method WriteDigits(str: array<char>, len: nat, pos0: nat, value: nat, top: nat, base: nat,
                     ghost k0: nat, ghost before: seq<char>, ghost sign: string)
    returns (pos: nat)
    requires Base(base) && top == Pow(base, k0) && top <= value < Pow(base, k0 + 1)
    requires Holds(str, before, len, pos0, sign)
    modifies str
    ensures Holds(str, before, len, pos, sign + Show(value, base))
  {
    hide Pow, Show, Numeral, Value, DigitChar, Holds, Div, Rest;
    pos := pos0;
    var x: nat, uval: nat := top, value;
    ghost var digits: string, j: nat := "", k0 + 1;
    var more := true;
    Start(value, base);
    PowStep(base, j);
    assert sign + digits == sign;
    while more
      invariant more ==> j > 0 && x == Pow(base, j - 1) && (digits == "" ==> x <= uval)
      invariant !more ==> digits != "" && (j == 0 || pos >= len)
      invariant uval < Pow(base, j) && value == Value(digits, base) * Pow(base, j) + uval
      invariant Numeral(digits, base) && (digits != "" ==> digits[0] != '0')
      invariant Holds(str, before, len, pos, sign + digits)
      decreases j, more
    {
      NextDigit(value, digits, uval, base, x, j);
      var digit := Div(uval, x);
      assert (sign + digits) + [DigitChar(digit)] == sign + (digits + [DigitChar(digit)]);
      pos := AddChar(str, len, pos, DigitChar(digit), before, sign + digits);
      digits := digits + [DigitChar(digit)];
      uval := Rest(uval, x);
      x := Div(x, base);
      j := j - 1;
      more := x != 0 && pos < len;
    }
    NumeralIsShow(digits, base);
    LeadingIs(value, Value(digits, base), uval, base, j);
    LeadingDigits(digits, value, base, j);
    Truncated(str, before, len, pos, sign, digits, Show(value, base), j == 0);
  }

  /** What printing one more digit does to the digits so far and the rest of the value. */
  lemma NextDigit(v: nat, digits: string, u: nat, b: nat, x: nat, j: nat)
    requires 2 <= b <= 16 && j > 0 && x == Pow(b, j - 1) && u < Pow(b, j)
    requires v == Value(digits, b) * Pow(b, j) + u && Numeral(digits, b) && (digits != "" ==> digits[0] != '0')
    requires digits == "" ==> x <= u
    ensures Div(u, x) < 16 && Rest(u, x) < Pow(b, j - 1)
    ensures Div(x, b) == if j == 1 then 0 else Pow(b, j - 2)
    ensures var next := digits + [DigitChar(Div(u, x))];
            && Numeral(next, b) && next[0] != '0'
            && v == Value(next, b) * Pow(b, j - 1) + Rest(u, x)
  {
    hide Pow, Numeral, Value, DigitChar;
    PowStep(b, j);
    EmitDigit(v, Value(digits, b), u, b, x);
    DigitAdded(digits, u / x, b);
    Below(u, x);
    LowerTo(b, j - 1);
  }

  lemma Start(v: nat, b: nat)
    ensures Numeral("", b) && Value("", b) == 0
  {
  }

  lemma DigitAdded(s: string, d: nat, b: nat)
    requires d < b <= 16 && Numeral(s, b)
    ensures Numeral(s + [DigitChar(d)], b) && Value(s + [DigitChar(d)], b) == b * Value(s, b) + d
    ensures d > 0 ==> DigitChar(d) != '0'
  {
    hide Value, DigitChar, DigitOf;
    DigitChars(d, '0');
    ValueSnoc(s, DigitChar(d), b);
  }

  lemma LowerTo(b: nat, j: nat)
    requires b >= 2
    ensures Div(Pow(b, j), b) == if j == 0 then 0 else Pow(b, j - 1)
  {
    hide Pow;
    if j > 0 { Lower(b, j); } else { Lower(b, 1); }
  }

  /** A text cut short by the limit is indistinguishable from the whole text cut by it. */
  lemma Truncated(str: array<char>, before: seq<char>, len: nat, pos: nat, sign: string, part: string, whole: string, all: bool)
    requires Holds(str, before, len, pos, sign + part) && part <= whole
    requires if all then part == whole else pos >= len
    ensures Holds(str, before, len, pos, sign + whole)
  {
    assert (sign + part)[..pos] == (sign + whole)[..pos];
  }

  /** UInt32ToStrBaseSign and UInt64ToStrBaseSign: the text cut to len characters, and a terminator if it fits. */
  method ToStrBaseSign(wide: bool, val: nat, str: array<char>, len: nat, base0: int, sign: bool) returns (pos: nat)
    requires val < Bound(wide) && len <= str.Length
    modifies str
    ensures var text := PrintedInteger(wide, val, base0, sign);
            && pos == Min(len, |text|)
            && str[..pos] == text[..pos]
            && (pos < len ==> str[pos] == '\0')
            && forall i :: (if pos < len then pos + 1 else pos) <= i < str.Length ==> str[i] == old(str[i])
  {
    hide Show, Pow, TopPower, TopExponent, Magnitude, Radix;
    ghost var before := str[..];
    pos := WriteInteger(wide, val, str, len, base0, sign);
    if pos < len {
      str[pos] := '\0';
    }
  }

  /** The two functions up to the terminator. */
  method WriteInteger(wide: bool, val: nat, str: array<char>, len: nat, base0: int, sign: bool) returns (pos: nat)
    requires val < Bound(wide) && len <= str.Length
    modifies str
    ensures Holds(str, old(str[..]), len, pos, PrintedInteger(wide, val, base0, sign))
  {
    hide Show, Pow, TopPower, TopExponent, Holds;
    ghost var before := str[..];
    pos := 0;
    NothingWritten(str, len);
    var base := base0;
    var uval := val;
    if uval == 0 {
      ShowZero(Radix(base));
      pos := AddChar(str, len, pos, '0', before, "");
      assert "" + ['0'] == "0" == "" + "0";
    } else {
      if base != 2 && base != 8 && base != 16 {
        base := 10;
      }
      ghost var prefix := "";
      if sign && val >= Bound(wide) / 2 && base == 10 {
        uval := Bound(wide) - val;
        pos := AddChar(str, len, pos, '-', before, "");
        prefix := "" + ['-'];
      }
      TopPowers(wide, base);
      var x, k := SkipZeros(uval, TopPower(wide, base), base, TopExponent(wide, base));
      pos := WriteDigits(str, len, pos, uval, x, base, k, before, prefix);
      assert PrintedInteger(wide, val, base0, sign) == prefix + Show(uval, base);
    }
  }

  lemma NothingWritten(str: array<char>, len: nat)
    requires len <= str.Length
    ensures Holds(str, str[..], len, 0, "")
  {
  }

  lemma ShowZero(b: nat)
    requires 2 <= b <= 16
    ensures Show(0, b) == "0"
  {
  }

  // ------------------------------------------------------------ what the printer promises

  lemma {:induction false} ShowLength(v: nat, b: nat, k: nat)
    requires 2 <= b <= 16 && k > 0 && v < Pow(b, k)
    ensures |Show(v, b)| <= k
    decreases k
  {
    hide Pow;
    PowStep(b, k);
    if b <= v {
      ShowStep(v, b);
      if k == 1 { PowZero(b); }
      var p, q := Pow(b, k - 1), v / b;
      Quotient(v, b);
      if p <= q { MulLe(b, p, q); }
      ShowLength(q, b, k - 1);
    }
  }

  /** The local buffers of 33 and 65 characters always hold the text and its terminator. */
  lemma TextFits(wide: bool, val: nat, base: int, sign: bool)
    requires val < Bound(wide)
    ensures |PrintedInteger(wide, val, base, sign)| < if wide then 65 else 33
  {
    hide Pow, Show, TopPower;
    var b := Radix(base);
    TopPowers(wide, b);
    ShowLength(Magnitude(wide, val, base, sign), b, TopExponent(wide, b) + 1);
  }

  /** The number a text of the printer denotes: its digits, negated after a minus sign. */
  function Denotes(s: string, b: nat): int {
    if |s| > 0 && s[0] == '-' then -(Value(s[1..], b) as int) else Value(s, b)
  }

  /** Two's complement reading of a machine integer. */
  function Signed(wide: bool, val: nat): int
    requires val < Bound(wide)
  {
    if val >= Bound(wide) / 2 then val - Bound(wide) else val
  }

  /** The digits evaluate back to the value, the most negative one included, and have no leading zero. */
  lemma ReadsBack(wide: bool, val: nat, base: int, sign: bool)
    requires val < Bound(wide)
    ensures var s := PrintedInteger(wide, val, base, sign);
            var n := if Negative(wide, val, base, sign) then 1 else 0;
            && Denotes(s, Radix(base)) == (if sign && Radix(base) == 10 then Signed(wide, val) else val)
            && |s| > n && Numeral(s[n..], Radix(base)) && NoLeadingZero(s[n..])
  {
    hide Show, Value;
    var m := Magnitude(wide, val, base, sign);
    var s := PrintedInteger(wide, val, base, sign);
    ShowIsNumeral(m, Radix(base));
    if Negative(wide, val, base, sign) {
      assert s[1..] == Show(m, Radix(base));
    } else {
      assert s[0..] == Show(m, Radix(base)) == s;
    }
  }

  // ------------------------------------------------------------ the scanner undoes the printer

  /** What may follow a parameter: the next parameter, the next unit, a line end or nothing. */
  predicate EndsData(s: string, e: nat) {
    e <= |s| && (e < |s| ==> s[e] == ',' || s[e] == ';' || s[e] == '\r' || s[e] == '\n')
  }

  /** What may follow a number: that, or the rest of a list entry. */
  predicate EndsNumber(s: string, e: nat) {
    e <= |s| && (EndsData(s, e) || s[e] == ':' || s[e] == '!')
  }

  function BasePrefix(base: int): string {
    if base == 2 then "#B" else if base == 8 then "#Q" else if base == 16 then "#H" else ""
  }

  /** What resultUInt32BaseSign and resultUInt64BaseSign write after the delimiter. */
  function IntegerResult(wide: bool, val: nat, base: int, sign: bool): string
    requires val < Bound(wide)
  {
    BasePrefix(base) + PrintedInteger(wide, val, base, sign)
  }

  function DigitClass(b: nat): CharClass { if b == 2 then Bin else if b == 8 then Oct else if b == 10 then Digit else Hex }

  function DigitKind(b: nat): TokenType {
    if b == 2 then BinNum else if b == 8 then OctNum else if b == 16 then HexNum else DecimalNumeric
  }

  /** Digits of a base that end the parameter are a maximal run of its digit class. */
  lemma NumeralSpan(s: string, p: nat, digits: string, b: nat)
    requires Base(b) && Stands(s, p, digits) && Numeral(digits, b) && EndsNumber(s, p + |digits|)
    ensures Span(s, p, DigitClass(b)) == p + |digits|
  {
    hide Span, DigitOf;
    var e := p + |digits|;
    forall i | p <= i < e ensures Is(DigitClass(b), s[i]) {
      assert s[i] == digits[i - p];
      DigitIs(s[i], b);
    }
    SpanStops(s, p, e, DigitClass(b));
    SpanAtEnd(s, e, DigitClass(b));
  }

  lemma DigitIs(c: char, b: nat)
    requires Base(b)
    ensures DigitOf(c) < b ==> Is(DigitClass(b), c)
  {
  }

  lemma SpanAtEnd(s: string, e: nat, k: CharClass)
    requires EndsNumber(s, e) && k != ExpressionChar
    ensures Span(s, e, k) == e
  {
  }

  /** The scanner's reading of decimal digits is the same. */
  lemma {:induction false} DigitsValueIs(s: string)
    requires forall i :: 0 <= i < |s| ==> IsDigit(s[i])
    ensures DigitsValue(s) == Value(s, 10)
    decreases |s|
  {
    if s != "" {
      DigitsValueIs(s[..|s| - 1]);
    }
  }

  lemma NumeralIsDigits(s: string)
    requires Numeral(s, 10)
    ensures forall i :: 0 <= i < |s| ==> IsDigit(s[i])
  {
    forall i | 0 <= i < |s| ensures IsDigit(s[i]) {
      assert DigitOf(s[i]) < 10;
    }
  }

  /** A base letter and digits that end the parameter scan as one number of that base. */
  lemma PrefixedLexed(s: string, p: nat, digits: string, base: nat)
    requires base == 2 || base == 8 || base == 16
    requires digits != "" && Numeral(digits, base)
    requires Stands(s, p, BasePrefix(base) + digits) && EndsData(s, p + 2 + |digits|)
    ensures var n := |digits|;
            DataItem(s, p) == Lexed(Token(DigitKind(base), p + 2, n), p + 2 + n, 2 + n)
  {
    hide Span, Numeral, DigitOf, Number, DelimitedItem, CharacterData, Stands, BasePrefix;
    PrefixLength(base);
    StandsApart(s, p, BasePrefix(base), digits);
    assert s[p + 0] == '#' && s[p + 1] == BasePrefix(base)[1];
    NumeralSpan(s, p + 2, digits, base);
  }

  lemma PrefixLength(base: nat)
    requires base == 2 || base == 8 || base == 16
    ensures |BasePrefix(base)| == 2 && BasePrefix(base)[0] == '#'
    ensures BasePrefix(base)[1] == if base == 2 then 'B' else if base == 8 then 'Q' else 'H'
  {
  }

  /** A printed number in base 2, 8 or 16 scans as one token of its type whose text is exactly the digits. */
  lemma NondecimalLexed(s: string, p: nat, wide: bool, val: nat, base: int, sign: bool)
    requires val < Bound(wide) && (base == 2 || base == 8 || base == 16)
    requires Stands(s, p, IntegerResult(wide, val, base, sign)) && EndsData(s, p + |IntegerResult(wide, val, base, sign)|)
    ensures var n := |Show(val, base)|;
            && DataItem(s, p) == Lexed(Token(DigitKind(base), p + 2, n), p + 2 + n, 2 + n)
            && s[p + 2..p + 2 + n] == Show(val, base) && Value(s[p + 2..p + 2 + n], base) == val
  {
    hide Show, DataItem, Value, Numeral, BasePrefix, Stands, EndsData;
    var digits := Show(val, base);
    assert "" + digits == digits;
    PrefixLength(base);
    assert IntegerResult(wide, val, base, sign) == BasePrefix(base) + digits;
    StandsApart(s, p, BasePrefix(base), digits);
    ShowIsNumeral(val, base);
    PrefixedLexed(s, p, digits, base);
    assert s[p + 2..p + 2 + |digits|] == digits;
  }

  /** Decimal digits and an optional minus sign are one decimal number. */
  lemma DecimalRead(s: string, p: nat, digits: string, minus: bool)
    requires var text := (if minus then "-" else "") + digits;
             digits != "" && Numeral(digits, 10) && Stands(s, p, text) && EndsNumber(s, p + |text|)
    ensures var n := (if minus then 1 else 0) + |digits|;
            Decimal(s, p) == Lexed(Token(DecimalNumeric, p, n), p + n, n)
    ensures p < |s| && (s[p] == '-' || '0' <= s[p] <= '9')
  {
    hide Span, Numeral, DigitOf, Stands;
    var sign := if minus then "-" else "";
    var e, d := p + |sign + digits|, p + |sign|;
    StandsApart(s, p, sign, digits);
    StandsStart(s, p, sign);
    StandsStart(s, d, digits);
    FirstDigit(digits);
    assert Opt(s, p, Sign) == d;
    NumeralSpan(s, d, digits, 10);
    assert Mantissa(s, p) == (|digits|, e);
    SpanAtEnd(s, e, Blank);
    assert Exponent(s, e) == e;
  }

  /** If it also ends the parameter, it is the whole parameter, without suffix. */
  lemma DecimalLexed(s: string, p: nat, digits: string, minus: bool)
    requires var text := (if minus then "-" else "") + digits;
             digits != "" && Numeral(digits, 10) && Stands(s, p, text) && EndsData(s, p + |text|)
    ensures var n := (if minus then 1 else 0) + |digits|;
            DataItem(s, p) == Lexed(Token(DecimalNumeric, p, n), p + n, n)
  {
    hide Span, Numeral, DigitOf, DelimitedItem, Decimal;
    var e := p + (if minus then 1 else 0) + |digits|;
    DecimalRead(s, p, digits, minus);
    SpanAtEnd(s, e, Blank);
    SpanAtEnd(s, e, Letter);
    assert SuffixEnd(s, e) == e;
    assert Nondecimal(s, p).ret == 0 && CharacterData(s, p).ret == 0;
  }

  lemma FirstDigit(digits: string)
    requires digits != "" && Numeral(digits, 10)
    ensures '0' <= digits[0] <= '9'
  {
    assert DigitOf(digits[0]) < 10;
  }

  /** A printed integer in base 10 scans as one decimal number that is exactly its text. */
  lemma IntegerLexed(s: string, p: nat, wide: bool, val: nat, base: int, sign: bool)
    requires val < Bound(wide) && base != 2 && base != 8 && base != 16
    requires Stands(s, p, IntegerResult(wide, val, base, sign)) && EndsData(s, p + |IntegerResult(wide, val, base, sign)|)
    ensures var n := |IntegerResult(wide, val, base, sign)|;
            && DataItem(s, p) == Lexed(Token(DecimalNumeric, p, n), p + n, n)
            && Denotes(s[p..p + n], 10) == if sign then Signed(wide, val) else val
  {
    hide Show, DataItem, Denotes;
    var text := IntegerResult(wide, val, base, sign);
    assert text == PrintedInteger(wide, val, base, sign);
    ShowIsNumeral(Magnitude(wide, val, base, sign), 10);
    DecimalLexed(s, p, Show(Magnitude(wide, val, base, sign), 10), Negative(wide, val, base, sign));
    ReadsBack(wide, val, base, sign);
  }

  /** A decimal integer as a person would write it. */
  function Printed(v: int): string {
    if v < 0 then "-" + Show(-v, 10) else "" + Show(v, 10)
  }

  /** What strtol in base 10 makes of the text at p: an optional sign and digits. */
  function LeadingInteger(s: string, p: nat): int
    requires p <= |s|
  {
    var d := Opt(s, p, Sign);
    SpanRun(s, d, Digit);
    var v: int := DigitsValue(s[d..Span(s, d, Digit)]);
    if At(s, p, '-') then -v else v
  }

  /** A written integer is read as one decimal number, and as its value. */
  lemma PrintedRead(s: string, p: nat, v: int)
    requires Stands(s, p, Printed(v)) && EndsNumber(s, p + |Printed(v)|)
    ensures var n := |Printed(v)|;
            && Decimal(s, p) == Lexed(Token(DecimalNumeric, p, n), p + n, n)
            && n > 0 && LeadingInteger(s, p) == v
    ensures s[p] == '-' || '0' <= s[p] <= '9'
  {
    hide Show, Span, Numeral, Decimal, DigitsValue, Value, Stands;
    var m: nat := if v < 0 then -v else v;
    var digits := Show(m, 10);
    var sign := if v < 0 then "-" else "";
    ShowIsNumeral(m, 10);
    DecimalRead(s, p, digits, v < 0);
    StandsApart(s, p, sign, digits);
    var d := p + |sign|;
    StandsStart(s, p, sign);
    StandsStart(s, d, digits);
    FirstDigit(digits);
    assert Opt(s, p, Sign) == d;
    NumeralSpan(s, d, digits, 10);
    NumeralIsDigits(digits);
    DigitsValueIs(digits);
    assert s[d..Span(s, d, Digit)] == digits;
  }
}
