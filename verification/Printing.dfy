/**
  The integer printers: `alt_log_private_printf` divides by falling place values, `alt_printf` masks and shifts
  out hexadecimal digits.
 */
module Printing {
  import opened Arithmetic
  import opened Hal

  type Base = b: nat | b == 8 || b == 10 || b == 16 witness 10

  // ---------- Numerals ----------

  function DigitChar(d: nat, upper: bool): char
    requires d < 16
  {
    if d <= 9 then ('0' as int + d) as char
    else ((if upper then 'A' else 'a') as int + d - 10) as char
  }

  function DigitValue(c: char): nat {
    if '0' <= c <= '9' then c as int - '0' as int
    else if 'a' <= c <= 'f' then c as int - 'a' as int + 10
    else if 'A' <= c <= 'F' then c as int - 'A' as int + 10
    else 0
  }

  lemma DigitRoundTrip(d: nat, upper: bool)
    requires d < 16
    ensures DigitValue(DigitChar(d, upper)) == d
    ensures DigitChar(d, upper) == '0' <==> d == 0
    ensures DigitChar(d, upper) != '-' && DigitChar(d, upper) != ' '
  {
  }

  const LOWER := "0123456789abcdef"
  const UPPER := "0123456789ABCDEF"

  /** The digits by name, in lower and in upper case. */
  lemma DigitsByName(d: nat, upper: bool)
    requires d < 16
    ensures DigitChar(d, upper) == if upper then UPPER[d] else LOWER[d]
  {
  }

  /** The last `k` digits of `v`, most significant first. */
  function Digits(v: nat, base: Base, k: nat, upper: bool): (s: string)
    ensures |s| == k
  {
    if k == 0 then [] else Digits(v / base, base, k - 1, upper) + [DigitChar(v % base, upper)]
  }

  /** How many digits `v` has. */
  function NumDigits(v: nat, base: Base): (k: nat)
    ensures k >= 1
  {
    if v < base then 1 else 1 + NumDigits(v / base, base)
  }

  function Numeral(v: nat, base: Base, upper: bool): string {
    Digits(v, base, NumDigits(v, base), upper)
  }

  /** What a numeral means. */
  function Value(s: string, base: nat): nat {
    if s == [] then 0 else Value(s[..|s| - 1], base) * base + DigitValue(s[|s| - 1])
  }

  lemma {:induction false} ValueOfDigits(v: nat, base: Base, k: nat, upper: bool)
    requires v < Pow(base, k)
    ensures Value(Digits(v, base, k, upper), base) == v
  {
    if k == 0 {
    } else {
      DivBelow(v, base, Pow(base, k - 1));
      ValueOfDigits(v / base, base, k - 1, upper);
      DigitRoundTrip(v % base, upper);
      var s := Digits(v, base, k, upper);
      assert s[..k - 1] == Digits(v / base, base, k - 1, upper);
    }
  }

  lemma DivBelow(v: nat, b: nat, p: nat)
    requires b > 0 && v < b * p
    ensures v / b < p
  {
    var q := v / b;
    assert q >= p ==> q * b >= p * b;
  }

  lemma {:induction false} NumDigitsBounds(v: nat, base: Base)
    ensures v < Pow(base, NumDigits(v, base))
    ensures v > 0 ==> v >= Pow(base, NumDigits(v, base) - 1)
  {
    var k := NumDigits(v, base);
    if v < base {
      assert Pow(base, 1) == base * Pow(base, 0);
    } else {
      NumDigitsBounds(v / base, base);
      var p := Pow(base, k - 1);
      assert v == v / base * base + v % base;
      assert v / base + 1 <= p;
      assert (v / base + 1) * base <= p * base;
      var p' := Pow(base, k - 2);
      assert p' * base <= v / base * base;
    }
  }

  /** Reading a numeral back gives the number. */
  lemma NumeralRoundTrip(v: nat, base: Base, upper: bool)
    ensures Value(Numeral(v, base, upper), base) == v
  {
    NumDigitsBounds(v, base);
    ValueOfDigits(v, base, NumDigits(v, base), upper);
  }

  /** A numeral has no leading zero, except that zero is "0". */
  lemma {:induction false} NoLeadingZero(v: nat, base: Base, upper: bool)
    ensures Numeral(v, base, upper)[0] == '0' <==> v == 0
  {
    if v < base {
      DigitRoundTrip(v, upper);
      assert Digits(v, base, 1, upper) == Digits(v / base, base, 0, upper) + [DigitChar(v % base, upper)];
    } else {
      hide *;
      NumeralStep(v, base, upper);
      NoLeadingZero(v / base, base, upper);
    }
  }

  /** A longer numeral has one more digit at its end. */
  lemma NumeralStep(v: nat, base: Base, upper: bool)
    requires v >= base
    ensures v / base > 0 && Numeral(v / base, base, upper) != []
    ensures Numeral(v, base, upper) == Numeral(v / base, base, upper) + [DigitChar(v % base, upper)]
  {
    hide DigitChar;
  }

  lemma Reassociate(s: string, t: string, u: string)
    ensures s + t + u == s + (t + u)
  {
  }

  /** The digits from the front. */
  lemma {:induction false} FirstDigit(v: nat, base: Base, k: nat, upper: bool)
    requires k > 0
    ensures Pow(base, k - 1) > 0
    ensures Digits(v, base, k, upper)
         == [DigitChar(v / Pow(base, k - 1) % base, upper)] + Digits(v, base, k - 1, upper)
  {
    PowPositive(base, k - 1);
    if k > 1 {
      hide DigitChar;
      PlaceSplit(v, base, k);
      FirstDigit(v / base, base, k - 1, upper);
      var c := [DigitChar(v / Pow(base, k - 1) % base, upper)];
      Reassociate(c, Digits(v / base, base, k - 2, upper), [DigitChar(v % base, upper)]);
    }
  }

  lemma PlaceSplit(v: nat, base: Base, k: nat)
    requires k > 1
    ensures Pow(base, k - 2) > 0 && Pow(base, k - 1) > 0
    ensures v / Pow(base, k - 1) == v / base / Pow(base, k - 2)
  {
    PowPositive(base, k - 2);
    MixedRadix(v, base, Pow(base, k - 2));
  }

  lemma {:induction false} DigitsOfRemainder(v: nat, base: Base, k: nat, upper: bool)
    ensures Pow(base, k) > 0 && Digits(v % Pow(base, k), base, k, upper) == Digits(v, base, k, upper)
  {
    PowPositive(base, k);
    if k > 0 {
      PowPositive(base, k - 1);
      ModOfProduct(v, base, Pow(base, k - 1));
      DigitsOfRemainder(v / base, base, k - 1, upper);
    }
  }

  // ---------- `alt_log_private_printf` ----------

  /** What a conversion specification sets: zero padding, minimal width (-1 if none is given), base, sign, case. */
  datatype Format = Format(leadingZero: bool, width: int, base: Base, signed: bool, upper: bool)

  function Repeat(c: char, n: int): string {
    seq(if n > 0 then n else 0, _ => c)
  }

  /** `alt_log_repchar` */
  method RepChar(c: char, count: int) returns (out: string)
    ensures out == Repeat(c, count)
  {
    out := "";
    var r := count;
    while r > 0
      invariant r == count || 0 <= r < count
      invariant out == Repeat(c, count - r)
    {
      out := out + [c];
      r := r - 1;
    }
  }

  predicate Negative(arg: U32, f: Format) {
    f.signed && arg >= 0x8000_0000
  }

  /** The magnitude that is printed: two's complement is undone for negative numbers. */
  function Magnitude(arg: U32, f: Format): U32 {
    if Negative(arg, f) then WORD - arg else arg
  }

  function Sign(negative: bool): string {
    if negative then "-" else ""
  }

  /** The sign and the padding in front of the digits: zeros go after the sign, blanks before it. */
  function Prefix(negative: bool, leadingZero: bool, room: int): string {
    var sign := Sign(negative);
    if leadingZero then sign + Repeat('0', room - |sign|) else Repeat(' ', room - |sign|) + sign
  }

  /** What is printed for an argument. */
  function Formatted(arg: U32, f: Format): string {
    var digits := Numeral(Magnitude(arg, f), f.base, f.upper);
    Prefix(Negative(arg, f), f.leadingZero, f.width - |digits|) + digits
  }

  lemma CountStep(v: nat, base: nat, p: nat, vShrink: nat)
    requires base > 0 && p > 0 && vShrink > 0 && vShrink * (p * base) <= v
    ensures p * base <= v
    ensures vShrink / base * (p * base * base) <= v
  {
    var q, s := p * base, vShrink / base;
    MulMonotone(1, vShrink, q);
    MulMonotone(s * base, vShrink, q);
    MulAssociative(s, base, q);
    MulAssociative(s, q, base);
  }

  /** What the digit-counting loop keeps: `p * base` is still a place value of `v`, so it fits 32 bits. */
  ghost predicate Counting(v: nat, base: Base, p: nat, count: nat, vShrink: nat) {
    && count >= 1 && p == Pow(base, count - 1) && p > 0
    && vShrink * (p * base) <= v
    && NumDigits(v, base) == count + if vShrink > 0 then NumDigits(vShrink, base) else 0
  }

  lemma CountingStep(v: nat, base: Base, p: nat, count: nat, vShrink: nat)
    requires Counting(v, base, p, count, vShrink) && vShrink > 0
    ensures p * base <= v && Counting(v, base, p * base, count + 1, vShrink / base)
  {
    CountStep(v, base, p, vShrink);
    assert Pow(base, count) == base * Pow(base, count - 1);
  }

  /** Counts the digits and finds the largest place value; the product never leaves 32 bits. */
  method CountDigits(v: U32, base: Base) returns (p: U32, digitCount: nat)
    ensures digitCount == NumDigits(v, base) && p == Pow(base, digitCount - 1)
  {
    p, digitCount := 1, 1;
    var vShrink := v / base;
    while vShrink > 0
      invariant vShrink >= 0 && Counting(v, base, p, digitCount, vShrink)
    {
      CountingStep(v, base, p, digitCount, vShrink);
      digitCount := digitCount + 1;
      p := p * base;
      vShrink := vShrink / base;
    }
  }

  lemma QuotientBelow(v: nat, base: nat, p: nat)
    requires p > 0 && v < base * p
    ensures v / p < base
  {
    var q := v / p;
    assert q >= base ==> q * p >= base * p;
  }

  lemma SmallRemainder(q: nat, b: nat)
    requires q < b
    ensures q % b == q
  {
  }

  lemma LeadingDigit(v: nat, base: Base, p: nat)
    requires p > 0 && v < base * p
    ensures v / p < base && v / p % base == v / p && v % p < p
  {
    QuotientBelow(v, base, p);
    SmallRemainder(v / p, base);
  }

  /** Dividing by the place value splits the first digit off. */
  lemma EmitStep(v: nat, base: Base, rest: nat, p: nat, d: nat, r: nat, upper: bool)
    requires p == Pow(base, rest) > 0 && d == v / p && d == d % base && r == v % p
    ensures d < base && Digits(v, base, rest + 1, upper) == [DigitChar(d, upper)] + Digits(r, base, rest, upper)
  {
    FirstDigit(v, base, rest + 1, upper);
    DigitsOfRemainder(v, base, rest, upper);
  }

  lemma NextPlace(base: Base, k: nat)
    requires k > 0
    ensures Pow(base, k - 1) / base == if k == 1 then 0 else Pow(base, k - 2)
  {
    if k > 1 {
      DivModUnique(Pow(base, k - 1), base, Pow(base, k - 2), 0);
    }
  }

  /** The place value of the next digit out of `left`, 0 once they are all printed. */
  ghost function Place(base: Base, left: nat): nat {
    if left == 0 then 0 else Pow(base, left - 1)
  }

  /** What the place-value loop keeps: `out` followed by the last `left` digits of `v` is the whole numeral. */
  ghost predicate Emitting(out: string, v: nat, base: Base, left: nat, p: nat, upper: bool, whole: string) {
    p == Place(base, left) && v < Pow(base, left) && out + Digits(v, base, left, upper) == whole
  }

  lemma DivisionShrinks(n: nat, d: nat)
    requires d > 0
    ensures 0 <= n / d <= n
  {
    var q := n / d;
    assert n == q * d + n % d;
    MulMonotone(1, d, q);
  }

  lemma EmittingBounds(out: string, v: nat, base: Base, left: nat, p: nat, upper: bool, whole: string)
    requires p > 0 && Emitting(out, v, base, left, p, upper, whole)
    ensures left > 0 && 0 <= v / p < base && 0 <= v % p < p && 0 <= p / base <= p && v / p == v / p % base
  {
    LeadingDigit(v, base, p);
    DivisionShrinks(p, base);
  }

  lemma EmittingStep(out: string, v: nat, base: Base, left: nat, p: nat, d: nat, r: nat, upper: bool, whole: string)
    requires p > 0 && left > 0 && Emitting(out, v, base, left, p, upper, whole)
    requires d == v / p && d == d % base && d < base && r == v % p && r < p
    ensures Emitting(out + [DigitChar(d, upper)], r, base, left - 1, p / base, upper, whole)
  {
    NextPlace(base, left);
    EmitStep(v, base, left - 1, p, d, r, upper);
    var rest := Digits(r, base, left - 1, upper);
    assert out + ([DigitChar(d, upper)] + rest) == (out + [DigitChar(d, upper)]) + rest;
  }

  /** The place-value loop. */
  method EmitDigits(number: U32, place: U32, base: Base, upper: bool, ghost k: nat) returns (out: string)
    requires k > 0 && place == Pow(base, k - 1) && number < Pow(base, k)
    ensures out == Digits(number, base, k, upper)
  {
    out := "";
    var v: U32, p: U32 := number, place;
    ghost var left: nat := k;
    ghost var whole := Digits(number, base, k, upper);
    while p != 0
      invariant Emitting(out, v, base, left, p, upper, whole)
      decreases left
    {
      EmittingBounds(out, v, base, left, p, upper, whole);
      var d := v / p;
      EmittingStep(out, v, base, left, p, d, v % p, upper, whole);
      out := out + [DigitChar(d, upper)];
      v := v % p;
      p := p / base;
      left := left - 1;
    }
    PlaceIsPositive(base, left);
  }

  lemma PlaceIsPositive(base: Base, left: nat)
    ensures Place(base, left) == 0 <==> left == 0
  {
    if left > 0 {
      PowPositive(base, left - 1);
    }
  }

  /** The leading characters and the sign. */
  method PrintPrefix(sign: bool, leadingZero: bool, room: int) returns (out: string)
    ensures out == Prefix(sign, leadingZero, room)
  {
    var beforeDecimal := room;
    if leadingZero {
      out := "";
      if sign {
        out := "-";
        beforeDecimal := beforeDecimal - 1;
      }
      var padding := RepChar('0', beforeDecimal);
      out := out + padding;
    } else {
      if sign {
        beforeDecimal := beforeDecimal - 1;
      }
      out := RepChar(' ', beforeDecimal);
      if sign {
        out := out + "-";
      }
    }
  }

  /** Counts the digits, pads and prints them. */
  method PrintMagnitude(sign: bool, v: U32, f: Format) returns (out: string)
    ensures out == Prefix(sign, f.leadingZero, f.width - |Numeral(v, f.base, f.upper)|) + Numeral(v, f.base, f.upper)
  {
    var p, digitCount := CountDigits(v, f.base);
    out := PrintPrefix(sign, f.leadingZero, f.width - digitCount);
    NumDigitsBounds(v, f.base);
    var digits := EmitDigits(v, p, f.base, f.upper, digitCount);
    out := out + digits;
  }

  /** The integer conversions of `alt_log_private_printf`. */
  method PrintInteger(arg: U32, f: Format) returns (out: string)
    ensures out == Formatted(arg, f)
  {
    var v := arg;
    var sign := false;
    if f.signed && v >= 0x8000_0000 {
      v := (WORD - 1 - v + 1) % WORD;
      sign := true;
    }
    hide Prefix, Numeral;
    out := PrintMagnitude(sign, v, f);
  }

  // ---------- What the output says ----------

  /** The number an argument stands for. */
  function Meaning(arg: U32, f: Format): int {
    if Negative(arg, f) then arg - WORD else arg
  }

  function Signed(negative: bool, magnitude: int): int {
    if negative then -magnitude else magnitude
  }

  /** Reads a number with leading blanks, a sign and leading zeros. */
  function ReadBack(s: string, base: nat): int {
    if s != [] && s[0] == ' ' then ReadBack(s[1..], base)
    else if s != [] && s[0] == '-' then Signed(true, Value(s[1..], base))
    else Value(s, base)
  }

  lemma {:induction false} ZerosAddNothing(n: int, s: string, base: nat)
    ensures Value(Repeat('0', n) + s, base) == Value(s, base)
    decreases |s|, n
  {
    var zeros := Repeat('0', n);
    if s == [] {
      assert zeros + s == zeros;
      if n > 0 {
        ZerosAddNothing(n - 1, s, base);
        assert zeros[..n - 1] == Repeat('0', n - 1) + s;
      }
    } else {
      ZerosAddNothing(n, s[..|s| - 1], base);
      assert (zeros + s)[..|zeros| + |s| - 1] == zeros + s[..|s| - 1];
    }
  }

  lemma {:induction false} BlanksAreSkipped(n: int, s: string, base: nat)
    ensures ReadBack(Repeat(' ', n) + s, base) == ReadBack(s, base)
    decreases n
  {
    if n <= 0 {
      assert Repeat(' ', n) + s == s;
    } else {
      assert (Repeat(' ', n) + s)[1..] == Repeat(' ', n - 1) + s;
      BlanksAreSkipped(n - 1, s, base);
    }
  }

  lemma {:induction false} DigitsAreDigits(v: nat, base: Base, k: nat, upper: bool, i: nat)
    requires i < k
    ensures Digits(v, base, k, upper)[i] != '-' && Digits(v, base, k, upper)[i] != ' '
  {
    if i < k - 1 {
      DigitsAreDigits(v / base, base, k - 1, upper, i);
    } else {
      DigitRoundTrip(v % base, upper);
    }
  }

  lemma ReadSigned(negative: bool, body: string, base: nat)
    requires body != [] && body[0] != ' ' && body[0] != '-'
    ensures ReadBack(Sign(negative) + body, base) == Signed(negative, Value(body, base))
  {
    if negative {
      assert ("-" + body)[1..] == body;
    } else {
      assert "" + body == body;
    }
  }

  /** A sign, padding and digits read back as the signed value of the digits. */
  lemma ReadPadded(negative: bool, leadingZero: bool, room: int, digits: string, base: nat)
    requires digits != [] && digits[0] != ' ' && digits[0] != '-'
    ensures ReadBack(Prefix(negative, leadingZero, room) + digits, base) == Signed(negative, Value(digits, base))
  {
    var sign := Sign(negative);
    var n := room - |sign|;
    if leadingZero {
      var zeros := Repeat('0', n);
      Reassociate(sign, zeros, digits);
      ZerosAddNothing(n, digits, base);
      ReadSigned(negative, zeros + digits, base);
    } else {
      Reassociate(Repeat(' ', n), sign, digits);
      BlanksAreSkipped(n, sign + digits, base);
      ReadSigned(negative, digits, base);
    }
  }

  lemma NumeralStartsWithDigit(v: nat, base: Base, upper: bool)
    ensures Numeral(v, base, upper) != [] && Numeral(v, base, upper)[0] != ' ' && Numeral(v, base, upper)[0] != '-'
  {
    DigitsAreDigits(v, base, NumDigits(v, base), upper, 0);
  }

  lemma PaddedNumeralReads(negative: bool, leadingZero: bool, room: int, v: nat, base: Base, upper: bool)
    ensures ReadBack(Prefix(negative, leadingZero, room) + Numeral(v, base, upper), base) == Signed(negative, v)
  {
    NumeralRoundTrip(v, base, upper);
    NumeralStartsWithDigit(v, base, upper);
    ReadPadded(negative, leadingZero, room, Numeral(v, base, upper), base);
  }

  lemma SignedMagnitude(arg: U32, f: Format)
    ensures Signed(Negative(arg, f), Magnitude(arg, f)) == Meaning(arg, f)
  {
  }

  /** Every printed integer reads back as the number its argument stands for. */
  lemma PrintReadRoundTrip(arg: U32, f: Format)
    ensures ReadBack(Formatted(arg, f), f.base) == Meaning(arg, f)
  {
    var v := Magnitude(arg, f);
    var room := f.width - |Numeral(v, f.base, f.upper)|;
    PaddedNumeralReads(Negative(arg, f), f.leadingZero, room, v, f.base, f.upper);
    SignedMagnitude(arg, f);
  }

  /** The output is as wide as asked for, or as wide as it must be. */
  lemma OutputWidth(arg: U32, f: Format)
    ensures
      var least := NumDigits(Magnitude(arg, f), f.base) + if Negative(arg, f) then 1 else 0;
      |Formatted(arg, f)| == if f.width > least then f.width else least
  {
  }

  /** What an argument stands for: itself, or the number between -2^31 and 2^31 with the same 32 bits. */
  lemma MeaningIsTwosComplement(arg: U32, f: Format)
    ensures Meaning(arg, f) % WORD == arg
    ensures if f.signed then -0x8000_0000 <= Meaning(arg, f) < 0x8000_0000 else 0 <= Meaning(arg, f)
  {
  }

  /** Where the output is padded: with zeros behind the sign, or with blanks before it. */
  lemma Padding(arg: U32, f: Format)
    ensures
      var out, sign := Formatted(arg, f), if Negative(arg, f) then 1 else 0;
      var pad := f.width - sign - NumDigits(Magnitude(arg, f), f.base);
      && (f.leadingZero ==> forall i :: sign <= i < sign + pad ==> out[i] == '0')
      && (!f.leadingZero ==> forall i :: 0 <= i < pad ==> out[i] == ' ')
      && (Negative(arg, f) ==> out[if f.leadingZero || pad < 0 then 0 else pad] == '-')
  {
    OutputWidth(arg, f);
  }

  // ---------- `alt_printf` ----------

  /** Bitwise and. */
  function And(a: nat, b: nat): nat {
    if a == 0 || b == 0 then 0 else 2 * And(a / 2, b / 2) + (if a % 2 == 1 && b % 2 == 1 then 1 else 0)
  }

  /** The mask `0xF << shift` and the right shift. */
  function NibbleMask(shift: nat): nat {
    0xF * Pow(2, shift)
  }

  function ShiftRight(v: nat, shift: nat): nat
    requires Pow(2, shift) > 0
  {
    v / Pow(2, shift)
  }

  lemma AndNibble(v: nat)
    ensures And(v, 0xF) == v % 16
  {
    AndOnes(v, 4);
    assert Pow(2, 4) == 16;
  }

  lemma {:induction false} AndOnes(v: nat, k: nat)
    ensures Pow(2, k) > 0 && And(v, Pow(2, k) - 1) == v % Pow(2, k)
  {
    PowPositive(2, k);
    if k > 0 {
      PowPositive(2, k - 1);
      AndOnes(v / 2, k - 1);
      MixedRadix(v, 2, Pow(2, k - 1));
      assert (Pow(2, k) - 1) / 2 == Pow(2, k - 1) - 1;
    }
  }

  lemma AndDouble(v: nat, mask: nat)
    ensures And(v, 2 * mask) == 2 * And(v / 2, mask)
  {
    assert 2 * mask / 2 == mask;
  }

  lemma DoubleProduct(x: nat, p: nat)
    ensures 2 * (x * p) == x * (2 * p)
  {
  }

  /** Masking with a shifted nibble and shifting back extracts a hexadecimal digit. */
  lemma {:induction false} MaskIsNibble(v: nat, shift: nat)
    ensures Pow(2, shift) > 0 && And(v, NibbleMask(shift)) == v / Pow(2, shift) % 16 * Pow(2, shift)
  {
    PowPositive(2, shift);
    if shift == 0 {
      AndNibble(v);
    } else {
      PowPositive(2, shift - 1);
      var p := Pow(2, shift - 1);
      MaskIsNibble(v / 2, shift - 1);
      AndDouble(v, NibbleMask(shift - 1));
      MixedRadix(v, 2, p);
      DoubleProduct(v / 2 / p % 16, p);
    }
  }

  lemma {:induction false} PowFour(j: nat)
    ensures Pow(2, 4 * j) == Pow(16, j)
  {
    if j > 0 {
      PowFour(j - 1);
      var e := 4 * (j - 1);
      assert Pow(2, e + 1) == 2 * Pow(2, e);
      assert Pow(2, e + 2) == 2 * Pow(2, e + 1);
      assert Pow(2, e + 3) == 2 * Pow(2, e + 2);
      assert Pow(2, e + 4) == 2 * Pow(2, e + 3);
    }
  }

  /** The digit that `alt_printf` extracts at shift `4 * j` is digit `j` of the numeral, counted from the end. */
  lemma ExtractedDigit(v: nat, j: nat)
    ensures Pow(2, 4 * j) > 0 && Pow(16, j) > 0
    ensures ShiftRight(And(v, NibbleMask(4 * j)), 4 * j) == v / Pow(16, j) % 16
    ensures And(v, NibbleMask(4 * j)) == 0 <==> v / Pow(16, j) % 16 == 0
  {
    PowPositive(16, j);
    PowFour(j);
    MaskIsNibble(v, 4 * j);
    var d, p := v / Pow(16, j) % 16, Pow(16, j);
    DivModUnique(d * p, p, d, 0);
  }

  /** The first loop of `%x`: the shift of the highest digit that is not zero. */
  method HighestShift(v: U32) returns (digitShift: int)
    requires v > 0
    ensures digitShift == 4 * (NumDigits(v, 16) - 1)
  {
    digitShift := 28;
    ghost var k := 8;
    while And(v, NibbleMask(digitShift)) == 0
      invariant 1 <= k <= 8 && digitShift == 4 * (k - 1)
      invariant v < Pow(16, k)
      decreases k
    {
      HighestNibble(v, k);
      digitShift := digitShift - 4;
      k := k - 1;
    }
    HighestNibble(v, k);
    NumDigitsAre(v, 16, k);
  }

  function Pow16(j: nat): (p: nat)
    ensures p > 0
  {
    PowPositive(16, j);
    Pow(16, j)
  }

  lemma HexStep(out: string, v: nat, left: nat)
    requires left > 0
    ensures
      var digit := v / Pow16(left - 1) % 16;
      out + Digits(v, 16, left, false) == (out + [DigitChar(digit, false)]) + Digits(v, 16, left - 1, false)
  {
    FirstDigit(v, 16, left, false);
    var digit := v / Pow16(left - 1) % 16;
    Reassociate(out, [DigitChar(digit, false)], Digits(v, 16, left - 1, false));
  }

  /** The `%x` conversion of `alt_printf`. */
  method PrintHex(v: U32) returns (out: string)
    ensures out == Numeral(v, 16, false)
  {
    if v == 0 {
      return "0";
    }
    var digitShift := HighestShift(v);
    out := "";
    ghost var left: nat := NumDigits(v, 16);
    while digitShift >= 0
      invariant digitShift == 4 * (left - 1)
      invariant out + Digits(v, 16, left, false) == Numeral(v, 16, false)
      decreases left
    {
      ExtractedDigit(v, left - 1);
      HexStep(out, v, left);
      var digit := ShiftRight(And(v, NibbleMask(digitShift)), digitShift);
      out := out + [DigitChar(digit, false)];
      digitShift := digitShift - 4;
      left := left - 1;
    }
  }

  /** Of a number with at most `k` hexadecimal digits, the top nibble is zero exactly if it has fewer. */
  lemma HighestNibble(v: nat, k: nat)
    requires k > 0 && v < Pow(16, k)
    ensures Pow(2, 4 * (k - 1)) > 0
    ensures And(v, NibbleMask(4 * (k - 1))) == 0 <==> v < Pow(16, k - 1)
  {
    ExtractedDigit(v, k - 1);
    TopDigit(v, Pow(16, k - 1));
  }

  lemma TopDigit(v: nat, p: nat)
    requires p > 0 && v < 16 * p
    ensures v / p % 16 == 0 <==> v < p
  {
    QuotientBelow(v, 16, p);
    SmallRemainder(v / p, 16);
    assert v == v / p * p + v % p;
    if v < p {
      DivModUnique(v, p, 0, v);
    }
  }

  /** The number of digits is determined by the powers of the base around the number. */
  lemma NumDigitsAre(v: nat, base: Base, k: nat)
    requires k > 0 && v < Pow(base, k) && v >= Pow(base, k - 1)
    ensures NumDigits(v, base) == k
  {
    NumDigitsBounds(v, base);
    PowPositive(base, k - 1);
    var n := NumDigits(v, base);
    if n < k {
      PowMonotone(base, n, k - 1);
    } else if n > k {
      PowMonotone(base, k, n - 1);
    }
  }

  /** Both printers emit the same string for `%x`. */
  lemma PrintersAgree(v: U32)
    ensures Formatted(v, Format(false, -1, 16, false, false)) == Numeral(v, 16, false)
  {
    assert Prefix(false, false, -1 - |Numeral(v, 16, false)|) == "";
  }
}
