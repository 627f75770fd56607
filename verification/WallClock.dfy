/**
  The wall clock: `settimeofday` turns a time into an offset from the tick counter, `gettimeofday` adds the
  counter back and normalises the result. `alt_u32` and `long` are 32 bits wide; the sums of the two wrap.
 */
module WallClock {
  import opened Arithmetic
  import opened Hal

  const US: int := 1_000_000

  type I32 = x: int | -0x8000_0000 <= x < 0x8000_0000

  datatype TimeVal = TimeVal(sec: I32, usec: I32)

  datatype TimeZone = TimeZone(minutesWest: I32, dstTime: I32)

  /** A sum computed in unsigned 32-bit arithmetic and stored in a `long`. */
  function ToSigned(x: int): I32 {
    (x + 0x8000_0000) % WORD - 0x8000_0000
  }

  /** Microseconds per tick, rounded down. */
  function PerTick(rate: U32): nat
    requires rate > 0
  {
    US / rate
  }

  /** It is the largest whole number of microseconds a tick with which a second of ticks is not too long. */
  lemma PerTickRoundsDown(rate: U32, q: nat)
    requires rate > 0
    ensures q <= PerTick(rate) <==> q * rate <= US
  {
    var p := PerTick(rate);
    assert p * rate <= US < (p + 1) * rate;
    if q <= p {
      MulMonotone(q, p, rate);
    } else {
      MulMonotone(p + 1, q, rate);
    }
  }

  /** What `settimeofday` stores: this product is computed in 32 bits. */
  function ResetTime(t: TimeVal, nticks: U32, rate: U32): TimeVal
    requires rate > 0
  {
    TimeVal(ToSigned(t.sec - nticks / rate), ToSigned(t.usec - nticks * PerTick(rate) % WORD % US))
  }

  /** What `gettimeofday` starts from: this product is computed in 64 bits. */
  function RawTime(reset: TimeVal, nticks: U32, rate: U32): TimeVal
    requires rate > 0
  {
    TimeVal(ToSigned(reset.sec + nticks / rate), ToSigned(reset.usec + nticks * PerTick(rate) % US))
  }

  function Micros(t: TimeVal): int {
    t.sec * US + t.usec
  }

  /** A reading stands for an instant, with the microseconds in range. */
  ghost predicate Shows(r: TimeVal, micros: int) {
    Micros(r) == micros && 0 <= r.usec < US
  }

  /** What is to be read: the raw instant, or zero if it takes a borrow and lies before zero. */
  function Instant(raw: TimeVal): int {
    if raw.usec < 0 && Micros(raw) < 0 then 0 else Micros(raw)
  }

  /** The raw time in normal form; a carry out of the last second wraps. */
  function Normal(raw: TimeVal): (r: TimeVal)
    ensures Instant(raw) < 0x8000_0000 * US ==> Shows(r, Instant(raw))
  {
    TimeVal(ToSigned(Instant(raw) / US), Instant(raw) % US)
  }

  class Clock {
    var nticks: U32
    var tickRate: U32
    var resetTime: TimeVal
    var timeZone: TimeZone

    constructor (tickRate: U32)
      ensures nticks == 0 && this.tickRate == tickRate && resetTime == TimeVal(0, 0) && timeZone == TimeZone(0, 0)
    {
      nticks, this.tickRate, resetTime, timeZone := 0, tickRate, TimeVal(0, 0), TimeZone(0, 0);
    }

    method SetTimeOfDay(t: TimeVal, tz: TimeZone) returns (status: Status)
      modifies this`resetTime, this`timeZone
      ensures status == if tickRate == 0 then NotSupported else Ok
      ensures status != Ok ==> resetTime == old(resetTime) && timeZone == old(timeZone)
      ensures status == Ok ==> resetTime == ResetTime(t, nticks, tickRate) && timeZone == tz
    {
      if tickRate == 0 {
        return NotSupported;
      }
      resetTime := ResetTime(t, nticks, tickRate);
      timeZone := tz;
      return Ok;
    }

    method GetTimeOfDay() returns (status: Status, r: TimeVal, tz: TimeZone)
      ensures status == if tickRate == 0 then NotSupported else Ok
      ensures status == Ok ==> r == Normal(RawTime(resetTime, nticks, tickRate)) && tz == timeZone
    {
      status, r, tz := NotSupported, TimeVal(0, 0), TimeZone(0, 0);
      if tickRate != 0 {
        r := Normalise(RawTime(resetTime, nticks, tickRate));
        status, tz := Ok, timeZone;
      }
    }
  }

  lemma NextSecond(s: int, sec: I32)
    requires sec == ToSigned(s)
    ensures ToSigned(sec + 1) == ToSigned(s + 1)
  {
  }

  lemma NormalForm(raw: TimeVal, s: int, usec: int)
    requires s * US + usec == Instant(raw) && 0 <= usec < US
    ensures Normal(raw) == TimeVal(ToSigned(s), usec)
  {
    hide Instant, ToSigned;
    DivModUnique(Instant(raw), US, s, usec);
  }

  /** The two loops of `gettimeofday`; `s` are the seconds without the 32-bit bound. */
  method Normalise(raw: TimeVal) returns (r: TimeVal)
    ensures r == Normal(raw)
  {
    var sec: I32, usec: I32 := raw.sec, raw.usec;
    ghost var s: int := sec;
    ghost var borrowed := usec < 0;
    while usec < 0
      invariant s == sec && (borrowed ==> usec < US) && (borrowed || usec >= 0)
      invariant borrowed && usec >= 0 ==> sec >= 0
      invariant s * US + usec == Micros(raw) || (borrowed && Micros(raw) < 0 && sec == 0 && usec == 0)
    {
      if sec <= 0 {
        sec, s := 0, 0;
        usec := 0;
        break;
      } else {
        sec, s := sec - 1, s - 1;
        usec := usec + US;
      }
    }
    assert s * US + usec == Instant(raw);
    while usec >= US
      invariant 0 <= usec && sec == ToSigned(s)
      invariant s * US + usec == Instant(raw)
      decreases usec
    {
      NextSecond(s, sec);
      sec, s := ToSigned(sec + 1), s + 1;
      usec := usec - US;
    }
    NormalForm(raw, s, usec);
    r := TimeVal(sec, usec);
  }

  // ---------- How far the counter moves the clock ----------

  /** The microseconds that `gettimeofday` adds for `n` ticks. */
  function Elapsed(n: nat, rate: U32): int
    requires rate > 0
  {
    n / rate * US + n * PerTick(rate) % US
  }

  lemma EvenSplit(n: nat, a: nat, b: nat, rate: nat, q: nat)
    requires rate * q == US && n == a * rate + b && b < rate
    ensures n * q == a * US + b * q && b * q < US
  {
    assert (a * rate + b) * q == a * (rate * q) + b * q;
    assert q > 0;
    MulMonotone(b + 1, rate, q);
  }

  /** When the tick rate divides a million, every tick moves the clock by the same amount. */
  lemma ElapsedExact(n: nat, rate: U32)
    requires rate > 0 && US % rate == 0
    ensures Elapsed(n, rate) == n * PerTick(rate)
  {
    var q := PerTick(rate);
    var a, b := n / rate, n % rate;
    EvenSplit(n, a, b, rate, q);
    DivModUnique(n * q, US, a, b * q);
  }

  lemma ElapsedBetween(n0: nat, n1: nat, rate: U32)
    requires rate > 0 && US % rate == 0 && n0 <= n1
    ensures Elapsed(n1, rate) - Elapsed(n0, rate) == (n1 - n0) * PerTick(rate) >= 0
  {
    ElapsedExact(n0, rate);
    ElapsedExact(n1, rate);
    Distribute(n0, n1, PerTick(rate));
  }

  lemma Distribute(a: nat, b: nat, q: nat)
    requires a <= b
    ensures b * q - a * q == (b - a) * q >= 0
  {
  }

  /** Otherwise the first full second is already wrong. */
  lemma ElapsedWrong(rate: U32)
    requires rate > 0 && US % rate != 0
    ensures Elapsed(rate, rate) == US + rate * PerTick(rate) != rate * PerTick(rate)
  {
    var q := PerTick(rate);
    assert rate * q < US;
    DivModUnique(rate, rate, 1, 0);
    DivModUnique(rate * q, US, 0, rate * q);
  }

  /** The exact condition: the clock runs evenly from power-up on if and only if the rate divides a million. */
  lemma EvenIffRateDivides(rate: U32)
    requires rate > 0
    ensures (forall n: U32 :: Elapsed(n, rate) == n * PerTick(rate)) <==> US % rate == 0
  {
    if US % rate == 0 {
      forall n: U32 ensures Elapsed(n, rate) == n * PerTick(rate) {
        ElapsedExact(n, rate);
      }
    } else {
      ElapsedWrong(rate);
    }
  }

  // ---------- Setting and reading ----------

  lemma ToSignedAdds(a: int, b: int)
    ensures ToSigned(ToSigned(a) + b) == ToSigned(a + b)
  {
  }

  /** Wrapping on the way does not matter if the sum fits. */
  lemma SumFits(a: int, b: int)
    requires -0x8000_0000 <= a + b < 0x8000_0000
    ensures ToSigned(ToSigned(a) + b) == a + b
  {
    ToSignedAdds(a, b);
  }

  /** The product of `settimeofday` in 32 bits names the same microseconds as the exact one. */
  predicate ProductKept(x: nat) {
    x / WORD % 15625 == 0
  }

  /** A multiple of 2^32 is a whole number of seconds exactly when it is a multiple of 5^6. */
  lemma WholeTurns(k: nat)
    ensures k * WORD % US == 0 <==> k % 15625 == 0
  {
    if k % 15625 == 0 {
      var m := k / 15625;
      assert k * WORD == (m * 67108864) * US + 0;
      DivModUnique(k * WORD, US, m * 67108864, 0);
    }
    if k * WORD % US == 0 {
      // 2^26 is invertible modulo 5^6: 12659 * 2^26 == 54369991 * 5^6 + 1.
      var z := k * WORD / US;
      assert k * 67108864 == 15625 * z;
      var m := 12659 * z - 54369991 * k;
      assert k == 15625 * m;
      DivModUnique(k, 15625, m, 0);
    }
  }

  /** The 32-bit product names the same microseconds exactly when what it drops is a whole number of seconds. */
  lemma ProductKeptIff(x: nat)
    ensures x % WORD % US == x % US <==> ProductKept(x)
  {
    var k, r := x / WORD, x % WORD;
    WholeTurns(k);
    var a, b, c := x / US, r / US, k * WORD / US;
    assert x == k * WORD + r;
    if r % US == x % US {
      assert k * WORD == (a - b) * US + 0;
      DivModUnique(k * WORD, US, a - b, 0);
    }
    if k * WORD % US == 0 {
      assert x == (c + b) * US + r % US;
      DivModUnique(x, US, c + b, r % US);
    }
  }

  /** What a clock set to `t` at counter value `c0` shows at counter value `c1`. */
  function SetAndRead(t: TimeVal, c0: U32, c1: U32, rate: U32): TimeVal
    requires rate > 0
  {
    Normal(RawTime(ResetTime(t, c0, rate), c1, rate))
  }

  /** The calls behind it; the counter reaches `later` in between. */
  method SetThenRead(c: Clock, t: TimeVal, tz: TimeZone, later: U32) returns (r: TimeVal, zone: TimeZone)
    requires c.tickRate > 0
    modifies c
    ensures r == SetAndRead(t, old(c.nticks), later, old(c.tickRate)) && zone == tz
  {
    var status := c.SetTimeOfDay(t, tz);
    c.nticks := later;
    status, r, zone := c.GetTimeOfDay();
  }

  /** The microseconds that `settimeofday` takes off, those it should take off, and those that `gettimeofday` adds. */
  function Dropped(c: U32, rate: U32): (x: int)
    requires rate > 0
    ensures 0 <= x < US
  {
    c * PerTick(rate) % WORD % US
  }

  function Fraction(c: U32, rate: U32): (x: int)
    requires rate > 0
    ensures 0 <= x < US
  {
    c * PerTick(rate) % US
  }

  lemma DroppedIffKept(c: U32, rate: U32)
    requires rate > 0
    ensures Dropped(c, rate) == Fraction(c, rate) <==> ProductKept(c * PerTick(rate))
  {
    hide PerTick, ProductKept;
    ProductKeptIff(c * PerTick(rate));
  }

  /** The raw time of a reading: the wraps on the way cancel, but for one at the end. */
  lemma RawAfterSet(t: TimeVal, c0: U32, c1: U32, rate: U32)
    requires rate > 0 && 0 <= t.usec < US
    ensures
      var raw := RawTime(ResetTime(t, c0, rate), c1, rate);
      && raw.sec == ToSigned(t.sec - c0 / rate + c1 / rate)
      && raw.usec == t.usec - Dropped(c0, rate) + Fraction(c1, rate)
  {
    ToSignedAdds(t.sec - c0 / rate, c1 / rate);
    SumFits(t.usec - Dropped(c0, rate), Fraction(c1, rate));
  }

  // ---------- Within one turn of the counter, at every tick rate ----------

  /** What a clock set to `t` at `c0` should show at `c1`, in microseconds. */
  function Expected(t: TimeVal, c0: U32, c1: U32, rate: U32): int
    requires rate > 0
  {
    Micros(t) + Elapsed(c1, rate) - Elapsed(c0, rate)
  }

  /**
    The condition for a right reading: the time to show is not before zero, and `settimeofday` did not drop part of
    its product, or it subtracted too much but the time to show is zero, where the reading saturates.
   */
  ghost predicate ReadsRight(t: TimeVal, c0: U32, c1: U32, rate: U32)
    requires rate > 0
  {
    && Expected(t, c0, c1, rate) >= 0
    && (|| ProductKept(c0 * PerTick(rate))
        || (Expected(t, c0, c1, rate) == 0 && Dropped(c0, rate) > Fraction(c0, rate)))
  }

  lemma Regrouped(sec: int, a: int, b: int, usec: int, x: int, y: int, z: int)
    ensures (sec - a + b) * US + (usec - x + y) + x - z == sec * US + usec + (b * US + y) - (a * US + z)
  {
  }

  /** A raw time that is off by `z - x`, against the instant `m` it should be. */
  lemma ReadingSplit(raw: TimeVal, m: int, x: int, z: int)
    requires Micros(raw) == m + z - x && raw.sec >= 0
    ensures Instant(raw) == m <==> m >= 0 && (x == z || (m == 0 && x > z))
  {
  }

  /** In range, a reading shows an instant exactly if that is the raw instant. */
  lemma ShowsInstant(raw: TimeVal, m: int)
    requires -US <= m < 0x7FFF_FFFF * US
    ensures Shows(Normal(raw), m) <==> Instant(raw) == m
  {
    if Instant(raw) >= 0x8000_0000 * US {
      var s := Instant(raw) / US;
      assert s < 0x8000_0000 + 0x8000_0000;
      assert ToSigned(s) == s - WORD;
    }
  }

  lemma SecondsFit(s: int, u: int, m: int)
    requires s * US + u == m && -US < u < 2 * US && -US <= m < 0x7FFF_FFFF * US
    ensures -3 < s < 0x8000_0000 && ToSigned(s) == s
  {
  }

  /**
    At every tick rate, the exact condition: within a turn of the counter, a clock set at `c0` and read at `c1`
    has moved by what the ticks in between make it move, if and only if `ReadsRight`.
   */
  lemma ReadingIff(t: TimeVal, c0: U32, c1: U32, rate: U32)
    requires rate > 0 && 0 <= t.sec && 0 <= t.usec < US && c0 <= c1
    requires Expected(t, c0, c1, rate) < 0x7FFF_FFFF * US
    ensures Shows(SetAndRead(t, c0, c1, rate), Expected(t, c0, c1, rate)) <==> ReadsRight(t, c0, c1, rate)
  {
    var raw, m := RawTime(ResetTime(t, c0, rate), c1, rate), Expected(t, c0, c1, rate);
    var x, y, z := Dropped(c0, rate), Fraction(c1, rate), Fraction(c0, rate);
    var a, b := c0 / rate, c1 / rate;
    RawAfterSet(t, c0, c1, rate);
    QuotientMonotone(c0, c1, rate);
    Regrouped(t.sec, a, b, t.usec, x, y, z);
    SecondsFit(t.sec - a + b, t.usec - z + y, m);
    DroppedIffKept(c0, rate);
    ReadingSplit(raw, m, x, z);
    ShowsInstant(raw, m);
  }

  lemma QuotientMonotone(c0: nat, c1: nat, rate: nat)
    requires rate > 0 && c0 <= c1
    ensures c0 / rate <= c1 / rate
  {
    var a, b := c0 / rate, c1 / rate;
    if b < a {
      MulMonotone(b + 1, a, rate);
    }
  }

  lemma ShowsItself(r: TimeVal, t: TimeVal)
    requires 0 <= t.usec < US
    ensures Shows(r, Micros(t)) <==> r == t
  {
  }

  /** Read back at once, at every tick rate: the clock shows what it was set to if and only if `ReadsRight`. */
  lemma SetThenGet(t: TimeVal, c: U32, rate: U32)
    requires rate > 0 && 0 <= t.sec < 0x7FFF_FFFF && 0 <= t.usec < US
    ensures SetAndRead(t, c, c, rate) == t <==> ReadsRight(t, c, c, rate)
  {
    assert Expected(t, c, c, rate) == Micros(t);
    ShowsItself(SetAndRead(t, c, c, rate), t);
    ReadingIff(t, c, c, rate);
  }

  lemma DroppedRemainders()
    ensures PerTick(1000) == 1000
    ensures Fraction(4_294_968, 1000) == 968_000 && Dropped(4_294_968, 1000) == 704
  {
    assert 4_294_968 * 1000 == WORD + 704;
  }

  /** The smallest case of a dropped product at a thousand ticks a second, some 72 minutes after power-up. */
  lemma DroppedProduct()
    ensures SetAndRead(TimeVal(100, 0), 4_294_968, 4_294_968, 1000) == TimeVal(100, 967_296)
  {
    var raw := RawTime(ResetTime(TimeVal(100, 0), 4_294_968, 1000), 4_294_968, 1000);
    DroppedRemainders();
    RawAfterSet(TimeVal(100, 0), 4_294_968, 4_294_968, 1000);
    assert raw == TimeVal(100, 967_296);
  }

  // ---------- Over any number of turns of the counter ----------

  /** What a clock set to `t` at absolute tick `n0` shows at tick `n1`: the calls see 32 bits of each. */
  function Shown(t: TimeVal, n0: nat, n1: nat, rate: U32): TimeVal
    requires rate > 0
  {
    SetAndRead(t, n0 % WORD, n1 % WORD, rate)
  }

  /** The time it is then, when the clock was right at `n0`. */
  function TimeAt(t: TimeVal, n0: nat, n1: nat, rate: U32): int
    requires rate > 0
  {
    Micros(t) + (n1 - n0) * PerTick(rate)
  }

  /** Turns that the counter completes in between. */
  function Turns(n0: nat, n1: nat): int {
    n1 / WORD - n0 / WORD
  }

  /**
    The condition for the right time: the turns of the counter in between are a multiple of the tick rate (none, or
    any number at one tick a second), and the product was kept or the reading saturates at zero.
   */
  ghost predicate ShowsTime(t: TimeVal, n0: nat, n1: nat, rate: U32)
    requires rate > 0
  {
    var c0 := n0 % WORD;
    || (Turns(n0, n1) % rate == 0 && ProductKept(c0 * PerTick(rate)))
    || (Micros(t) == 0 && n0 == n1 && Dropped(c0, rate) > Fraction(c0, rate))
  }

  /** At an even rate `q` microseconds a tick: the time in seconds, a fraction, and what the counter lost in turns. */
  lemma TimeInTurns(t: TimeVal, n0: nat, n1: nat, rate: U32, s: int, u: int, m: int)
    requires rate > 0 && US % rate == 0 && n0 <= n1
    requires s == t.sec - n0 % WORD / rate + n1 % WORD / rate
    requires u == t.usec - Fraction(n0 % WORD, rate) + Fraction(n1 % WORD, rate)
    requires m == Turns(n0, n1)
    ensures m >= 0 && PerTick(rate) * rate == US && TimeAt(t, n0, n1, rate) == s * US + u + m * PerTick(rate) * WORD
  {
    var c0, c1, q := n0 % WORD, n1 % WORD, PerTick(rate);
    ElapsedExact(c0, rate);
    ElapsedExact(c1, rate);
    TurnsTimesRate(n0 / WORD, n1 / WORD, c0, c1, q);
  }

  lemma TurnsTimesRate(k0: int, k1: int, c0: int, c1: int, q: int)
    ensures ((k1 * WORD + c1) - (k0 * WORD + c0)) * q == c1 * q - c0 * q + (k1 - k0) * q * WORD
  {
    var m, d := k1 - k0, c1 - c0;
    assert (k1 * WORD + c1) - (k0 * WORD + c0) == m * WORD + d;
    assert (m * WORD + d) * q == m * q * WORD + d * q;
    assert d * q == c1 * q - c0 * q;
  }

  /** How many times 2^32 seconds a signed sum has wrapped. */
  lemma SignedWraps(s: int) returns (k: int)
    ensures ToSigned(s) == s + k * WORD
  {
    k := -((s + 0x8000_0000) / WORD);
  }

  lemma SignedUnique(s: int, k: int)
    requires -0x8000_0000 <= s + k * WORD < 0x8000_0000
    ensures ToSigned(s) == s + k * WORD
  {
    ToSignedShift(s, k);
  }

  lemma {:induction false} ToSignedShift(s: int, k: int)
    ensures ToSigned(s + k * WORD) == ToSigned(s)
    decreases if k < 0 then -k else k
  {
    if k > 0 {
      ToSignedShift(s, k - 1);
    } else if k < 0 {
      ToSignedShift(s, k + 1);
    }
  }

  /** Two errors, one below a second and one a multiple of 2^32 microseconds, only cancel if both vanish. */
  lemma ErrorsVanish(e: int, k: int)
    requires -US < e < US
    ensures e + k * WORD == 0 <==> e == 0 && k == 0
  {
  }

  /** The turns are made up for by wraps of the seconds exactly if they are that multiple of the rate. */
  lemma TurnsMadeUp(m: int, q: nat, rate: nat, k: int)
    requires q * rate == US && q > 0
    ensures k * US - m * q == 0 <==> m == k * rate
  {
    assert k * US == k * rate * q;
    CancelFactor(k * rate, m, q);
  }

  /** The raw time is off by what was dropped and by turns and wraps that do not make up for each other. */
  lemma RawInstant(raw: TimeVal, m: int, x: int, z: int, lost: int)
    requires Micros(raw) == m + (z - x) + lost * WORD && m >= 0
    requires 0 <= x < US && 0 <= z < US
    ensures Instant(raw) == m <==> (x == z && lost == 0) || (m == 0 && raw.usec < 0 && Micros(raw) < 0)
  {
    ErrorsVanish(z - x, lost);
  }

  lemma MicrosSplit(raw: TimeVal, s: int, k: int, u: int, mq: int, m: int, x: int, z: int)
    requires raw.sec == s + k * WORD && raw.usec == u + z - x && m == s * US + u + mq * WORD
    ensures Micros(raw) == m + (z - x) + (k * US - mq) * WORD
  {
  }

  lemma WrapsAreTurns(s: int, u: int, turns: nat, q: nat, rate: nat, k: int, j: int, m: int)
    requires q * rate == US && q > 0 && turns == j * rate
    requires m == s * US + u + turns * q * WORD && -US < u < 2 * US && 0 <= m < 0x7FFF_FFFF * US
    requires ToSigned(s) == s + k * WORD
    ensures k == j
  {
    TurnsMadeUp(turns, q, rate, j);
    SecondsFit(s + j * WORD, u, m);
    SignedUnique(s, j);
  }

  /** Turns that are a multiple of the rate come back as wraps of the seconds, if the time is in range. */
  lemma WrapsComeBack(s: int, u: int, turns: nat, q: nat, rate: nat, k: int, m: int)
    requires q * rate == US && q > 0 && rate > 0
    requires m == s * US + u + turns * q * WORD && -US < u < 2 * US && 0 <= m < 0x7FFF_FFFF * US
    requires ToSigned(s) == s + k * WORD
    ensures k * US - turns * q == 0 <==> turns % rate == 0
  {
    TurnsMadeUp(turns, q, rate, k);
    if turns == k * rate {
      DivModUnique(turns, rate, k, 0);
    }
    if turns % rate == 0 {
      WrapsAreTurns(s, u, turns, q, rate, k, turns / rate, m);
    }
  }

  lemma TimeZero(t: TimeVal, n0: nat, n1: nat, rate: U32)
    requires rate > 0 && US % rate == 0 && n0 <= n1 && 0 <= t.sec && 0 <= t.usec < US
    ensures TimeAt(t, n0, n1, rate) == 0 <==> t == TimeVal(0, 0) && n0 == n1
  {
    NoTicks(n1 - n0, PerTick(rate));
  }

  lemma SaturatesOnlyAtZero(t: TimeVal, n0: nat, n1: nat, rate: U32, raw: TimeVal)
    requires rate > 0 && US % rate == 0 && n0 <= n1 && 0 <= t.sec && 0 <= t.usec < US
    requires raw == RawTime(ResetTime(t, n0 % WORD, rate), n1 % WORD, rate)
    ensures TimeAt(t, n0, n1, rate) == 0 && raw.usec < 0 && Micros(raw) < 0
       <==> Micros(t) == 0 && n0 == n1 && Dropped(n0 % WORD, rate) > Fraction(n0 % WORD, rate)
  {
    hide TimeAt, RawTime, ResetTime, Dropped, Fraction;
    RawAfterSet(t, n0 % WORD, n1 % WORD, rate);
    TimeZero(t, n0, n1, rate);
  }

  lemma NoTicks(n: nat, q: nat)
    requires q > 0
    ensures n * q >= 0 && (n * q == 0 <==> n == 0)
  {
  }

  /**
    When the tick rate divides a million, over any number of turns of the 32-bit counter: a clock set at tick `n0`
    shows the right time at tick `n1` if and only if `ShowsTime`.
   */
  lemma ReadingExactIff(t: TimeVal, n0: nat, n1: nat, rate: U32)
    requires rate > 0 && US % rate == 0 && n0 <= n1
    requires 0 <= t.sec && 0 <= t.usec < US && TimeAt(t, n0, n1, rate) < 0x7FFF_FFFF * US
    ensures Shows(Shown(t, n0, n1, rate), TimeAt(t, n0, n1, rate)) <==> ShowsTime(t, n0, n1, rate)
  {
    var c0, c1, q, turns, m := n0 % WORD, n1 % WORD, PerTick(rate), Turns(n0, n1), TimeAt(t, n0, n1, rate);
    var raw := RawTime(ResetTime(t, c0, rate), c1, rate);
    var x, z := Dropped(c0, rate), Fraction(c0, rate);
    var s, u := t.sec - c0 / rate + c1 / rate, t.usec - z + Fraction(c1, rate);
    RawAfterSet(t, c0, c1, rate);
    TimeInTurns(t, n0, n1, rate, s, u, turns);
    NoTicks(n1 - n0, q);
    var k := SignedWraps(s);
    MicrosSplit(raw, s, k, u, turns * q, m, x, z);
    RawInstant(raw, m, x, z, k * US - turns * q);
    WrapsComeBack(s, u, turns, q, rate, k, m);
    DroppedIffKept(c0, rate);
    SaturatesOnlyAtZero(t, n0, n1, rate, raw);
    ShowsInstant(raw, m);
  }

  /** A clock set while the product of ticks and microseconds fits 32 bits is right until the counter wraps. */
  lemma RightWithinTurn(t: TimeVal, n0: nat, n1: nat, rate: U32)
    requires rate > 0 && n0 / WORD == n1 / WORD && n0 % WORD * PerTick(rate) < WORD
    ensures ShowsTime(t, n0, n1, rate)
  {
    DivModUnique(n0 % WORD * PerTick(rate), WORD, 0, n0 % WORD * PerTick(rate));
  }

  // ---------- Does the clock run backwards? ----------

  predicate NotAfter(r: TimeVal, r': TimeVal) {
    r.sec < r'.sec || (r.sec == r'.sec && r.usec <= r'.usec)
  }

  lemma LaterShowsMore(r: TimeVal, m: int, r': TimeVal, m': int)
    requires Shows(r, m) && Shows(r', m')
    ensures NotAfter(r, r') <==> m <= m'
  {
  }

  lemma HalfAtMost(c: U32, rate: U32)
    requires rate > 1
    ensures 0 <= c / rate < 0x8000_0000
  {
    var a := c / rate;
    MulMonotone(2, rate, a);
  }

  /**
    What the raw time of a reading at counter value `c` stands for, when the clock was set to `t` at `c0`: what should
    be shown, off by what was dropped.
   */
  function Offset(t: TimeVal, c0: U32, c: U32, rate: U32): int
    requires rate > 0
  {
    Expected(t, c0, c, rate) + Fraction(c0, rate) - Dropped(c0, rate)
  }

  /** The reading takes a borrow, and there is nothing to borrow from: it is set to zero. */
  predicate Saturates(t: TimeVal, c0: U32, c: U32, rate: U32)
    requires rate > 0
  {
    Offset(t, c0, c, rate) < 0 && t.usec - Dropped(c0, rate) + Fraction(c, rate) < 0
  }

  /** What the clock shows, in microseconds; it may lie before zero, where no borrow is needed. */
  function Display(t: TimeVal, c0: U32, c: U32, rate: U32): int
    requires rate > 0
  {
    if Saturates(t, c0, c, rate) then 0 else Offset(t, c0, c, rate)
  }

  lemma SecondsBefore(sec: I32, c0: U32, c: U32, rate: U32)
    requires rate > 1 && c < c0 && 0 <= sec
    ensures -0x8000_0000 <= sec - c0 / rate + c / rate <= sec
  {
    var a, b := c0 / rate, c / rate;
    QuotientMonotone(c, c0, rate);
    HalfAtMost(c0, rate);
    HalfAtMost(c, rate);
    assert -0x8000_0000 <= sec - a + b <= sec;
  }

  lemma SecondsAfter(t: TimeVal, c0: U32, c: U32, rate: U32)
    requires rate > 0 && c0 <= c && 0 <= t.sec && 0 <= t.usec < US && Expected(t, c0, c, rate) < 0x7FFF_FFFF * US
    ensures 0 <= t.sec - c0 / rate + c / rate < 0x8000_0000
  {
    hide Fraction;
    var a, b := c0 / rate, c / rate;
    QuotientMonotone(c0, c, rate);
    Regrouped(t.sec, a, b, t.usec, 0, Fraction(c, rate), Fraction(c0, rate));
    ExpectedParts(t, c0, c, rate);
    SecondsFit(t.sec - a + b, t.usec - Fraction(c0, rate) + Fraction(c, rate), Expected(t, c0, c, rate));
  }

  lemma ExpectedParts(t: TimeVal, c0: U32, c: U32, rate: U32)
    requires rate > 0
    ensures Expected(t, c0, c, rate)
         == t.sec * US + t.usec + (c / rate * US + Fraction(c, rate)) - (c0 / rate * US + Fraction(c0, rate))
  {
  }

  /** At more than one tick a second the raw time is the offset, whichever way the counter went. */
  lemma RawIsOffset(t: TimeVal, c0: U32, c: U32, rate: U32) returns (raw: TimeVal)
    requires rate > 1 && 0 <= t.sec && 0 <= t.usec < US && Expected(t, c0, c, rate) < 0x7FFF_FFFF * US
    ensures raw == RawTime(ResetTime(t, c0, rate), c, rate)
    ensures Micros(raw) == Offset(t, c0, c, rate)
    ensures raw.usec == t.usec - Dropped(c0, rate) + Fraction(c, rate)
    ensures c0 <= c ==> raw.sec >= 0
  {
    hide RawTime, ResetTime, Dropped, Fraction, Expected;
    raw := RawTime(ResetTime(t, c0, rate), c, rate);
    var a, b := c0 / rate, c / rate;
    RawAfterSet(t, c0, c, rate);
    if c < c0 {
      SecondsBefore(t.sec, c0, c, rate);
    } else {
      SecondsAfter(t, c0, c, rate);
    }
    SignedUnique(t.sec - a + b, 0);
    ExpectedParts(t, c0, c, rate);
    Regrouped(t.sec, a, b, t.usec, Dropped(c0, rate), Fraction(c, rate), Fraction(c0, rate));
  }

  /** For every tick rate but one a second and any counter values, right or wrong: this is what the clock shows. */
  lemma ShownIsDisplay(t: TimeVal, c0: U32, c: U32, rate: U32)
    requires rate > 1 && 0 <= t.sec && 0 <= t.usec < US && Expected(t, c0, c, rate) < 0x7FFF_FFFF * US
    ensures Shows(SetAndRead(t, c0, c, rate), Display(t, c0, c, rate))
  {
    hide RawTime, ResetTime, Dropped, Fraction, Expected;
    var raw := RawIsOffset(t, c0, c, rate);
  }

  /** At one tick a second the seconds wrap with the counter, and only the dropped part is ever missing. */
  lemma ShownAtOneTick(t: TimeVal, n0: nat, n1: nat)
    requires n0 <= n1 && 0 <= t.sec && 0 <= t.usec < US && TimeAt(t, n0, n1, 1) < 0x7FFF_FFFF * US
    ensures
      var m := TimeAt(t, n0, n1, 1) - Dropped(n0 % WORD, 1);
      Shows(Shown(t, n0, n1, 1), if m < 0 then 0 else m)
  {
    var c0, c1 := n0 % WORD, n1 % WORD;
    RawAfterSet(t, c0, c1, 1);
    WholeSeconds(c1);
    SignedUnique(t.sec - c0 + c1, Turns(n0, n1));
    assert t.sec - c0 + c1 + Turns(n0, n1) * WORD == t.sec + (n1 - n0);
  }

  lemma WholeSeconds(c: U32)
    ensures Fraction(c, 1) == 0
  {
    DivModUnique(c * US, US, c, 0);
  }

  lemma ExpectedAtEvenRate(t: TimeVal, c0: U32, c: U32, rate: U32)
    requires rate > 0 && US % rate == 0
    ensures Expected(t, c0, c, rate) == Micros(t) + c * PerTick(rate) - c0 * PerTick(rate)
  {
    ElapsedExact(c, rate);
    ElapsedExact(c0, rate);
  }

  /** The counter never shows more time than there was. */
  lemma ExpectedInRange(t: TimeVal, n0: nat, n1: nat, rate: U32)
    requires rate > 0 && US % rate == 0 && n0 <= n1
    ensures Expected(t, n0 % WORD, n1 % WORD, rate) <= TimeAt(t, n0, n1, rate)
  {
    var q := PerTick(rate);
    ExpectedAtEvenRate(t, n0 % WORD, n1 % WORD, rate);
    QuotientMonotone(n0, n1, WORD);
    TurnsTimesRate(n0 / WORD, n1 / WORD, n0 % WORD, n1 % WORD, q);
    NoTicks(Turns(n0, n1), q);
  }

  lemma OffsetOrder(t: TimeVal, c0: U32, c1: U32, c2: U32, rate: U32)
    requires rate > 0 && US % rate == 0
    ensures Offset(t, c0, c1, rate) <= Offset(t, c0, c2, rate) <==> c1 <= c2
  {
    hide Fraction, Dropped, Expected;
    ExpectedAtEvenRate(t, c0, c1, rate);
    ExpectedAtEvenRate(t, c0, c2, rate);
    if c1 <= c2 {
      MulMonotone(c1, c2, PerTick(rate));
    } else {
      PositiveProduct(c1 - c2, PerTick(rate));
      Distribute(c2, c1, PerTick(rate));
    }
  }

  /**
    The condition for two readings in order. If neither saturates at zero, the counter value is not smaller at the
    second; if the first does, then so does the second, or it is not before zero; if only the second does, then the
    first is not after zero.
   */
  predicate InOrder(t: TimeVal, c0: U32, c1: U32, c2: U32, rate: U32)
    requires rate > 0
  {
    if Saturates(t, c0, c1, rate) then Saturates(t, c0, c2, rate) || Offset(t, c0, c2, rate) >= 0
    else if Saturates(t, c0, c2, rate) then Offset(t, c0, c1, rate) <= 0
    else c1 <= c2
  }

  lemma InOrderByCases(t: TimeVal, c0: U32, c1: U32, c2: U32, rate: U32)
    requires rate > 0 && US % rate == 0
    ensures Display(t, c0, c1, rate) <= Display(t, c0, c2, rate) <==> InOrder(t, c0, c1, c2, rate)
  {
    hide Offset, Saturates;
    OffsetOrder(t, c0, c1, c2, rate);
    SaturatesBeforeZero(t, c0, c1, rate);
    SaturatesBeforeZero(t, c0, c2, rate);
  }

  lemma SaturatesBeforeZero(t: TimeVal, c0: U32, c: U32, rate: U32)
    requires rate > 0
    ensures Saturates(t, c0, c, rate) ==> Offset(t, c0, c, rate) < 0
  {
  }

  lemma InOrderAtOneTick(t: TimeVal, n0: nat, n1: nat, n2: nat)
    requires n0 <= n1 <= n2 && 0 <= t.sec && 0 <= t.usec < US && TimeAt(t, n0, n2, 1) < 0x7FFF_FFFF * US
    ensures NotAfter(Shown(t, n0, n1, 1), Shown(t, n0, n2, 1))
  {
    hide Shown, Shows, NotAfter;
    var x := Dropped(n0 % WORD, 1);
    var m1, m2 := TimeAt(t, n0, n1, 1) - x, TimeAt(t, n0, n2, 1) - x;
    assert PerTick(1) == US;
    ShownAtOneTick(t, n0, n1);
    ShownAtOneTick(t, n0, n2);
    LaterShowsMore(Shown(t, n0, n1, 1), if m1 < 0 then 0 else m1, Shown(t, n0, n2, 1), if m2 < 0 then 0 else m2);
  }

  /** Two readings of a clock at more than one tick a second, at any counter values. */
  lemma OrderOfReadings(t: TimeVal, c0: U32, c1: U32, c2: U32, rate: U32)
    requires rate > 1 && 0 <= t.sec && 0 <= t.usec < US
    requires Expected(t, c0, c1, rate) < 0x7FFF_FFFF * US && Expected(t, c0, c2, rate) < 0x7FFF_FFFF * US
    ensures NotAfter(SetAndRead(t, c0, c1, rate), SetAndRead(t, c0, c2, rate))
       <==> Display(t, c0, c1, rate) <= Display(t, c0, c2, rate)
  {
    hide SetAndRead, Display, Expected, Shows, NotAfter;
    ShownIsDisplay(t, c0, c1, rate);
    ShownIsDisplay(t, c0, c2, rate);
    LaterShowsMore(SetAndRead(t, c0, c1, rate), Display(t, c0, c1, rate),
                   SetAndRead(t, c0, c2, rate), Display(t, c0, c2, rate));
  }

  /**
    When the tick rate divides a million, for any two readings after any setting of the clock, over any number of turns
    of the counter: the second does not show an earlier time than the first if and only if `InOrder`, or the counter
    ticks once a second.
   */
  lemma BackwardsIff(t: TimeVal, n0: nat, n1: nat, n2: nat, rate: U32)
    requires rate > 0 && US % rate == 0 && n0 <= n1 <= n2
    requires 0 <= t.sec && 0 <= t.usec < US && TimeAt(t, n0, n2, rate) < 0x7FFF_FFFF * US
    ensures NotAfter(Shown(t, n0, n1, rate), Shown(t, n0, n2, rate))
       <==> rate == 1 || InOrder(t, n0 % WORD, n1 % WORD, n2 % WORD, rate)
  {
    if rate == 1 {
      hide TimeAt, Shown, NotAfter, InOrder;
      InOrderAtOneTick(t, n0, n1, n2);
    } else {
      hide TimeAt, NotAfter, InOrder, Expected, SetAndRead;
      MoreTicksMoreTime(t, n0, n1, n2, rate);
      ExpectedInRange(t, n0, n1, rate);
      ExpectedInRange(t, n0, n2, rate);
      OrderOfReadings(t, n0 % WORD, n1 % WORD, n2 % WORD, rate);
      InOrderByCases(t, n0 % WORD, n1 % WORD, n2 % WORD, rate);
    }
  }

  lemma MoreTicksMoreTime(t: TimeVal, n0: nat, n1: nat, n2: nat, rate: U32)
    requires rate > 0 && US % rate == 0 && n0 <= n1 <= n2
    ensures Micros(t) <= TimeAt(t, n0, n1, rate) <= TimeAt(t, n0, n2, rate)
  {
    NoTicks(n1 - n0, PerTick(rate));
    MulMonotone(n1 - n0, n2 - n0, PerTick(rate));
  }

  /** Where the counter has not fallen below where it was set, what would be before zero saturates. */
  lemma AheadSaturates(t: TimeVal, c0: U32, c: U32, rate: U32)
    requires rate > 1 && c0 <= c && 0 <= t.sec && 0 <= t.usec < US && Expected(t, c0, c, rate) < 0x7FFF_FFFF * US
    ensures Saturates(t, c0, c, rate) <==> Offset(t, c0, c, rate) < 0
  {
    hide RawTime, ResetTime, Dropped, Fraction, Expected;
    var raw := RawIsOffset(t, c0, c, rate);
  }

  lemma InOrderAhead(t: TimeVal, c0: U32, c1: U32, c2: U32, rate: U32)
    requires rate > 1 && US % rate == 0 && c0 <= c1 <= c2 && 0 <= t.sec && 0 <= t.usec < US
    requires Expected(t, c0, c1, rate) < 0x7FFF_FFFF * US && Expected(t, c0, c2, rate) < 0x7FFF_FFFF * US
    ensures InOrder(t, c0, c1, c2, rate)
  {
    hide Offset, Saturates, Expected;
    AheadSaturates(t, c0, c1, rate);
    AheadSaturates(t, c0, c2, rate);
    OffsetOrder(t, c0, c1, c2, rate);
  }

  /** So within the turn of the counter in which it was set the clock never goes backwards, even if it was set wrong. */
  lemma NeverBackwardsWithinTurn(t: TimeVal, n0: nat, n1: nat, n2: nat, rate: U32)
    requires rate > 0 && US % rate == 0 && n0 <= n1 <= n2 && n0 / WORD == n2 / WORD
    requires 0 <= t.sec && 0 <= t.usec < US && TimeAt(t, n0, n2, rate) < 0x7FFF_FFFF * US
    ensures NotAfter(Shown(t, n0, n1, rate), Shown(t, n0, n2, rate))
  {
    hide TimeAt, Shown, NotAfter, InOrder, Expected;
    BackwardsIff(t, n0, n1, n2, rate);
    QuotientMonotone(n0, n1, WORD);
    QuotientMonotone(n1, n2, WORD);
    MoreTicksMoreTime(t, n0, n1, n2, rate);
    ExpectedInRange(t, n0, n1, rate);
    ExpectedInRange(t, n0, n2, rate);
    if rate > 1 {
      InOrderAhead(t, n0 % WORD, n1 % WORD, n2 % WORD, rate);
    }
  }

  /** After a reading past zero, in whichever turn, the clock goes backwards exactly when the counter does. */
  lemma BackwardsWithCounter(t: TimeVal, c0: U32, c1: U32, c2: U32, rate: U32)
    requires rate > 1 && US % rate == 0 && Offset(t, c0, c1, rate) > 0
    ensures InOrder(t, c0, c1, c2, rate) <==> c1 <= c2
  {
    OffsetOrder(t, c0, c1, c2, rate);
  }

  lemma RemaindersInTurn()
    ensures PerTick(1000) == 1000
    ensures Fraction(1500, 1000) == 500_000 && Dropped(1500, 1000) == 500_000
    ensures Fraction(400, 1000) == 400_000 && Fraction(600, 1000) == 600_000
    ensures (WORD + 400) % WORD == 400 && (WORD + 600) % WORD == 600
  {
  }

  /**
    A clock set to zero at tick 1500, at a thousand ticks a second, and read twice after the counter has wrapped: both
    readings are wrong, and although the counter went on by 200 ticks the second is 0.9 seconds before the first.
   */
  lemma WrongAfterWrap()
    ensures Shown(TimeVal(0, 0), 1500, WORD + 400, 1000) == TimeVal(0, 0)
    ensures Shown(TimeVal(0, 0), 1500, WORD + 600, 1000) == TimeVal(-1, 100_000)
    ensures TimeAt(TimeVal(0, 0), 1500, WORD + 400, 1000) == (WORD - 1100) * 1000
  {
    RemaindersInTurn();
    RawAfterSet(TimeVal(0, 0), 1500, 400, 1000);
    RawAfterSet(TimeVal(0, 0), 1500, 600, 1000);
    assert RawTime(ResetTime(TimeVal(0, 0), 1500, 1000), 400, 1000) == TimeVal(-1, -100_000);
    assert RawTime(ResetTime(TimeVal(0, 0), 1500, 1000), 600, 1000) == TimeVal(-1, 100_000);
  }
}
