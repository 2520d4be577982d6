/** settimeofday and gettimeofday of the HAL: wall-clock time from a tick counter
    and the reset time that makes up the difference. */
module WallClock {
  import opened Wrappers

  const US: int := 1000000
  const I31: int := 0x8000_0000
  const U64: int := 0x1_0000_0000_0000_0000

  datatype Time = Time(sec: int, usec: int)

  datatype Zone = Zone(minutesWest: int, dst: int)

  datatype Status = Ok | NotSupported

  // Conversion to a 32-bit long.
  function Long(x: int): (r: int)
    ensures -I31 <= r < I31
    ensures -I31 <= x < I31 ==> r == x
  {
    (x + I31) % U32 - I31
  }

  function Micros(t: Time): int { t.sec * US + t.usec }

  predicate Normal(t: Time) { 0 <= t.usec < US }

  // Microseconds within the second, as 64-bit arithmetic computes them from the ticks.
  function TickMicros(nticks: nat, rate: nat): (m: int)
    requires rate > 0
    ensures 0 <= m < US
  {
    (nticks * (US / rate)) % U64 % US
  }

  function ResetTime(t: Time, nticks: nat, rate: nat): Time
    requires rate > 0
  {
    Time(Long(t.sec - nticks / rate), Long(t.usec - TickMicros(nticks, rate)))
  }

  // What the two normalising loops make of a time: the same instant with its microseconds in
  // range; an instant before zero with negative microseconds is clamped to zero.
  function Normalised(t: Time): Time {
    if t.usec < 0 && Micros(t) < 0 then Time(0, 0) else Time(Micros(t) / US, Micros(t) % US)
  }

  function Reading(reset: Time, nticks: nat, rate: nat): Time
    requires rate > 0
  {
    Normalised(Time(Long(reset.sec + nticks / rate), Long(reset.usec + TickMicros(nticks, rate))))
  }

  class Clock {
    var reset: Time
    var zone: Zone

    constructor ()
      ensures reset == Time(0, 0) && zone == Zone(0, 0)
    {
      reset, zone := Time(0, 0), Zone(0, 0);
    }

    // ALT_SETTIMEOFDAY. The tick count and the tick rate come from the system clock driver.
    method SetTimeOfDay(t: Time, tz: Zone, nticks: nat, rate: nat) returns (status: Status)
      modifies this
      ensures rate == 0 ==> status == NotSupported && reset == old(reset) && zone == old(zone)
      ensures rate > 0 ==> status == Ok && reset == ResetTime(t, nticks, rate) && zone == tz
    {
      if rate == 0 {
        return NotSupported;
      }
      var sec := Long(t.sec - nticks / rate);
      var usec := Long(t.usec - (nticks * (US / rate)) % U64 % US);
      reset := Time(sec, usec);
      zone := tz;
      return Ok;
    }

    // ALT_GETTIMEOFDAY, with `was` for the caller's old value.
    method GetTimeOfDay(was: Time, nticks: nat, rate: nat) returns (status: Status, t: Time, tz: Zone)
      ensures rate == 0 ==> status == NotSupported && t == was
      ensures rate > 0 ==> status == Ok && t == Reading(reset, nticks, rate) && tz == zone
    {
      tz := zone;
      if rate == 0 {
        return NotSupported, was, tz;
      }
      var sec := Long(reset.sec + nticks / rate);
      var usec := Long(reset.usec + (nticks * (US / rate)) % U64 % US);
      status := Ok;
      ghost var raw := Time(sec, usec);
      while usec < 0
        invariant Micros(Time(sec, usec)) == Micros(raw) && (raw.usec >= 0 ==> usec == raw.usec)
        invariant raw.usec < 0 && usec >= 0 ==> sec >= 0
        decreases -usec
      {
        if sec <= 0 {
          sec, usec := 0, 0;
          break;
        } else {
          sec, usec := sec - 1, usec + US;
        }
      }
      ghost var low := Time(sec, usec);
      assert usec >= 0 && (if raw.usec < 0 && Micros(raw) < 0 then low == Time(0, 0) else Micros(low) == Micros(raw));
      while usec >= US
        invariant Micros(Time(sec, usec)) == Micros(low) && usec >= 0
        decreases usec
      {
        sec, usec := sec + 1, usec - US;
      }
      t := Time(sec, usec);
      DivUnique(Micros(low), sec, usec);
    }
  }

  lemma DivUnique(x: int, q: int, r: int)
    requires x == q * US + r && 0 <= r < US
    ensures x / US == q && x % US == r
  {}

  // ----- setting, then reading

  // For a tick rate that divides a second into whole microseconds, seconds and
  // microseconds of a tick count add up to the elapsed time.
  lemma TicksAddUp(n: nat, rate: nat)
    requires rate > 0 && US % rate == 0
    ensures (n / rate) * US + (n * (US / rate)) % US == n * (US / rate)
  {
    var q, a, b := US / rate, n / rate, n % rate;
    assert rate * q == US && n == rate * a + b;
    assert n * q == a * US + b * q by { Expand(rate, a, b, q); }
    assert 0 <= b * q < US by { BelowSecond(b, rate, q); }
    DivUnique(n * q, a, b * q);
  }

  lemma Expand(rate: int, a: int, b: int, q: int)
    ensures (rate * a + b) * q == a * (rate * q) + b * q
  {}

  lemma BelowSecond(b: nat, rate: nat, q: nat)
    requires b < rate && rate * q == US
    ensures b * q < US
  {
    assert (rate - b) * q == rate * q - b * q;
    assert q == 0 ==> rate * q == 0;
    assert (rate - b) * q >= q by { MulAtLeast(rate - b, q); }
  }

  lemma MulAtLeast(x: nat, q: nat)
    requires x >= 1
    ensures x * q >= q
  {}

  lemma TickMicrosExact(n: nat, rate: nat)
    requires rate > 0 && n * (US / rate) < U64
    ensures TickMicros(n, rate) == (n * (US / rate)) % US
  {
    NoWrap(n * (US / rate));
  }

  lemma NoWrap(x: nat)
    requires x < U64
    ensures x % U64 == x
  {}

  lemma LongTwice(x: int, y: int)
    ensures Long(Long(x) + y) == Long(x + y)
  {}

  // Set at tick n0 and read at tick n1: exactly the time set plus the elapsed microseconds,
  // normalised and never clamped, even when the reset time itself has wrapped.
  lemma SetThenGet(t: Time, n0: nat, n1: nat, rate: nat)
    requires rate > 0 && US % rate == 0
    requires Normal(t) && 0 <= t.sec < I31 && n0 <= n1
    requires n1 * (US / rate) < U64
    requires Micros(t) + (n1 - n0) * (US / rate) < (I31 - 1) * US
    ensures var now := Reading(ResetTime(t, n0, rate), n1, rate);
            Normal(now) && now.sec >= 0 && Micros(now) == Micros(t) + (n1 - n0) * (US / rate)
  {
    TicksAddUp(n0, rate);
    TicksAddUp(n1, rate);
    Ordered(n0, n1, US / rate);
    TickMicrosExact(n0, rate);
    TickMicrosExact(n1, rate);
    hide TickMicros; hide Long; hide Normalised;
    SetThenGetParts(t, n0 / rate, TickMicros(n0, rate), n1 / rate, TickMicros(n1, rate));
  }

  // Set and read at the same tick: whatever the rate, the time set.
  lemma SetThenGetAtOnce(t: Time, n: nat, rate: nat)
    requires rate > 0 && Normal(t) && -I31 <= t.sec < I31
    ensures Reading(ResetTime(t, n, rate), n, rate) == t
  {
    var a, m := n / rate, TickMicros(n, rate);
    LongTwice(t.sec - a, a);
    LongTwice(t.usec - m, m);
    hide TickMicros; hide Long;
    assert Long(t.sec) == t.sec && Long(t.usec) == t.usec;
    DivUnique(Micros(t), t.sec, t.usec);
  }

  // The same with the tick counts already split into seconds a and microseconds m.
  lemma SetThenGetParts(t: Time, a0: int, m0: int, a1: int, m1: int)
    requires Normal(t) && 0 <= t.sec < I31 && 0 <= m0 < US && 0 <= m1 < US
    requires 0 <= (a1 * US + m1) - (a0 * US + m0)
    requires Micros(t) + (a1 * US + m1) - (a0 * US + m0) < (I31 - 1) * US
    ensures var now := Normalised(Time(Long(Long(t.sec - a0) + a1), Long(Long(t.usec - m0) + m1)));
            Normal(now) && now.sec >= 0 && Micros(now) == Micros(t) + (a1 * US + m1) - (a0 * US + m0)
  {
    var sec, usec := t.sec - a0 + a1, t.usec - m0 + m1;
    LongTwice(t.sec - a0, a1);
    assert sec * US + usec == Micros(t) + (a1 * US + m1) - (a0 * US + m0);
    assert Long(sec) == sec && Long(t.usec - m0) + m1 == usec;
  }

  lemma Ordered(n0: nat, n1: nat, q: nat)
    requires n0 <= n1
    ensures n0 * q <= n1 * q && (n1 - n0) * q == n1 * q - n0 * q
  {}

  // ----- which tick rates make a clock

  // The clock at boot, when nothing has been set, in unbounded arithmetic.
  function Uptime(n: nat, rate: nat): int
    requires rate > 0
  {
    (n / rate) * US + (n * (US / rate)) % US
  }

  // What the clock shows after n ticks for any reset time, in unbounded arithmetic.
  function Shown(reset: Time, n: nat, rate: nat): int
    requires rate > 0
  {
    Micros(Normalised(Time(reset.sec + n / rate, reset.usec + (n * (US / rate)) % US)))
  }

  // Without wrap-around this is what reading the clock returns.
  lemma ShownIsReading(reset: Time, n: nat, rate: nat)
    requires rate > 0 && n * (US / rate) < U64
    requires -I31 <= reset.sec + n / rate < I31 && -I31 <= reset.usec + TickMicros(n, rate) < I31
    ensures Micros(Reading(reset, n, rate)) == Shown(reset, n, rate)
  {
    TickMicrosExact(n, rate);
    hide Normalised;
  }

  // Once the instant is not before zero, the clock shows the reset time plus the uptime.
  lemma ShownIsSum(reset: Time, n: nat, rate: nat)
    requires rate > 0 && Micros(reset) + Uptime(n, rate) >= 0
    ensures Shown(reset, n, rate) == Micros(reset) + Uptime(n, rate)
  {
    SumShown(reset, n / rate, (n * (US / rate)) % US);
  }

  lemma SumShown(reset: Time, a: int, m: int)
    requires Micros(reset) + (a * US + m) >= 0
    ensures Micros(Normalised(Time(reset.sec + a, reset.usec + m))) == Micros(reset) + (a * US + m)
  {}

  ghost predicate Exact(rate: nat)
    requires rate > 0
  {
    forall n: nat :: Uptime(n, rate) == n * (US / rate)
  }

  // The clock never runs backwards from tick n0 on.
  ghost predicate MonotoneFrom(reset: Time, n0: nat, rate: nat)
    requires rate > 0
  {
    forall n: nat, m: nat :: n0 <= n <= m ==> Shown(reset, n, rate) <= Shown(reset, m, rate)
  }

  // Every tick counts the same number of microseconds exactly when the rate divides a million.
  lemma ExactExactlyWhen(rate: nat)
    requires rate > 0
    ensures Exact(rate) <==> US % rate == 0
  {
    if US % rate == 0 {
      forall n: nat ensures Uptime(n, rate) == n * (US / rate) { TicksAddUp(n, rate); }
    } else {
      FirstSecond(rate);
    }
  }

  // After `rate` ticks the seconds have moved on but the microseconds have not come round.
  lemma FirstSecond(rate: nat)
    requires rate > 0 && US % rate != 0
    ensures rate * (US / rate) < US && Uptime(rate, rate) == US + rate * (US / rate)
  {
    var q := US / rate;
    assert US == rate * q + US % rate && rate * q >= 0;
    SecondOf(rate, 0, rate);
  }

  lemma SecondOf(n: nat, j: nat, rate: nat)
    requires j < rate && n == rate + j
    ensures n / rate == 1
  {}

  // With a rate below a million that does not divide it, the clock runs backwards: once the
  // microseconds wrap round, late in the second after `rate` ticks.
  lemma RunsBackwards(rate: nat, j: nat)
    requires 0 < rate && US % rate != 0 && 1 <= j < rate
    requires (rate + j - 1) * (US / rate) < US <= (rate + j) * (US / rate) < 2 * US
    requires US / rate < US
    ensures Uptime(rate + j, rate) < Uptime(rate + j - 1, rate)
  {
    var q := US / rate;
    SecondOf(rate + j, j, rate);
    SecondOf(rate + j - 1, j - 1, rate);
    DivUnique((rate + j) * q, 1, (rate + j) * q - US);
    assert (rate + j) * q == (rate + j - 1) * q + q by { Distribute(rate + j - 1, q); }
  }

  lemma Distribute(x: int, q: int)
    ensures (x + 1) * q == x * q + q
  {}

  // There is such a tick: the first one whose microseconds reach a full second.
  lemma WrapTick(rate: nat) returns (j: nat)
    requires 0 < rate < US && US % rate != 0
    ensures 1 <= j < rate && US / rate < US
    ensures (rate + j - 1) * (US / rate) < US <= (rate + j) * (US / rate) < 2 * US
  {
    var q, s := US / rate, US % rate;
    assert US == rate * q + s;
    assert 1 <= q < US;
    j := 1;
    while j * q < s
      invariant 1 <= j <= s && (j - 1) * q < s
      decreases s - j
    {
      MulAtLeast(q, j);
      j := j + 1;
    }
    assert (rate + j) * q == rate * q + j * q && (rate + j - 1) * q == rate * q + (j - 1) * q;
    assert j * q == (j - 1) * q + q by { Distribute(j - 1, q); }
  }

  lemma UptimeMonotone(n: nat, m: nat, rate: nat)
    requires rate > 0 && (US % rate == 0 || rate > US) && n <= m
    ensures Uptime(n, rate) <= Uptime(m, rate)
  {
    if US % rate == 0 {
      TicksAddUp(n, rate);
      TicksAddUp(m, rate);
      Ordered(n, m, US / rate);
    } else {
      assert US / rate == 0;
      QuotMonotone(n, m, rate);
    }
  }

  // The microseconds come round after rate * US ticks, whatever the rate.
  lemma UptimePeriod(n: nat, i: nat, rate: nat)
    requires rate > 0
    ensures Uptime(n + rate * (US * i), rate) == Uptime(n, rate) + US * i * US
  {
    var q, c := US / rate, US * i;
    DivShift(n, rate, c);
    assert (n + rate * c) * q == n * q + US * (rate * i * q) by {
      SumTimes(n, rate * c, q);
      assert (rate * c) * q == (US * (rate * i)) * q == US * (rate * i * q);
    }
    ModShift(n * q, rate * i * q);
    SumTimes(n / rate, c, US);
  }

  lemma SumTimes(x: nat, y: nat, q: nat)
    ensures (x + y) * q == x * q + y * q
  {}

  lemma DivShift(n: nat, d: nat, c: nat)
    requires d > 0
    ensures (n + d * c) / d == n / d + c
  {
    assert n == d * (n / d) + n % d;
    var x := n + d * c;
    assert x == d * (n / d + c) + n % d;
    assert x == d * (x / d) + x % d;
    if x / d < n / d + c { MulOrder(d, x / d + 1, n / d + c); }
    if x / d > n / d + c { MulOrder(d, n / d + c + 1, x / d); }
  }

  lemma ModShift(x: nat, c: nat)
    ensures (x + US * c) % US == x % US
  {}

  // The microseconds of the uptime after n ticks.
  function Fraction(n: nat, rate: nat): (f: int)
    requires rate > 0
    ensures 0 <= f < US
  {
    (n * (US / rate)) % US
  }

  // The clock is never seen to fall from a clamped instant to one before zero. That takes a reset
  // time with microseconds before zero that the ticks can make up for, and enough time to do so
  // before second zero.
  predicate OnTime(reset: Time, n0: nat, rate: nat)
    requires rate > 0
  {
    || reset.usec >= 0 || reset.usec <= -US || -reset.usec > US - US / rate
    || reset.sec + n0 / rate + (if Fraction(n0, rate) >= -reset.usec then 1 else 0) >= 0
  }

  // Whatever the clock was set to, from whatever tick on: it never runs backwards exactly when the
  // rate exceeds a million, or divides it and the clock is on time.
  lemma MonotoneExactlyWhen(reset: Time, n0: nat, rate: nat)
    requires rate > 0
    ensures MonotoneFrom(reset, n0, rate) <==> rate > US || (US % rate == 0 && OnTime(reset, n0, rate))
  {
    hide OnTime; hide Shown; hide Uptime; hide Micros;
    if rate > US || (US % rate == 0 && OnTime(reset, n0, rate)) {
      forall n: nat, m: nat | n0 <= n <= m ensures Shown(reset, n, rate) <= Shown(reset, m, rate) {
        UptimeMonotone(n0, n, rate);
        UptimeMonotone(n, m, rate);
        NoDrop(reset, n0, n, m, rate);
      }
    } else if US % rate == 0 {
      var n, m := DropTicks(reset, n0, rate);
      assert Shown(reset, n, rate) > Shown(reset, m, rate);
    } else {
      var n := BackwardsTick(reset, n0, rate);
      ShownIsSum(reset, n, rate);
      ShownIsSum(reset, n + 1, rate);
      assert Shown(reset, n, rate) > Shown(reset, n + 1, rate);
    }
  }

  // In particular from any tick at which the instant is not before zero, whatever the reset time.
  lemma MonotoneFromZeroExactlyWhen(reset: Time, n0: nat, rate: nat)
    requires rate > 0 && Micros(reset) + Uptime(n0, rate) >= 0
    ensures MonotoneFrom(reset, n0, rate) <==> US % rate == 0 || rate > US
  {
    MonotoneExactlyWhen(reset, n0, rate);
  }

  // What is shown, by whether it is clamped.
  lemma ShownCases(reset: Time, n: nat, rate: nat)
    requires rate > 0
    ensures var raw := (reset.sec + n / rate) * US + (reset.usec + Fraction(n, rate));
            && raw == Micros(reset) + Uptime(n, rate)
            && Shown(reset, n, rate) == if reset.usec + Fraction(n, rate) < 0 && raw < 0 then 0 else raw
  {
    Clamped(Time(reset.sec + n / rate, reset.usec + Fraction(n, rate)));
  }

  lemma Clamped(t: Time)
    ensures Micros(Normalised(t)) == if t.usec < 0 && Micros(t) < 0 then 0 else Micros(t)
  {}

  lemma NoDrop(reset: Time, n0: nat, n: nat, m: nat, rate: nat)
    requires rate > 0 && n0 <= n <= m && Uptime(n0, rate) <= Uptime(n, rate) <= Uptime(m, rate)
    requires rate > US || (US % rate == 0 && OnTime(reset, n0, rate))
    ensures Shown(reset, n, rate) <= Shown(reset, m, rate)
  {
    ShownCases(reset, n, rate);
    ShownCases(reset, m, rate);
    QuotMonotone(n0, n, rate);
    QuotMonotone(n, m, rate);
    FractionBound(m, rate);
    hide Shown;
    if rate > US {
      assert US / rate == 0;
      NoFraction(n, rate);
      NoFraction(m, rate);
    }
  }

  lemma NoFraction(n: nat, rate: nat)
    requires rate > 0 && US / rate == 0
    ensures Fraction(n, rate) == 0
  {
    assert n * 0 == 0;
  }

  // Tick b of second a, for a rate that divides a million.
  lemma TickOf(a: nat, b: nat, rate: nat)
    requires rate > 0 && US % rate == 0 && b < rate
    ensures (rate * a + b) / rate == a && Fraction(rate * a + b, rate) == b * (US / rate)
  {
    var q := US / rate;
    assert rate * q == US;
    DivShift(b, rate, a);
    assert b / rate == 0;
    assert (rate * a + b) * q == a * US + b * q by { Expand(rate, a, b, q); }
    BelowSecond(b, rate, q);
    DivUnique((rate * a + b) * q, a, b * q);
  }

  lemma FractionBound(n: nat, rate: nat)
    requires rate > 0
    ensures US % rate == 0 ==> Fraction(n, rate) <= US - US / rate
  {
    if US % rate == 0 {
      var q, b := US / rate, n % rate;
      assert n == rate * (n / rate) + b && rate * q == US;
      TickOf(n / rate, b, rate);
      MulOrder(q, b, rate - 1);
      assert q * (rate - 1) == US - q by { Distribute(rate - 1, q); }
    }
  }

  // The first tick from n0 on whose microseconds do not make up for `short`, and its second.
  lemma ShortTick(n0: nat, short: nat, rate: nat) returns (n: nat, a: nat)
    requires rate > 0 && US % rate == 0 && 0 < short
    ensures n0 <= n && n / rate == a && Fraction(n, rate) < short && n <= rate * a + (rate - 1)
    ensures a == n0 / rate + if Fraction(n0, rate) >= short then 1 else 0
  {
    n, a := n0, n0 / rate;
    assert n0 == rate * a + n0 % rate;
    if Fraction(n0, rate) >= short {
      assert rate * (a + 1) == rate * a + rate;
      n, a := rate * (a + 1), a + 1;
      TickOf(a, 0, rate);
    }
  }

  lemma LastTick(a: nat, rate: nat)
    requires rate > 0 && US % rate == 0
    ensures (rate * a + (rate - 1)) / rate == a && Fraction(rate * a + (rate - 1), rate) == US - US / rate
  {
    var q := US / rate;
    TickOf(a, rate - 1, rate);
    assert (rate - 1) * q == US - q by { Distribute(rate - 1, q); }
  }

  // The two ticks between which a clock that is not on time falls back.
  lemma DropTicks(reset: Time, n0: nat, rate: nat) returns (n: nat, m: nat)
    requires rate > 0 && US % rate == 0 && !OnTime(reset, n0, rate)
    ensures n0 <= n <= m && Shown(reset, m, rate) < 0 == Shown(reset, n, rate)
  {
    hide Shown; hide Fraction; hide Uptime;
    var a;
    n, a := ShortTick(n0, -reset.usec, rate);
    m := rate * a + (rate - 1);
    LastTick(a, rate);
    ShownCases(reset, n, rate);
    ShownCases(reset, m, rate);
  }

  // A tick as late as wanted, after which the clock runs backwards.
  lemma BackwardsTick(reset: Time, n0: nat, rate: nat) returns (n: nat)
    requires 0 < rate < US && US % rate != 0
    ensures n0 <= n && Uptime(n + 1, rate) < Uptime(n, rate) && Micros(reset) + Uptime(n + 1, rate) >= 0
  {
    var j := WrapTick(rate);
    RunsBackwards(rate, j);
    var i := n0 + if Micros(reset) < 0 then -Micros(reset) else 0;
    UptimePeriod(rate + j - 1, i, rate);
    UptimePeriod(rate + j, i, rate);
    n := rate + j - 1 + rate * (US * i);
    MulAtLeast(rate, US * i);
    UptimeNotNegative(rate + j, rate);
    hide Uptime;
  }

  lemma UptimeNotNegative(n: nat, rate: nat)
    requires rate > 0
    ensures Uptime(n, rate) >= 0
  {}

  // Set to five seconds before zero at tick 1, at a million ticks a second: tick 1000000, a
  // microsecond short of minus four seconds, reads zero, and the next tick reads minus four seconds.
  lemma BeforeZeroRunsBackwards()
    ensures ResetTime(Time(-5, 0), 1, US) == Time(-5, -1)
    ensures Reading(Time(-5, -1), 1000000, US) == Time(0, 0) && Reading(Time(-5, -1), 1000001, US) == Time(-4, 0)
    ensures !OnTime(Time(-5, -1), 1, US)
  {
    assert TickMicros(1, US) == 1 && TickMicros(1000000, US) == 0 && TickMicros(1000001, US) == 1;
    assert Fraction(1, US) == 1;
    hide TickMicros; hide Fraction;
  }

  // Three ticks a second do not divide a million: the boot clock loses two thirds of a second.
  lemma ThreeTicksRunBackwards()
    ensures Reading(Time(0, 0), 3, 3) == Time(1, 999999) && Reading(Time(0, 0), 4, 3) == Time(1, 333332)
  {
    assert TickMicros(3, 3) == 999999 && TickMicros(4, 3) == 333332;
    hide TickMicros;
  }

  lemma QuotMonotone(n: nat, m: nat, rate: nat)
    requires rate > 0 && n <= m
    ensures n / rate <= m / rate
  {
    if n / rate > m / rate {
      assert n == rate * (n / rate) + n % rate && m == rate * (m / rate) + m % rate;
      assert rate * (n / rate) >= rate * (m / rate + 1) by { MulOrder(rate, m / rate + 1, n / rate); }
    }
  }

  lemma MulOrder(x: nat, a: int, b: int)
    requires a <= b
    ensures x * a <= x * b
  {}
}
