/** settimeofday and gettimeofday over the tick counter.  Seconds and microseconds are
    32-bit signed words; setting multiplies in 32 bits, getting in 64. */
module TimeOfDay {
  import opened Machine

  const US := 1000000

  /** Error numbers of the C library. */
  const ENOSYS := 88
  const ENOTSUP := 134

  datatype Time = Time(sec: i32, usec: i32)

  datatype Zone = Zone(west: int, dst: int)

  function Micros(t: Time): int {
    t.sec * US + t.usec
  }

  /** Microseconds per tick, as the code computes it. */
  function PerTick(rate: u32): nat
    requires rate > 0
  {
    US / rate
  }

  /** What settimeofday stores. */
  function Reset(t: Time, nticks: u32, rate: u32): Time
    requires rate > 0
  {
    Time(ToI32(t.sec - nticks / rate), ToI32(t.usec - ToU32(nticks * PerTick(rate)) % US))
  }

  /** What gettimeofday starts from. */
  function Raw(reset: Time, nticks: u32, rate: u32): Time
    requires rate > 0
  {
    Time(ToI32(reset.sec + nticks / rate), ToI32(reset.usec + (nticks * PerTick(rate)) % US))
  }

  /** What it makes of that: the same number of microseconds with a proper fraction of a
      second, except that a negative fraction of no time at all is clamped to zero. */
  function Normal(t: Time): Time {
    if t.usec < 0 && Micros(t) < 0 then Time(0, 0)
    else Time(ToI32(Micros(t) / US), Micros(t) % US)
  }

  // ---------------------------------------------------------------- elapsed time

  /** The clock's reading after n ticks from zero, in microseconds. */
  function Elapsed(n: nat, rate: nat): nat
    requires rate > 0
  {
    (n / rate) * US + (n * (US / rate)) % US
  }

  lemma SplitTicks(n: nat, rate: nat, u: nat)
    requires rate > 0 && u == US / rate
    ensures var q, s := n / rate, n % rate;
            n * u == q * (rate * u) + s * u && n == q * rate + s && 0 <= s < rate
  {
  }

  /** When the rate divides a second evenly, the reading is exact. */
  lemma ElapsedExact(n: nat, rate: nat)
    requires 0 < rate && US % rate == 0
    ensures Elapsed(n, rate) == n * (US / rate)
  {
    var u := US / rate;
    var q, s := n / rate, n % rate;
    assert rate * u == US;
    SplitTicks(n, rate, u);
    ScaleUp(s + 1, rate, u);
    assert (s + 1) * u == s * u + u;
    QuotientIs(n * u, US, q);
    assert n * u == (n * u / US) * US + (n * u) % US;
  }

  lemma SecondSecond(n: nat, rate: nat, u: nat, x: nat)
    requires rate > 0 && u == US / rate && rate <= n < 2 * rate && x == n * u
    ensures Elapsed(n, rate) == US + x % US
  {
    QuotientIs(n, rate, 1);
  }

  /** The tick at which the microseconds first fill a second. */
  lemma Crossing(rate: nat, u: nat) returns (m: nat, x: nat)
    requires rate >= 2 && u >= 1 && u * rate < US && US - u * rate < rate
    ensures rate < m < 2 * rate && x == m * u && (m - 1) * u == x - u
    ensures US <= x < US + u && u < US
  {
    m := (US + u - 1) / u;
    x := m * u;
    assert US + u - 1 == m * u + (US + u - 1) % u;
    assert (m - 1) * u == m * u - u;
    FirstOver(rate, u, m);
    BelowSecond(rate, u);
  }

  /** When it does not, elapsed time runs backwards at some tick: the first at which the
      microseconds have made up a second that the ticks have not. */
  lemma GoesBack(rate: nat) returns (n: nat)
    requires 1 <= rate <= US && US % rate != 0
    ensures n + 1 < 2 * rate && Elapsed(n + 1, rate) < Elapsed(n, rate)
  {
    var u := US / rate;
    assert US == u * rate + US % rate && u >= 1;
    var m, x := Crossing(rate, u);
    SecondSecond(m - 1, rate, u, x - u);
    SecondSecond(m, rate, u, x);
    QuotientIs(x, US, 1);
    QuotientIs(x - u, US, 0);
    n := m - 1;
  }

  lemma BelowSecond(rate: nat, u: nat)
    requires rate >= 2 && u >= 1 && u * rate <= US
    ensures u < US
  {
  }

  lemma FirstOver(rate: nat, u: nat, m: nat)
    requires rate >= 1 && u >= 1 && u * rate < US <= m * u && m * u < US + u
    requires US - u * rate < rate
    ensures rate + 1 <= m <= 2 * rate - 1
  {
    if m <= rate {
      ScaleOrder(u, m, rate);
    }
    if m >= 2 * rate {
      ScaleOrder(u, 2 * rate, m);
      assert u * (2 * rate) == u * rate + u * rate;
      ScaleOrder(rate, 1, u);
      OneLess(rate, u);
    }
  }

  lemma OneLess(rate: nat, u: nat)
    requires rate >= 1 && u >= 1
    ensures u * rate - u >= rate - 1
  {
  }

  /** When it does, or when a tick is worth no microseconds at all, it never does. */
  lemma GoesForward(n: nat, rate: nat)
    requires 1 <= rate && (US % rate == 0 || rate > US)
    ensures Elapsed(n, rate) <= Elapsed(n + 1, rate)
  {
    if US % rate == 0 {
      ElapsedExact(n, rate);
      ElapsedExact(n + 1, rate);
      assert (n + 1) * (US / rate) == n * (US / rate) + US / rate;
    } else {
      WholeSeconds(n, rate);
      WholeSeconds(n + 1, rate);
      TruncDivMonotone(n, n + 1, rate);
    }
  }

  lemma WholeSeconds(n: nat, rate: nat)
    requires rate > US
    ensures Elapsed(n, rate) == TruncDiv(n, rate) * US
  {
    QuotientIs(US, rate, 0);
  }

  // ----------------------------------------------------------------- the reading

  /** What gettimeofday returns, in microseconds, after settimeofday has stored `reset`. */
  function ReadingFrom(reset: Time, n: u32, rate: u32): int
    requires rate > 0
  {
    Micros(Normal(Raw(reset, n, rate)))
  }

  /** And before any time has been set. */
  function Reading(n: u32, rate: u32): int
    requires rate > 0
  {
    ReadingFrom(Time(0, 0), n, rate)
  }

  /** As long as the seconds fit, it is the elapsed time. */
  lemma ReadingIs(n: u32, rate: u32)
    requires 0 < rate && n / rate < 0x8000_0000
    ensures Reading(n, rate) == Elapsed(n, rate)
  {
    var sec, usec := n / rate, (n * PerTick(rate)) % US;
    assert Raw(Time(0, 0), n, rate) == Time(sec, usec);
    QuotientIs(sec * US + usec, US, sec);
  }

  /** At one tick a second the seconds overflow before the counter does. */
  lemma SecondsOverflow()
    ensures Reading(0x8000_0000, 1) < Reading(0x7FFF_FFFF, 1)
  {
    ReadingIs(0x7FFF_FFFF, 1);
  }

  /** At any other rate the seconds fit for as long as the counter does not wrap. */
  lemma SecondsFit(n: u32, rate: u32)
    requires rate >= 2
    ensures 0 <= n / rate < 0x8000_0000
  {
    var q := n / rate;
    assert n == q * rate + n % rate;
    if q >= 0x8000_0000 {
      ScaleOrder(q, 2, rate);
    }
  }

  /** Between two wraps of the tick counter the clock is steady exactly when the rate
      divides a million or is above it, and is not one tick a second. */
  lemma SteadyExactly(rate: u32)
    requires 1 <= rate
    ensures rate != 1 && (US % rate == 0 || rate > US)
       <==> forall n: u32 :: n < TWO_32 - 1 ==> Reading(n, rate) <= Reading(n + 1, rate)
  {
    hide Reading, Elapsed;
    if rate == 1 {
      SecondsOverflow();
      var n: u32 := 0x7FFF_FFFF;
      assert n + 1 == 0x8000_0000;
    } else if US % rate == 0 || rate > US {
      forall n: u32 | n < TWO_32 - 1
        ensures Reading(n, rate) <= Reading(n + 1, rate)
      {
        ReadingFits(n, rate);
        ReadingFits(n + 1, rate);
        GoesForward(n, rate);
      }
    } else {
      var n := GoesBack(rate);
      ReadingFits(n, rate);
      ReadingFits(n + 1, rate);
    }
  }

  lemma ReadingFits(n: u32, rate: u32)
    requires rate >= 2
    ensures Reading(n, rate) == Elapsed(n, rate)
  {
    SecondsFit(n, rate);
    ReadingIs(n, rate);
  }

  lemma NormalKeeps(sec: i32, usec: i32)
    requires sec < 0x7FFF_FFFF && -US < usec < 2 * US && 0 <= sec * US + usec
    ensures Micros(Normal(Time(sec, usec))) == sec * US + usec
  {
    var micros := sec * US + usec;
    var q := micros / US;
    assert micros == q * US + micros % US;
    assert 0 <= q < 0x8000_0000;
  }

  lemma RawFits(reset: Time, n: u32, rate: u32, q: int, f: int)
    requires 0 < rate && q == n / rate && f == (n * PerTick(rate)) % US
    requires -0x8000_0000 <= reset.sec + q < 0x8000_0000 && -0x8000_0000 <= reset.usec + f < 0x8000_0000
    ensures Raw(reset, n, rate) == Time(reset.sec + q, reset.usec + f)
  {
    hide PerTick;
  }

  lemma ReadingAdds(reset: Time, n: u32, rate: u32)
    requires 0 < rate && 0 <= Micros(reset) && -US < reset.usec < US && reset.sec + n / rate < 0x7FFF_FFFF
    ensures ReadingFrom(reset, n, rate) == Micros(reset) + Elapsed(n, rate)
  {
    var q, f := n / rate, (n * PerTick(rate)) % US;
    assert Elapsed(n, rate) == q * US + f;
    TruncDivBound(n, rate);
    hide Normal, Raw, Elapsed, PerTick, TruncDiv;
    RawFits(reset, n, rate, q, f);
    NormalKeeps(reset.sec + q, reset.usec + f);
  }

  /** The same after any time has been set that leaves the seconds room, and that is not
      stored as one before the epoch. */
  lemma SteadyFrom(reset: Time, rate: u32)
    requires 1 <= rate && 0 <= Micros(reset) && -US < reset.usec < US
    requires reset.sec + (TWO_32 - 1) / rate < 0x7FFF_FFFF
    ensures US % rate == 0 || rate > US
       <==> forall n: u32 :: n < TWO_32 - 1 ==> ReadingFrom(reset, n, rate) <= ReadingFrom(reset, n + 1, rate)
  {
    hide ReadingFrom, Elapsed;
    forall n: u32
      ensures ReadingFrom(reset, n, rate) == Micros(reset) + Elapsed(n, rate)
    {
      TruncDivMonotone(n, TWO_32 - 1, rate);
      ReadingAdds(reset, n, rate);
    }
    if US % rate == 0 || rate > US {
      forall n: u32 | n < TWO_32 - 1
        ensures ReadingFrom(reset, n, rate) <= ReadingFrom(reset, n + 1, rate)
      {
        GoesForward(n, rate);
      }
    } else {
      var n := GoesBack(rate);
      assert ReadingFrom(reset, n + 1, rate) < ReadingFrom(reset, n, rate);
    }
  }

  /** When the counter wraps, the clock always goes back. */
  lemma WrapGoesBack(rate: u32)
    requires rate >= 2
    ensures Reading(0, rate) < Reading(TWO_32 - 1, rate)
  {
    ReadingFits(0, rate);
    ReadingFits(TWO_32 - 1, rate);
    var q := (TWO_32 - 1) / rate;
    assert TWO_32 - 1 == q * rate + (TWO_32 - 1) % rate;
  }

  // ------------------------------------------------------------- set, then get

  lemma WrapSum(x: int, y: int)
    ensures ToI32(ToI32(x) + y) == ToI32(x + y)
  {
  }

  /** The 32-bit product loses a multiple of a second exactly when it wraps a multiple of
      15625 times: 2^32 and a million share only the factor 64. */
  lemma WrapsMatter(x: nat)
    ensures ToU32(x) % US == x % US <==> (x / TWO_32) % 15625 == 0
  {
    var m := x / TWO_32;
    assert x == m * TWO_32 + ToU32(x);
    SecondsLost(m);
    if m % 15625 == 0 {
      Shift(ToU32(x), m * TWO_32);
    } else if ToU32(x) % US == x % US {
      var p, q := x / US, ToU32(x) / US;
      assert x == p * US + x % US && ToU32(x) == q * US + x % US;
      assert m * TWO_32 == (p - q) * US;
      Multiple(p - q);
    }
  }

  lemma Multiple(n: int)
    ensures (n * US) % US == 0
  {
  }

  lemma Shift(x: int, y: int)
    requires y % US == 0
    ensures (x + y) % US == x % US
  {
  }

  lemma SecondsLost(m: nat)
    ensures (m * TWO_32) % US == 0 <==> m % 15625 == 0
  {
    if m % 15625 == 0 {
      var j := m / 15625;
      assert m == j * 15625;
      assert m * TWO_32 == (j * 67108864) * US;
      Multiple(j * 67108864);
    }
    if (m * TWO_32) % US == 0 {
      var i := m * TWO_32 / US;
      assert m * TWO_32 == i * US;
      assert m * 67108864 == i * 15625;
      assert m == 15625 * (12659 * i + (-54369991) * m);
    }
  }

  /** The microseconds that a 32-bit product loses at tick n. */
  function Lost(n: u32, rate: u32): int
    requires rate > 0
  {
    (n * PerTick(rate)) % US - ToU32(n * PerTick(rate)) % US
  }

  /** The microseconds that gettimeofday finds k ticks after t was set at tick n, before
      it makes a proper fraction of them. */
  function Fraction(t: Time, n: u32, k: nat, rate: u32): int
    requires rate > 0
  {
    t.usec - ToU32(n * PerTick(rate)) % US + ((n + k) * PerTick(rate)) % US
  }

  /** Neither the seconds nor the microseconds leave 32 bits on the way. */
  predicate Roomy(t: Time, n: u32, k: nat, rate: u32)
    requires rate > 0
  {
    && -0x8000_0000 + US <= t.usec < 0x8000_0000 - US
    && t.sec - n / rate + (n + k) / rate < 0x8000_0000
  }

  /** Setting at tick n and getting k ticks later counts k ticks, plus what was lost. */
  lemma RawAfterSet(t: Time, n: u32, k: nat, rate: u32, ku: nat)
    requires 0 < rate && US % rate == 0 && n + k < TWO_32 && ku == k * PerTick(rate) && Roomy(t, n, k, rate)
    ensures var raw := Raw(Reset(t, n, rate), n + k, rate);
            Micros(raw) == Micros(t) + ku + Lost(n, rate) && raw.usec == Fraction(t, n, k, rate)
  {
    var u := PerTick(rate);
    var q0, q1 := n / rate, (n + k) / rate;
    ElapsedExact(n, rate);
    ElapsedExact(n + k, rate);
    TruncDivMonotone(n, n + k, rate);
    assert (n + k) * u == n * u + ku;
    var x0, x1 := n * u, (n + k) * u;
    var e, a, b := x0 % US, ToU32(x0) % US, x1 % US;
    assert (q1 - q0) * US == ku + e - b;
    hide ToI32, ToU32;
    WrapSum(t.sec - q0, q1);
    WrapSum(t.usec - a, b);
  }

  /** The time of day at a number of microseconds. */
  function TimeAt(micros: int): Time
    requires -0x8000_0000 <= micros / US < 0x8000_0000
  {
    Time(micros / US, micros % US)
  }

  /** What the two loops make of a sum that is off by `lost`. */
  lemma NormalExactly(raw: Time, micros: int, lost: int)
    requires Micros(raw) == micros + lost && -US < lost < US && -0x8000_0000 <= micros / US < 0x8000_0000
    ensures Normal(raw) == TimeAt(micros) <==>
              if micros > 0 then lost == 0
              else if micros < 0 then lost == 0 && raw.usec >= 0
              else lost == 0 || (lost < 0 && raw.usec < 0)
  {
  }

  lemma NothingLost(n: u32, rate: u32)
    requires 0 < rate
    ensures Lost(n, rate) == 0 <==> (n * PerTick(rate) / TWO_32) % 15625 == 0
    ensures -US < Lost(n, rate) < US
  {
    var x := n * PerTick(rate);
    WrapsMatter(x);
  }

  /** The clock is exact, to the microsecond and however many ticks later it is read, if
      and only if the 32-bit product wrapped a multiple of 15625 times when the time was
      set: for a realistic uptime, if it did not wrap.  Before the epoch the fraction
      must also come out non-negative, as otherwise the reading is clamped to the epoch;
      and at the epoch itself the clamp can hide a loss. */
  lemma ExactExactly(t: Time, n: u32, k: nat, rate: u32, elapsed: nat)
    requires 0 < rate && US % rate == 0 && n + k < TWO_32 && elapsed == k * PerTick(rate) && Roomy(t, n, k, rate)
    requires -0x8000_0000 <= (Micros(t) + elapsed) / US < 0x8000_0000
    ensures var micros := Micros(t) + elapsed;
            var kept := (n * PerTick(rate) / TWO_32) % 15625 == 0;
            Normal(Raw(Reset(t, n, rate), n + k, rate)) == TimeAt(micros) <==>
              if micros > 0 then kept
              else if micros < 0 then kept && Fraction(t, n, k, rate) >= 0
              else kept || (Lost(n, rate) < 0 && Fraction(t, n, k, rate) < 0)
  {
    RawAfterSet(t, n, k, rate, elapsed);
    NothingLost(n, rate);
    hide Normal, Raw, Reset, Lost, PerTick, Fraction;
    NormalExactly(Raw(Reset(t, n, rate), n + k, rate), Micros(t) + elapsed, Lost(n, rate));
  }

  /** A clock set before the epoch can read the epoch instead. */
  lemma ClampedToEpoch()
    ensures Normal(Raw(Reset(Time(-5, 0), 150, 100), 210, 100)) == Time(0, 0) != TimeAt(Micros(Time(-5, 0)) + 60 * 10000)
  {
  }

  lemma NoTicks(u: nat)
    ensures 0 * u == 0
  {
  }

  /** Set and read at once: the time set, before the epoch or after it, absent
      wrap-around. */
  lemma ReadBack(t: Time, n: u32, rate: u32)
    requires 0 < rate && US % rate == 0 && n * PerTick(rate) < TWO_32 && 0 <= t.usec < US
    ensures Normal(Raw(Reset(t, n, rate), n, rate)) == t
  {
    hide Normal, Raw, Reset;
    var x := n * PerTick(rate);
    QuotientIs(x, TWO_32, 0);
    QuotientIs(Micros(t), US, t.sec);
    NoTicks(PerTick(rate));
    ExactExactly(t, n, 0, rate, 0);
    assert TimeAt(Micros(t)) == t;
    assert Fraction(t, n, 0, rate) == t.usec;
  }

  // --------------------------------------------------------------------- the clock

  class Clock {
    var nticks: u32
    var rate: u32
    var reset: Time
    var zone: Zone
    var errno: int

    /** Before the system clock starts there are no ticks, and all times are zero. */
    constructor ()
      ensures nticks == 0 && rate == 0 && reset == Time(0, 0) && zone == Zone(0, 0)
    {
      nticks, rate, reset, zone, errno := 0, 0, Time(0, 0), Zone(0, 0), 0;
    }

    /** ALT_SETTIMEOFDAY. */
    method SetTimeOfDay(t: Time, tz: Zone) returns (rc: int)
      modifies `reset, `zone, `errno
      ensures rate != 0 ==> rc == 0 && reset == Reset(t, nticks, rate) && zone == tz && errno == old(errno)
      ensures rate == 0 ==> rc == -1 && errno == ENOSYS && reset == old(reset) && zone == old(zone)
    {
      if rate != 0 {
        var sec := ToI32(t.sec - nticks / rate);
        var usec := ToI32(t.usec - ToU32(nticks * (US / rate)) % US);
        reset := Time(sec, usec);
        zone := tz;
        return 0;
      }
      errno := ENOSYS;
      return -1;
    }

    /** The borrowing loop of ALT_GETTIMEOFDAY. */
    static method Borrow(raw: Time) returns (t: Time)
      ensures t.usec >= 0 && (raw.usec < 0 ==> t.usec < US) && (raw.usec >= 0 ==> t == raw)
      ensures if raw.usec < 0 && Micros(raw) < 0 then t == Time(0, 0) else Micros(t) == Micros(raw)
    {
      var sec: int, usec: int := raw.sec, raw.usec;
      while usec < 0
        invariant -0x8000_0000 <= sec <= raw.sec && raw.usec <= usec
        invariant sec * US + usec == Micros(raw)
        invariant usec >= 0 ==> (sec, usec) == (raw.sec, raw.usec) || (sec >= 0 && usec < US)
        decreases -usec
      {
        if sec <= 0 {
          return Time(0, 0);
        }
        sec := sec - 1;
        usec := usec + US;
      }
      return Time(sec, usec);
    }

    /** The carrying loop. */
    static method Carry(raw: Time) returns (t: Time)
      requires raw.usec >= 0
      ensures t == Time(ToI32(Micros(raw) / US), Micros(raw) % US)
    {
      var sec: i32, usec: int := raw.sec, raw.usec;
      ghost var carried := raw.sec;
      while usec >= US
        invariant 0 <= usec < 0x8000_0000
        invariant sec == ToI32(carried) && carried * US + usec == Micros(raw)
        decreases usec
      {
        WrapSum(carried, 1);
        sec := ToI32(sec + 1);
        usec := usec - US;
        carried := carried + 1;
      }
      QuotientIs(Micros(raw), US, carried);
      return Time(sec, usec);
    }

    /** Both loops. */
    static method Normalise(raw: Time) returns (t: Time)
      ensures t == Normal(raw)
    {
      var borrowed := Borrow(raw);
      t := Carry(borrowed);
    }

    /** ALT_GETTIMEOFDAY. */
    method GetTimeOfDay() returns (rc: int, t: Time, tz: Zone)
      ensures rate != 0 ==> rc == 0 && t == Normal(Raw(reset, nticks, rate)) && tz == zone
      ensures rate == 0 ==> rc == -ENOTSUP
    {
      if rate != 0 {
        var sec: int := ToI32(reset.sec + nticks / rate);
        var usec: int := ToI32(reset.usec + (nticks * (US / rate)) % US);
        var normal := Normalise(Time(sec, usec));
        return 0, normal, zone;
      }
      return -ENOTSUP, Time(0, 0), zone;
    }
  }
}
