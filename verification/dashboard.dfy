/** The dashboard's clock: the time elapsed since the anniversary, split into
    days, hours, minutes and seconds, and the countdown to the next
    anniversary. JavaScript numbers are taken as exact reals; `Math.floor`,
    `Math.ceil` and `%` are written out as JavaScript defines them, and lemmas
    give each result its meaning in integer milliseconds. */
module Dashboard {
  import opened Calendar

  // ---------------------------------------------------------------------------
  // JavaScript number operations

  /** `Math.trunc`: rounds toward zero, to the nearest integer no farther
      from zero than `x`. */
  function Trunc(x: real): (r: int)
    ensures x >= 0.0 ==> 0 <= r && r as real <= x < r as real + 1.0
    ensures x < 0.0 ==> r <= 0 && r as real - 1.0 < x <= r as real
  {
    if x >= 0.0 then x.Floor else -((-x).Floor)
  }

  /** `Math.ceil`: the least integer at or above `x`. */
  function Ceil(x: real): (r: int)
    ensures x <= r as real < x + 1.0
  {
    -((-x).Floor)
  }

  /** The `%` operator on numbers: the remainder takes the sign of the
      dividend, `x - k * trunc(x / k)`: smaller than `k` in size and a whole
      multiple of `k` away from `x`. */
  function JsRem(x: real, k: real): (r: real)
    requires k > 0.0
    ensures x >= 0.0 ==> 0.0 <= r < k
    ensures x < 0.0 ==> -k < r <= 0.0
    ensures ((x - r) / k).Floor as real == (x - r) / k
  {
    RemainderBounds(x, k);
    var r := x - k * (Trunc(x / k) as real);
    WholeMultiple(x, k, Trunc(x / k), r);
    r
  }

  /** What is left after taking `n` times `k` off `x` differs from `x` by a
      whole multiple of `k`. */
  lemma WholeMultiple(x: real, k: real, n: int, r: real)
    requires k > 0.0 && r == x - k * (n as real)
    ensures ((x - r) / k).Floor as real == (x - r) / k
  {
    assert x - r == k * (n as real);
    assert (x - r) / k == n as real;
    assert (n as real).Floor == n;
  }

  /** `x - k * trunc(x / k)` is `k` times the fraction `x / k - trunc(x / k)`,
      which lies in [0, 1) for a non-negative `x` and in (-1, 0] otherwise. */
  lemma RemainderBounds(x: real, k: real)
    requires k > 0.0
    ensures x >= 0.0 ==> 0.0 <= x - k * (Trunc(x / k) as real) < k
    ensures x < 0.0 ==> -k < x - k * (Trunc(x / k) as real) <= 0.0
  {
    var q := x / k;
    assert x == k * q;
    if x >= 0.0 {
      ScaleSign(k, q);
      ScaleFraction(k, x, q, Trunc(q) as real);
    } else {
      ScaleFraction(k, -x, -q, -(Trunc(q) as real));
    }
  }

  lemma ScaleSign(k: real, q: real)
    requires k > 0.0 && k * q >= 0.0
    ensures q >= 0.0
  {
  }

  /** For `x == k * q` with `q` within one above `t`, `x - k * t` lies in
      [0, k). */
  lemma ScaleFraction(k: real, x: real, q: real, t: real)
    requires k > 0.0 && x == k * q && t <= q < t + 1.0
    ensures 0.0 <= x - k * t < k
  {
    var d := q - t;
    ScaleBelowOne(k, d);
    assert x == k * t + k * d;
  }

  /** Scaling a fraction in [0, 1) by a positive `k` stays in [0, k). */
  lemma ScaleBelowOne(k: real, d: real)
    requires k > 0.0 && 0.0 <= d < 1.0
    ensures 0.0 <= k * d < k
  {
    assert k * d < k * 1.0;
  }

  // ---------------------------------------------------------------------------
  // Elapsed time

  /** The four counters the dashboard shows. */
  datatype Elapsed = Elapsed(days: int, hours: int, minutes: int, seconds: int)

  /** The elapsed-time half of `calculateTime`, for `diff` milliseconds
      between the anniversary and now; `diff` is negative before the
      anniversary. */
  function TimeTogether(diff: int): (e: Elapsed)
    ensures e.days * MsPerDay <= diff < (e.days + 1) * MsPerDay
  {
    var d := diff as real;
    FloorQuotient(diff, MsPerDay);
    Elapsed(
      (d / 86_400_000.0).Floor,
      JsRem(d / 3_600_000.0, 24.0).Floor,
      JsRem(d / 1000.0 / 60.0, 60.0).Floor,
      JsRem(d / 1000.0, 60.0).Floor)
  }

  /** For a positive divisor, the floor of the exact quotient is integer
      division. */
  lemma FloorQuotient(a: int, b: int)
    requires b > 0
    ensures (a as real / b as real).Floor == a / b
  {
    var q := a / b;
    var x := a as real / b as real;
    assert q * b <= a < (q + 1) * b;
    assert (q as real) * (b as real) <= a as real;
    assert a as real < ((q + 1) as real) * (b as real);
    assert x * (b as real) == a as real;
    assert q as real <= x < (q + 1) as real;
  }

  /** Truncating an exact quotient is integer division of the magnitude,
      with the dividend's sign. */
  lemma TruncQuotient(a: int, b: int)
    requires b > 0
    ensures Trunc(a as real / b as real) == if a >= 0 then a / b else -((-a) / b)
  {
    FloorQuotient(a, b);
    FloorQuotient(-a, b);
    assert (-a) as real / b as real == -(a as real / b as real);
  }

  /** `Math.floor((a / unit) % k)` in integers: the floor of the quotient less
      `k` times the truncated quotient by `unit * k`. */
  function FloorRem(a: int, unit: int, k: int): int
    requires unit > 0 && k > 0
  {
    a / unit - k * (if a >= 0 then a / (unit * k) else -((-a) / (unit * k)))
  }

  lemma FloorRemOfReal(a: int, unit: int, k: int)
    requires unit > 0 && k > 0
    ensures JsRem(a as real / unit as real, k as real).Floor == FloorRem(a, unit, k)
  {
    var x := a as real / unit as real;
    var t := if a >= 0 then a / (unit * k) else -((-a) / (unit * k));
    QuotientOfQuotient(a, unit, k);
    TruncQuotient(a, unit * k);
    JsRemByTrunc(x, k, t);
    FloorQuotient(a, unit);
    FloorShift(x, k * t);
  }

  /** Dividing by `unit` and then by `k` is dividing by `unit * k`. */
  lemma QuotientOfQuotient(a: int, unit: int, k: int)
    requires unit > 0 && k > 0
    ensures (a as real / unit as real) / k as real == a as real / (unit * k) as real
  {
    assert (unit * k) as real == (unit as real) * (k as real);
  }

  /** With the truncated quotient known, the remainder is an integer multiple
      of `k` away from the dividend. */
  lemma JsRemByTrunc(x: real, k: int, t: int)
    requires k > 0 && Trunc(x / k as real) == t
    ensures JsRem(x, k as real) == x - (k * t) as real
  {
    assert (k as real) * (t as real) == (k * t) as real;
  }

  /** Subtracting an integer commutes with the floor. */
  lemma FloorShift(x: real, n: int)
    ensures (x - n as real).Floor == x.Floor - n
  {
  }

  /** Every counter is plain integer arithmetic on `diff`, whatever its sign. */
  lemma TimeTogetherInIntegers(diff: int)
    ensures TimeTogether(diff) == Elapsed(
      diff / MsPerDay,
      FloorRem(diff, 3_600_000, 24),
      FloorRem(diff, 60_000, 60),
      FloorRem(diff, 1000, 60))
  {
    FloorQuotient(diff, MsPerDay);
    HoursInIntegers(diff);
    MinutesInIntegers(diff);
    SecondsInIntegers(diff);
  }

  lemma HoursInIntegers(diff: int)
    ensures JsRem(diff as real / 3_600_000.0, 24.0).Floor == FloorRem(diff, 3_600_000, 24)
  {
    FloorRemOfReal(diff, 3_600_000, 24);
  }

  lemma MinutesInIntegers(diff: int)
    ensures JsRem(diff as real / 1000.0 / 60.0, 60.0).Floor == FloorRem(diff, 60_000, 60)
  {
    assert diff as real / 1000.0 / 60.0 == diff as real / 60_000.0;
    FloorRemOfReal(diff, 60_000, 60);
  }

  lemma SecondsInIntegers(diff: int)
    ensures JsRem(diff as real / 1000.0, 60.0).Floor == FloorRem(diff, 1000, 60)
  {
    FloorRemOfReal(diff, 1000, 60);
  }

  /** From the anniversary on, the counters are the familiar clock fields:
      hours below 24, minutes and seconds below 60, and together they add up
      to the whole seconds elapsed. */
  lemma TimeTogetherIsClock(diff: int)
    requires diff >= 0
    ensures var e := TimeTogether(diff);
            && 0 <= e.hours < 24 && 0 <= e.minutes < 60 && 0 <= e.seconds < 60
            && e.hours == (diff / 3_600_000) % 24
            && e.minutes == (diff / 60_000) % 60
            && e.seconds == (diff / 1000) % 60
            && e.days * 86_400 + e.hours * 3600 + e.minutes * 60 + e.seconds == diff / 1000
  {
    TimeTogetherInIntegers(diff);
    var s := diff / 1000;
    // Each coarser unit is a whole number of finer ones.
    assert diff / 60_000 == s / 60;
    assert diff / 3_600_000 == s / 3600;
    assert diff / MsPerDay == s / 86_400;
    assert diff / 86_400_000 == (diff / 3_600_000) / 24;
    assert diff / 3_600_000 == (diff / 60_000) / 60;
    assert diff / 60_000 == (diff / 1000) / 60;
  }

  /** Before the anniversary every counter is at most zero: `%` keeps the
      negative sign, so hours run down to -24 and minutes and seconds to -60. */
  lemma TimeTogetherBeforeAnniversary(diff: int)
    requires diff < 0
    ensures var e := TimeTogether(diff);
            && e.days < 0
            && -24 <= e.hours <= 0 && -60 <= e.minutes <= 0 && -60 <= e.seconds <= 0
  {
    TimeTogetherInIntegers(diff);
  }

  /** The bound -24 on hours is reached: 23.5 hours before the anniversary,
      `(-23.5) % 24` is -23.5, whose floor is -24. */
  lemma HoursReachMinusTwentyFour()
    ensures TimeTogether(-84_600_000) == Elapsed(-1, -24, -30, 0)
  {
    TimeTogetherInIntegers(-84_600_000);
  }

  // ---------------------------------------------------------------------------
  // Next anniversary

  /** The next-anniversary half of `calculateTime`: the anniversary moved to
      now's year, and moved again to the following year when now is strictly
      later. The second move starts from the first one's result. */
  function NextAnniversary(anniversary: DateTime, now: DateTime): (r: DateTime)
    requires Valid(anniversary) && Valid(now)
    ensures Valid(r) && Millis(now) <= Millis(r)
    ensures r.msOfDay == anniversary.msOfDay
    ensures r.year == now.year || r.year == now.year + 1
    ensures r.year == now.year + 1 <==> Millis(now) > Millis(SetFullYear(anniversary, now.year))
  {
    var thisYear := SetFullYear(anniversary, now.year);
    if Millis(now) > Millis(thisYear) then
      var r := SetFullYear(thisYear, now.year + 1);
      EarlierYearEarlierInstant(now, r);
      r
    else
      thisYear
  }

  /** Except for a 29 February anniversary, only the year changes. */
  lemma NextAnniversaryKeepsDate(anniversary: DateTime, now: DateTime)
    requires Valid(anniversary) && Valid(now)
    requires !(anniversary.month == 2 && anniversary.day == 29)
    ensures var r := NextAnniversary(anniversary, now);
            r == anniversary.(year := r.year)
  {
  }

  /** Except for a 29 February anniversary, the chosen date is the earliest
      occurrence that is not before now. */
  lemma NextAnniversaryIsEarliest(anniversary: DateTime, now: DateTime, y: int)
    requires Valid(anniversary) && Valid(now)
    requires !(anniversary.month == 2 && anniversary.day == 29)
    requires Valid(anniversary.(year := y)) && Millis(now) <= Millis(anniversary.(year := y))
    ensures NextAnniversary(anniversary, now).year <= y
  {
    if y < now.year {
      EarlierYearEarlierInstant(anniversary.(year := y), now);
    }
  }

  /** `Math.ceil` of the milliseconds to go, in days. */
  function DaysUntil(next: DateTime, now: DateTime): (r: int)
    requires Valid(next) && Valid(now)
    ensures var gap := Millis(next) - Millis(now);
            gap <= r * MsPerDay && (r - 1) * MsPerDay < gap
  {
    var gap := Millis(next) - Millis(now);
    FloorQuotient(-gap, MsPerDay);
    assert -(gap as real / 86_400_000.0) == (-gap) as real / MsPerDay as real;
    Ceil(gap as real / 86_400_000.0)
  }

  /** The countdown is the least number of whole days that covers the time
      to go, and it is never negative. */
  lemma DaysUntilIsLeastCover(anniversary: DateTime, now: DateTime)
    requires Valid(anniversary) && Valid(now)
    ensures var next := NextAnniversary(anniversary, now);
            var gap := Millis(next) - Millis(now);
            var k := DaysUntil(next, now);
            && 0 <= k
            && gap <= k * MsPerDay
            && (k - 1) * MsPerDay < gap
  {
  }

  /** What `calculateTime` stores: the counters, the next anniversary and
      the days until it. */
  datatype Snapshot = Snapshot(elapsed: Elapsed, next: DateTime, daysUntil: int)

  /** `calculateTime`, identical in both dashboards: the counters since the
      anniversary, its next occurrence, and the whole days until then. */
  function CalculateTime(anniversary: DateTime, now: DateTime): (r: Snapshot)
    requires Valid(anniversary) && Valid(now)
    // The next occurrence: this year's, or next year's once this year's has
    // passed; never before now, at the anniversary's time of day, and on its
    // date unless that is 29 February.
    ensures Valid(r.next) && Millis(now) <= Millis(r.next)
    ensures r.next.msOfDay == anniversary.msOfDay
    ensures r.next.year == now.year || r.next.year == now.year + 1
    ensures r.next.year == now.year + 1 <==> Millis(now) > Millis(SetFullYear(anniversary, now.year))
    ensures !(anniversary.month == 2 && anniversary.day == 29) ==>
      r.next == anniversary.(year := r.next.year)
    // The countdown covers the time to go with as few whole days as possible.
    ensures r.daysUntil >= 0
    ensures var gap := Millis(r.next) - Millis(now);
            (r.daysUntil - 1) * MsPerDay < gap <= r.daysUntil * MsPerDay
    // The counters: whole days for either sign, and clock fields from the
    // anniversary on.
    ensures var diff := Millis(now) - Millis(anniversary);
            r.elapsed.days * MsPerDay <= diff < (r.elapsed.days + 1) * MsPerDay
    ensures var diff := Millis(now) - Millis(anniversary);
            var e := r.elapsed;
            diff >= 0 ==>
              && 0 <= e.hours < 24 && 0 <= e.minutes < 60 && 0 <= e.seconds < 60
              && e.hours == (diff / 3_600_000) % 24
              && e.minutes == (diff / 60_000) % 60
              && e.seconds == (diff / 1000) % 60
              && e.days * 86_400 + e.hours * 3600 + e.minutes * 60 + e.seconds == diff / 1000
    ensures var diff := Millis(now) - Millis(anniversary);
            var e := r.elapsed;
            diff < 0 ==> -24 <= e.hours <= 0 && -60 <= e.minutes <= 0 && -60 <= e.seconds <= 0
  {
    var next := NextAnniversary(anniversary, now);
    var diff := Millis(now) - Millis(anniversary);
    DaysUntilIsLeastCover(anniversary, now);
    NextAnniversaryOnDate(anniversary, now);
    CountersBySign(diff);
    Snapshot(TimeTogether(diff), next, DaysUntil(next, now))
  }

  /** `NextAnniversaryKeepsDate` with its date condition moved into the
      conclusion. */
  lemma NextAnniversaryOnDate(anniversary: DateTime, now: DateTime)
    requires Valid(anniversary) && Valid(now)
    ensures !(anniversary.month == 2 && anniversary.day == 29) ==>
      var r := NextAnniversary(anniversary, now);
      r == anniversary.(year := r.year)
  {
    if !(anniversary.month == 2 && anniversary.day == 29) {
      NextAnniversaryKeepsDate(anniversary, now);
    }
  }

  /** The clock facts after the anniversary and the sign facts before it,
      for every `diff`. */
  lemma CountersBySign(diff: int)
    ensures var e := TimeTogether(diff);
            diff >= 0 ==>
              && 0 <= e.hours < 24 && 0 <= e.minutes < 60 && 0 <= e.seconds < 60
              && e.hours == (diff / 3_600_000) % 24
              && e.minutes == (diff / 60_000) % 60
              && e.seconds == (diff / 1000) % 60
              && e.days * 86_400 + e.hours * 3600 + e.minutes * 60 + e.seconds == diff / 1000
    ensures var e := TimeTogether(diff);
            diff < 0 ==> -24 <= e.hours <= 0 && -60 <= e.minutes <= 0 && -60 <= e.seconds <= 0
  {
    if diff >= 0 {
      TimeTogetherIsClock(diff);
    } else {
      TimeTogetherBeforeAnniversary(diff);
    }
  }

  // ---------------------------------------------------------------------------
  // Worked dates

  /** The day before the anniversary, the countdown shows one day and the
      date of this year's occurrence. */
  lemma DayBeforeAnniversary()
    ensures var r := CalculateTime(DateTime(2022, 10, 26, 43_200_000), DateTime(2024, 10, 25, 43_200_000));
            r.next == DateTime(2024, 10, 26, 43_200_000) && r.daysUntil == 1 && r.elapsed.days == 730
  {
    var a := DateTime(2022, 10, 26, 43_200_000);
    var now := DateTime(2024, 10, 25, 43_200_000);
    var next := DateTime(2024, 10, 26, 43_200_000);
    DaysBeforeNextYear(2022);
    DaysBeforeNextYear(2023);
    assert Millis(now) - Millis(a) == 730 * MsPerDay;
    assert Millis(next) - Millis(now) == MsPerDay;
    FloorQuotient(-MsPerDay, MsPerDay);
  }

  /** The day after the anniversary, the countdown moves to next year. */
  lemma DayAfterAnniversary()
    ensures var r := CalculateTime(DateTime(2022, 10, 26, 43_200_000), DateTime(2024, 10, 27, 43_200_000));
            r.next == DateTime(2025, 10, 26, 43_200_000) && r.daysUntil == 364 && r.elapsed.days == 732
  {
    var a := DateTime(2022, 10, 26, 43_200_000);
    var now := DateTime(2024, 10, 27, 43_200_000);
    var next := DateTime(2025, 10, 26, 43_200_000);
    DaysBeforeNextYear(2022);
    DaysBeforeNextYear(2023);
    DaysBeforeNextYear(2024);
    assert Millis(now) - Millis(a) == 732 * MsPerDay;
    assert Millis(next) - Millis(now) == 364 * MsPerDay;
    FloorQuotient(-364 * MsPerDay, MsPerDay);
  }

  /** A 29 February anniversary drifts: once this year's 1 March has passed,
      the second `setFullYear` starts from 1 March, so the countdown skips the
      next leap day and aims at 1 March. */
  lemma LeapDayAnniversaryDrifts()
    ensures var now := DateTime(2023, 3, 5, 0);
            var next := NextAnniversary(DateTime(2020, 2, 29, 0), now);
            var leapDay := DateTime(2024, 2, 29, 0);
            && next == DateTime(2024, 3, 1, 0)
            && Valid(leapDay) && Millis(now) <= Millis(leapDay) < Millis(next)
  {
    var now := DateTime(2023, 3, 5, 0);
    assert SetFullYear(DateTime(2020, 2, 29, 0), 2023) == DateTime(2023, 3, 1, 0);
    SameYearOrder(DateTime(2023, 3, 1, 0), now);
    EarlierYearEarlierInstant(now, DateTime(2024, 2, 29, 0));
    SameYearOrder(DateTime(2024, 2, 29, 0), DateTime(2024, 3, 1, 0));
  }
}
