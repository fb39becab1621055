/**
 Migration 015: intervals in minutes become cron expressions.  Time is counted in whole minutes of
 unbounded UTC, minute 0 being the midnight at which some Sunday starts.
 */
module CronConversion {
  import opened Options

  // ---------------------------------------------------------------- cron expressions

  /** One field of an expression: *, a step (written with a slash), a single value, or any list or range of values. */
  datatype CronField = Every | StepOf(k: nat) | At(n: nat) | OneOf(values: set<nat>)

  /** Minute, hour and day of week; day of month and month are *. */
  datatype Cron = Cron(minute: CronField, hour: CronField, weekday: CronField)

  predicate FieldMatches(f: CronField, value: nat) {
    match f
    case Every => true
    case StepOf(k) => k > 0 && value % k == 0
    case At(n) => value == n
    case OneOf(values) => value in values
  }

  predicate Fires(c: Cron, x: int) {
    FieldMatches(c.minute, x % 60) && FieldMatches(c.hour, (x / 60) % 24) && FieldMatches(c.weekday, (x / 60 / 24) % 7)
  }

  const ALLOWLIST: map<int, Cron> := map[
    5 := Cron(StepOf(5), Every, Every),
    10 := Cron(StepOf(10), Every, Every),
    15 := Cron(StepOf(15), Every, Every),
    20 := Cron(StepOf(20), Every, Every),
    30 := Cron(StepOf(30), Every, Every),
    60 := Cron(At(0), Every, Every),
    120 := Cron(At(0), StepOf(2), Every),
    180 := Cron(At(0), StepOf(3), Every),
    240 := Cron(At(0), StepOf(4), Every),
    360 := Cron(At(0), StepOf(6), Every),
    480 := Cron(At(0), StepOf(8), Every),
    720 := Cron(At(0), StepOf(12), Every),
    1440 := Cron(At(0), At(2), Every)
  ]

  // ---------------------------------------------------------------- division facts

  lemma MulAtLeast(d: int, k: int)
    requires d >= 1 && k >= 1
    ensures d * k >= k
  {
    assert d * k == (d - 1) * k + k;
  }

  lemma ModUnique(x: int, k: int, q: int, r: int)
    requires k >= 1 && 0 <= r < k && x == q * k + r
    ensures x % k == r && x / k == q
  {
    var p := x / k;
    assert x == p * k + x % k;
    assert (p - q) * k == p * k - q * k;
    assert (q - p) * k == q * k - p * k;
    if q < p { MulAtLeast(p - q, k); }
    if p < q { MulAtLeast(q - p, k); }
  }

  lemma ModAddMultiple(x: int, m: int, k: int)
    requires k >= 1
    ensures (m * k + x) % k == x % k
  {
    var q := x / k;
    assert (m + q) * k == m * k + q * k;
    ModUnique(m * k + x, k, m + q, x % k);
  }

  lemma ModOfSum(q: int, c: int, k: int, r: int)
    requires k >= 1
    ensures (q * (c * k) + r) % k == r % k
  {
    ModAddMultiple(r, q * c, k);
    assert q * (c * k) == (q * c) * k;
  }

  lemma ModOfMod(x: int, k: int, n: int)
    requires 1 <= k && 1 <= n && n % k == 0
    ensures (x % n) % k == x % k
  {
    ModOfSum(x / n, n / k, k, x % n);
    assert n == (n / k) * k;
    assert x == (x / n) * n + x % n;
  }

  // ---------------------------------------------------------------- even spacing

  ghost predicate Continues(fires: int -> bool, gap: int, x: int) {
    fires(x) ==> fires(x + gap) && fires(x - gap)
  }

  ghost predicate NoneBetween(fires: int -> bool, gap: int, x: int, z: int) {
    fires(x) && x < z < x + gap ==> !fires(z)
  }

  /** Firings are exactly gap apart, for ever in both directions. */
  ghost predicate EvenlySpaced(fires: int -> bool, gap: int) {
    && (exists x :: fires(x))
    && (forall x :: Continues(fires, gap, x))
    && (forall x, z :: NoneBetween(fires, gap, x, z))
  }

  /** The firings of a step of k in a cycle of n. */
  function StepFires(k: int, n: int): int -> bool
    requires 1 <= k && 1 <= n
  {
    x => (x % n) % k == 0
  }

  /** The instants that are p modulo m. */
  function Residue(m: int, p: int): int -> bool
    requires m >= 1
  {
    x => x % m == p
  }

  function FiringsOf(c: Cron): int -> bool {
    x => Fires(c, x)
  }

  lemma MultiplesAreSpaced(k: int, at: int)
    requires 1 <= k && 0 <= at < k
    ensures EvenlySpaced(Residue(k, at), k)
  {
    var fires := Residue(k, at);
    assert fires(at) by { ModUnique(at, k, 0, at); }
    forall x ensures Continues(fires, k, x) {
      ModAddMultiple(x, 1, k);
      ModAddMultiple(x, -1, k);
    }
    forall x, z ensures NoneBetween(fires, k, x, z) {
      if fires(x) && x < z < x + k { NothingBetween(x, z, k, at); }
    }
  }

  lemma NothingBetween(x: int, z: int, k: int, at: int)
    requires 1 <= k && x % k == at && x < z < x + k
    ensures z % k != at
  {
    var q := x / k;
    assert x == q * k + at;
    assert (q + 1) * k == q * k + k;
    if at + (z - x) < k {
      ModUnique(z, k, q, at + (z - x));
    } else {
      ModUnique(z, k, q + 1, at + (z - x) - k);
    }
  }

  lemma SpacingIsExtensional(f: int -> bool, g: int -> bool, gap: int)
    requires EvenlySpaced(f, gap) && forall x :: f(x) == g(x)
    ensures EvenlySpaced(g, gap)
  {
    var x :| f(x);
    assert g(x);
    forall x ensures Continues(g, gap, x) { assert Continues(f, gap, x); }
    forall x, z ensures NoneBetween(g, gap, x, z) { assert NoneBetween(f, gap, x, z); }
  }

  lemma FirstFirings(k: int, n: int)
    requires 1 <= k < n
    ensures StepFires(k, n)(0) && StepFires(k, n)(k) && StepFires(k, n)(n)
    ensures forall x :: 0 < x < k ==> !StepFires(k, n)(x)
  {
    ModUnique(0, n, 0, 0);
    ModUnique(k, n, 0, k);
    ModUnique(k, k, 1, 0);
    ModUnique(n, n, 1, 0);
    forall x | 0 < x < k ensures !StepFires(k, n)(x) {
      ModUnique(x, n, 0, x);
      ModUnique(x, k, 0, x);
    }
  }

  /** When k does not divide n, the last firing of a cycle is less than k before the next cycle. */
  lemma LastFiring(k: int, n: int) returns (last: int)
    requires 1 <= k < n && n % k != 0
    ensures 0 < n - last < k && StepFires(k, n)(last)
  {
    var q := n / k;
    last := q * k;
    assert n == last + n % k;
    ModUnique(last, n, 0, last);
    ModUnique(last, k, q, 0);
  }

  lemma GapAtLeast(f: int -> bool, gap: int, k: int)
    requires EvenlySpaced(f, gap) && gap > 0 && f(0) && forall x :: 0 < x < k ==> !f(x)
    ensures gap >= k
  {
    assert Continues(f, gap, 0);
  }

  lemma SpacedDivides(k: int, n: int, gap: int)
    requires 1 <= k <= n && gap > 0 && EvenlySpaced(StepFires(k, n), gap)
    ensures n % k == 0
  {
    if k == n {
      ModUnique(n, k, 1, 0);
    } else if n % k != 0 {
      FirstFirings(k, n);
      GapAtLeast(StepFires(k, n), gap, k);
      var last := LastFiring(k, n);
      hide EvenlySpaced;
      NoFiringBetween(StepFires(k, n), gap, last, n);
    }
  }

  /**
   A step of k in a cycle of n fires at even distances if and only if k divides n, and then the distance
   is k.  This is why a step of 45 is no 45-minute interval.
   */
  lemma StepIsEvenIffDivides(k: int, n: int)
    requires 1 <= k <= n
    ensures n % k == 0 <==> exists gap :: gap > 0 && EvenlySpaced(StepFires(k, n), gap)
    ensures n % k == 0 ==> EvenlySpaced(StepFires(k, n), k)
  {
    if n % k == 0 {
      MultiplesAreSpaced(k, 0);
      forall x ensures Residue(k, 0)(x) == StepFires(k, n)(x) { ModOfMod(x, k, n); }
      SpacingIsExtensional(Residue(k, 0), StepFires(k, n), k);
    }
    if gap :| gap > 0 && EvenlySpaced(StepFires(k, n), gap) {
      SpacedDivides(k, n, gap);
    }
  }

  // ---------------------------------------------------------------- the conversions are exact

  lemma MinuteStepFires(k: nat, x: int)
    requires 1 <= k && 60 % k == 0
    ensures Fires(Cron(StepOf(k), Every, Every), x) <==> x % k == 0
  {
    ModOfMod(x, k, 60);
  }

  /** On the hour, every j hours from h: one value modulo 60 * j. */
  lemma HourFires(j: nat, h: nat, x: int)
    requires 1 <= j && 24 % j == 0 && h < j
    ensures x % 60 == 0 && ((x / 60) % 24) % j == h <==> x % (60 * j) == 60 * h
  {
    var hours := x / 60;
    ModOfMod(hours, j, 24);
    assert x == 60 * hours + x % 60;
    var q, r := hours / j, hours % j;
    assert hours == q * j + r;
    assert 60 * (q * j + r) == q * (60 * j) + 60 * r;
    ModUnique(x, 60 * j, q, 60 * r + x % 60);
  }

  /** The value of x modulo m at which an allowlisted expression fires. */
  function Phase(m: int): int {
    if m == 1440 then 120 else 0
  }

  /** When an allowlisted expression fires: at the multiples of its interval, and the daily one at two in the morning. */
  lemma AllowlistFires(m: int, x: int)
    requires m in ALLOWLIST
    ensures Fires(ALLOWLIST[m], x) <==> x % m == if m == 1440 then 2 * 60 else 0
  {
    if m < 60 {
      MinuteStepFires(m, x);
    } else if m == 60 {
      assert Fires(ALLOWLIST[m], x) <==> x % 60 == 0;
    } else if m == 1440 {
      HourFires(24, 2, x);
      assert ((x / 60) % 24) % 24 == (x / 60) % 24;
    } else {
      HourFires(m / 60, 0, x);
    }
  }

  /**
   Interval conversion is exact for ever: each allowlisted expression fires exactly m minutes apart, at every
   point of unbounded time.
   */
  lemma ConversionIsExact(m: int)
    requires m in ALLOWLIST
    ensures EvenlySpaced(FiringsOf(ALLOWLIST[m]), m)
  {
    MultiplesAreSpaced(m, Phase(m));
    forall x ensures Residue(m, Phase(m))(x) == FiringsOf(ALLOWLIST[m])(x) { AllowlistFires(m, x); }
    SpacingIsExtensional(Residue(m, Phase(m)), FiringsOf(ALLOWLIST[m]), m);
  }

  lemma DivisorsOf60(m: int)
    requires 1 <= m < 60
    ensures 60 % m == 0 <==> m in {1, 2, 3, 4, 5, 6, 10, 12, 15, 20, 30}
  {
    if m > 30 { ModUnique(60, m, 1, 60 - m); }
    else if 20 < m < 30 { ModUnique(60, m, 2, 60 - 2 * m); }
    else if 15 < m < 20 { ModUnique(60, m, 3, 60 - 3 * m); }
    else if 12 < m < 15 { ModUnique(60, m, 4, 60 - 4 * m); }
    else if m == 11 { ModUnique(60, m, 5, 5); }
    else if 6 < m < 10 { ModUnique(60, m, if m == 9 then 6 else if m == 8 then 7 else 8, if m == 9 then 6 else 4); }
    else { ModUnique(60, m, if m == 30 then 2 else if m == 20 then 3 else if m == 15 then 4 else if m == 12 then 5
                            else if m == 10 then 6 else if m == 6 then 10 else if m == 5 then 12 else if m == 4 then 15
                            else if m == 3 then 20 else if m == 2 then 30 else 60, 0); }
  }

  lemma DivisorsOf24(j: int)
    requires 1 <= j <= 24
    ensures 24 % j == 0 <==> j in {1, 2, 3, 4, 6, 8, 12, 24}
  {
    if 12 < j < 24 { ModUnique(24, j, 1, 24 - j); }
    else if 8 < j < 12 { ModUnique(24, j, 2, 24 - 2 * j); }
    else if j == 7 { ModUnique(24, j, 3, 3); }
    else if j == 5 { ModUnique(24, j, 4, 4); }
    else { ModUnique(24, j, if j == 24 then 1 else if j == 12 then 2 else if j == 8 then 3 else if j == 6 then 4
                            else if j == 4 then 6 else if j == 3 then 8 else if j == 2 then 12 else 24, 0); }
  }

  /** Whole hours: the allowlist has exactly the intervals that fit a day. */
  lemma HoursAllowedExactlyWhenTheyFit(j: int)
    requires 1 <= j <= 24
    ensures 60 * j in ALLOWLIST <==> 24 % j == 0
  {
    DivisorsOf24(j);
  }

  lemma StepCronExact(m: int)
    requires 1 <= m < 60
    ensures EvenlySpaced(FiringsOf(Cron(StepOf(m), Every, Every)), m) <==> 60 % m == 0
  {
    StepIsEvenIffDivides(m, 60);
    var step, cron := StepFires(m, 60), FiringsOf(Cron(StepOf(m), Every, Every));
    forall x ensures step(x) == cron(x) { assert Fires(Cron(StepOf(m), Every, Every), x) == ((x % 60) % m == 0); }
    if EvenlySpaced(step, m) {
      SpacingIsExtensional(step, cron, m);
    } else if EvenlySpaced(cron, m) {
      SpacingIsExtensional(cron, step, m);
    }
  }

  // ---------------------------------------------------------------- which intervals have a cron expression

  lemma NextFiring(f: int -> bool, gap: int, x: int)
    requires EvenlySpaced(f, gap) && f(x)
    ensures f(x + gap) && f(x - gap)
  {
    assert Continues(f, gap, x);
  }

  lemma NoFiringBetween(f: int -> bool, gap: int, x: int, z: int)
    requires EvenlySpaced(f, gap) && f(x) && x < z < x + gap
    ensures !f(z)
  {
    assert NoneBetween(f, gap, x, z);
  }

  lemma {:induction false} StepsFire(f: int -> bool, gap: int, x: int, q: int)
    requires gap > 0 && EvenlySpaced(f, gap) && f(x)
    ensures f(x + q * gap)
    decreases if q < 0 then -q else q
  {
    hide EvenlySpaced;
    if q > 0 {
      StepsFire(f, gap, x, q - 1);
      NextFiring(f, gap, x + (q - 1) * gap);
      assert x + q * gap == x + (q - 1) * gap + gap;
    } else if q < 0 {
      StepsFire(f, gap, x, q + 1);
      NextFiring(f, gap, x + (q + 1) * gap);
      assert x + q * gap == x + (q + 1) * gap - gap;
    }
  }

  /** Two firings are a multiple of the gap apart. */
  lemma OnGrid(f: int -> bool, gap: int, x: int, y: int)
    requires gap > 0 && EvenlySpaced(f, gap) && f(x) && f(y)
    ensures (y - x) % gap == 0
  {
    hide EvenlySpaced;
    var q := (y - x) / gap;
    StepsFire(f, gap, x, q);
    var u := x + q * gap;
    assert y - x == q * gap + (y - x) % gap;
    if u < y { NoFiringBetween(f, gap, u, y); }
  }

  lemma NearMeansSame(f: int -> bool, gap: int, x: int, y: int)
    requires gap > 0 && EvenlySpaced(f, gap) && f(x) && f(y) && -gap < y - x < gap
    ensures x == y
  {
    OnGrid(f, gap, x, y);
    hide EvenlySpaced;
    if y - x >= 0 {
      ModUnique(y - x, gap, 0, y - x);
    } else {
      ModUnique(y - x, gap, -1, y - x + gap);
    }
  }

  lemma SomeFiring(f: int -> bool, gap: int) returns (x: int)
    requires EvenlySpaced(f, gap)
    ensures f(x) && f(x + gap)
  {
    x :| f(x);
    assert Continues(f, gap, x);
  }

  /** A stretch at least as long as the gap has a firing. */
  lemma StretchHasFiring(f: int -> bool, gap: int, from: int, length: int) returns (z: int)
    requires gap > 0 && EvenlySpaced(f, gap) && length >= gap
    ensures from <= z < from + length && f(z)
  {
    hide EvenlySpaced;
    var x := SomeFiring(f, gap);
    var q := (from - x) / gap;
    assert from - x == q * gap + (from - x) % gap;
    assert (q + 1) * gap == q * gap + gap;
    if (from - x) % gap == 0 {
      StepsFire(f, gap, x, q);
      z := x + q * gap;
    } else {
      StepsFire(f, gap, x, q + 1);
      z := x + (q + 1) * gap;
    }
  }

  lemma FiringAt(c: Cron, minute: int, hour: int, x: int)
    requires 0 <= minute < 60 && x == 60 * hour + minute
    ensures x % 60 == minute && x / 60 == hour
    ensures Fires(c, x) <==>
            FieldMatches(c.minute, minute) && FieldMatches(c.hour, hour % 24) && FieldMatches(c.weekday, (hour / 24) % 7)
  {
  }

  /** An interval below an hour divides the hour. */
  lemma MinutesDivideHour(c: Cron, m: int)
    requires 1 <= m < 60 && EvenlySpaced(FiringsOf(c), m)
    ensures 60 % m == 0
  {
    hide EvenlySpaced;
    hide FieldMatches;
    var f := FiringsOf(c);
    var x := SomeFiring(f, m);
    var hour := x / 60;
    var z := StretchHasFiring(f, m, 60 * (hour + 1), 60);
    FiringAt(c, x % 60, hour, x);
    FiringAt(c, z - 60 * (hour + 1), hour + 1, z);
    FiringAt(c, x % 60, hour + 1, x + 60);
    OnGrid(f, m, x, x + 60);
  }

  /** In an hour in which a firing stands, every minute fires that fires in any other. */
  lemma SameHourFires(c: Cron, minute: int, other: int, hour: int, later: int)
    requires 0 <= minute < 60 && 0 <= other < 60 && Fires(c, 60 * hour + minute) && Fires(c, 60 * later + other)
    ensures Fires(c, 60 * hour + other)
  {
    hide FieldMatches;
    FiringAt(c, minute, hour, 60 * hour + minute);
    FiringAt(c, other, later, 60 * later + other);
    FiringAt(c, other, hour, 60 * hour + other);
  }

  /** Likewise the hours of a day. */
  lemma SameDayFires(c: Cron, minute: int, hour: int, later: int, moved: int)
    requires 0 <= minute < 60 && Fires(c, 60 * hour + minute) && Fires(c, 60 * later + minute)
    requires moved / 24 == hour / 24 && moved % 24 == later % 24
    ensures Fires(c, 60 * moved + minute)
  {
    hide FieldMatches;
    FiringAt(c, minute, hour, 60 * hour + minute);
    FiringAt(c, minute, later, 60 * later + minute);
    FiringAt(c, minute, moved, 60 * moved + minute);
  }

  /** Any other interval is whole hours. */
  lemma LongerIsWholeHours(c: Cron, m: int)
    requires m >= 60 && EvenlySpaced(FiringsOf(c), m)
    ensures m % 60 == 0
  {
    hide EvenlySpaced;
    hide Fires;
    var f := FiringsOf(c);
    var x := SomeFiring(f, m);
    var minute, other, hour := x % 60, (x + m) % 60, x / 60;
    SameHourFires(c, minute, other, hour, (x + m) / 60);
    NearMeansSame(f, m, x, 60 * hour + other);
  }

  /** An interval of whole hours, up to a day, divides the day. */
  lemma HoursDivideDay(c: Cron, m: int)
    requires 60 <= m <= 1440 && EvenlySpaced(FiringsOf(c), m)
    ensures 1440 % m == 0
  {
    hide EvenlySpaced;
    hide FieldMatches;
    var f := FiringsOf(c);
    var x := SomeFiring(f, m);
    var minute, hour := x % 60, x / 60;
    var day := hour / 24;
    var z := StretchHasFiring(f, m, 1440 * (day + 1), 1440);
    var z' := z / 60;
    assert z' / 24 == day + 1 && (hour + 24) / 24 == day + 1 && (hour + 24) % 24 == hour % 24;
    FiringAt(c, minute, hour, x);
    FiringAt(c, z % 60, z', z);
    FiringAt(c, minute, hour + 24, x + 1440);
    hide Fires;
    OnGrid(f, m, x, x + 1440);
  }

  lemma SameInDay(hour: int, other: int) returns (moved: int)
    ensures moved / 24 == hour / 24 && moved % 24 == other % 24 && -24 < moved - hour < 24
    ensures moved == hour ==> (other - hour) % 24 == 0
  {
    moved := 24 * (hour / 24) + other % 24;
  }

  lemma WholeDays(m: int)
    requires m % 60 == 0 && (m / 60) % 24 == 0
    ensures m % 1440 == 0
  {
  }

  /** A longer interval is whole days. */
  lemma LongestIsWholeDays(c: Cron, m: int)
    requires m > 1440 && EvenlySpaced(FiringsOf(c), m)
    ensures m % 1440 == 0
  {
    LongerIsWholeHours(c, m);
    hide EvenlySpaced;
    hide Fires;
    var f := FiringsOf(c);
    var x := SomeFiring(f, m);
    var hours := m / 60;
    assert m == 60 * hours;
    var minute, hour := x % 60, x / 60;
    var moved := SameInDay(hour, hour + hours);
    SameDayFires(c, minute, hour, hour + hours, moved);
    NearMeansSame(f, m, x, 60 * moved + minute);
    WholeDays(m);
  }

  /** Whatever it is, the interval divides the week. */
  lemma IntervalDividesWeek(c: Cron, m: int)
    requires m >= 1 && EvenlySpaced(FiringsOf(c), m)
    ensures 10080 % m == 0
  {
    hide EvenlySpaced;
    hide FieldMatches;
    var f := FiringsOf(c);
    var x := SomeFiring(f, m);
    var minute, hour := x % 60, x / 60;
    assert (hour + 168) % 24 == hour % 24 && ((hour + 168) / 24) % 7 == (hour / 24) % 7;
    FiringAt(c, minute, hour, x);
    FiringAt(c, minute, hour + 168, x + 10080);
    hide Fires;
    OnGrid(f, m, x, x + 10080);
  }

  lemma DayOnlyUpToADay(c: Cron, m: int)
    requires m >= 1 && c.weekday == Every && EvenlySpaced(FiringsOf(c), m)
    ensures m <= 1440
  {
    hide EvenlySpaced;
    var f := FiringsOf(c);
    var x := SomeFiring(f, m);
    var minute, hour := x % 60, x / 60;
    assert (hour + 24) % 24 == hour % 24;
    FiringAt(c, minute, hour, x);
    FiringAt(c, minute, hour + 24, x + 1440);
    hide Fires;
    if m > 1440 { NearMeansSame(f, m, x, x + 1440); }
  }

  lemma HoursOfDay(m: int, j: int)
    requires j >= 1 && m == 60 * j && 1440 % m == 0
    ensures 24 % j == 0
  {
    var k := 1440 / m;
    assert 1440 == k * m;
    assert k * (60 * j) == 60 * (k * j);
    ModUnique(24, j, k, 0);
  }

  lemma DaysOfWeek(m: int, j: int)
    requires j >= 1 && m == 1440 * j && 10080 % m == 0
    ensures j == 1 || j == 7
  {
    var k := 10080 / m;
    assert 10080 == k * m;
    assert k * (1440 * j) == 1440 * (k * j);
    assert k * j == 7;
    if j > 7 { ModUnique(7, j, 0, 7); ModUnique(7, j, k, 0); }
    if 1 < j < 7 { ModUnique(7, j, k, 0); }
  }

  const SHORT_INTERVALS: set<int> := {1, 2, 3, 4, 6, 12}
  const WEEK: int := 10080

  /** A cron expression fires exactly m minutes apart. */
  ghost predicate HasCron(m: int) {
    exists c: Cron :: EvenlySpaced(FiringsOf(c), m)
  }

  /** Such an expression has * for the day of week too. */
  ghost predicate HasDailyCron(m: int) {
    exists c: Cron :: c.weekday == Every && EvenlySpaced(FiringsOf(c), m)
  }

  lemma CronIntervals(c: Cron, m: int)
    requires m >= 1 && EvenlySpaced(FiringsOf(c), m)
    ensures m in ALLOWLIST || m in SHORT_INTERVALS || m == WEEK
  {
    hide EvenlySpaced;
    if m < 60 {
      MinutesDivideHour(c, m);
      DivisorsOf60(m);
    } else if m <= 1440 {
      LongerIsWholeHours(c, m);
      HoursDivideDay(c, m);
      HoursOfDay(m, m / 60);
      DivisorsOf24(m / 60);
    } else {
      LongestIsWholeDays(c, m);
      IntervalDividesWeek(c, m);
      DaysOfWeek(m, m / 1440);
    }
  }

  lemma WeeklyIsExact()
    ensures EvenlySpaced(FiringsOf(Cron(At(0), At(0), At(0))), WEEK)
  {
    var c := Cron(At(0), At(0), At(0));
    MultiplesAreSpaced(WEEK, 0);
    forall x ensures Residue(WEEK, 0)(x) == FiringsOf(c)(x) { WeeklyFires(x); }
    SpacingIsExtensional(Residue(WEEK, 0), FiringsOf(c), WEEK);
  }

  lemma WeeklyFires(x: int)
    ensures Fires(Cron(At(0), At(0), At(0)), x) <==> x % WEEK == 0
  {
    var hour := x / 60;
    var week := hour / 24 / 7;
    var rest := (hour / 24 % 7) * 1440 + (hour % 24) * 60 + x % 60;
    assert x == week * WEEK + rest;
    ModUnique(x, WEEK, week, rest);
  }

  lemma ShortCron(m: int)
    requires m in SHORT_INTERVALS
    ensures EvenlySpaced(FiringsOf(Cron(StepOf(m), Every, Every)), m)
  {
    DivisorsOf60(m);
    StepCronExact(m);
  }

  lemma Witness(c: Cron, m: int)
    requires EvenlySpaced(FiringsOf(c), m)
    ensures HasCron(m) && (c.weekday == Every ==> HasDailyCron(m))
  {
    hide EvenlySpaced;
  }

  lemma CronOf(m: int) returns (c: Cron)
    requires m >= 1 && HasCron(m)
    ensures EvenlySpaced(FiringsOf(c), m) && (HasDailyCron(m) ==> c.weekday == Every)
  {
    hide EvenlySpaced;
    if HasDailyCron(m) {
      c :| c.weekday == Every && EvenlySpaced(FiringsOf(c), m);
    } else {
      c :| EvenlySpaced(FiringsOf(c), m);
    }
  }

  lemma AllowlistIsDaily(m: int)
    requires m in ALLOWLIST
    ensures ALLOWLIST[m].weekday == Every
  {
  }

  lemma CronsExist(m: int)
    ensures m in ALLOWLIST || m in SHORT_INTERVALS ==> HasDailyCron(m) && HasCron(m)
    ensures m == WEEK ==> HasCron(m)
  {
    hide EvenlySpaced;
    hide HasCron;
    hide HasDailyCron;
    if m in ALLOWLIST {
      ConversionIsExact(m);
      AllowlistIsDaily(m);
      Witness(ALLOWLIST[m], m);
    } else if m in SHORT_INTERVALS {
      ShortCron(m);
      Witness(Cron(StepOf(m), Every, Every), m);
    } else if m == WEEK {
      WeeklyIsExact();
      Witness(Cron(At(0), At(0), At(0)), m);
    }
  }

  lemma DailyIsCron(m: int)
    requires HasDailyCron(m)
    ensures HasCron(m)
  {
    hide EvenlySpaced;
  }

  /**
   Of all intervals, those for which some cron expression fires exactly that far apart, whatever its minute, hour
   and day-of-week fields, are those of the allowlist, six short ones, and the week.
   */
  lemma CleanCronExactlyWhen(m: int)
    requires m >= 1
    ensures HasCron(m) <==> m in ALLOWLIST || m in SHORT_INTERVALS || m == WEEK
    ensures HasDailyCron(m) <==> m in ALLOWLIST || m in SHORT_INTERVALS
  {
    hide EvenlySpaced;
    hide HasCron;
    hide HasDailyCron;
    CronsExist(m);
    if HasDailyCron(m) { DailyIsCron(m); }
    if HasCron(m) {
      var c := CronOf(m);
      CronIntervals(c, m);
      if HasDailyCron(m) { DayOnlyUpToADay(c, m); }
    }
  }

  lemma ShortOnesAreRefused(m: int)
    requires m in SHORT_INTERVALS || m == WEEK
    ensures m !in ALLOWLIST
  {
  }

  /** The intervals that the migration refuses, reporting that they have no clean equivalent, although they have one. */
  lemma RefusedThoughExact(m: int)
    requires m >= 1
    ensures m !in ALLOWLIST && HasCron(m) <==> m in SHORT_INTERVALS || m == WEEK
    ensures m !in ALLOWLIST && HasDailyCron(m) <==> m in SHORT_INTERVALS
  {
    hide EvenlySpaced;
    hide HasCron;
    hide HasDailyCron;
    CleanCronExactlyWhen(m);
    if m in SHORT_INTERVALS || m == WEEK { ShortOnesAreRefused(m); }
  }

  // ---------------------------------------------------------------- the conversion loop

  datatype Source = Source(
    id: string,
    name: string,
    minutes: Option<int>,
    syncSchedule: Option<Cron>,
    scheduleEnabled: bool)

  datatype Action = Converted | Nulled

  datatype ReportRow = ReportRow(id: string, name: string, minutes: int, action: Action, cron: Option<Cron>)

  function Convert(s: Source): Source {
    if s.minutes.None? then s
    else if s.minutes.value in ALLOWLIST then s.(syncSchedule := Some(ALLOWLIST[s.minutes.value]))
    else s.(syncSchedule := None, scheduleEnabled := false)
  }

  function ReportOf(s: Source): seq<ReportRow> {
    if s.minutes.None? then []
    else if s.minutes.value in ALLOWLIST then
      [ReportRow(s.id, s.name, s.minutes.value, Converted, Some(ALLOWLIST[s.minutes.value]))]
    else [ReportRow(s.id, s.name, s.minutes.value, Nulled, None)]
  }

  function ReportsOf(sources: seq<Source>): seq<ReportRow> {
    if sources == [] then [] else ReportsOf(sources[..|sources| - 1]) + ReportOf(sources[|sources| - 1])
  }

  class Migration015 {
    var sources: seq<Source>
    var report: seq<ReportRow>

    constructor (sources: seq<Source>)
      ensures this.sources == sources && report == []
    {
      this.sources, report := sources, [];
    }

    /** Every row with an interval is converted or nulled and reported once, in order; no other row changes. */
    method Upgrade()
      modifies this
      ensures |sources| == old(|sources|)
      ensures forall i :: 0 <= i < |sources| ==> sources[i] == Convert(old(sources)[i])
      ensures report == old(report) + ReportsOf(old(sources))
    {
      ghost var before := sources;
      for i := 0 to |sources|
        invariant |sources| == |before|
        invariant forall j :: 0 <= j < i ==> sources[j] == Convert(before[j])
        invariant forall j :: i <= j < |sources| ==> sources[j] == before[j]
        invariant report == old(report) + ReportsOf(before[..i])
      {
        assert before[..i + 1][..i] == before[..i];
        var row := sources[i];
        if row.minutes.None? { continue; }
        var minutes := row.minutes.value;
        if minutes in ALLOWLIST {
          var cron := ALLOWLIST[minutes];
          sources := sources[i := row.(syncSchedule := Some(cron))];
          report := report + [ReportRow(row.id, row.name, minutes, Converted, Some(cron))];
        } else {
          sources := sources[i := row.(syncSchedule := None, scheduleEnabled := false)];
          report := report + [ReportRow(row.id, row.name, minutes, Nulled, None)];
        }
      }
      assert before[..|before|] == before;
    }
  }

  /** Sources are reported in their order. */
  lemma {:induction false} ReportsOfConcat(a: seq<Source>, b: seq<Source>)
    ensures ReportsOf(a + b) == ReportsOf(a) + ReportsOf(b)
  {
    hide ReportOf;
    if b == [] {
      assert a + b == a;
    } else {
      var n := |b| - 1;
      assert (a + b)[..|a| + n] == a + b[..n] && (a + b)[|a| + n] == b[n];
      ReportsOfConcat(a, b[..n]);
    }
  }

  /** A refused source is switched off, without a schedule, and reported as nulled; nothing else about it changes. */
  lemma RefusedIsSwitchedOff(s: Source)
    requires s.minutes.Some? && s.minutes.value !in ALLOWLIST
    ensures var after := Convert(s);
            && after.syncSchedule == None && !after.scheduleEnabled
            && after.id == s.id && after.name == s.name && after.minutes == s.minutes
    ensures ReportOf(s) == [ReportRow(s.id, s.name, s.minutes.value, Nulled, None)]
  {
  }

  /** A converted source stays as it was but for its schedule, and is reported with it; one without an interval stays as it was. */
  lemma OnlyScheduleChanges(s: Source)
    ensures s.minutes.None? ==> Convert(s) == s && ReportOf(s) == []
    ensures s.minutes.Some? && s.minutes.value in ALLOWLIST ==>
              && Convert(s) == s.(syncSchedule := Some(ALLOWLIST[s.minutes.value]))
              && ReportOf(s) == [ReportRow(s.id, s.name, s.minutes.value, Converted, Convert(s).syncSchedule)]
  {
  }

  /** A converted source keeps its interval: it fires exactly as many minutes apart as it was scheduled. */
  lemma ConvertedKeepsInterval(s: Source)
    requires s.minutes.Some? && Convert(s).syncSchedule.Some?
    ensures EvenlySpaced(FiringsOf(Convert(s).syncSchedule.value), s.minutes.value)
    ensures Convert(s).scheduleEnabled == s.scheduleEnabled
  {
    ConversionIsExact(s.minutes.value);
  }
}
