/**
 * `ChronoUnit.between(EPOCH, t)` for the four units a timestamp transform
 * uses, where EPOCH is 1970-01-01T00:00Z and `t` is given as whole seconds
 * since EPOCH (both at offset UTC).
 *
 * HOURS is time-based: the second difference divided by 3600, truncated toward
 * zero. DAYS, MONTHS and YEARS are date-based: the end date is first moved one
 * day toward EPOCH when `t` is before EPOCH's date and its time of day is after
 * EPOCH's midnight, and the dates are then compared, MONTHS and YEARS through
 * LocalDate's packed month arithmetic.
 */
module ChronoUnits {
  import opened JavaMath
  import opened Calendar

  datatype Granularity = Year | Month | Day | Hour

  const SECONDS_PER_HOUR: int := 3600
  const SECONDS_PER_DAY: int := 86400
  const EPOCH_DATE: Date := Date(1970, 1, 1)

  /**
   * The end date of LocalDateTime.until, as days from 1970-01-01: the date of
   * `s`, moved one day toward the epoch when it is before the epoch's date and
   * its time of day is after midnight.
   */
  function EndDay(s: int): (r: int)
    ensures s >= 0 ==> 0 <= r && SECONDS_PER_DAY * r <= s < SECONDS_PER_DAY * r + SECONDS_PER_DAY
    ensures s < 0 ==> r <= 0 && SECONDS_PER_DAY * r - SECONDS_PER_DAY < s <= SECONDS_PER_DAY * r
  {
    var day := s / SECONDS_PER_DAY;
    var secondOfDay := s % SECONDS_PER_DAY;
    assert s == SECONDS_PER_DAY * day + secondOfDay;
    if day < 0 && secondOfDay > 0 then day + 1 else day
  }

  function ProlepticMonth(dt: Date): int {
    dt.year * 12 + dt.month - 1
  }

  /**
   * LocalDate.monthsUntil: whole months from `start` to `end`, through packed
   * (month, day) values. For days of month from 1 to 31 it is the difference
   * of the months, less one when a later `end` has not reached `start`'s day
   * of month, more one when an earlier `end` is past it.
   */
  function MonthsUntil(start: Date, end: Date): (r: int)
    ensures 1 <= start.day <= 31 && 1 <= end.day <= 31 ==>
      var m := ProlepticMonth(end) - ProlepticMonth(start);
      r == if m > 0 && end.day < start.day then m - 1 else if m < 0 && end.day > start.day then m + 1 else m
  {
    var packed1 := ProlepticMonth(start) * 32 + start.day;
    var packed2 := ProlepticMonth(end) * 32 + end.day;
    var m := ProlepticMonth(end) - ProlepticMonth(start);
    var whole := if m > 0 && end.day < start.day then m - 1 else if m < 0 && end.day > start.day then m + 1 else m;
    assert packed2 - packed1 == 32 * m + (end.day - start.day);
    if 1 <= start.day <= 31 && 1 <= end.day <= 31 then
      TruncDivUnique(packed2 - packed1, 32, whole);
      TruncDiv(packed2 - packed1, 32)
    else
      TruncDiv(packed2 - packed1, 32)
  }

  /**
   * ChronoUnit.between(EPOCH, t) for `t` at `s` seconds after EPOCH. HOURS
   * (time-based) and DAYS (date-based) both come to the seconds divided by the
   * unit's length, truncated toward zero.
   */
  function UnitsFromEpoch(g: Granularity, s: int): (r: int)
    ensures g == Hour ==> r == TruncDiv(s, SECONDS_PER_HOUR)
    ensures g == Day ==> r == TruncDiv(s, SECONDS_PER_DAY)
  {
    match g
    case Hour => TruncDiv(s, SECONDS_PER_HOUR)
    case Day => EndDayTruncates(s); EndDay(s)
    case Month => MonthsUntil(EPOCH_DATE, CivilFromDays(EndDay(s)))
    case Year => TruncDiv(MonthsUntil(EPOCH_DATE, CivilFromDays(EndDay(s))), 12)
  }

  // ---- The reference: whole units, counted toward zero --------------------

  /** Seconds from EPOCH to the start of the `k`-th unit after (or before) it. */
  function UnitStart(g: Granularity, k: int): int {
    match g
    case Hour => SECONDS_PER_HOUR * k
    case Day => SECONDS_PER_DAY * k
    case Month => SECONDS_PER_DAY * MonthStart(k)
    case Year => SECONDS_PER_DAY * MonthStart(12 * k)
  }

  /**
   * `k` is the number of whole units between EPOCH and the instant `s`,
   * rounded toward zero: a later instant lies in [start of unit k, start of
   * unit k + 1), an earlier one in (start of unit k - 1, start of unit k].
   */
  ghost predicate CountsWholeUnits(g: Granularity, s: int, k: int) {
    && (s >= 0 ==> 0 <= k && UnitStart(g, k) <= s < UnitStart(g, k + 1))
    && (s < 0 ==> k <= 0 && UnitStart(g, k - 1) < s <= UnitStart(g, k))
  }

  /** Units start in order, EPOCH starting unit 0. */
  lemma UnitStartMonotone(g: Granularity, k1: int, k2: int)
    requires k1 < k2
    ensures UnitStart(g, k1) < UnitStart(g, k2)
    ensures UnitStart(g, 0) == 0
  {
    MonthStartZero();
    match g
    case Hour =>
    case Day =>
    case Month => MonthStartGrowth(k1, k2);
    case Year => MonthStartGrowth(12 * k1, 12 * k2);
  }

  /** The date-based end day is the day count truncated toward zero. */
  lemma EndDayTruncates(s: int)
    ensures EndDay(s) == TruncDiv(s, SECONDS_PER_DAY)
  {
    TruncDivUnique(s, SECONDS_PER_DAY, EndDay(s));
  }

  /** MonthsUntil from the epoch date counts months toward zero. */
  lemma MonthsUntilEpoch(c: Date)
    requires 1 <= c.day <= 31
    ensures MonthsUntil(EPOCH_DATE, c) == if EpochMonth(c) < 0 && c.day > 1 then EpochMonth(c) + 1 else EpochMonth(c)
  {
    var e := EpochMonth(c);
    assert ProlepticMonth(c) * 32 + c.day - (ProlepticMonth(EPOCH_DATE) * 32 + 1) == 32 * e + c.day - 1;
    TruncDivUnique(32 * e + c.day - 1, 32, if e < 0 && c.day > 1 then e + 1 else e);
  }

  /**
   * The month arithmetic behind MONTHS: `d` is the day of `s` truncated toward
   * zero, `ms`, `msNext` and `msPrev` are the starts of its month `e` and of the
   * months around it, and `day` is its day of month.
   */
  lemma MonthCountArith(s: int, d: int, e: int, day: int, msPrev: int, ms: int, msNext: int)
    requires s >= 0 ==> 0 <= d && SECONDS_PER_DAY * d <= s < SECONDS_PER_DAY * d + SECONDS_PER_DAY
    requires s < 0 ==> d <= 0 && SECONDS_PER_DAY * d - SECONDS_PER_DAY < s <= SECONDS_PER_DAY * d
    requires ms + day - 1 == d < msNext && 1 <= day && msPrev < ms
    requires e < 0 ==> msNext <= 0
    requires e >= 0 ==> ms >= 28 * e
    ensures var r := if e < 0 && day > 1 then e + 1 else e;
      && (s >= 0 ==> 0 <= r && r == e && SECONDS_PER_DAY * ms <= s < SECONDS_PER_DAY * msNext)
      && (s < 0 ==> r <= 0 && (r == e || r == e + 1))
      && (s < 0 && r == e ==> SECONDS_PER_DAY * msPrev < s <= SECONDS_PER_DAY * ms)
      && (s < 0 && r == e + 1 ==> SECONDS_PER_DAY * ms < s <= SECONDS_PER_DAY * msNext)
  {
  }

  /** A day `d` of month `e`, at day of month `day`, gives the MONTHS count LocalDate.monthsUntil computes. */
  lemma MonthCountAt(s: int, d: int, e: int, day: int, r: int)
    requires d == TruncDiv(s, SECONDS_PER_DAY)
    requires MonthStart(e) + day - 1 == d < MonthStart(e + 1) && 1 <= day
    requires r == if e < 0 && day > 1 then e + 1 else e
    ensures CountsWholeUnits(Month, s, r)
  {
    if e < 0 {
      MonthStartLinear(e + 1);
    } else {
      MonthStartLinear(e);
    }
    MonthStartGrowth(e - 1, e);
    MonthCountArith(s, d, e, day, MonthStart(e - 1), MonthStart(e), MonthStart(e + 1));
  }

  /** The MONTHS count of the date `c` of day `d`, the day of `s` truncated toward zero. */
  lemma MonthUnitsAt(s: int, d: int, c: Date, r: int)
    requires d == TruncDiv(s, SECONDS_PER_DAY)
    requires 1 <= c.day <= 31
    requires MonthStart(EpochMonth(c)) + c.day - 1 == d < MonthStart(EpochMonth(c) + 1)
    requires r == MonthsUntil(EPOCH_DATE, c)
    ensures CountsWholeUnits(Month, s, r)
  {
    MonthsUntilEpoch(c);
    MonthCountAt(s, d, EpochMonth(c), c.day, r);
  }

  /** MONTHS counts whole calendar months toward zero. */
  lemma MonthUnitsCount(s: int)
    ensures CountsWholeUnits(Month, s, UnitsFromEpoch(Month, s))
  {
    var d := EndDay(s);
    EndDayTruncates(s);
    var c := CivilFromDays(d);
    CivilFromDaysInMonth(d);
    MonthUnitsAt(s, d, c, UnitsFromEpoch(Month, s));
  }

  /** Month starts never decrease. */
  lemma MonthStartMonotone(a: int, b: int)
    requires a <= b
    ensures MonthStart(a) <= MonthStart(b)
  {
    MonthStartGrowth(a, b);
  }

  /** Twelve whole months make a whole year, for instants from EPOCH on. */
  lemma YearCountAfterEpoch(s: int, m: int, r: int)
    requires s >= 0 && 0 <= m && UnitStart(Month, m) <= s < UnitStart(Month, m + 1)
    requires 0 <= r && 12 * r <= m < 12 * r + 12
    ensures UnitStart(Year, r) <= s < UnitStart(Year, r + 1)
  {
    MonthStartMonotone(12 * r, m);
    MonthStartMonotone(m + 1, 12 * (r + 1));
  }

  /** Twelve whole months make a whole year, for instants before EPOCH. */
  lemma YearCountBeforeEpoch(s: int, m: int, r: int)
    requires s < 0 && m <= 0 && UnitStart(Month, m - 1) < s <= UnitStart(Month, m)
    requires r <= 0 && 12 * r - 12 < m <= 12 * r
    ensures UnitStart(Year, r - 1) < s <= UnitStart(Year, r)
  {
    MonthStartMonotone(12 * (r - 1), m - 1);
    MonthStartMonotone(m, 12 * r);
  }

  /** Twelve whole months, counted toward zero, make whole years counted toward zero. */
  lemma YearCountAt(s: int, m: int, r: int)
    requires CountsWholeUnits(Month, s, m)
    requires r == TruncDiv(m, 12)
    ensures CountsWholeUnits(Year, s, r)
  {
    if s >= 0 {
      YearCountAfterEpoch(s, m, r);
    } else {
      YearCountBeforeEpoch(s, m, r);
    }
  }

  /** YEARS, twelve months at a time, counted toward zero. */
  lemma YearUnitsCount(s: int)
    ensures CountsWholeUnits(Year, s, UnitsFromEpoch(Year, s))
  {
    MonthUnitsCount(s);
    YearCountAt(s, UnitsFromEpoch(Month, s), UnitsFromEpoch(Year, s));
  }

  /** ChronoUnit.between(EPOCH, t) is the number of whole units from EPOCH to `t`, rounded toward zero. */
  lemma UnitsFromEpochCounts(g: Granularity, s: int)
    ensures CountsWholeUnits(g, s, UnitsFromEpoch(g, s))
  {
    match g
    case Hour =>
    case Day => EndDayTruncates(s);
    case Month => MonthUnitsCount(s);
    case Year => YearUnitsCount(s);
  }

  /** Unit starts in non-strict order. */
  lemma UnitStartOrdered(g: Granularity, k1: int, k2: int)
    requires k1 <= k2
    ensures UnitStart(g, k1) <= UnitStart(g, k2)
  {
    if k1 < k2 {
      UnitStartMonotone(g, k1, k2);
    }
  }

  /** From EPOCH on, a later instant never starts in an earlier unit. */
  lemma MonotoneAfterEpoch(g: Granularity, s1: int, s2: int, k1: int, k2: int)
    requires s1 <= s2 && UnitStart(g, k1) <= s1 && s2 < UnitStart(g, k2 + 1)
    ensures k1 <= k2
  {
    if k2 < k1 {
      UnitStartOrdered(g, k2 + 1, k1);
    }
  }

  /** Before EPOCH, a later instant never ends in an earlier unit. */
  lemma MonotoneBeforeEpoch(g: Granularity, s1: int, s2: int, k1: int, k2: int)
    requires s1 <= s2 && UnitStart(g, k1 - 1) < s1 && s2 <= UnitStart(g, k2)
    ensures k1 <= k2
  {
    if k2 < k1 {
      UnitStartOrdered(g, k2, k1 - 1);
    }
  }

  /** A later instant never counts fewer whole units than an earlier one. */
  lemma CountsWholeUnitsMonotone(g: Granularity, s1: int, s2: int, k1: int, k2: int)
    requires CountsWholeUnits(g, s1, k1) && CountsWholeUnits(g, s2, k2)
    requires s1 <= s2
    ensures k1 <= k2
  {
    if s1 >= 0 {
      MonotoneAfterEpoch(g, s1, s2, k1, k2);
    } else if s2 < 0 {
      MonotoneBeforeEpoch(g, s1, s2, k1, k2);
    }
  }

  /** The count of whole units of an instant is unique. */
  lemma CountsWholeUnitsUnique(g: Granularity, s: int, k1: int, k2: int)
    requires CountsWholeUnits(g, s, k1) && CountsWholeUnits(g, s, k2)
    ensures k1 == k2
  {
    CountsWholeUnitsMonotone(g, s, s, k1, k2);
    CountsWholeUnitsMonotone(g, s, s, k2, k1);
  }

  /** ChronoUnit.between(EPOCH, t) never decreases as `t` moves forward. */
  lemma UnitsFromEpochMonotone(g: Granularity, s1: int, s2: int)
    requires s1 <= s2
    ensures UnitsFromEpoch(g, s1) <= UnitsFromEpoch(g, s2)
  {
    UnitsFromEpochCounts(g, s1);
    UnitsFromEpochCounts(g, s2);
    CountsWholeUnitsMonotone(g, s1, s2, UnitsFromEpoch(g, s1), UnitsFromEpoch(g, s2));
  }

  /**
   * Zero whole units lie between EPOCH and `t` exactly when `t` is strictly
   * within one unit of EPOCH on either side.
   */
  lemma UnitsFromEpochZero(g: Granularity, s: int)
    ensures UnitsFromEpoch(g, s) == 0 <==> UnitStart(g, -1) < s < UnitStart(g, 1)
  {
    UnitStartMonotone(g, -1, 0);
    UnitStartMonotone(g, 0, 1);
    UnitsFromEpochCounts(g, s);
    if UnitStart(g, -1) < s < UnitStart(g, 1) {
      assert CountsWholeUnits(g, s, 0);
      CountsWholeUnitsUnique(g, s, 0, UnitsFromEpoch(g, s));
    }
  }

  // ---- Range --------------------------------------------------------------

  /** The furthest an instant given as int64 microseconds, shifted by a zone offset, lies from EPOCH, in seconds. */
  const MAX_LOCAL_SECONDS: int := INT64_MAX / 1_000_000 + 64800

  /** Month starts are at least 28 days apart from EPOCH's month start, on either side of it. */
  lemma MonthStartLinear(m: int)
    ensures m >= 0 ==> MonthStart(m) >= 28 * m
    ensures m <= 0 ==> MonthStart(m) <= 28 * m
  {
    MonthStartZero();
    if m >= 0 {
      MonthStartGrowth(0, m);
    } else {
      MonthStartGrowth(m, 0);
    }
  }

  /** The arithmetic behind the range of MONTHS and YEARS: `ms` is the start day of month `m`, which opens unit `k`. */
  lemma CalendarCountArith(s: int, k: int, m: int, ms: int)
    requires m == k || m == 12 * k
    requires m >= 0 ==> ms >= 28 * m
    requires m <= 0 ==> ms <= 28 * m
    requires s >= 0 ==> 0 <= k && SECONDS_PER_DAY * ms <= s
    requires s < 0 ==> k <= 0 && s <= SECONDS_PER_DAY * ms
    requires -MAX_LOCAL_SECONDS <= s <= MAX_LOCAL_SECONDS
    ensures IsInt32(k)
  {
  }

  /** For YEARS, MONTHS and DAYS the count of every instant an int64 timestamp can name fits an int. */
  lemma CalendarUnitsFitInt32(g: Granularity, s: int)
    requires g != Hour
    requires -MAX_LOCAL_SECONDS <= s <= MAX_LOCAL_SECONDS
    ensures IsInt32(UnitsFromEpoch(g, s))
  {
    var k := UnitsFromEpoch(g, s);
    UnitsFromEpochCounts(g, s);
    if g != Day {
      var m := if g == Month then k else 12 * k;
      MonthStartLinear(m);
      CalendarCountArith(s, k, m, MonthStart(m));
    }
  }

  /** HOURS fits an int exactly for instants less than 2^31 hours from EPOCH, counted toward zero. */
  lemma HourUnitsFitInt32(s: int)
    ensures IsInt32(UnitsFromEpoch(Hour, s)) <==> -(INT32_MAX + 2) * SECONDS_PER_HOUR < s < (INT32_MAX + 1) * SECONDS_PER_HOUR
  {
    var k := UnitsFromEpoch(Hour, s);
    UnitsFromEpochCounts(Hour, s);
  }

  // ---- Near the epoch and at a known instant -------------------------------

  /**
   * Within a day of EPOCH on either side, YEARS, MONTHS and DAYS all count 0:
   * counting toward zero makes unit 0 two units wide.
   */
  lemma UnitsWithinADayOfEpoch(g: Granularity, s: int)
    requires g != Hour
    requires -SECONDS_PER_DAY < s < SECONDS_PER_DAY
    ensures UnitsFromEpoch(g, s) == 0
  {
    UnitStartMonotone(g, 0, 1);
    if g == Month {
      MonthStartLinear(-1);
    } else if g == Year {
      MonthStartLinear(-12);
    }
    UnitsFromEpochZero(g, s);
  }

  /** June 2021, month 617 after EPOCH's, starts on day 18779; July on day 18809. */
  lemma June2021()
    ensures MonthStart(617) == 18779 && MonthStart(618) == 18809
  {
    assert (617 + EPOCH_MARCH_MONTH) / 12 == 2021 && (617 + EPOCH_MARCH_MONTH) % 12 == 3;
    assert (618 + EPOCH_MARCH_MONTH) / 12 == 2021 && (618 + EPOCH_MARCH_MONTH) % 12 == 4;
    assert DaysBeforeYear(2021) == 738155;
  }

  /**
   * The only month count 2021-06-15T10:30:00Z can have is 617.
   * The second count is a parameter pinned by `requires` rather than a literal in the
   * ensures, so that the solver does not unfold the calendar functions on constants.
   */
  lemma ScenarioMonthCount(s: int, k: int)
    requires s == 1_623_753_000 && CountsWholeUnits(Month, s, k)
    ensures k == 617
  {
    June2021();
    if k < 617 {
      MonthStartMonotone(k + 1, 617);
    } else if k > 617 {
      MonthStartMonotone(618, k);
    }
  }

  /**
   * 2021-06-15T10:30:00Z lies in month 617 after EPOCH's.
   * The second count is a parameter pinned by `requires` rather than a literal in the
   * ensures, so that the solver does not unfold the calendar functions on constants.
   */
  lemma ScenarioMonth(s: int)
    requires s == 1_623_753_000
    ensures UnitsFromEpoch(Month, s) == 617
  {
    UnitsFromEpochCounts(Month, s);
    ScenarioMonthCount(s, UnitsFromEpoch(Month, s));
  }

  /**
   * 2021-06-15T10:30:00Z lies in year 51 after EPOCH's: twelve months to a year.
   * The second count is a parameter pinned by `requires` rather than a literal in the
   * ensures, so that the solver does not unfold the calendar functions on constants.
   */
  lemma ScenarioYear(s: int)
    requires s == 1_623_753_000
    ensures UnitsFromEpoch(Year, s) == 51
  {
    ScenarioMonth(s);
    TruncDivUnique(617, 12, 51);
  }
}
