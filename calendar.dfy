/**
 * The proleptic Gregorian calendar that java.time's LocalDate uses, counted in
 * days from 1970-01-01.
 *
 * Internally, years start on March 1st, so that the leap day is the last day of
 * its year and every 400-year era has the same 146097 days. An era splits into
 * three centuries of 36524 days and a last one of 36525, a century into 4-year
 * blocks of 1461 days (the last one short by a day unless the century ends an
 * era), and a block into years of 365 days (the last one 366).
 */
module Calendar {

  /** Days from 0000-03-01 to 1970-01-01. */
  const EPOCH_SHIFT: int := 719468
  const DAYS_PER_ERA: int := 146097
  const DAYS_PER_CENTURY: int := 36524
  const DAYS_PER_BLOCK: int := 1461
  /** Months from March of year 0 to January 1970. */
  const EPOCH_MARCH_MONTH: int := 23638

  /** A calendar date: month 1..12, day of month from 1. */
  datatype Date = Date(year: int, month: int, day: int)

  predicate IsLeapYear(year: int) {
    year % 4 == 0 && (year % 100 != 0 || year % 400 == 0)
  }

  function DaysInMonth(year: int, month: int): (n: int)
    requires 1 <= month <= 12
    ensures 28 <= n <= 31
  {
    if month == 2 then (if IsLeapYear(year) then 29 else 28)
    else if month == 4 || month == 6 || month == 9 || month == 11 then 30
    else 31
  }

  predicate ValidDate(dt: Date) {
    1 <= dt.month <= 12 && 1 <= dt.day <= DaysInMonth(dt.year, dt.month)
  }

  /** Months from January 1970 to the month of `dt`. */
  function EpochMonth(dt: Date): int {
    (dt.year - 1970) * 12 + dt.month - 1
  }

  /** The first day of the month `m` months after January 1970. */
  function FirstOfMonth(m: int): (dt: Date)
    ensures ValidDate(dt) && dt.day == 1 && EpochMonth(dt) == m
  {
    Date(1970 + m / 12, m % 12 + 1, 1)
  }

  // ---- Day counts ------------------------------------------------------

  /**
   * Days from March 1st of year 0 to March 1st of year `y`: 365 a year plus
   * one for every leap day in between (`/` rounds down, so this also holds
   * for negative years).
   */
  function DaysBeforeYear(y: int): int {
    365 * y + y / 4 - y / 100 + y / 400
  }

  /** Days from March 1st to the first of the month `mp` months later (11 is February). */
  function DaysBeforeMonth(mp: int): int
    requires 0 <= mp < 12
  {
    (153 * mp + 2) / 5
  }

  /** Days from 1970-01-01 to the first of the month `p` months after March of year 0. */
  function MarchMonthStart(p: int): int {
    DaysBeforeYear(p / 12) + DaysBeforeMonth(p % 12) - EPOCH_SHIFT
  }

  /** Days from 1970-01-01 to the first day of the month `m` months after January 1970. */
  function MonthStart(m: int): int {
    MarchMonthStart(m + EPOCH_MARCH_MONTH)
  }

  /** Days from 1970-01-01 to `dt` (LocalDate.toEpochDay). */
  function DaysFromCivil(dt: Date): int {
    MonthStart(EpochMonth(dt)) + dt.day - 1
  }

  // ---- From a day count to a date ---------------------------------------

  /** The month (counted from March) holding day `doy` of a March-based year. */
  function MonthOfMarchYear(doy: int): (mp: int)
    requires 0 <= doy <= 365
    ensures 0 <= mp < 12 && DaysBeforeMonth(mp) <= doy
    ensures mp < 11 ==> doy < DaysBeforeMonth(mp + 1)
  {
    (5 * doy + 2) / 153
  }

  /** Splits a day of a 400-year era into a year of the era and a day of that year. */
  function YearOfEra(doe: int): (r: (int, int))
    requires 0 <= doe < DAYS_PER_ERA
    ensures 0 <= r.0 < 400 && 0 <= r.1 <= 365
    ensures DaysBeforeYear(r.0) + r.1 == doe
    ensures doe < DaysBeforeYear(r.0 + 1)
  {
    var c := if doe / DAYS_PER_CENTURY < 4 then doe / DAYS_PER_CENTURY else 3;
    var doc := doe - DAYS_PER_CENTURY * c;
    var b := doc / DAYS_PER_BLOCK;
    var dob := doc % DAYS_PER_BLOCK;
    var yb := if dob / 365 < 4 then dob / 365 else 3;
    var doy := dob - 365 * yb;
    YearOfEraSplit(c, b, yb);
    NextYearOfEra(c, b, yb, doc, dob);
    (100 * c + 4 * b + yb, doy)
  }

  /** Days before year `100c + 4b + yb` of an era, counted by centuries, blocks and years. */
  lemma YearOfEraSplit(c: int, b: int, yb: int)
    requires 0 <= c < 4 && 0 <= b < 25 && 0 <= yb < 4
    ensures DaysBeforeYear(100 * c + 4 * b + yb) == DAYS_PER_CENTURY * c + DAYS_PER_BLOCK * b + 365 * yb
  {
    var yoe := 100 * c + 4 * b + yb;
    assert yoe == 4 * (25 * c + b) + yb;
    assert yoe / 4 == 25 * c + b;
    assert yoe == 100 * c + (4 * b + yb);
    assert yoe / 100 == c;
    assert yoe / 400 == 0;
  }

  /** The day left over by YearOfEra's split lies before the next year of the era. */
  lemma NextYearOfEra(c: int, b: int, yb: int, doc: int, dob: int)
    requires 0 <= c < 4 && 0 <= b < 25 && 0 <= yb < 4
    requires 0 <= doc && (c < 3 ==> doc < DAYS_PER_CENTURY) && doc <= DAYS_PER_CENTURY
    requires doc == DAYS_PER_BLOCK * b + dob && 0 <= dob < DAYS_PER_BLOCK
    requires 365 * yb <= dob && (yb < 3 ==> dob < 365 * yb + 365)
    ensures DAYS_PER_CENTURY * c + doc < DaysBeforeYear(100 * c + 4 * b + yb + 1)
  {
    if yb < 3 {
      YearOfEraSplit(c, b, yb + 1);
    } else if b < 24 {
      YearOfEraSplit(c, b + 1, 0);
    } else if c < 3 {
      YearOfEraSplit(c + 1, 0, 0);
    } else {
      assert 100 * c + 4 * b + yb + 1 == 400;
    }
  }

  /** A day as a March-based year, a month of it counted from March, and a day of that year. */
  datatype MarchDay = MarchDay(year: int, month: int, dayOfYear: int)

  /** Locates day `d` (counted from 1970-01-01) in the March-based calendar. */
  function MarchDayOf(d: int): (r: MarchDay)
    ensures 0 <= r.month < 12 && DaysBeforeMonth(r.month) <= r.dayOfYear <= 365
    ensures DaysBeforeYear(r.year) + r.dayOfYear - EPOCH_SHIFT == d
    ensures r.month < 11 ==> r.dayOfYear < DaysBeforeMonth(r.month + 1)
    ensures r.month == 11 ==> d < DaysBeforeYear(r.year + 1) - EPOCH_SHIFT
  {
    var z := d + EPOCH_SHIFT;
    var era := z / DAYS_PER_ERA;
    var yd := YearOfEra(z % DAYS_PER_ERA);
    EraShift(era, yd.0);
    EraShift(era, yd.0 + 1);
    MarchDay(400 * era + yd.0, MonthOfMarchYear(yd.1), yd.1)
  }

  /** The civil date of a March-based day: January and February belong to the next civil year. */
  function CivilOf(md: MarchDay): (dt: Date)
    requires 0 <= md.month < 12 && DaysBeforeMonth(md.month) <= md.dayOfYear <= 365
    requires md.month < 11 ==> md.dayOfYear < DaysBeforeMonth(md.month + 1)
    ensures 1 <= dt.month <= 12 && 1 <= dt.day <= 31
  {
    var day := md.dayOfYear - DaysBeforeMonth(md.month) + 1;
    if md.month < 10 then Date(md.year, md.month + 3, day) else Date(md.year + 1, md.month - 9, day)
  }

  /** The date `d` days after 1970-01-01 (LocalDate.ofEpochDay). */
  function CivilFromDays(d: int): (dt: Date)
    ensures 1 <= dt.month <= 12 && 1 <= dt.day <= 31
  {
    CivilOf(MarchDayOf(d))
  }

  // ---- Lemmas ----------------------------------------------------------

  /** Every 400 years add the same number of days. */
  lemma EraShift(k: int, r: int)
    ensures DaysBeforeYear(400 * k + r) == DAYS_PER_ERA * k + DaysBeforeYear(r)
  {
    var x := 400 * k + r;
    assert x / 4 == 100 * k + r / 4 by {
      assert x == 4 * (100 * k + r / 4) + r % 4;
    }
    assert x / 100 == 4 * k + r / 100 by {
      assert x == 100 * (4 * k + r / 100) + r % 100;
    }
    assert x / 400 == k + r / 400 by {
      assert x == 400 * (k + r / 400) + r % 400;
    }
  }

  /** Stepping a year forward adds one to y / 4 exactly when it reaches a multiple of 4. */
  lemma NextQuarter(y: int)
    ensures (y + 1) / 4 - y / 4 == if (y + 1) % 4 == 0 then 1 else 0
  {
    var a, b := y / 4, y % 4;
    assert y == 4 * a + b;
    if b == 3 { assert y + 1 == 4 * (a + 1) + 0; } else { assert y + 1 == 4 * a + (b + 1); }
  }

  /** Stepping a year forward adds one to y / 100 exactly when it reaches a multiple of 100. */
  lemma NextCentury(y: int)
    ensures (y + 1) / 100 - y / 100 == if (y + 1) % 100 == 0 then 1 else 0
  {
    var e := y / 100;
    var f := y - 100 * e;
    if f == 99 {
      assert y + 1 == 100 * (e + 1);
    } else {
      assert y + 1 == 100 * e + (f + 1);
    }
  }

  /** Stepping a year forward adds one to y / 400 exactly when it reaches a multiple of 400. */
  lemma NextEra(y: int)
    ensures (y + 1) / 400 - y / 400 == if (y + 1) % 400 == 0 then 1 else 0
  {
    var g := y / 400;
    var h := y - 400 * g;
    if h == 399 {
      assert y + 1 == 400 * (g + 1);
    } else {
      assert y + 1 == 400 * g + (h + 1);
    }
  }

  /** A multiple of 100 is a multiple of 4. */
  lemma CenturyIsQuarter(z: int)
    requires z % 100 == 0
    ensures z % 4 == 0
  {
    var t := z / 100;
    assert z == 4 * (25 * t);
  }

  /** A multiple of 400 is a multiple of 100. */
  lemma EraIsCentury(z: int)
    requires z % 400 == 0
    ensures z % 100 == 0
  {
    var t := z / 400;
    assert z == 100 * (4 * t);
  }

  /** A March-based year has 366 days exactly when the February it ends with is a leap one. */
  lemma YearLength(y: int)
    ensures DaysBeforeYear(y + 1) - DaysBeforeYear(y) == if IsLeapYear(y + 1) then 366 else 365
  {
    NextQuarter(y);
    NextCentury(y);
    NextEra(y);
    if (y + 1) % 100 == 0 { CenturyIsQuarter(y + 1); }
    if (y + 1) % 400 == 0 { EraIsCentury(y + 1); }
  }

  /** One month step, counted from March of year 0. */
  lemma MarchMonthStep(p: int)
    ensures MarchMonthStart(p + 1) - MarchMonthStart(p)
            == if p % 12 < 11 then DaysBeforeMonth(p % 12 + 1) - DaysBeforeMonth(p % 12)
               else DaysInMonth(p / 12 + 1, 2)
  {
    var y, mp := p / 12, p % 12;
    if mp < 11 {
      assert p + 1 == 12 * y + (mp + 1);
      assert (p + 1) / 12 == y && (p + 1) % 12 == mp + 1;
    } else {
      assert p + 1 == 12 * (y + 1) + 0;
      assert (p + 1) / 12 == y + 1 && (p + 1) % 12 == 0;
      YearLength(y);
    }
  }

  /** The month step from MarchMonthStep, read as the length of a civil month. */
  lemma MarchMonthLength(p: int, year: int, month: int)
    requires 1 <= month <= 12
    requires p / 12 == (if month >= 3 then year else year - 1)
    requires p % 12 == (if month >= 3 then month - 3 else month + 9)
    ensures MarchMonthStart(p + 1) - MarchMonthStart(p) == DaysInMonth(year, month)
  {
    MarchMonthStep(p);
    if month != 2 {
      FixedMonthLength(p % 12);
    }
  }

  /** April, June, September and November have 30 days; the other months from March to January 31. */
  lemma FixedMonthLength(mp: int)
    requires 0 <= mp < 11
    ensures DaysBeforeMonth(mp + 1) - DaysBeforeMonth(mp)
            == if mp == 1 || mp == 3 || mp == 6 || mp == 8 then 30 else 31
  {
  }

  /** Consecutive month starts are a Gregorian month length apart. */
  lemma MonthLength(m: int)
    ensures MonthStart(m + 1) - MonthStart(m) == DaysInMonth(FirstOfMonth(m).year, FirstOfMonth(m).month)
  {
    var p := m + EPOCH_MARCH_MONTH;
    var q, r := m / 12, m % 12;
    assert p / 12 == (if r < 2 then q + 1969 else q + 1970) && p % 12 == (if r < 2 then r + 10 else r - 2) by {
      assert p == 12 * (if r < 2 then q + 1969 else q + 1970) + (if r < 2 then r + 10 else r - 2);
    }
    MarchMonthLength(p, 1970 + q, r + 1);
  }

  /** Month starts grow by at least 28 days a month. */
  lemma {:induction false} MonthStartGrowth(m1: int, m2: int)
    requires m1 <= m2
    ensures MonthStart(m2) - MonthStart(m1) >= 28 * (m2 - m1)
    decreases m2 - m1
  {
    if m1 < m2 {
      MonthStartGrowth(m1, m2 - 1);
      MonthLength(m2 - 1);
    }
  }

  /** January 1970 starts on day 0. */
  lemma MonthStartZero()
    ensures MonthStart(0) == 0
  {
    assert EPOCH_MARCH_MONTH / 12 == 1969 && EPOCH_MARCH_MONTH % 12 == 10;
    assert DaysBeforeYear(1969) == 718685 + 492 - 19 + 4;
  }

  /**
   * The March-based month `p` = 12 * `y` + `mp` holds day `d`, which is day
   * `doy` of March-based year `y`, at day `doy` - DaysBeforeMonth(`mp`) of the month.
   */
  lemma MarchMonthAt(d: int, y: int, mp: int, doy: int, p: int)
    requires 0 <= mp < 12 && DaysBeforeMonth(mp) <= doy
    requires DaysBeforeYear(y) + doy - EPOCH_SHIFT == d
    requires mp < 11 ==> doy < DaysBeforeMonth(mp + 1)
    requires mp == 11 ==> d < DaysBeforeYear(y + 1) - EPOCH_SHIFT
    requires p == 12 * y + mp
    ensures MarchMonthStart(p) + doy - DaysBeforeMonth(mp) == d
    ensures d < MarchMonthStart(p + 1)
  {
    assert p / 12 == y && p % 12 == mp;
    if mp < 11 {
      assert p + 1 == 12 * y + (mp + 1);
      assert (p + 1) / 12 == y && (p + 1) % 12 == mp + 1;
    } else {
      assert p + 1 == 12 * (y + 1) + 0;
      assert (p + 1) / 12 == y + 1 && (p + 1) % 12 == 0;
    }
  }

  /** A March-based day lies in the month its civil date names, at the day of month it names. */
  lemma CivilOfInMonth(d: int, md: MarchDay, dt: Date, m: int)
    requires 0 <= md.month < 12 && DaysBeforeMonth(md.month) <= md.dayOfYear <= 365
    requires DaysBeforeYear(md.year) + md.dayOfYear - EPOCH_SHIFT == d
    requires md.month < 11 ==> md.dayOfYear < DaysBeforeMonth(md.month + 1)
    requires md.month == 11 ==> d < DaysBeforeYear(md.year + 1) - EPOCH_SHIFT
    requires dt == CivilOf(md) && m == EpochMonth(dt)
    ensures MonthStart(m) + dt.day - 1 == d
    ensures d < MonthStart(m + 1)
  {
    var p := 12 * md.year + md.month;
    if md.month < 10 {
      assert m == p - EPOCH_MARCH_MONTH;
    } else {
      assert m == p - EPOCH_MARCH_MONTH;
    }
    MarchMonthAt(d, md.year, md.month, md.dayOfYear, p);
    assert MonthStart(m) == MarchMonthStart(p);
    assert MonthStart(m + 1) == MarchMonthStart(p + 1);
  }

  /** Day `d` is the day of month CivilFromDays names, counted from its month's first day. */
  lemma CivilFromDaysDayOfMonth(d: int)
    ensures var dt := CivilFromDays(d); MonthStart(EpochMonth(dt)) + dt.day - 1 == d
  {
    var dt := CivilFromDays(d);
    CivilOfInMonth(d, MarchDayOf(d), dt, EpochMonth(dt));
  }

  /** Day `d` comes before the month after the one CivilFromDays names. */
  lemma CivilFromDaysBeforeNextMonth(d: int)
    ensures var dt := CivilFromDays(d); d < MonthStart(EpochMonth(dt) + 1)
  {
    var dt := CivilFromDays(d);
    CivilOfInMonth(d, MarchDayOf(d), dt, EpochMonth(dt));
  }

  /** Day `d` lies in the month CivilFromDays names, at the day of month it names. */
  lemma CivilFromDaysInMonth(d: int)
    ensures var dt := CivilFromDays(d);
      && MonthStart(EpochMonth(dt)) + dt.day - 1 == d
      && d < MonthStart(EpochMonth(dt) + 1)
  {
    CivilFromDaysDayOfMonth(d);
    CivilFromDaysBeforeNextMonth(d);
  }

  /** A date whose day stays inside its month is valid. */
  lemma InMonthIsValid(dt: Date)
    requires 1 <= dt.month <= 12 && 1 <= dt.day
    requires MonthStart(EpochMonth(dt)) + dt.day - 1 < MonthStart(EpochMonth(dt) + 1)
    ensures ValidDate(dt)
  {
    var m := EpochMonth(dt);
    MonthLength(m);
    assert FirstOfMonth(m).year == dt.year && FirstOfMonth(m).month == dt.month by {
      assert m == 12 * (dt.year - 1970) + (dt.month - 1);
    }
  }

  /** A day lies in exactly one month. */
  lemma MonthOfDayUnique(m1: int, m2: int, d: int)
    requires MonthStart(m1) <= d < MonthStart(m1 + 1)
    requires MonthStart(m2) <= d < MonthStart(m2 + 1)
    ensures m1 == m2
  {
    if m1 < m2 {
      MonthStartGrowth(m1 + 1, m2);
    } else if m2 < m1 {
      MonthStartGrowth(m2 + 1, m1);
    }
  }

  /** Two dates that fall on the same day inside their months are the same date. */
  lemma SameDayInMonth(c: Date, dt: Date, d: int)
    requires 1 <= c.month <= 12 && 1 <= dt.month <= 12 && 1 <= c.day && 1 <= dt.day
    requires MonthStart(EpochMonth(c)) + c.day - 1 == d < MonthStart(EpochMonth(c) + 1)
    requires MonthStart(EpochMonth(dt)) + dt.day - 1 == d < MonthStart(EpochMonth(dt) + 1)
    ensures c == dt
  {
    MonthOfDayUnique(EpochMonth(c), EpochMonth(dt), d);
  }

  /** CivilFromDays yields a valid date that DaysFromCivil maps back to `d`. */
  lemma CivilFromDaysRoundTrip(d: int)
    ensures ValidDate(CivilFromDays(d))
    ensures DaysFromCivil(CivilFromDays(d)) == d
  {
    CivilFromDaysInMonth(d);
    InMonthIsValid(CivilFromDays(d));
  }

  /** A valid date lies before the first day of the following month. */
  lemma ValidDateInMonth(dt: Date)
    requires ValidDate(dt)
    ensures DaysFromCivil(dt) < MonthStart(EpochMonth(dt) + 1)
  {
    var m := EpochMonth(dt);
    MonthLength(m);
    assert FirstOfMonth(m).year == dt.year && FirstOfMonth(m).month == dt.month by {
      assert m == 12 * (dt.year - 1970) + (dt.month - 1);
    }
  }

  /** A valid date is the date found in the month of its day count, at its day of month. */
  lemma ValidDateAt(dt: Date, c: Date, d: int)
    requires ValidDate(dt) && d == DaysFromCivil(dt)
    requires 1 <= c.month <= 12 && 1 <= c.day
    requires MonthStart(EpochMonth(c)) + c.day - 1 == d < MonthStart(EpochMonth(c) + 1)
    ensures c == dt
  {
    ValidDateInMonth(dt);
    SameDayInMonth(c, dt, d);
  }

  /** Every valid date survives DaysFromCivil followed by CivilFromDays. */
  lemma DaysFromCivilRoundTrip(dt: Date)
    requires ValidDate(dt)
    ensures CivilFromDays(DaysFromCivil(dt)) == dt
  {
    var d := DaysFromCivil(dt);
    CivilFromDaysInMonth(d);
    ValidDateAt(dt, CivilFromDays(d), d);
  }
}
