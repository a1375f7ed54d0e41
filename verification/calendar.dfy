/** The proleptic Gregorian calendar in UTC, counted from Go's zero time
    0001-01-01 00:00:00: day 0 is 1 January of year 1. */
module Calendar {

  const SecondsPerDay := 86400
  const DaysPer400Years := 146097
  const DaysPer100Years := 36524
  const DaysPer4Years := 1461

  predicate IsLeap(y: int) {
    y % 4 == 0 && (y % 100 != 0 || y % 400 == 0)
  }

  function YearLength(y: int): nat {
    if IsLeap(y) then 366 else 365
  }

  function DaysInMonth(y: int, m: int): nat
    requires 1 <= m <= 12
  {
    if m == 2 then (if IsLeap(y) then 29 else 28)
    else if m == 4 || m == 6 || m == 9 || m == 11 then 30
    else 31
  }

  /** Days from 1 January of year 1 to 1 January of year y: the reference
      count, one year at a time. */
  function DaysBeforeYear(y: int): nat
    requires y >= 1
  {
    if y == 1 then 0 else DaysBeforeYear(y - 1) + YearLength(y - 1)
  }

  /** Days from 1 January to the first day of month m (m == 13: the whole year). */
  function DaysBeforeMonth(y: int, m: int): nat
    requires 1 <= m <= 13
  {
    if m == 1 then 0 else DaysBeforeMonth(y, m - 1) + DaysInMonth(y, m - 1)
  }

  datatype DateTime = DateTime(year: int, month: int, day: int, hour: int, minute: int, second: int)

  /** A real instant of the calendar at or after the zero time. */
  predicate Valid(t: DateTime) {
    && t.year >= 1
    && 1 <= t.month <= 12
    && 1 <= t.day <= DaysInMonth(t.year, t.month)
    && 0 <= t.hour < 24
    && 0 <= t.minute < 60
    && 0 <= t.second < 60
  }

  /** Seconds from 0001-01-01 00:00:00 to t: the meaning of a date-time. */
  function Elapsed(t: DateTime): int
    requires Valid(t)
  {
    (DaysBeforeYear(t.year) + DaysBeforeMonth(t.year, t.month) + t.day - 1) * SecondsPerDay
      + t.hour * 3600 + t.minute * 60 + t.second
  }

  // ---- the conversion -------------------------------------------------------

  /** Year and zero-based day of that year for day number n, found the way
      Go's time package does it: by 400-, 100-, 4- and 1-year cycles. */
  function YearAndDay(n: nat): (int, nat)
  {
    var q400 := n / DaysPer400Years;
    var r400 := n % DaysPer400Years;
    var q100 := if r400 / DaysPer100Years == 4 then 3 else r400 / DaysPer100Years;
    var r100 := r400 - q100 * DaysPer100Years;
    var q4 := r100 / DaysPer4Years;
    var r4 := r100 % DaysPer4Years;
    var q1 := if r4 / 365 == 4 then 3 else r4 / 365;
    (400 * q400 + 100 * q100 + 4 * q4 + q1 + 1, r4 - q1 * 365)
  }

  /** The month holding zero-based day-of-year doy, searching down from m. */
  function MonthOf(y: int, doy: nat, m: int): (r: int)
    requires 1 <= m <= 12
    requires doy < DaysBeforeMonth(y, m + 1)
    ensures 1 <= r <= m
    ensures DaysBeforeMonth(y, r) <= doy < DaysBeforeMonth(y, r + 1)
  {
    if DaysBeforeMonth(y, m) <= doy || m == 1 then m else MonthOf(y, doy, m - 1)
  }

  /** The instant s seconds after 0001-01-01 00:00:00. */
  function FromSeconds(s: nat): DateTime
  {
    var (y, doy) := YearAndDay(s / SecondsPerDay);
    var secs := s % SecondsPerDay;
    if y >= 1 && doy < YearLength(y) then
      FullYear(y);
      var m := MonthOf(y, doy, 12);
      DateTime(y, m, doy - DaysBeforeMonth(y, m) + 1, secs / 3600, secs % 3600 / 60, secs % 60)
    else
      // not reached: see YearAndDayCorrect
      DateTime(y, 1, doy + 1, secs / 3600, secs % 3600 / 60, secs % 60)
  }

  // ---- lemmas -----------------------------------------------------------------

  /** The months of a year add up to the year's length. */
  lemma FullYear(y: int)
    ensures DaysBeforeMonth(y, 13) == YearLength(y)
  {
    var leap := if IsLeap(y) then 1 else 0;
    assert DaysBeforeMonth(y, 2) == 31;
    assert DaysBeforeMonth(y, 3) == 59 + leap;
    assert DaysBeforeMonth(y, 4) == 90 + leap;
    assert DaysBeforeMonth(y, 5) == 120 + leap;
    assert DaysBeforeMonth(y, 6) == 151 + leap;
    assert DaysBeforeMonth(y, 7) == 181 + leap;
    assert DaysBeforeMonth(y, 8) == 212 + leap;
    assert DaysBeforeMonth(y, 9) == 243 + leap;
    assert DaysBeforeMonth(y, 10) == 273 + leap;
    assert DaysBeforeMonth(y, 11) == 304 + leap;
    assert DaysBeforeMonth(y, 12) == 334 + leap;
    assert DaysBeforeMonth(y, 13) == 365 + leap;
  }

  /** The closed form of the day count before year p + 1. */
  function ClosedForm(p: nat): nat {
    365 * p + p / 4 - p / 100 + p / 400
  }

  lemma DivStep4(p: nat)
    requires p >= 1
    ensures p / 4 - (p - 1) / 4 == if p % 4 == 0 then 1 else 0
  {
    var q, r := p / 4, p % 4;
    if r == 0 {
      assert p - 1 == 4 * (q - 1) + 3;
    } else {
      assert p - 1 == 4 * q + (r - 1);
    }
  }

  lemma DivStep100(p: nat)
    requires p >= 1
    ensures p / 100 - (p - 1) / 100 == if p % 100 == 0 then 1 else 0
  {
    var q, r := p / 100, p % 100;
    if r == 0 {
      assert p - 1 == 100 * (q - 1) + 99;
    } else {
      assert p - 1 == 100 * q + (r - 1);
    }
  }

  lemma DivStep400(p: nat)
    requires p >= 1
    ensures p / 400 - (p - 1) / 400 == if p % 400 == 0 then 1 else 0
  {
    var q, r := p / 400, p % 400;
    if r == 0 {
      assert p - 1 == 400 * (q - 1) + 399;
    } else {
      assert p - 1 == 400 * q + (r - 1);
    }
  }

  /** Multiples of 400 are multiples of 100, which are multiples of 4. */
  lemma MultipleFacts(p: nat)
    ensures p % 100 == 0 ==> p % 4 == 0
    ensures p % 400 == 0 ==> p % 100 == 0
  {
    if p % 100 == 0 {
      assert p == 4 * (25 * (p / 100));
    }
    if p % 400 == 0 {
      assert p == 100 * (4 * (p / 400));
    }
  }

  /** One more year adds that year's length to the closed form. */
  lemma ClosedFormStep(p: nat)
    requires p >= 1
    ensures ClosedForm(p) == ClosedForm(p - 1) + YearLength(p)
  {
    DivStep4(p);
    DivStep100(p);
    DivStep400(p);
    MultipleFacts(p);
    var a, b, c := p / 4 - (p - 1) / 4, p / 100 - (p - 1) / 100, p / 400 - (p - 1) / 400;
    assert ClosedForm(p) - ClosedForm(p - 1) == 365 + a - b + c;
    assert YearLength(p) == 365 + a - b + c;
  }

  /** The closed form counts at least 365 days a year. */
  lemma ClosedFormAtLeast(p: nat)
    ensures ClosedForm(p) >= 365 * p
  {
    assert p / 4 >= p / 100 by {
      assert p == 100 * (p / 100) + p % 100;
      assert p >= 4 * (25 * (p / 100));
    }
  }

  /** The reference count agrees with the closed form used by the cycles. */
  lemma {:induction false} DaysBeforeYearClosedForm(y: int)
    requires y >= 1
    ensures DaysBeforeYear(y) == ClosedForm(y - 1)
  {
    if y > 1 {
      DaysBeforeYearClosedForm(y - 1);
      ClosedFormStep(y - 1);
    }
  }

  lemma CycleDays(a: nat, b: nat, c: nat, d: nat)
    requires b <= 3 && c <= 24 && d <= 3
    ensures DaysBeforeYear(400 * a + 100 * b + 4 * c + d + 1)
      == DaysPer400Years * a + DaysPer100Years * b + DaysPer4Years * c + 365 * d
  {
    var p := 400 * a + 100 * b + 4 * c + d;
    DaysBeforeYearClosedForm(p + 1);
    assert p / 4 == 100 * a + 25 * b + c;
    assert p / 100 == 4 * a + b;
    assert p / 400 == a;
  }

  /** The century split of a day within a 400-year cycle: the last century
      absorbs the cycle's final leap day. */
  lemma CenturySplit(r400: nat)
    requires r400 < DaysPer400Years
    ensures var q100 := if r400 / DaysPer100Years == 4 then 3 else r400 / DaysPer100Years;
      && q100 <= 3
      && 0 <= r400 - q100 * DaysPer100Years <= DaysPer100Years
      && (q100 < 3 ==> r400 - q100 * DaysPer100Years < DaysPer100Years)
  {
  }

  /** The 4-year split of a day within a century; a day that is not the
      cycle's final leap day lies before the last day of the last 4 years. */
  lemma QuadSplit(r100: nat)
    requires r100 <= DaysPer100Years
    ensures r100 / DaysPer4Years <= 24
    ensures r100 < DaysPer100Years && r100 / DaysPer4Years == 24 ==> r100 % DaysPer4Years < 1460
  {
  }

  /** The 1-year split of a day within 4 years; day 365 of the last year
      occurs only on the last day of the 4 years. */
  lemma YearSplit(r4: nat)
    requires r4 < DaysPer4Years
    ensures var q1 := if r4 / 365 == 4 then 3 else r4 / 365;
      && q1 <= 3
      && 0 <= r4 - q1 * 365 <= 365
      && (r4 - q1 * 365 == 365 ==> r4 == 1460 && q1 == 3)
  {
  }

  /** The cycle arithmetic lands in the right year: n falls within year y at
      zero-based day doy. */
  lemma YearAndDayCorrect(n: nat)
    ensures var (y, doy) := YearAndDay(n);
      y >= 1 && doy < YearLength(y) && DaysBeforeYear(y) + doy == n
  {
    var q400 := n / DaysPer400Years;
    var r400 := n % DaysPer400Years;
    CenturySplit(r400);
    var q100 := if r400 / DaysPer100Years == 4 then 3 else r400 / DaysPer100Years;
    var r100 := r400 - q100 * DaysPer100Years;
    QuadSplit(r100);
    var q4 := r100 / DaysPer4Years;
    var r4 := r100 % DaysPer4Years;
    YearSplit(r4);
    var q1 := if r4 / 365 == 4 then 3 else r4 / 365;
    var y := 400 * q400 + 100 * q100 + 4 * q4 + q1 + 1;
    var doy := r4 - q1 * 365;
    CycleDays(q400, q100, q4, q1);
    if doy == 365 {
      LastDayOfCycleIsLeap(q400, q100, q4);
    }
    assert YearAndDay(n) == (y, doy);
  }

  lemma LastDayOfCycleIsLeap(a: nat, b: nat, c: nat)
    requires b <= 3 && c <= 24
    requires c == 24 ==> b == 3
    ensures IsLeap(400 * a + 100 * b + 4 * c + 4)
  {
    var y := 400 * a + 100 * b + 4 * c + 4;
    assert y % 4 == 0;
    if c < 24 {
      assert y % 100 == 4 * c + 4;
    } else {
      assert y == 400 * (a + 1);
    }
  }

  /** The hour, minute and second of a second within a day. */
  lemma TimeOfDay(secs: nat)
    requires secs < SecondsPerDay
    ensures secs / 3600 < 24 && secs % 3600 / 60 < 60
    ensures secs == secs / 3600 * 3600 + secs % 3600 / 60 * 60 + secs % 60
  {
  }

  /** FromSeconds really is the instant s seconds after the zero time. */
  lemma FromSecondsCorrect(s: nat)
    ensures Valid(FromSeconds(s))
    ensures Elapsed(FromSeconds(s)) == s
  {
    var days := s / SecondsPerDay;
    var secs := s % SecondsPerDay;
    assert s == days * SecondsPerDay + secs;
    YearAndDayCorrect(days);
    var (y, doy) := YearAndDay(days);
    FullYear(y);
    TimeOfDay(secs);
    var m := MonthOf(y, doy, 12);
    var t := FromSeconds(s);
    assert t == DateTime(y, m, doy - DaysBeforeMonth(y, m) + 1, secs / 3600, secs % 3600 / 60, secs % 60);
  }

  lemma {:induction false} DaysBeforeYearGrows(a: int, b: int)
    requires 1 <= a < b
    ensures DaysBeforeYear(b) >= DaysBeforeYear(a) + YearLength(a)
  {
    if b > a + 1 {
      DaysBeforeYearGrows(a, b - 1);
    }
  }

  lemma {:induction false} DaysBeforeMonthGrows(y: int, a: int, b: int)
    requires 1 <= a < b <= 13
    ensures DaysBeforeMonth(y, b) >= DaysBeforeMonth(y, a) + DaysInMonth(y, a)
  {
    if b > a + 1 {
      DaysBeforeMonthGrows(y, a, b - 1);
    }
  }

  /** The zero-based day of the year of a valid date-time. */
  lemma DayOfYearBound(t: DateTime)
    requires Valid(t)
    ensures DaysBeforeMonth(t.year, t.month) + t.day - 1 < YearLength(t.year)
  {
    FullYear(t.year);
    if t.month < 12 {
      DaysBeforeMonthGrows(t.year, t.month + 1, 13);
    }
  }

  /** Two valid date-times denoting the same instant are the same. */
  lemma ElapsedInjective(t: DateTime, u: DateTime)
    requires Valid(t) && Valid(u)
    requires Elapsed(t) == Elapsed(u)
    ensures t == u
  {
    var dt := DaysBeforeYear(t.year) + DaysBeforeMonth(t.year, t.month) + t.day - 1;
    var du := DaysBeforeYear(u.year) + DaysBeforeMonth(u.year, u.month) + u.day - 1;
    var st := t.hour * 3600 + t.minute * 60 + t.second;
    var su := u.hour * 3600 + u.minute * 60 + u.second;
    assert dt == du && st == su by {
      assert Elapsed(t) == dt * SecondsPerDay + st && 0 <= st < SecondsPerDay;
      assert Elapsed(u) == du * SecondsPerDay + su && 0 <= su < SecondsPerDay;
    }
    DayOfYearBound(t);
    DayOfYearBound(u);
    if t.year < u.year {
      DaysBeforeYearGrows(t.year, u.year);
    } else if u.year < t.year {
      DaysBeforeYearGrows(u.year, t.year);
    }
    assert t.year == u.year;
    if t.month < u.month {
      DaysBeforeMonthGrows(t.year, t.month, u.month);
    } else if u.month < t.month {
      DaysBeforeMonthGrows(t.year, u.month, t.month);
    }
    assert t.month == u.month && t.day == u.day;
    assert t.hour == u.hour;
    assert t.minute == u.minute;
  }

  /** FromSeconds inverts Elapsed: every valid date-time is the image of the
      seconds it denotes. */
  lemma FromSecondsOfElapsed(t: DateTime)
    requires Valid(t)
    ensures Elapsed(t) >= 0 && FromSeconds(Elapsed(t)) == t
  {
    FromSecondsCorrect(Elapsed(t));
    ElapsedInjective(FromSeconds(Elapsed(t)), t);
  }
}
