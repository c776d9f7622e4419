/**
  Day counts to Gregorian dates (tests/onvif_integration_test.rs), against the calendar itself:
  month lengths, the leap-year rule, and counting days one at a time.
 */
module CivilDate {

  datatype Date = Date(year: int, month: int, day: int)

  // ----- The algorithm

  /** The code's operands are never negative here, so its truncating division is Dafny's. */
  function DaysToYmd(days: nat): Date
  {
    var remaining := days + 719468;
    var era := remaining / 146097;
    var doe := remaining - era * 146097;
    var yoe := YearOfEra(doe);
    var doy := doe - (365 * yoe + yoe / 4 - yoe / 100);
    FromMarch(yoe + era * 400, doy)
  }

  function YearOfEra(doe: int): int
  {
    (doe - doe / 1460 + doe / 36524 - doe / 146096) / 365
  }

  /** The calendar date of day `doy` of the year that starts on the first of March of `year`. */
  function FromMarch(year: int, doy: int): Date
  {
    var mp := (5 * doy + 2) / 153;
    var d := doy - (153 * mp + 2) / 5 + 1;
    var m := if mp < 10 then mp + 3 else mp - 9;
    Date(if m <= 2 then year + 1 else year, m, d)
  }

  // ----- The calendar

  predicate IsLeap(year: int)
  {
    year % 4 == 0 && (year % 100 != 0 || year % 400 == 0)
  }

  function DaysInMonth(year: int, month: int): int
  {
    if month == 2 then (if IsLeap(year) then 29 else 28)
    else if month in {4, 6, 9, 11} then 30
    else 31
  }

  predicate Valid(date: Date)
  {
    1 <= date.month <= 12 && 1 <= date.day <= DaysInMonth(date.year, date.month)
  }

  function NextDay(date: Date): Date
  {
    if date.day < DaysInMonth(date.year, date.month) then date.(day := date.day + 1)
    else if date.month < 12 then Date(date.year, date.month + 1, 1)
    else Date(date.year + 1, 1, 1)
  }

  /** Days from the first of January to the first of `month`. */
  function DaysBeforeMonth(year: int, month: int): int
    decreases month
  {
    if month <= 1 then 0 else DaysBeforeMonth(year, month - 1) + DaysInMonth(year, month - 1)
  }

  /** Days from 1970-01-01 to the first of January of `year`. */
  function DaysBeforeYear(year: int): int
    decreases year - 1970
  {
    if year <= 1970 then 0 else DaysBeforeYear(year - 1) + if IsLeap(year - 1) then 366 else 365
  }

  function DayCount(date: Date): int
  {
    DaysBeforeYear(date.year) + DaysBeforeMonth(date.year, date.month) + date.day - 1
  }

  // ----- Years that start in March

  /** Days before the March-based year `k`, counted from year 0. */
  function MarchStart(k: int): int
  {
    365 * k + k / 4 - k / 100 + k / 400
  }

  /** Where year 100 * j + 4 * c + i of the era starts, and that its four-year cycle holds no stray day. */
  lemma MarchStartAt(j: int, c: int, i: int)
    requires 0 <= j < 4 && 0 <= c < 25 && 0 <= i < 4
    ensures MarchStart(100 * j + 4 * c + i) == 36524 * j + 1461 * c + 365 * i
  {
    var k := 100 * j + 4 * c + i;
    assert k / 4 == 25 * j + c && k / 100 == j && k / 400 == 0;
  }

  lemma MarchStartOf(j: int, c: int, i: int)
    requires 0 <= j < 4 && 0 <= c < 25 && 0 <= i < 4
    ensures MarchStart(100 * j + 4 * c + i) == 36524 * j + 1461 * c + 365 * i
    ensures i < 3 ==> MarchStart(100 * j + 4 * c + i + 1) == 36524 * j + 1461 * c + 365 * (i + 1)
    ensures i == 3 && c < 24 ==> MarchStart(100 * j + 4 * c + i + 1) == 36524 * j + 1461 * (c + 1)
    ensures i == 3 && c == 24 && j < 3 ==> MarchStart(100 * j + 4 * c + i + 1) == 36524 * (j + 1)
    ensures i == 3 && c == 24 && j == 3 ==> MarchStart(100 * j + 4 * c + i + 1) == 146097
  {
    assert MarchStart(400) == 146097;
    hide MarchStart;
    MarchStartAt(j, c, i);
    if i < 3 {
      MarchStartAt(j, c, i + 1);
    } else if c < 24 {
      MarchStartAt(j, c + 1, 0);
    } else if j < 3 {
      MarchStartAt(j + 1, 0, 0);
    }
  }

  /** The three correction terms of the year formula, for a day in a known century and four-year cycle. */
  lemma YearFormula(j: int, c: int, u: int, i: int)
    requires 0 <= j < 4 && 0 <= c < 25 && 0 <= u < 1461
    requires j < 3 && c == 24 ==> u < 1460
    requires 0 <= i <= 3 && 365 * i <= u && (i < 3 ==> u < 365 * (i + 1))
    ensures YearOfEra(36524 * j + 1461 * c + u) == 100 * j + 4 * c + i
  {
    var doe := 36524 * j + 1461 * c + u;
    var w := 24 * j + c + u;
    assert doe == 1460 * (25 * j + c) + w;
    assert doe / 1460 == 25 * j + c + w / 1460;
    if doe == 146096 {
      assert j == 3 && c == 24 && u == 1460;
    } else {
      assert doe / 36524 == j && doe / 146096 == 0;
    }
    assert doe - doe / 1460 + doe / 36524 - doe / 146096 == 365 * (100 * j + 4 * c + i) + (u - 365 * i - w / 1460);
    assert 0 <= u - 365 * i - w / 1460 < 365;
  }

  /** A day of the era, split into centuries and four-year cycles; the last cycle of a century lacks a day. */
  lemma CenturySplit(doe: int) returns (j: int, c: int, u: int)
    requires 0 <= doe < 146097
    ensures 0 <= j < 4 && 0 <= c < 25 && 0 <= u < 1461 && doe == 36524 * j + 1461 * c + u
    ensures j < 3 && c == 24 ==> u < 1460
  {
    j := if doe / 36524 < 3 then doe / 36524 else 3;
    var t := doe - 36524 * j;
    c, u := t / 1461, t % 1461;
  }

  lemma CycleSplit(u: int) returns (i: int)
    requires 0 <= u < 1461
    ensures 0 <= i <= 3 && 365 * i <= u && (i < 3 ==> u < 365 * (i + 1))
  {
    i := if u / 365 < 3 then u / 365 else 3;
  }

  /** The year formula finds the March-based year that contains the day. */
  lemma YearOfEraBounds(doe: int)
    requires 0 <= doe < 146097
    ensures 0 <= YearOfEra(doe) < 400
    ensures MarchStart(YearOfEra(doe)) <= doe < MarchStart(YearOfEra(doe) + 1)
  {
    var j, c, u := CenturySplit(doe);
    hide YearOfEra, MarchStart;
    var i := CycleSplit(u);
    YearFormula(j, c, u, i);
    MarchStartOf(j, c, i);
  }

  /** The split of a day count into a March-based year and the day within it. */
  lemma MarchYear(days: nat) returns (year: int, doy: int)
    ensures days + 719468 == MarchStart(year) + doy
    ensures 0 <= doy < MarchStart(year + 1) - MarchStart(year)
    ensures DaysToYmd(days) == FromMarch(year, doy)
  {
    hide YearOfEra, MarchStart, FromMarch;
    var remaining := days + 719468;
    var era := remaining / 146097;
    var doe := remaining - era * 146097;
    var yoe := YearOfEra(doe);
    year, doy := yoe + era * 400, doe - (365 * yoe + yoe / 4 - yoe / 100);
    SplitIsExact(remaining, era, doe, yoe);
  }

  lemma SplitIsExact(remaining: nat, era: int, doe: int, yoe: int)
    requires era == remaining / 146097 && doe == remaining - era * 146097 && yoe == YearOfEra(doe)
    ensures var year, doy := yoe + era * 400, doe - (365 * yoe + yoe / 4 - yoe / 100);
            && remaining == MarchStart(year) + doy
            && 0 <= doy < MarchStart(year + 1) - MarchStart(year)
  {
    YearOfEraBounds(doe);
    assert yoe / 400 == 0;
    EraShift(yoe, era);
    EraShift(yoe + 1, era);
    assert (yoe + 1) + era * 400 == yoe + era * 400 + 1;
  }

  lemma EraShift(k: int, era: int)
    ensures MarchStart(k + era * 400) == MarchStart(k) + era * 146097
  {
    assert (k + era * 400) / 4 == k / 4 + era * 100;
    assert (k + era * 400) / 100 == k / 100 + era * 4;
    assert (k + era * 400) / 400 == k / 400 + era;
  }

  /** A March-based year has 365 days, or 366 when it ends in a leap February. */
  lemma MarchYearLength(year: int)
    ensures MarchStart(year + 1) - MarchStart(year) == if IsLeap(year + 1) then 366 else 365
  {
    var k := year + 1;
    assert k / 4 - year / 4 == if k % 4 == 0 then 1 else 0;
    assert k / 100 - year / 100 == if k % 100 == 0 then 1 else 0;
    assert k / 400 - year / 400 == if k % 400 == 0 then 1 else 0;
    Divisibility(k);
  }

  lemma Divisibility(k: int)
    ensures k % 400 == 0 ==> k % 100 == 0
    ensures k % 100 == 0 ==> k % 4 == 0
  {
    Multiple(k, 4, 100);
    Multiple(k, 25, 4);
  }

  /** A multiple of f * g is a multiple of g. */
  lemma Multiple(k: int, f: int, g: int)
    requires f >= 1 && g >= 1
    ensures f * g >= 1 && (k % (f * g) == 0 ==> k % g == 0)
  {
    if k % (f * g) == 0 {
      var a, q, r := k / (f * g), k / g, k % g;
      assert k == a * (f * g) == (a * f) * g;
      NoSmallMultiple(a * f - q, g);
      assert r == (a * f - q) * g;
    }
  }

  lemma NoSmallMultiple(m: int, g: int)
    requires g >= 1
    ensures m == 0 || m * g >= g || m * g <= -g
  {
    if m >= 1 {
      assert m * g >= 1 * g;
    } else if m <= -1 {
      assert -m * g >= 1 * g;
    }
  }

  lemma {:induction false} MarchStartMonotone(a: int, b: int)
    requires a <= b
    ensures MarchStart(a) <= MarchStart(b)
    decreases b - a
  {
    if a < b {
      MarchStartMonotone(a, b - 1);
      MarchYearLength(b - 1);
    }
  }

  /** A day lies in only one March-based year. */
  lemma MarchYearUnique(r: int, a: int, b: int)
    requires MarchStart(a) <= r < MarchStart(a + 1) && MarchStart(b) <= r < MarchStart(b + 1)
    ensures a == b
  {
    if a < b {
      MarchStartMonotone(a + 1, b);
    } else if b < a {
      MarchStartMonotone(b + 1, a);
    }
  }

  // ----- Within one March-based year

  /** The first of each month, as a day of the March-based year. */
  function MonthStart(mp: int): int { (153 * mp + 2) / 5 }

  /** The day `k` days after the first of a month, counted from March. */
  function InMonth(year: int, mp: int, k: int): Date
  {
    Date(if mp < 10 then year else year + 1, if mp < 10 then mp + 3 else mp - 9, k + 1)
  }

  /** The length of a month, counted from March, in a March-based year of the given length. */
  function MonthLength(yearLength: int, mp: int): int
  {
    if mp == 11 then yearLength - 337 else MonthStart(mp + 1) - MonthStart(mp)
  }

  lemma MonthOf(doy: int)
    requires 0 <= doy <= 365
    ensures var mp := (5 * doy + 2) / 153; 0 <= mp < 12 && MonthStart(mp) <= doy < MonthStart(mp + 1)
  {
  }

  lemma MonthIs(year: int, doy: int, mp: int)
    requires 0 <= mp < 12 && MonthStart(mp) <= doy < MonthStart(mp + 1)
    ensures FromMarch(year, doy) == InMonth(year, mp, doy - MonthStart(mp))
  {
    assert (5 * doy + 2) / 153 == mp;
  }

  /** The month starts reproduce the calendar's month lengths. */
  lemma MonthLengthIs(year: int, mp: int, k: int)
    requires 0 <= mp < 12
    ensures var d := InMonth(year, mp, k);
      DaysInMonth(d.year, d.month) == MonthLength(if IsLeap(year + 1) then 366 else 365, mp)
  {
    hide IsLeap;
    assert MonthStart(11) == 337;
  }

  lemma FromMarchValid(year: int, doy: int)
    requires 0 <= doy < MarchStart(year + 1) - MarchStart(year)
    ensures Valid(FromMarch(year, doy))
    ensures FromMarch(year, doy).year == if doy < 306 then year else year + 1
  {
    hide IsLeap, MarchStart;
    MarchYearLength(year);
    MonthOf(doy);
    var mp := (5 * doy + 2) / 153;
    MonthIs(year, doy, mp);
    MonthLengthIs(year, mp, doy - MonthStart(mp));
    hide DaysInMonth, FromMarch;
  }

  lemma FromMarchNext(year: int, doy: int)
    requires 0 <= doy < MarchStart(year + 1) - MarchStart(year)
    ensures NextDay(FromMarch(year, doy)) ==
            if doy + 1 < MarchStart(year + 1) - MarchStart(year) then FromMarch(year, doy + 1)
            else FromMarch(year + 1, 0)
  {
    hide IsLeap, MarchStart, DaysInMonth;
    MarchYearLength(year);
    MonthOf(doy);
    var mp := (5 * doy + 2) / 153;
    var k := doy - MonthStart(mp);
    MonthIs(year, doy, mp);
    MonthLengthIs(year, mp, k);
    assert MonthStart(11) == 337 && MonthStart(12) == 367 && MonthStart(0) == 0;
    if k + 1 < MonthLength(if IsLeap(year + 1) then 366 else 365, mp) {
      MonthIs(year, doy + 1, mp);
    } else if mp < 11 {
      MonthIs(year, doy + 1, mp + 1);
    } else {
      MonthIs(year + 1, 0, 0);
    }
    hide FromMarch;
  }

  // ----- Main results

  /** The algorithm's result is fixed by the March-based year the day lies in. */
  lemma FromSplit(days: nat, year: int, doy: int)
    requires days + 719468 == MarchStart(year) + doy
    requires 0 <= doy < MarchStart(year + 1) - MarchStart(year)
    ensures DaysToYmd(days) == FromMarch(year, doy)
  {
    hide DaysToYmd, FromMarch, MarchStart;
    var year', doy' := MarchYear(days);
    MarchYearUnique(days + 719468, year, year');
  }

  /** Counting starts at the Unix epoch. */
  lemma Epoch()
    ensures DaysToYmd(0) == Date(1970, 1, 1)
    ensures DayCount(Date(1970, 1, 1)) == 0
  {
    FromSplit(0, 1969, 306);
  }

  /** Each day is followed by the next calendar day. */
  lemma SuccessiveDays(days: nat)
    ensures DaysToYmd(days + 1) == NextDay(DaysToYmd(days))
  {
    var year, doy := MarchYear(days);
    hide DaysToYmd, FromMarch, NextDay, MarchStart;
    FromMarchNext(year, doy);
    FromSplit(days, year, doy);
    MarchStartGrows(year + 1);
    if doy + 1 < MarchStart(year + 1) - MarchStart(year) {
      FromSplit(days + 1, year, doy + 1);
    } else {
      FromSplit(days + 1, year + 1, 0);
    }
  }

  lemma MarchStartGrows(year: int)
    ensures MarchStart(year) < MarchStart(year + 1)
  {
    MarchYearLength(year);
  }

  /** Days from the epoch on lie no earlier than the last two months of March-based year 1969. */
  lemma NotBefore1969(year: int, doy: int)
    requires MarchStart(year) + doy >= 719468
    requires 0 <= doy < MarchStart(year + 1) - MarchStart(year)
    ensures year > 1969 || (year == 1969 && doy >= 306)
  {
    if year < 1969 {
      MarchStartMonotone(year + 1, 1969);
    }
  }

  /** Every result is a real date. */
  lemma AlwaysValid(days: nat)
    ensures Valid(DaysToYmd(days)) && DaysToYmd(days).year >= 1970
  {
    var year, doy := MarchYear(days);
    NotBefore1969(year, doy);
    FromMarchValid(year, doy);
  }

  lemma NextDayCounts(date: Date)
    requires Valid(date) && date.year >= 1970
    ensures DayCount(NextDay(date)) == DayCount(date) + 1
  {
    if date.month == 12 && date.day == 31 {
      YearTotal(date.year);
    }
  }

  lemma YearTotal(year: int)
    ensures DaysBeforeMonth(year, 12) + 31 == if IsLeap(year) then 366 else 365
  {
    assert DaysBeforeMonth(year, 4) == 90 + if IsLeap(year) then 1 else 0;
    assert DaysBeforeMonth(year, 8) == 212 + if IsLeap(year) then 1 else 0;
  }

  /** A walk that starts at the epoch and takes the calendar's next day each time counts days. */
  lemma {:induction false} WalkCounts(date: nat -> Date, days: nat)
    requires date(0) == Date(1970, 1, 1)
    requires forall n: nat :: date(n + 1) == NextDay(date(n))
    requires forall n: nat :: Valid(date(n)) && date(n).year >= 1970
    ensures DayCount(date(days)) == days
  {
    if days > 0 {
      WalkCounts(date, days - 1);
      NextDayCounts(date(days - 1));
      assert date(days - 1 + 1) == NextDay(date(days - 1));
    }
  }

  /** The conversion loses nothing: counting the days up to the result gives the day count back. */
  lemma RoundTrip(days: nat)
    ensures DayCount(DaysToYmd(days)) == days
  {
    Epoch();
    forall n: nat
      ensures DaysToYmd(n + 1) == NextDay(DaysToYmd(n))
      ensures Valid(DaysToYmd(n)) && DaysToYmd(n).year >= 1970
    {
      SuccessiveDays(n);
      AlwaysValid(n);
    }
    WalkCounts(DaysToYmd, days);
  }
}
