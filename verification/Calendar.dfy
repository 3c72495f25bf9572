/** Day counts and civil dates: the closed-form conversion of `civil_from_days`,
    proved against a calendar that only knows the leap rule and the twelve month
    lengths and counts year by year, month by month, from 1970-01-01. */
module Calendar {

  datatype Date = Date(y: int, m: int, d: int)

  // ----- The independent calendar -----

  predicate IsLeap(y: int) {
    y % 4 == 0 && (y % 100 != 0 || y % 400 == 0)
  }

  function YearLength(y: int): int {
    if IsLeap(y) then 366 else 365
  }

  function MonthLength(y: int, m: int): int
    requires 1 <= m <= 12
  {
    if m == 2 then if IsLeap(y) then 29 else 28
    else if m in {4, 6, 9, 11} then 30
    else 31
  }

  predicate IsDate(date: Date) {
    1 <= date.m <= 12 && 1 <= date.d <= MonthLength(date.y, date.m)
  }

  /** Days from 1970-01-01 to the first of January of year `y`, one year at a time. */
  function DaysToYear(y: int): int
    decreases if y >= 1970 then y - 1970 else 1970 - y
  {
    if y == 1970 then 0
    else if y > 1970 then DaysToYear(y - 1) + YearLength(y - 1)
    else DaysToYear(y + 1) - YearLength(y)
  }

  /** Days from the first of January to the first of month `m`, one month at a time. */
  function DaysToMonth(y: int, m: int): int
    requires 1 <= m <= 12
  {
    if m == 1 then 0 else DaysToMonth(y, m - 1) + MonthLength(y, m - 1)
  }

  function DayNumber(date: Date): int
    requires IsDate(date)
  {
    DaysToYear(date.y) + DaysToMonth(date.y, date.m) + date.d - 1
  }

  predicate Before(a: Date, b: Date) {
    a.y < b.y || (a.y == b.y && (a.m < b.m || (a.m == b.m && a.d < b.d)))
  }

  // ----- The implementation -----

  /** Integer division that truncates towards zero, for a positive divisor. */
  function TruncDiv(a: int, b: int): int
    requires b > 0
  {
    if a >= 0 then a / b else -((-a) / b)
  }

  /** The era split: `(era, doe)` for a day count already shifted to 0000-03-01. */
  function Era(z: int): int {
    TruncDiv(if z >= 0 then z else z - 146_096, 146_097)
  }

  function YearOfEra(doe: int): int {
    TruncDiv(doe - TruncDiv(doe, 1_460) + TruncDiv(doe, 36_524) - TruncDiv(doe, 146_096), 365)
  }

  function DayOfYear(doe: int): int {
    var yoe := YearOfEra(doe);
    doe - (365 * yoe + TruncDiv(yoe, 4) - TruncDiv(yoe, 100))
  }

  function MarchMonth(doy: int): int {
    TruncDiv(5 * doy + 2, 153)
  }

  /** Calendar month of the `mp`-th month counted from March. */
  function MonthOfMarch(mp: int): int {
    if mp < 10 then mp + 3 else mp - 9
  }

  /** The date `doy` days after 1 March of `marchYear`. */
  function DateInMarchYear(marchYear: int, doy: int): Date {
    var mp := MarchMonth(doy);
    var d := doy - TruncDiv(153 * mp + 2, 5) + 1;
    var m := MonthOfMarch(mp);
    Date(marchYear + (if m <= 2 then 1 else 0), m, d)
  }

  function CivilFromDays(days: int): Date {
    var z := days + 719_468;
    var era := Era(z);
    var doe := z - era * 146_097;
    DateInMarchYear(YearOfEra(doe) + era * 400, DayOfYear(doe))
  }

  // ----- Ranges of the intermediate values -----

  lemma {:induction false} EraRange(z: int)
    ensures 0 <= z - Era(z) * 146_097 <= 146_096
    ensures Era(z) == z / 146_097
  {
  }

  /** First day, within a 400-year era that starts on 1 March, of its year `yoe`. */
  function EraYearStart(yoe: int): int {
    365 * yoe + yoe / 4 - yoe / 100
  }

  /** `doe` written as `c` whole centuries, `q` four-year cycles, `k` years and `r` days. */
  predicate IsSplit(doe: int, c: int, q: int, k: int, r: int) {
    && doe == 36_524 * c + 1_461 * q + 365 * k + r
    && 0 <= c <= 3 && 0 <= q <= 24 && 0 <= k <= 3
    && 0 <= r <= 365 && (r == 365 ==> k == 3)
    && (r == 365 && q == 24 ==> c == 3)
  }

  lemma {:induction false} Split(doe: int) returns (c: int, q: int, k: int, r: int)
    requires 0 <= doe <= 146_096
    ensures IsSplit(doe, c, q, k, r)
  {
    c := if doe / 36_524 > 3 then 3 else doe / 36_524;
    var inCentury := doe - 36_524 * c;
    q := inCentury / 1_461;
    var inCycle := inCentury - 1_461 * q;
    k := if inCycle / 365 > 3 then 3 else inCycle / 365;
    r := inCycle - 365 * k;
  }

  /** The closed form finds the year of the split: the three corrections to `doe`
      leave exactly 365 days per year. */
  lemma {:induction false} YearOfSplit(doe: int, c: int, q: int, k: int, r: int)
    requires IsSplit(doe, c, q, k, r)
    ensures YearOfEra(doe) == 100 * c + 4 * q + k
  {
    var carry := if 24 * c + q + 365 * k + r >= 1_460 then 1 else 0;
    assert doe / 1_460 == 25 * c + q + carry;
    var last := if doe == 146_096 then 1 else 0;
    assert doe / 146_096 == last;
    assert doe / 36_524 == c + last;
  }

  lemma {:induction false} YearOfEraRange(doe: int)
    requires 0 <= doe <= 146_096
    ensures 0 <= YearOfEra(doe) <= 399
    ensures EraYearStart(YearOfEra(doe)) <= doe
    ensures YearOfEra(doe) < 399 ==> doe < EraYearStart(YearOfEra(doe) + 1)
    ensures 0 <= DayOfYear(doe) <= 365
    ensures DayOfYear(doe) == doe - EraYearStart(YearOfEra(doe))
  {
    var c, q, k, r := Split(doe);
    YearOfSplit(doe, c, q, k, r);
    var yoe := YearOfEra(doe);
    assert yoe / 100 == c && yoe / 4 == 25 * c + q;
    assert DayOfYear(doe) == r;
  }

  // ----- Agreement with the independent calendar -----

  /** Days before year `y` of the proleptic calendar, as a sum with no recursion. */
  function DaysBefore(y: int): int {
    365 * y + (y - 1) / 4 - (y - 1) / 100 + (y - 1) / 400
  }

  lemma {:induction false} DaysBeforeStep(y: int)
    ensures DaysBefore(y + 1) == DaysBefore(y) + YearLength(y)
  {
    assert y / 4 - (y - 1) / 4 == if y % 4 == 0 then 1 else 0;
    assert y / 100 - (y - 1) / 100 == if y % 100 == 0 then 1 else 0;
    assert y / 400 - (y - 1) / 400 == if y % 400 == 0 then 1 else 0;
    assert y % 400 == 0 ==> y % 100 == 0;
    assert y % 100 == 0 ==> y % 4 == 0;
  }

  lemma {:induction false} DaysToYearClosed(y: int)
    ensures DaysToYear(y) == DaysBefore(y) - DaysBefore(1970)
    decreases if y >= 1970 then y - 1970 else 1970 - y
  {
    if y > 1970 {
      DaysBeforeStep(y - 1);
      DaysToYearClosed(y - 1);
    } else if y < 1970 {
      DaysBeforeStep(y);
      DaysToYearClosed(y + 1);
    }
  }

  lemma {:induction false} DaysToMonthTable(y: int)
    ensures var leap := if IsLeap(y) then 1 else 0;
            && DaysToMonth(y, 1) == 0 && DaysToMonth(y, 2) == 31 && DaysToMonth(y, 3) == 59 + leap
            && DaysToMonth(y, 4) == 90 + leap && DaysToMonth(y, 5) == 120 + leap && DaysToMonth(y, 6) == 151 + leap
            && DaysToMonth(y, 7) == 181 + leap && DaysToMonth(y, 8) == 212 + leap && DaysToMonth(y, 9) == 243 + leap
            && DaysToMonth(y, 10) == 273 + leap && DaysToMonth(y, 11) == 304 + leap
            && DaysToMonth(y, 12) == 334 + leap
  {
    assert DaysToMonth(y, 3) == DaysToMonth(y, 2) + MonthLength(y, 2);
    assert DaysToMonth(y, 5) == DaysToMonth(y, 4) + 30;
    assert DaysToMonth(y, 7) == DaysToMonth(y, 6) + 30;
    assert DaysToMonth(y, 9) == DaysToMonth(y, 8) + 31;
    assert DaysToMonth(y, 11) == DaysToMonth(y, 10) + 31;
  }

  /** Days from 1 March of a year to the first of its `mp`-th month, counted from March. */
  lemma {:induction false} MarchMonthStart(y: int, mp: int)
    requires 0 <= mp <= 11
    ensures var m := MonthOfMarch(mp);
            var y' := if m <= 2 then y + 1 else y;
            DaysToYear(y') + DaysToMonth(y', m) == DaysToYear(y) + DaysToMonth(y, 3) + (153 * mp + 2) / 5
  {
    DaysToMonthTable(y);
    if mp >= 10 {
      DaysToYearClosed(y);
      DaysToYearClosed(y + 1);
      DaysBeforeStep(y);
      DaysToMonthTable(y + 1);
    }
  }

  /** The day of the year picks the month it falls in, and a day inside that month. */
  lemma {:induction false} MarchMonthRange(y: int, doy: int)
    requires 0 <= doy <= 364 || (doy == 365 && IsLeap(y + 1))
    ensures var mp := MarchMonth(doy);
            var m := MonthOfMarch(mp);
            && 0 <= mp <= 11
            && 1 <= doy - (153 * mp + 2) / 5 + 1 <= MonthLength(if m <= 2 then y + 1 else y, m)
  {
  }

  lemma {:induction false} LeapRepeats(y: int, era: int)
    ensures IsLeap(y + era * 400) <==> IsLeap(y)
  {
    assert (y + era * 400) / 4 == y / 4 + 100 * era;
    assert (y + era * 400) / 100 == y / 100 + 4 * era;
    assert (y + era * 400) / 400 == y / 400 + era;
  }

  /** The fourth year of a cycle ends with 29 February, except at most centuries. */
  lemma {:induction false} LeapOfSplit(era: int, c: int, q: int)
    requires 0 <= c <= 3 && 0 <= q <= 24 && (q == 24 ==> c == 3)
    ensures IsLeap(100 * c + 4 * q + 3 + era * 400 + 1)
  {
    var y := 100 * c + 4 * q + 4;
    LeapRepeats(y, era);
    assert y % 4 == 0 by { assert y == 4 * (25 * c + q + 1); }
    if q == 24 {
      assert y == 400;
    } else {
      assert y % 100 == 4 * q + 4 by { assert y == 100 * c + (4 * q + 4); }
    }
  }

  /** 1 March of year `yoe` of an era, as a day number. */
  lemma {:induction false} MarchYearStart(era: int, yoe: int)
    requires 0 <= yoe <= 399
    ensures var y := yoe + era * 400;
            DaysToYear(y) + DaysToMonth(y, 3) == era * 146_097 + EraYearStart(yoe) - 719_468
  {
    var y := yoe + era * 400;
    DaysToYearClosed(y);
    DaysBeforeStep(y);
    DaysToMonthTable(y);
    assert y / 4 == yoe / 4 + 100 * era by { assert y == yoe + 4 * (100 * era); }
    assert y / 100 == yoe / 100 + 4 * era by { assert y == yoe + 100 * (4 * era); }
    assert y / 400 == era;
  }

  /** A day past the 365th only occurs in a year that ends with 29 February. */
  lemma {:induction false} LastDayIsLeap(era: int, doe: int)
    requires 0 <= doe <= 146_096
    ensures DayOfYear(doe) == 365 ==> IsLeap(YearOfEra(doe) + era * 400 + 1)
  {
    var c, q, k, r := Split(doe);
    YearOfSplit(doe, c, q, k, r);
    YearOfEraRange(doe);
    if DayOfYear(doe) == 365 {
      assert EraYearStart(100 * c + 4 * q + k) == 36_524 * c + 1_461 * q + 365 * k;
      LeapOfSplit(era, c, q);
    }
  }

  lemma {:induction false} DateInMarchYearIsExact(y: int, doy: int)
    requires 0 <= doy <= 364 || (doy == 365 && IsLeap(y + 1))
    ensures IsDate(DateInMarchYear(y, doy))
    ensures DayNumber(DateInMarchYear(y, doy)) == DaysToYear(y) + DaysToMonth(y, 3) + doy
  {
    MarchMonthRange(y, doy);
    MarchMonthStart(y, MarchMonth(doy));
  }

  lemma {:induction false} DateInEraIsExact(era: int, yoe: int, doy: int)
    requires 0 <= yoe <= 399
    requires 0 <= doy <= 364 || (doy == 365 && IsLeap(yoe + era * 400 + 1))
    ensures IsDate(DateInMarchYear(yoe + era * 400, doy))
    ensures DayNumber(DateInMarchYear(yoe + era * 400, doy)) == era * 146_097 + EraYearStart(yoe) + doy - 719_468
  {
    DateInMarchYearIsExact(yoe + era * 400, doy);
    MarchYearStart(era, yoe);
  }

  lemma {:induction false} CivilParts(days: int) returns (era: int, doe: int)
    ensures CivilFromDays(days) == DateInMarchYear(YearOfEra(doe) + era * 400, DayOfYear(doe))
    ensures 0 <= doe <= 146_096 && days == era * 146_097 + doe - 719_468
  {
    var z := days + 719_468;
    EraRange(z);
    era, doe := Era(z), z - Era(z) * 146_097;
  }

  lemma {:induction false} EraParts(era: int, doe: int)
    requires 0 <= doe <= 146_096
    ensures 0 <= YearOfEra(doe) <= 399
    ensures var doy := DayOfYear(doe); 0 <= doy <= 364 || (doy == 365 && IsLeap(YearOfEra(doe) + era * 400 + 1))
    ensures doe == EraYearStart(YearOfEra(doe)) + DayOfYear(doe)
  {
    YearOfEraRange(doe);
    LastDayIsLeap(era, doe);
  }

  /** `civil_from_days` names a real date, and counting to that date gives the day back. */
  lemma {:induction false} CivilFromDaysIsExact(days: int)
    ensures IsDate(CivilFromDays(days))
    ensures DayNumber(CivilFromDays(days)) == days
  {
    var era, doe := CivilParts(days);
    EraParts(era, doe);
    DateInEraIsExact(era, YearOfEra(doe), DayOfYear(doe));
  }

  // ----- Order -----

  lemma {:induction false} YearsGrow(y: int, y': int)
    requires y <= y'
    ensures DaysToYear(y') - DaysToYear(y) >= 365 * (y' - y)
    decreases y' - y
  {
    if y < y' {
      YearsGrow(y, y' - 1);
      DaysToYearClosed(y');
      DaysToYearClosed(y' - 1);
      DaysBeforeStep(y' - 1);
    }
  }

  lemma {:induction false} YearEnds(date: Date)
    requires IsDate(date)
    ensures DaysToYear(date.y) <= DayNumber(date) < DaysToYear(date.y + 1)
  {
    DaysToMonthTable(date.y);
    DaysToYearClosed(date.y);
    DaysToYearClosed(date.y + 1);
    DaysBeforeStep(date.y);
  }

  /** The independent count is strictly increasing, so it tells real dates apart. */
  lemma {:induction false} DayNumberIsMonotone(a: Date, b: Date)
    requires IsDate(a) && IsDate(b)
    ensures Before(a, b) <==> DayNumber(a) < DayNumber(b)
    ensures a == b <==> DayNumber(a) == DayNumber(b)
  {
    YearEnds(a);
    YearEnds(b);
    if a.y < b.y {
      YearsGrow(a.y + 1, b.y);
    } else if b.y < a.y {
      YearsGrow(b.y + 1, a.y);
    } else {
      DaysToMonthTable(a.y);
    }
  }

  /** Day order is date order: what a component-wise comparison of names relies on. */
  lemma {:induction false} CivilFromDaysIsMonotone(a: int, b: int)
    ensures a < b <==> Before(CivilFromDays(a), CivilFromDays(b))
    ensures a == b <==> CivilFromDays(a) == CivilFromDays(b)
  {
    CivilFromDaysIsExact(a);
    CivilFromDaysIsExact(b);
    DayNumberIsMonotone(CivilFromDays(a), CivilFromDays(b));
  }

  /** Every real date is the image of exactly its own day number. */
  lemma {:induction false} CivilFromDaysIsOnto(date: Date)
    requires IsDate(date)
    ensures CivilFromDays(DayNumber(date)) == date
  {
    CivilFromDaysIsExact(DayNumber(date));
    DayNumberIsMonotone(CivilFromDays(DayNumber(date)), date);
  }

  // ----- Machine width -----

  const I64_MIN := -0x8000_0000_0000_0000
  const I64_MAX := 0x7fff_ffff_ffff_ffff

  predicate FitsI64(n: int) {
    I64_MIN <= n <= I64_MAX
  }

  /** No step overflows for any `i64` day count except the top 719 468 ones, where
      already the first addition does. */
  lemma {:induction false} CivilFromDaysFits(days: int)
    requires -0x8000_0000_0000_0000 <= days <= 0x7fff_ffff_ffff_ffff
    ensures FitsI64(days + 719_468) <==> days <= 0x7fff_ffff_ffff_ffff - 719_468
    ensures days <= 0x7fff_ffff_ffff_ffff - 719_468 ==>
              var z := days + 719_468;
              && FitsI64(z - 146_096) && FitsI64(Era(z) * 146_097)
              && FitsI64(Era(z) * 400) && FitsI64(CivilFromDays(days).y)
  {
    var z := days + 719_468;
    EraRange(z);
    YearOfEraRange(z - Era(z) * 146_097);
  }
}
