/** Integer date arithmetic behind issue age and tenure.

    A date is encoded as the integer `year*10000 + month*100 + day` and a
    span in whole years is the difference of two encodings divided by 10000.
    The database expressions divide integers and cast to INTEGER, which
    truncates toward zero; the Python hybrid properties instead encode with
    the day SUBTRACTED and use floor division. Both are modelled; the SQL
    form is the one every query uses. */
module Dates {

  datatype Date = Date(year: int, month: int, day: int)

  predicate IsLeapYear(y: int) {
    (y % 4 == 0 && y % 100 != 0) || y % 400 == 0
  }

  function DaysInMonth(y: int, m: int): int
    requires 1 <= m <= 12
  {
    if m == 2 then (if IsLeapYear(y) then 29 else 28)
    else if m == 4 || m == 6 || m == 9 || m == 11 then 30
    else 31
  }

  /** A calendar date as Python's `datetime.date` admits it. */
  predicate Valid(d: Date) {
    1 <= d.year <= 9999 && 1 <= d.month <= 12 && 1 <= d.day <= DaysInMonth(d.year, d.month)
  }

  /** Calendar order: year, then month, then day. */
  predicate Before(a: Date, b: Date) {
    a.year < b.year
    || (a.year == b.year && a.month < b.month)
    || (a.year == b.year && a.month == b.month && a.day < b.day)
  }

  predicate NotAfter(a: Date, b: Date) {
    a == b || Before(a, b)
  }

  /** The month-and-day of `a` falls on or after that of `b` within a year. */
  predicate OnOrAfterAnniversary(a: Date, b: Date) {
    a.month > b.month || (a.month == b.month && a.day >= b.day)
  }

  /** `yyyymmdd`: the integer whose decimal digits read year, month, day. */
  function Encode(d: Date): int {
    d.year * 10000 + d.month * 100 + d.day
  }

  /** Integer division rounding toward zero, as SQLite's integer `/` does. */
  function TruncDiv(a: int, b: int): (q: int)
    requires b > 0
    ensures a >= 0 ==> q >= 0 && q * b <= a < q * b + b
    ensures a < 0 ==> q <= 0 && q * b - b < a <= q * b
  {
    if a >= 0 then a / b else -((-a) / b)
  }

  /** Whole years from `from` to `to` as the SQL expressions compute them. */
  function YearsBetween(from: Date, to: Date): int {
    TruncDiv(Encode(to) - Encode(from), 10000)
  }

  /** The SQL `issue_age` of a record: years from birth to its effective date. */
  function SqlIssueAge(birthdate: Date, effective: Date): int {
    YearsBetween(birthdate, effective)
  }

  /** The SQL `issue_age_as_of(d)`: the same span, ending at `d`. */
  function SqlIssueAgeAsOf(birthdate: Date, asOf: Date): int {
    YearsBetween(birthdate, asOf)
  }

  /** Tenure of a record whose effective date is `effective`, with the
      database clock reading `now`. */
  function Tenure(effective: Date, now: Date): int {
    YearsBetween(effective, now)
  }

  /** The encoding the Python hybrids use: the day is subtracted. */
  function PyEncode(d: Date): int {
    d.year * 10000 + d.month * 100 - d.day
  }

  /** The Python hybrid `issue_age` / `issue_age_as_of`: floor division of
      the difference of the subtract-the-day encodings (Python `//` by a
      positive divisor is Dafny's `/`). */
  function PyIssueAgeAsOf(birthdate: Date, asOf: Date): int {
    (PyEncode(asOf) - PyEncode(birthdate)) / 10000
  }

  // ---------------------------------------------------------------------
  // Properties

  /** On valid dates the encoding is strictly monotone in calendar order,
      and equal encodings mean equal dates. */
  lemma EncodeMonotone(a: Date, b: Date)
    requires Valid(a) && Valid(b)
    ensures Before(a, b) <==> Encode(a) < Encode(b)
    ensures a == b <==> Encode(a) == Encode(b)
  {
  }

  /** The month-and-day part of a valid date's encoding lies between 0101
      and 1231, so it cannot carry into the year digits. */
  lemma TailBounded(d: Date)
    requires Valid(d)
    ensures 101 <= Encode(d) - d.year * 10000 <= 1231
  {
  }

  /** Where the anniversary falls: from `from` to a date not before it, the
      SQL span is the difference of the years when the month-and-day has
      been reached, and one less otherwise. */
  lemma {:induction false} YearsBetweenAnniversary(from: Date, to: Date)
    requires Valid(from) && Valid(to) && NotAfter(from, to)
    ensures OnOrAfterAnniversary(to, from) ==> YearsBetween(from, to) == to.year - from.year
    ensures !OnOrAfterAnniversary(to, from) ==> YearsBetween(from, to) == to.year - from.year - 1
  {
    var dy := to.year - from.year;
    var r := (Encode(to) - to.year * 10000) - (Encode(from) - from.year * 10000);
    TailBounded(from);
    TailBounded(to);
    assert Encode(to) - Encode(from) == dy * 10000 + r;
    EncodeMonotone(from, to);
    var q := YearsBetween(from, to);
    assert q * 10000 <= dy * 10000 + r < q * 10000 + 10000;
    if OnOrAfterAnniversary(to, from) {
      assert 0 <= r;
      assert q == dy;
    } else {
      assert r < 0;
      assert dy >= 1;
      assert q == dy - 1;
    }
  }

  /** The SQL issue age is the anniversary count between birth and the
      effective date. */
  lemma SqlIssueAgeAnniversary(birthdate: Date, effective: Date)
    requires Valid(birthdate) && Valid(effective) && NotAfter(birthdate, effective)
    ensures SqlIssueAge(birthdate, effective)
      == if OnOrAfterAnniversary(effective, birthdate) then effective.year - birthdate.year
         else effective.year - birthdate.year - 1
  {
    YearsBetweenAnniversary(birthdate, effective);
  }

  /** Spans over non-negative intervals are never negative. */
  lemma YearsBetweenNonNegative(from: Date, to: Date)
    requires Valid(from) && Valid(to) && NotAfter(from, to)
    ensures YearsBetween(from, to) >= 0
  {
    EncodeMonotone(from, to);
  }

  /** Issue age is non-negative for a birthdate not after the effective date. */
  lemma SqlIssueAgeNonNegative(birthdate: Date, effective: Date)
    requires Valid(birthdate) && Valid(effective) && NotAfter(birthdate, effective)
    ensures SqlIssueAge(birthdate, effective) >= 0
  {
    YearsBetweenNonNegative(birthdate, effective);
  }

  /** Tenure is non-negative when the effective date is not after `now`. */
  lemma TenureNonNegative(effective: Date, now: Date)
    requires Valid(effective) && Valid(now) && NotAfter(effective, now)
    ensures Tenure(effective, now) >= 0
  {
    YearsBetweenNonNegative(effective, now);
  }

  /** Rounding toward zero preserves order. */
  lemma TruncDivMonotone(a: int, b: int)
    requires a <= b
    ensures TruncDiv(a, 10000) <= TruncDiv(b, 10000)
  {
  }

  /** Truncation is symmetric: reversing the interval negates the span.
      (Floor division would round the reversed span down instead.) */
  lemma {:induction false} YearsBetweenAntisymmetric(from: Date, to: Date)
    ensures YearsBetween(to, from) == -YearsBetween(from, to)
  {
    var x := Encode(to) - Encode(from);
    if x < 0 {
      assert TruncDiv(x, 10000) == -((-x) / 10000);
    } else if x > 0 {
      assert TruncDiv(-x, 10000) == -(x / 10000);
    }
  }

  /** `issue_age_as_of` is non-decreasing in the as-of date. */
  lemma IssueAgeAsOfMonotone(birthdate: Date, d1: Date, d2: Date)
    requires Valid(d1) && Valid(d2) && NotAfter(d1, d2)
    ensures SqlIssueAgeAsOf(birthdate, d1) <= SqlIssueAgeAsOf(birthdate, d2)
  {
    EncodeMonotone(d1, d2);
    TruncDivMonotone(Encode(d1) - Encode(birthdate), Encode(d2) - Encode(birthdate));
  }

  /** As of its own effective date, `issue_age_as_of` is the stored issue age. */
  lemma IssueAgeAsOfAtEffective(birthdate: Date, effective: Date)
    ensures SqlIssueAgeAsOf(birthdate, effective) == SqlIssueAge(birthdate, effective)
  {
  }

  /** The documented anniversary example: born 1990-06-15, the SQL issue age
      is 33 the day before the 2024 anniversary and 34 on it. */
  lemma AnniversaryExample()
    ensures SqlIssueAge(Date(1990, 6, 15), Date(2024, 6, 14)) == 33
    ensures SqlIssueAge(Date(1990, 6, 15), Date(2024, 6, 15)) == 34
  {
    SqlIssueAgeAnniversary(Date(1990, 6, 15), Date(2024, 6, 14));
    SqlIssueAgeAnniversary(Date(1990, 6, 15), Date(2024, 6, 15));
  }

  /** Where the Python hybrid and the SQL expression part: they agree unless
      the as-of date falls in the birth month on a different day. Then the
      hybrid is one year ahead before the birthday and one year behind after
      it, because subtracting the day reverses the day comparison. */
  lemma {:induction false} PythonHybridVersusSql(birthdate: Date, asOf: Date)
    requires Valid(birthdate) && Valid(asOf) && NotAfter(birthdate, asOf)
    ensures asOf.month != birthdate.month || asOf.day == birthdate.day ==>
      PyIssueAgeAsOf(birthdate, asOf) == SqlIssueAgeAsOf(birthdate, asOf)
    ensures asOf.month == birthdate.month && asOf.day < birthdate.day ==>
      PyIssueAgeAsOf(birthdate, asOf) == SqlIssueAgeAsOf(birthdate, asOf) + 1
    ensures asOf.month == birthdate.month && asOf.day > birthdate.day ==>
      PyIssueAgeAsOf(birthdate, asOf) == SqlIssueAgeAsOf(birthdate, asOf) - 1
  {
    var dy := asOf.year - birthdate.year;
    var dm := asOf.month - birthdate.month;
    var dd := asOf.day - birthdate.day;
    assert Encode(asOf) - Encode(birthdate) == dy * 10000 + dm * 100 + dd;
    assert PyEncode(asOf) - PyEncode(birthdate) == dy * 10000 + dm * 100 - dd;
    YearsBetweenAnniversary(birthdate, asOf);
    var sql := SqlIssueAgeAsOf(birthdate, asOf);
    var py := PyIssueAgeAsOf(birthdate, asOf);
    assert -30 <= dd <= 30;
    assert py * 10000 <= dy * 10000 + dm * 100 - dd < py * 10000 + 10000;
    if dm > 0 {
      assert sql == dy && py == dy;
    } else if dm < 0 {
      assert sql == dy - 1 && py == dy - 1;
    } else if dd < 0 {
      assert sql == dy - 1 && py == dy;
    } else if dd > 0 {
      assert sql == dy && py == dy - 1;
    }
  }

  /** The Python hybrid disagrees with the SQL expression the day before an
      anniversary: it already reports 34 on 2024-06-14 for a 1990-06-15 birth. */
  lemma PythonHybridDiffers()
    ensures PyIssueAgeAsOf(Date(1990, 6, 15), Date(2024, 6, 14)) == 34
    ensures PyIssueAgeAsOf(Date(1990, 6, 15), Date(2024, 6, 14))
         != SqlIssueAge(Date(1990, 6, 15), Date(2024, 6, 14))
  {
    AnniversaryExample();
  }
}
