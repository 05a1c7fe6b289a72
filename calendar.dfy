/**
 * Proleptic Gregorian calendar on day ordinals.
 *
 * A `Day` counts days from 0000-01-01; well-formed `YYYY-MM-DD` dates map
 * to these ordinals in order, so comparing ordinals is comparing the date
 * strings. An `Instant` is a moment in milliseconds from 0000-01-01T00:00
 * local time, as the current time is.
 */
module Calendar {

  type Day = nat
  type Instant = int

  /** Milliseconds in a day. */
  const MsPerDay: nat := 86400000

  predicate IsLeap(y: nat) {
    y % 4 == 0 && (y % 100 != 0 || y % 400 == 0)
  }

  function DaysInYear(y: nat): (n: nat)
    ensures 365 <= n <= 366
  {
    if IsLeap(y) then 366 else 365
  }

  /** Day ordinal of January 1 of year `y`: the lengths of all earlier years added up. */
  function JanFirst(y: nat): (d: Day)
  {
    if y == 0 then 0 else JanFirst(y - 1) + DaysInYear(y - 1)
  }

  /** The moment a day starts (local midnight). */
  function Midnight(d: Day): (t: Instant) {
    d * MsPerDay
  }

  /** Week `i` of year `y`: January 1 plus `i` weeks of seven days. */
  function WeekStart(y: nat, i: nat): (d: Day)
    ensures i < 52 ==> JanFirst(y) <= d && d + 7 <= JanFirst(y + 1)
  {
    JanFirst(y) + 7 * i
  }

  lemma JanFirstNext(y: nat)
    ensures JanFirst(y + 1) == JanFirst(y) + DaysInYear(y)
  {
  }

  /** January 1 in closed form: 365 days a year plus one per leap year before `y`. */
  lemma {:induction false} JanFirstClosedForm(y: nat)
    ensures JanFirst(y) == 365 * y + (y + 3) / 4 - (y + 99) / 100 + (y + 399) / 400
  {
    if y > 0 {
      var x := y - 1;
      JanFirstClosedForm(x);
      LeapCountStep(x, y);
      LeapDivisors(x);
    }
  }

  /** A multiple of 400 is a multiple of 100, and a multiple of 100 a multiple of 4. */
  lemma LeapDivisors(x: nat)
    ensures x % 400 == 0 ==> x % 100 == 0
    ensures x % 100 == 0 ==> x % 4 == 0
  {
    if x % 400 == 0 {
      var q := x / 400;
      assert x == 100 * (4 * q);
    }
    if x % 100 == 0 {
      var q := x / 100;
      assert x == 4 * (25 * q);
    }
  }

  /** From year `x` to year `y = x + 1` the counts of multiples of 4, 100 and 400 grow exactly when `x` is one. */
  lemma LeapCountStep(x: nat, y: nat)
    requires y == x + 1
    ensures (y + 3) / 4 == (x + 3) / 4 + (if x % 4 == 0 then 1 else 0)
    ensures (y + 99) / 100 == (x + 99) / 100 + (if x % 100 == 0 then 1 else 0)
    ensures (y + 399) / 400 == (x + 399) / 400 + (if x % 400 == 0 then 1 else 0)
  {
    Step4(x);
    Step100(x);
    Step400(x);
  }

  lemma Step4(x: nat)
    ensures (x + 4) / 4 == (x + 3) / 4 + (if x % 4 == 0 then 1 else 0)
  {
  }

  lemma Step100(x: nat)
    ensures (x + 100) / 100 == (x + 99) / 100 + (if x % 100 == 0 then 1 else 0)
  {
  }

  lemma Step400(x: nat)
    ensures (x + 400) / 400 == (x + 399) / 400 + (if x % 400 == 0 then 1 else 0)
  {
  }

  /** Later years start later: year `a` ends no later than year `b` starts. */
  lemma {:induction false} JanFirstLess(a: nat, b: nat)
    requires a < b
    ensures JanFirst(a) + DaysInYear(a) <= JanFirst(b)
    decreases b - a
  {
    JanFirstNext(a);
    if a + 1 < b {
      JanFirstLess(a + 1, b);
      JanFirstNext(b - 1);
      assert JanFirst(a + 1) <= JanFirst(b - 1) + DaysInYear(b - 1);
    }
  }

  /** Searches upward from year `y` for the year containing day `d`. */
  function YearFrom(y: nat, d: Day): (r: nat)
    requires JanFirst(y) <= d
    ensures y <= r
    ensures JanFirst(r) <= d < JanFirst(r + 1)
    decreases d - JanFirst(y)
  {
    JanFirstNext(y);
    if d < JanFirst(y + 1) then y else YearFrom(y + 1, d)
  }

  /** The calendar year a day falls in. */
  function YearOf(d: Day): (r: nat)
    ensures JanFirst(r) <= d < JanFirst(r + 1)
  {
    YearFrom(0, d)
  }

  /** Day `d` lies in year `y` exactly when `YearOf(d) == y`. */
  lemma YearOfUnique(d: Day, y: nat)
    requires JanFirst(y) <= d < JanFirst(y + 1)
    ensures YearOf(d) == y
  {
    var r := YearOf(d);
    JanFirstNext(y);
    JanFirstNext(r);
    if r < y {
      JanFirstLess(r, y);
    } else if y < r {
      JanFirstLess(y, r);
    }
  }

  lemma YearOfMonotone(d: Day, e: Day)
    requires d <= e
    ensures YearOf(d) <= YearOf(e)
  {
    var a, b := YearOf(d), YearOf(e);
    if b < a {
      JanFirstLess(b, a);
      JanFirstNext(b);
    }
  }

  /** Every one of the 52 weeks of a year starts inside that year (52 weeks are at most 364 days). */
  lemma WeekStartInYear(y: nat, i: nat)
    requires i < 52
    ensures YearOf(WeekStart(y, i)) == y
    ensures WeekStart(y, i) + 7 <= JanFirst(y + 1)
  {
    JanFirstNext(y);
    YearOfUnique(WeekStart(y, i), y);
  }

  /** Days in month `m` (1 to 12) of year `y`. */
  function DaysInMonth(y: nat, m: nat): nat
    requires 1 <= m <= 12
  {
    if m == 2 then (if IsLeap(y) then 29 else 28)
    else if m == 4 || m == 6 || m == 9 || m == 11 then 30
    else 31
  }

  /** Days of year `y` before the first of month `m`. */
  function DaysBeforeMonth(y: nat, m: nat): nat
    requires 1 <= m <= 12
  {
    (if IsLeap(y) && m > 2 then 1 else 0) +
    [0, 31, 59, 90, 120, 151, 181, 212, 243, 273, 304, 334][m - 1]
  }

  /** A `YYYY-MM-DD` date that names a real day. */
  predicate ValidCivil(y: nat, m: nat, d: nat) {
    1 <= m <= 12 && 1 <= d <= DaysInMonth(y, m)
  }

  /** The day ordinal of civil date `y-m-d`. */
  function FromCivil(y: nat, m: nat, d: nat): Day
    requires ValidCivil(y, m, d)
  {
    JanFirst(y) + DaysBeforeMonth(y, m) + d - 1
  }

  /** Order of civil dates field by field, which is the order of their zero-padded `YYYY-MM-DD` strings. */
  predicate CivilBefore(y: nat, m: nat, d: nat, y': nat, m': nat, d': nat) {
    y < y' || (y == y' && (m < m' || (m == m' && d < d')))
  }

  /** A valid civil date lies in its own year. */
  lemma CivilInYear(y: nat, m: nat, d: nat)
    requires ValidCivil(y, m, d)
    ensures JanFirst(y) <= FromCivil(y, m, d) < JanFirst(y + 1)
    ensures YearOf(FromCivil(y, m, d)) == y
  {
    JanFirstNext(y);
    YearOfUnique(FromCivil(y, m, d), y);
  }

  /**
   * Comparing day ordinals is comparing the dates: the ordinal order agrees
   * with the field-by-field order, so with the lexical order of well-formed
   * date strings.
   */
  lemma CivilOrder(y: nat, m: nat, d: nat, y': nat, m': nat, d': nat)
    requires ValidCivil(y, m, d) && ValidCivil(y', m', d')
    ensures CivilBefore(y, m, d, y', m', d') <==> FromCivil(y, m, d) < FromCivil(y', m', d')
  {
    CivilInYear(y, m, d);
    CivilInYear(y', m', d');
    if y < y' {
      JanFirstLess(y, y');
      JanFirstNext(y);
    } else if y' < y {
      JanFirstLess(y', y);
      JanFirstNext(y');
    }
  }

  /** January 1, 2021 is day 738156 counted from 0000-01-01. */
  lemma JanFirst2021()
    ensures FromCivil(2021, 1, 1) == JanFirst(2021) == 738156
  {
    JanFirstClosedForm(2021);
  }
}
