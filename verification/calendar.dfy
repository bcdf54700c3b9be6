/** Integer calendar arithmetic behind the punchcard chart.

    A day is an integer day number: day 0 is 1970-01-01 (a Thursday), negative
    numbers are earlier days. The chart keys its day map by midnight timestamps
    in local time; dividing by the length of a day turns each into one of these
    numbers exactly, which hides the daylight-saving and floating-point rounding
    of the JavaScript `Date` arithmetic. Years are proleptic Gregorian. */
module Calendar {

  /** `Date.getDay()`: 0 = Sunday, 1 = Monday, ..., 6 = Saturday. */
  function Weekday(d: int): (w: int)
    ensures 0 <= w < 7
  {
    (d + 4) % 7
  }

  predicate IsLeap(y: int) {
    y % 4 == 0 && (y % 100 != 0 || y % 400 == 0)
  }

  /** Days from 0000-01-01 to January 1 of `y`; year 0 is a leap year and the
      three divisions count the leap years in [0, y), also for negative `y`. */
  function DaysBeforeYear(y: int): int {
    365 * y + (y + 3) / 4 - (y + 99) / 100 + (y + 399) / 400
  }

  /** The day number of January 1 of year `y`. */
  function Jan1(y: int): int {
    DaysBeforeYear(y) - DaysBeforeYear(1970)
  }

  /** A year has 366 days exactly when the Gregorian leap rule says so. */
  lemma YearLength(y: int)
    ensures Jan1(y + 1) - Jan1(y) == if IsLeap(y) then 366 else 365
  {
    var a := MultipleStep4(y);
    var b := MultipleStep100(y);
    var c := MultipleStep400(y);
    DivisorsNest(y);
    assert DaysBeforeYear(y + 1) == 365 * y + 365 + (y + 4) / 4 - (y + 100) / 100 + (y + 400) / 400;
    assert Jan1(y + 1) - Jan1(y) == 365 + a - b + c;
  }

  /** A multiple of 400 is one of 100, and a multiple of 100 is one of 4. */
  lemma DivisorsNest(y: int)
    ensures y % 400 == 0 ==> y % 100 == 0
    ensures y % 100 == 0 ==> y % 4 == 0
  {
    if y % 100 == 0 {
      assert y == 4 * (25 * (y / 100));
    }
    if y % 400 == 0 {
      assert y == 100 * (4 * (y / 400));
    }
  }

  /** Each leap-year correction of `DaysBeforeYear` grows by one exactly when
      `y` is a multiple of its divisor. */
  lemma MultipleStep4(y: int) returns (step: int)
    ensures step == (y + 4) / 4 - (y + 3) / 4
    ensures step == if y % 4 == 0 then 1 else 0
  {
    var q, r := y / 4, y % 4;
    assert y == 4 * q + r;
    if r == 0 {
      assert (y + 3) / 4 == q && (y + 4) / 4 == q + 1;
    } else {
      assert (y + 3) / 4 == q + 1 && (y + 4) / 4 == q + 1;
    }
    step := (y + 4) / 4 - (y + 3) / 4;
  }

  lemma MultipleStep100(y: int) returns (step: int)
    ensures step == (y + 100) / 100 - (y + 99) / 100
    ensures step == if y % 100 == 0 then 1 else 0
  {
    var q, r := y / 100, y % 100;
    assert y == 100 * q + r;
    if r == 0 {
      assert (y + 99) / 100 == q && (y + 100) / 100 == q + 1;
    } else {
      assert (y + 99) / 100 == q + 1 && (y + 100) / 100 == q + 1;
    }
    step := (y + 100) / 100 - (y + 99) / 100;
  }

  lemma MultipleStep400(y: int) returns (step: int)
    ensures step == (y + 400) / 400 - (y + 399) / 400
    ensures step == if y % 400 == 0 then 1 else 0
  {
    var q, r := y / 400, y % 400;
    assert y == 400 * q + r;
    if r == 0 {
      assert (y + 399) / 400 == q && (y + 400) / 400 == q + 1;
    } else {
      assert (y + 399) / 400 == q + 1 && (y + 400) / 400 == q + 1;
    }
    step := (y + 400) / 400 - (y + 399) / 400;
  }

  lemma {:induction false} Jan1Monotone(a: int, b: int)
    requires a <= b
    ensures Jan1(a) + 365 * (b - a) <= Jan1(b)
    decreases b - a
  {
    if a < b {
      Jan1Monotone(a, b - 1);
      YearLength(b - 1);
    }
  }

  /** The year containing day `d`, searching upwards from year `y`. */
  function YearUp(y: int, d: int): (r: int)
    requires Jan1(y) <= d
    ensures y <= r
    ensures Jan1(r) <= d < Jan1(r + 1)
    decreases d - Jan1(y)
  {
    YearLength(y);
    if d < Jan1(y + 1) then y else YearUp(y + 1, d)
  }

  /** The year containing day `d`, searching downwards from year `y`. */
  function YearDown(y: int, d: int): (r: int)
    requires d < Jan1(y + 1)
    ensures r <= y
    ensures Jan1(r) <= d < Jan1(r + 1)
    decreases Jan1(y + 1) - d
  {
    YearLength(y);
    if Jan1(y) <= d then y else YearDown(y - 1, d)
  }

  /** `Date.getFullYear()` of the day: the year whose January 1 is on or
      before `d` and whose successor's January 1 is after it. */
  function YearOf(d: int): (y: int)
    ensures Jan1(y) <= d < Jan1(y + 1)
  {
    if d >= Jan1(1970) then YearUp(1970, d) else YearDown(1969, d)
  }

  /** Stepping back from a day by at most its weekday lowers the weekday by
      the same amount. */
  lemma WeekdayBack(d: int, n: int)
    requires 0 <= n <= Weekday(d)
    ensures Weekday(d - n) == Weekday(d) - n
  {
    var q := (d + 4) / 7;
    assert d - n + 4 == 7 * q + (Weekday(d) - n);
  }

  /** The year of a day is the only year whose span contains it. */
  lemma YearOfUnique(d: int, y: int)
    requires Jan1(y) <= d < Jan1(y + 1)
    ensures YearOf(d) == y
  {
    var r := YearOf(d);
    if r < y {
      Jan1Monotone(r + 1, y);
    } else if r > y {
      Jan1Monotone(y + 1, r);
    }
  }

  /** Every day of year `y` lies within 365 days after its January 1. */
  lemma DayOfYearBounds(d: int)
    ensures 0 <= d - Jan1(YearOf(d)) <= 365
  {
    YearLength(YearOf(d));
  }

}
