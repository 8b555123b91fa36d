// Days since 1970-01-01, against a calendar that counts one day at a time.
module Calendar {

  // Division that rounds toward zero.
  function TruncDiv(a: int, b: nat): int
    requires b > 0
  {
    if a >= 0 then a / b else -((-a) / b)
  }

  function DaysFromCivil(year: int, m: int, d: int): int {
    var y := if m <= 2 then year - 1 else year;
    var era := TruncDiv(if y >= 0 then y else y - 399, 400);
    var yoe := y - era * 400;
    var mp := if m > 2 then m - 3 else m + 9;
    var doy := TruncDiv(153 * mp + 2, 5) + d - 1;
    var doe := yoe * 365 + TruncDiv(yoe, 4) - TruncDiv(yoe, 100) + doy;
    era * 146097 + doe - 719468
  }

  // ---- the calendar ----

  datatype Date = Date(year: int, month: int, day: int)

  predicate IsLeap(y: int) {
    y % 4 == 0 && (y % 100 != 0 || y % 400 == 0)
  }

  function DaysInMonth(y: int, m: int): int {
    if m == 2 then (if IsLeap(y) then 29 else 28)
    else if m == 4 || m == 6 || m == 9 || m == 11 then 30
    else 31
  }

  predicate Valid(t: Date) {
    1 <= t.month <= 12 && 1 <= t.day <= DaysInMonth(t.year, t.month)
  }

  function Next(t: Date): (r: Date)
    requires Valid(t)
    ensures Valid(r)
  {
    if t.day < DaysInMonth(t.year, t.month) then t.(day := t.day + 1)
    else if t.month < 12 then Date(t.year, t.month + 1, 1)
    else Date(t.year + 1, 1, 1)
  }

  // The date n days after t.
  function After(t: Date, n: nat): (r: Date)
    requires Valid(t)
    ensures Valid(r)
  {
    if n == 0 then t else Next(After(t, n - 1))
  }

  function Days(t: Date): int {
    DaysFromCivil(t.year, t.month, t.day)
  }

  // The days before the year that starts in March of y.
  function MarchYear(y: int): int {
    var yoe := y % 400;
    y / 400 * 146097 + yoe * 365 + yoe / 4 - yoe / 100
  }

  function MonthStart(m: int): int {
    (153 * (if m > 2 then m - 3 else m + 9) + 2) / 5
  }

  lemma DaysSplit(t: Date)
    requires 1 <= t.month <= 12
    ensures Days(t) == MarchYear(if t.month <= 2 then t.year - 1 else t.year) + MonthStart(t.month) + t.day - 1 - 719468
  {
    var y := if t.month <= 2 then t.year - 1 else t.year;
    EraIsFloor(y);
  }

  lemma EraIsFloor(y: int)
    ensures TruncDiv(if y >= 0 then y else y - 399, 400) == y / 400
  {
  }

  // A year from March to March has 366 days exactly when it ends in a leap February.
  lemma MarchYearStep(y: int)
    ensures MarchYear(y + 1) == MarchYear(y) + if IsLeap(y + 1) then 366 else 365
  {
    var q, r := y / 400, y % 400;
    assert y == 400 * q + r;
    LeapPeriod(q, r + 1);
    hide IsLeap;
    InEra(q, r);
    if r == 399 {
      InEra(q + 1, 0);
      LeapValues(0);
    } else {
      InEra(q, r + 1);
      LeapValues(r);
    }
  }

  lemma InEra(q: int, r: int)
    requires 0 <= r < 400
    ensures MarchYear(400 * q + r) == q * 146097 + r * 365 + r / 4 - r / 100
  {
    assert (400 * q + r) / 400 == q && (400 * q + r) % 400 == r;
  }

  lemma LeapPeriod(q: int, r: int)
    ensures IsLeap(400 * q + r) == IsLeap(r)
  {
    Period4(100 * q, r);
    Period100(4 * q, r);
    Period400(q, r);
  }

  lemma Period4(q: int, r: int)
    ensures (4 * q + r) % 4 == r % 4
  {
  }

  lemma Period100(q: int, r: int)
    ensures (100 * q + r) % 100 == r % 100
  {
  }

  lemma Period400(q: int, r: int)
    ensures (400 * q + r) % 400 == r % 400
  {
  }

  // Within an era, the leap-day count grows exactly at leap years.
  lemma LeapValues(r: int)
    requires 0 <= r < 399
    ensures (r + 1) / 4 - (r + 1) / 100 == r / 4 - r / 100 + if IsLeap(r + 1) then 1 else 0
    ensures IsLeap(400)
  {
  }

  lemma NextIsOneMore(t: Date)
    requires Valid(t)
    ensures Days(Next(t)) == Days(t) + 1
  {
    hide TruncDiv, DaysFromCivil, MarchYear, IsLeap;
    DaysSplit(t);
    DaysSplit(Next(t));
    if t.month == 2 {
      MarchYearStep(t.year - 1);
    }
  }

  // Counting days on the calendar from any date, in any year, adds exactly one each.
  lemma {:induction false} DaysCount(t: Date, n: nat)
    requires Valid(t)
    ensures Days(After(t, n)) == Days(t) + n
  {
    if n > 0 {
      DaysCount(t, n - 1);
      NextIsOneMore(After(t, n - 1));
    }
  }

  // Day zero is 1970-01-01, and 1601-01-01 is where the accepted dates begin.
  lemma Epoch()
    ensures Days(Date(1970, 1, 1)) == 0
    ensures Days(Date(1601, 1, 1)) == -134774
    ensures forall n: nat :: Days(After(Date(1970, 1, 1), n)) == n
  {
    forall n: nat ensures Days(After(Date(1970, 1, 1), n)) == n {
      DaysCount(Date(1970, 1, 1), n);
    }
  }
}
