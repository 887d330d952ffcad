/** The day, year and month functions of section 21.4.1 of ECMA-262. */
module Calendar {

  function DayFromYear(y: int): int {
    365 * (y - 1970) + (y - 1969) / 4 - (y - 1901) / 100 + (y - 1601) / 400
  }

  predicate IsLeap(y: int) {
    y % 4 == 0 && (y % 100 != 0 || y % 400 == 0)
  }

  function DaysIn(month: int, year: int): int {
    if month == 2 then (if IsLeap(year) then 29 else 28)
    else if month == 4 || month == 6 || month == 9 || month == 11 then 30
    else 31
  }

  /** Days of the year before month `m`, counted from 0; 12 is the year after. */
  function MonthStart(m: int, leap: bool): int
    requires 0 <= m <= 12
  {
    var l := if leap then 1 else 0;
    if m == 0 then 0
    else if m == 1 then 31
    else if m == 2 then 59 + l
    else if m == 3 then 90 + l
    else if m == 4 then 120 + l
    else if m == 5 then 151 + l
    else if m == 6 then 181 + l
    else if m == 7 then 212 + l
    else if m == 8 then 243 + l
    else if m == 9 then 273 + l
    else if m == 10 then 304 + l
    else if m == 11 then 334 + l
    else 365 + l
  }

  /** MakeDay: `month` from 0, either may run over. */
  function MakeDay(year: int, month: int, date: int): int {
    var y := year + month / 12;
    DayFromYear(y) + MonthStart(month % 12, IsLeap(y)) + date - 1
  }

  lemma {:induction false} YearLength(y: int)
    ensures DayFromYear(y + 1) == DayFromYear(y) + (if IsLeap(y) then 366 else 365)
  {
    Steps(y, 4, 1969);
    Steps(y, 100, 1901);
    Steps(y, 400, 1601);
    SameRest(y, 4, 492);
    SameRest(y, 100, 19);
    SameRest(y, 400, 4);
    Every100(y);
  }

  /** Years whole periods apart have the same remainder. */
  lemma {:induction false} SameRest(y: int, n: int, k: int)
    requires (n == 4 && k == 492) || (n == 100 && k == 19) || (n == 400 && k == 4)
    ensures (y - n * k) % n == y % n
  {
  }

  lemma {:induction false} Every100(y: int)
    ensures y % 400 == 0 ==> y % 100 == 0
    ensures y % 100 == 0 ==> y % 4 == 0
  {
    if y % 400 == 0 {
      Hundreds(4 * (y / 400));
    }
    if y % 100 == 0 {
      Fours(25 * (y / 100));
    }
  }

  lemma {:induction false} Hundreds(k: int)
    ensures 100 * k % 100 == 0
  {
  }

  lemma {:induction false} Fours(k: int)
    ensures 4 * k % 4 == 0
  {
  }

  lemma {:induction false} Steps(y: int, n: int, base: int)
    requires n == 4 || n == 100 || n == 400
    ensures (y + 1 - base) / n == (y - base) / n + (if (y + 1 - base) % n == 0 then 1 else 0)
  {
  }

  lemma {:induction false} YearsApart(y: int, z: int)
    requires y <= z
    ensures DayFromYear(y) + 365 * (z - y) <= DayFromYear(z)
    decreases z - y
  {
    if y < z {
      YearLength(z - 1);
      YearsApart(y, z - 1);
    }
  }

  /** The year a day falls in, looked for from `y`. */
  function YearFrom(day: int, y: int): (r: int)
    ensures DayFromYear(r) <= day < DayFromYear(r + 1)
    decreases if DayFromYear(y) > day then DayFromYear(y) - day else if DayFromYear(y + 1) <= day then day - DayFromYear(y) else 0
  {
    hide DayFromYear, IsLeap;
    YearLength(y);
    YearLength(y - 1);
    YearLength(y + 1);
    if DayFromYear(y) > day then YearFrom(day, y - 1)
    else if DayFromYear(y + 1) <= day then YearFrom(day, y + 1)
    else y
  }

  function YearOf(day: int): (y: int)
    ensures DayFromYear(y) <= day < DayFromYear(y + 1)
  {
    YearFrom(day, 1970)
  }

  /** YearFromTime is the only year whose days include this one. */
  lemma {:induction false} YearUnique(day: int, y: int)
    requires DayFromYear(y) <= day < DayFromYear(y + 1)
    ensures YearOf(day) == y
  {
    var r := YearOf(day);
    if r < y {
      YearsApart(r + 1, y);
    } else if r > y {
      YearsApart(y + 1, r);
    }
  }

  function DayWithinYear(day: int): (d: int)
    ensures 0 <= d < 366
    ensures d < MonthStart(12, IsLeap(YearOf(day)))
  {
    YearLength(YearOf(day));
    day - DayFromYear(YearOf(day))
  }

  function MonthWithin(d: int, leap: bool): (m: int)
    requires 0 <= d < MonthStart(12, leap)
    ensures 0 <= m < 12 && MonthStart(m, leap) <= d < MonthStart(m + 1, leap)
  {
    if d < MonthStart(1, leap) then 0
    else if d < MonthStart(2, leap) then 1
    else if d < MonthStart(3, leap) then 2
    else if d < MonthStart(4, leap) then 3
    else if d < MonthStart(5, leap) then 4
    else if d < MonthStart(6, leap) then 5
    else if d < MonthStart(7, leap) then 6
    else if d < MonthStart(8, leap) then 7
    else if d < MonthStart(9, leap) then 8
    else if d < MonthStart(10, leap) then 9
    else if d < MonthStart(11, leap) then 10
    else 11
  }

  function MonthOf(day: int): (m: int)
    ensures 0 <= m < 12
  {
    MonthWithin(DayWithinYear(day), IsLeap(YearOf(day)))
  }

  function DateOf(day: int): int {
    DayWithinYear(day) - MonthStart(MonthOf(day), IsLeap(YearOf(day))) + 1
  }

  lemma {:induction false} MonthLength(m: int, y: int)
    requires 0 <= m < 12
    ensures MonthStart(m + 1, IsLeap(y)) == MonthStart(m, IsLeap(y)) + DaysIn(m + 1, y)
  {
  }

  predicate IsDate(year: int, month: int, date: int) {
    1 <= month <= 12 && 1 <= date <= DaysIn(month, year)
  }

  /** A day has a date, and that date names the day. */
  lemma {:induction false} DayRoundTrip(day: int)
    ensures IsDate(YearOf(day), MonthOf(day) + 1, DateOf(day))
    ensures MakeDay(YearOf(day), MonthOf(day), DateOf(day)) == day
  {
    MonthLength(MonthOf(day), YearOf(day));
    assert MonthOf(day) / 12 == 0 && MonthOf(day) % 12 == MonthOf(day);
  }

  lemma {:induction false} MonthUnique(d: int, leap: bool, m: int)
    requires 0 <= d < MonthStart(12, leap) && 0 <= m < 12 && MonthStart(m, leap) <= d < MonthStart(m + 1, leap)
    ensures MonthWithin(d, leap) == m
  {
  }

  /** A date names a day, and that day has the date. */
  lemma {:induction false} DateRoundTrip(year: int, month: int, date: int)
    requires IsDate(year, month, date)
    ensures var day := MakeDay(year, month - 1, date);
            YearOf(day) == year && MonthOf(day) == month - 1 && DateOf(day) == date
  {
    hide DayFromYear, IsLeap, DaysIn, YearOf, MonthWithin;
    var day := MakeDay(year, month - 1, date);
    var m := month - 1;
    assert m / 12 == 0 && m % 12 == m;
    MonthLength(m, year);
    YearLength(year);
    var d := MonthStart(m, IsLeap(year)) + date - 1;
    YearUnique(day, year);
    MonthUnique(d, IsLeap(year), m);
  }

  /** The days of the years 1 to 9999. */
  lemma {:induction false} YearRange(day: int)
    ensures 1 <= YearOf(day) <= 9999 <==> -719162 <= day < 2932897
  {
    var y := YearOf(day);
    if y < 1 { YearsApart(y + 1, 1); }
    if 1 <= y { YearsApart(1, y); }
    if y <= 9999 { YearsApart(y + 1, 10000); }
    if y > 9999 { YearsApart(10000, y); }
  }

  /** Whose month has how many days, January first. */
  function MonthLengths(year: int): seq<int> {
    [31, if (year % 4 == 0 && year % 100 != 0) || year % 400 == 0 then 29 else 28, 31, 30, 31, 30, 31, 31, 30, 31, 30, 31]
  }

  lemma {:induction false} DaysInMonth(year: int, month: int)
    requires 1 <= month <= 12
    ensures DaysIn(month, year) == MonthLengths(year)[month - 1]
  {
    Every100(year);
  }

  /** Days are counted from 1970-01-01, each date one behind the date before it. */
  lemma {:induction false} Tomorrow(year: int, month: int, date: int)
    ensures IsDate(year, month, date) <==> 1 <= month <= 12 && 1 <= date <= MonthLengths(year)[month - 1]
    ensures IsDate(year, month, date) ==>
      MakeDay(year, month - 1, date) + 1 ==
        if date < MonthLengths(year)[month - 1] then MakeDay(year, month - 1, date + 1)
        else if month < 12 then MakeDay(year, month, 1)
        else MakeDay(year + 1, 0, 1)
    ensures MakeDay(1970, 0, 1) == 0
  {
    hide MakeDay, DaysIn, MonthLengths;
    Epoch();
    if 1 <= month <= 12 {
      DaysInMonth(year, month);
      NextDay(year, month, date);
    }
  }

  lemma {:induction false} NextDay(year: int, month: int, date: int)
    requires 1 <= month <= 12
    ensures MakeDay(year, month - 1, date) + 1 == MakeDay(year, month - 1, date + 1)
    ensures MakeDay(year, month - 1, DaysIn(month, year)) + 1 == if month < 12 then MakeDay(year, month, 1) else MakeDay(year + 1, 0, 1)
  {
    hide DayFromYear, DaysIn, IsLeap;
    YearLength(year);
    MonthLength(month - 1, year);
    assert (month - 1) / 12 == 0 && (month - 1) % 12 == month - 1;
    assert month < 12 ==> month / 12 == 0 && month % 12 == month;
  }

  lemma {:induction false} Epoch()
    ensures MakeDay(1970, 0, 1) == 0
  {
  }
}
