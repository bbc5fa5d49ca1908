/**
 `validDate`: whether a `dddd-dd-dd` string names a real date, decided by building the date with `Date.UTC` and
 reading its fields back. The day-number arithmetic is that of section 21.4.1 of ECMA-262.
 */
module CalendarDates {

  // ----- day numbers -----

  /** The day number of 1 January of year `y`, counted from 1 January 1970. */
  function DayFromYear(y: int): int {
    365 * (y - 1970) + (y - 1969) / 4 - (y - 1901) / 100 + (y - 1601) / 400
  }

  function DaysInYear(y: int): int {
    if y % 4 != 0 then 365 else if y % 100 != 0 then 366 else if y % 400 != 0 then 365 else 366
  }

  function InLeapYear(y: int): int {
    DaysInYear(y) - 365
  }

  /** One if `k` divides `y`, else zero. */
  function Divides(k: int, y: int): int
    requires k > 0
  {
    if y % k == 0 then 1 else 0
  }

  lemma FourthStep(y: int)
    ensures (y + 1 - 1969) / 4 == (y - 1969) / 4 + Divides(4, y)
  {
  }

  lemma CenturyStep(y: int)
    ensures (y + 1 - 1901) / 100 == (y - 1901) / 100 + Divides(100, y)
  {
  }

  lemma EraStep(y: int)
    ensures (y + 1 - 1601) / 400 == (y - 1601) / 400 + Divides(400, y)
  {
  }

  lemma LeapRule(y: int)
    ensures DaysInYear(y) == 365 + Divides(4, y) - Divides(100, y) + Divides(400, y)
  {
  }

  lemma YearLength(y: int)
    ensures DayFromYear(y + 1) == DayFromYear(y) + DaysInYear(y)
    ensures 365 <= DaysInYear(y) <= 366
  {
    hide Divides;
    FourthStep(y);
    CenturyStep(y);
    EraStep(y);
    LeapRule(y);
  }

  function YearUp(day: int, y: int): (r: int)
    requires DayFromYear(y) <= day
    ensures DayFromYear(r) <= day < DayFromYear(r + 1)
    decreases day - DayFromYear(y)
  {
    YearLength(y);
    if day < DayFromYear(y + 1) then y else YearUp(day, y + 1)
  }

  function YearDown(day: int, y: int): (r: int)
    requires day < DayFromYear(y + 1)
    ensures DayFromYear(r) <= day < DayFromYear(r + 1)
    decreases DayFromYear(y + 1) - day
  {
    YearLength(y);
    YearLength(y - 1);
    if DayFromYear(y) <= day then y else YearDown(day, y - 1)
  }

  /** `YearFromTime` of a day: the year that begins last, but not after it. */
  function YearFromDay(day: int): (y: int)
    ensures DayFromYear(y) <= day < DayFromYear(y + 1)
  {
    if day >= 0 then YearUp(day, 1970) else YearDown(day, 1970)
  }

  lemma {:induction false} LaterYearBeginsLater(y: int, z: int)
    requires y <= z
    ensures DayFromYear(y) <= DayFromYear(z)
    decreases z - y
  {
    if y < z {
      YearLength(z - 1);
      LaterYearBeginsLater(y, z - 1);
    }
  }

  lemma YearUnique(day: int, y: int)
    requires DayFromYear(y) <= day < DayFromYear(y + 1)
    ensures YearFromDay(day) == y
  {
    hide DayFromYear, YearFromDay;
    var z := YearFromDay(day);
    if z < y {
      LaterYearBeginsLater(z + 1, y);
    } else if y < z {
      LaterYearBeginsLater(y + 1, z);
    }
  }

  // ----- months -----

  /** The day within the year on which month `m` (0 to 11) begins; month 12 begins the next year. */
  function MonthStart(y: int, m: int): int
    requires 0 <= m <= 12
  {
    var leap := InLeapYear(y);
    if m == 0 then 0
    else if m == 1 then 31
    else [59, 90, 120, 151, 181, 212, 243, 273, 304, 334, 365][m - 2] + leap
  }

  function DayWithinYear(day: int): int {
    day - DayFromYear(YearFromDay(day))
  }

  /** `MonthFromTime` of a day: the table of section 21.4.1.11. */
  function MonthFromDay(day: int): (m: int)
    ensures 0 <= m <= 11
  {
    var d, leap := DayWithinYear(day), InLeapYear(YearFromDay(day));
    if d < 31 then 0
    else if d < 59 + leap then 1
    else if d < 90 + leap then 2
    else if d < 120 + leap then 3
    else if d < 151 + leap then 4
    else if d < 181 + leap then 5
    else if d < 212 + leap then 6
    else if d < 243 + leap then 7
    else if d < 273 + leap then 8
    else if d < 304 + leap then 9
    else if d < 334 + leap then 10
    else 11
  }

  /** `DateFromTime` of a day. */
  function DateFromDay(day: int): int {
    DayWithinYear(day) - MonthStart(YearFromDay(day), MonthFromDay(day)) + 1
  }

  /** `MakeDay`: months outside 0 to 11 carry into the year, days outside the month into its neighbours. */
  function MakeDay(year: int, month: int, date: int): int {
    var ym, mn := year + month / 12, month % 12;
    DayFromYear(ym) + MonthStart(ym, mn) + date - 1
  }

  lemma WithinYear(day: int)
    ensures 0 <= DayWithinYear(day) < DaysInYear(YearFromDay(day))
    ensures 365 <= DaysInYear(YearFromDay(day)) <= 366
  {
    hide DayFromYear, YearFromDay, DaysInYear;
    YearLength(YearFromDay(day));
  }

  lemma MonthBounds(day: int)
    ensures MonthStart(YearFromDay(day), MonthFromDay(day)) <= DayWithinYear(day)
    ensures DayWithinYear(day) < MonthStart(YearFromDay(day), MonthFromDay(day) + 1)
  {
    hide DayFromYear, YearFromDay, DaysInYear, DayWithinYear;
    WithinYear(day);
  }

  /** The day that lies `date - 1` days into a month reads back as that year, month and date. */
  lemma FieldsOf(y: int, m: int, date: int)
    requires 0 <= m <= 11 && 1 <= date <= MonthStart(y, m + 1) - MonthStart(y, m)
    ensures var day := DayFromYear(y) + MonthStart(y, m) + date - 1;
            YearFromDay(day) == y && MonthFromDay(day) == m && DateFromDay(day) == date
  {
    var day := DayFromYear(y) + MonthStart(y, m) + date - 1;
    YearLength(y);
    YearUnique(day, y);
  }

  /** `MakeDay` starts from the day the standard asks for: the first of the month it carries into. */
  lemma MakeDayFinds(year: int, month: int)
    ensures var first := MakeDay(year, month, 1);
            YearFromDay(first) == year + month / 12 && MonthFromDay(first) == month % 12 && DateFromDay(first) == 1
  {
    hide DayFromYear, MonthStart, DaysInMonth, IsLeap, YearFromDay, MonthFromDay, DateFromDay;
    MonthLength(year + month / 12, month % 12 + 1);
    MonthNotEmpty(year + month / 12, month % 12 + 1);
    FieldsOf(year + month / 12, month % 12, 1);
  }

  // ----- the source -----

  /** `MakeFullYear`, section 21.4.1.30, as `Date.UTC` applies it: two-digit years are in the 1900s. */
  function FullYear(year: int): int {
    if 0 <= year <= 99 then 1900 + year else year
  }

  predicate IsDigit(c: char) {
    '0' <= c <= '9'
  }

  predicate HasDateShape(value: string) {
    && |value| == 10
    && (forall i :: 0 <= i < 10 && i != 4 && i != 7 ==> IsDigit(value[i]))
    && value[4] == '-' && value[7] == '-'
  }

  function DigitValue(c: char): nat
    requires IsDigit(c)
  {
    c as int - '0' as int
  }

  function Number(digits: string): nat
    requires forall c :: c in digits ==> IsDigit(c)
  {
    if digits == "" then 0
    else 10 * Number(digits[..|digits| - 1]) + DigitValue(digits[|digits| - 1])
  }

  function YearOf(value: string): nat
    requires HasDateShape(value)
  {
    Number(value[..4])
  }

  function MonthOf(value: string): nat
    requires HasDateShape(value)
  {
    Number(value[5..7])
  }

  function DayOf(value: string): nat
    requires HasDateShape(value)
  {
    Number(value[8..])
  }

  predicate FieldsSurvive(year: nat, month: nat, day: nat) {
    var date := MakeDay(FullYear(year), month - 1, day);
    YearFromDay(date) == year && MonthFromDay(date) == month - 1 && DateFromDay(date) == day
  }

  predicate ValidDate(value: string) {
    HasDateShape(value) && FieldsSurvive(YearOf(value), MonthOf(value), DayOf(value))
  }

  // ----- the calendar -----

  predicate IsLeap(y: int) {
    y % 4 == 0 && (y % 100 != 0 || y % 400 == 0)
  }

  /** Thirty days hath September, ... */
  function DaysInMonth(y: int, month: int): int {
    if month in {4, 6, 9, 11} then 30
    else if month == 2 then if IsLeap(y) then 29 else 28
    else 31
  }

  predicate IsRealDate(y: int, month: int, day: int) {
    1 <= month <= 12 && 1 <= day <= DaysInMonth(y, month)
  }

  lemma MonthLength(y: int, month: int)
    requires 1 <= month <= 12
    ensures MonthStart(y, month) - MonthStart(y, month - 1) == DaysInMonth(y, month)
  {
  }

  lemma MonthNotEmpty(y: int, month: int)
    ensures DaysInMonth(y, month) >= 28
  {
  }

  /** A day of a month, or the day before it, is not before the preceding year. */
  lemma NotBefore(y: int, m: int, day: nat)
    requires 0 <= m <= 11
    ensures YearFromDay(MakeDay(y, m, day)) >= y - 1
  {
    var date := MakeDay(y, m, day);
    YearLength(y - 1);
    if YearFromDay(date) < y - 1 {
      LaterYearBeginsLater(YearFromDay(date) + 1, y - 1);
    }
  }

  /** The fields come back unchanged exactly for real dates from the year 100 on. */
  lemma SurviveIff(year: nat, month: nat, day: nat)
    ensures FieldsSurvive(year, month, day) <==> year >= 100 && IsRealDate(year, month, day)
  {
    hide DayFromYear, MonthStart, DaysInMonth, IsLeap, YearFromDay, MonthFromDay;
    var date := MakeDay(FullYear(year), month - 1, day);
    if year >= 100 && IsRealDate(year, month, day) {
      MonthLength(year, month);
      FieldsOf(year, month - 1, day);
    } else if FieldsSurvive(year, month, day) {
      assert 1 <= month <= 12;
      MonthBounds(date);
      if year < 100 {
        NotBefore(1900 + year, month - 1, day);
      }
      MonthLength(year, month);
      assert false;
    }
  }

  // ----- the printed date -----

  /** The last `width` decimal digits of a number. */
  ghost function Padded(n: nat, width: nat): string {
    if width == 0 then "" else Padded(n / 10, width - 1) + ["0123456789"[n % 10]]
  }

  /** Year, month and day with dashes between, as the archive writes them. */
  ghost function Dated(year: nat, month: nat, day: nat): string {
    Padded(year, 4) + "-" + Padded(month, 2) + "-" + Padded(day, 2)
  }

  ghost function Power(width: nat): nat {
    if width == 0 then 1 else 10 * Power(width - 1)
  }

  lemma DigitIs(n: nat)
    requires n < 10
    ensures IsDigit("0123456789"[n]) && DigitValue("0123456789"[n]) == n
  {
  }

  lemma DigitPrinted(c: char)
    requires IsDigit(c)
    ensures DigitValue(c) < 10 && "0123456789"[DigitValue(c)] == c
  {
  }

  /** Digits are read as what they print. */
  lemma {:induction false} PaddedReads(n: nat, width: nat)
    requires n < Power(width)
    ensures |Padded(n, width)| == width && forall c :: c in Padded(n, width) ==> IsDigit(c)
    ensures Number(Padded(n, width)) == n
  {
    hide IsDigit, DigitValue;
    if width > 0 {
      PaddedReads(n / 10, width - 1);
      DigitIs(n % 10);
      assert Padded(n, width)[..width - 1] == Padded(n / 10, width - 1);
    }
  }

  lemma LastDigit(n: nat, c: char)
    requires IsDigit(c)
    ensures (10 * n + DigitValue(c)) / 10 == n && "0123456789"[(10 * n + DigitValue(c)) % 10] == c
  {
    DigitPrinted(c);
  }

  lemma PaddedLast(n: nat, c: char, width: nat)
    requires IsDigit(c)
    ensures Padded(10 * n + DigitValue(c), width + 1) == Padded(n, width) + [c]
  {
    LastDigit(n, c);
  }

  lemma NothingPrinted()
    ensures Number("") < Power(0) && Padded(Number(""), 0) == ""
  {
  }

  lemma NumberLast(front: string, last: char)
    requires forall c :: c in front + [last] ==> IsDigit(c)
    ensures (forall c :: c in front ==> IsDigit(c)) && IsDigit(last)
    ensures Number(front + [last]) == 10 * Number(front) + DigitValue(last)
  {
    assert last in front + [last] && (front + [last])[..|front|] == front;
    assert forall c :: c in front ==> c in front + [last];
  }

  /** They print what they are read as. */
  lemma {:induction false} NumberPrints(digits: string)
    requires forall c :: c in digits ==> IsDigit(c)
    ensures Number(digits) < Power(|digits|) && Padded(Number(digits), |digits|) == digits
  {
    hide IsDigit, DigitValue, Padded;
    if digits == "" {
      NothingPrinted();
    } else {
      var front, last := digits[..|digits| - 1], digits[|digits| - 1];
      hide Number;
      assert digits == front + [last];
      NumberLast(front, last);
      NumberPrints(front);
      DigitPrinted(last);
      PaddedLast(Number(front), last, |front|);
    }
  }

  /** The shape is that of printed dates, and the numbers read are those printed. */
  lemma ShapePrints(value: string)
    requires HasDateShape(value)
    ensures YearOf(value) < 10000 && MonthOf(value) < 100 && DayOf(value) < 100
    ensures value == Dated(YearOf(value), MonthOf(value), DayOf(value))
  {
    hide IsDigit, Number, Padded;
    NumberPrints(value[..4]);
    NumberPrints(value[5..7]);
    NumberPrints(value[8..]);
    assert value == value[..4] + [value[4]] + value[5..7] + [value[7]] + value[8..];
  }

  lemma PrintedReads(year: nat, month: nat, day: nat)
    requires year < 10000 && month < 100 && day < 100
    ensures var value := Dated(year, month, day);
            HasDateShape(value) && YearOf(value) == year && MonthOf(value) == month && DayOf(value) == day
  {
    hide IsDigit, Number, Padded;
    var value := Dated(year, month, day);
    PaddedReads(year, 4);
    PaddedReads(month, 2);
    PaddedReads(day, 2);
    assert value[..4] == Padded(year, 4) && value[5..7] == Padded(month, 2) && value[8..] == Padded(day, 2);
  }

  /** Accepted are the printed dates of the calendar from the year 100 on: 0 to 99 are read as 1900 to 1999. */
  lemma ValidDateIff(value: string)
    ensures ValidDate(value) <==>
              exists year: nat, month: nat, day: nat ::
                100 <= year < 10000 && IsRealDate(year, month, day) && value == Dated(year, month, day)
  {
    hide HasDateShape, YearOf, MonthOf, DayOf, FieldsSurvive, Dated;
    if HasDateShape(value) {
      ShapePrints(value);
      SurviveIff(YearOf(value), MonthOf(value), DayOf(value));
    }
    forall year: nat, month: nat, day: nat
      | 100 <= year < 10000 && IsRealDate(year, month, day) && value == Dated(year, month, day)
      ensures ValidDate(value)
    {
      PrintedReads(year, month, day);
      SurviveIff(year, month, day);
    }
  }

  /** Days are counted from 1 January 1970. */
  lemma EpochIsDayZero()
    ensures MakeDay(1970, 0, 1) == 0
  {
  }

  lemma EarlyYearPrinted()
    ensures Padded(50, 4) == "0050" && Padded(1, 2) == "01"
  {
    assert Padded(0, 1) == Padded(0, 0) + "0";
    assert Padded(0, 2) == Padded(0, 1) + "0";
    assert Padded(5, 3) == Padded(0, 2) + "5";
    assert Padded(50, 4) == Padded(5, 3) + "0";
    assert Padded(1, 2) == Padded(0, 1) + "1";
  }

  /** 1 January of the year 50 is a real date, and is refused. */
  lemma EarlyYearRefused()
    ensures IsRealDate(50, 1, 1) && Dated(50, 1, 1) == "0050-01-01" && !ValidDate("0050-01-01")
  {
    hide HasDateShape, YearOf, MonthOf, DayOf, FieldsSurvive, Padded;
    EarlyYearPrinted();
    PrintedReads(50, 1, 1);
    SurviveIff(50, 1, 1);
  }
}
