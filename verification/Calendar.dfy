/** Gregorian dates as YYYY-MM-DD text, as day numbers, and the proof that the two orders agree. */
module Calendar {
  import opened Numbers
  import opened Text

  datatype Date = Date(year: nat, month: nat, day: nat)

  predicate Leap(y: int) {
    y % 4 == 0 && (y % 100 != 0 || y % 400 == 0)
  }

  function DaysInMonth(y: int, m: nat): nat {
    if m == 2 then (if Leap(y) then 29 else 28)
    else if m == 4 || m == 6 || m == 9 || m == 11 then 30
    else 31
  }

  predicate Valid(d: Date) {
    d.year <= 9999 && 1 <= d.month <= 12 && 1 <= d.day <= DaysInMonth(d.year, d.month)
  }

  /** The day a year starts on, counted from 1 January 1970 (ECMAScript DayFromYear). */
  function YearStart(y: int): int {
    365 * (y - 1970) + (y - 1969) / 4 - (y - 1901) / 100 + (y - 1601) / 400
  }

  function DaysBeforeMonth(y: int, m: nat): nat
    requires 1 <= m <= 12
  {
    if m == 1 then 0 else DaysBeforeMonth(y, m - 1) + DaysInMonth(y, m - 1)
  }

  /** `Date.parse` at UTC midnight, in whole days. */
  function DayNumber(d: Date): int
    requires Valid(d)
  {
    YearStart(d.year) + DaysBeforeMonth(d.year, d.month) + d.day - 1
  }

  /** The calendar itself: what the day after a date is. */
  function NextDay(d: Date): Date
    requires Valid(d)
  {
    if d.day < DaysInMonth(d.year, d.month) then d.(day := d.day + 1)
    else if d.month < 12 then Date(d.year, d.month + 1, 1)
    else Date(d.year + 1, 1, 1)
  }

  /** The calendar goes on day by day to its last date, and knows the leap years. */
  lemma NextDayIsValid(d: Date)
    requires Valid(d)
    ensures Valid(NextDay(d)) <==> d != Date(9999, 12, 31)
    ensures Valid(Date(2000, 2, 29)) && Valid(Date(2024, 2, 29)) && !Valid(Date(1900, 2, 29)) && !Valid(Date(2023, 2, 29))
  {
  }

  lemma YearLength(y: int)
    ensures YearStart(y + 1) == YearStart(y) + (if Leap(y) then 366 else 365)
  {
    FourthStep(y - 1969);
    HundredthStep(y - 1901);
    FourHundredthStep(y - 1601);
    EpochsAreMultiples(y);
    Multiple(y, 4, 100);
    Multiple(y, 25, 4);
  }

  lemma EpochsAreMultiples(y: int)
    ensures (y - 1968) % 4 == 0 <==> y % 4 == 0
    ensures (y - 1900) % 100 == 0 <==> y % 100 == 0
    ensures (y - 1600) % 400 == 0 <==> y % 400 == 0
  {
    assert y - 1968 == y - 4 * 492;
    assert y - 1900 == y - 100 * 19;
    assert y - 1600 == y - 400 * 4;
  }

  lemma FourthStep(n: int)
    ensures (n + 1) / 4 == n / 4 + if (n + 1) % 4 == 0 then 1 else 0
  {
  }

  lemma HundredthStep(n: int)
    ensures (n + 1) / 100 == n / 100 + if (n + 1) % 100 == 0 then 1 else 0
  {
  }

  lemma FourHundredthStep(n: int)
    ensures (n + 1) / 400 == n / 400 + if (n + 1) % 400 == 0 then 1 else 0
  {
  }

  /** A multiple of `a * b` is a multiple of `b`. */
  lemma Multiple(n: int, a: nat, b: nat)
    requires (a == 4 && b == 100) || (a == 25 && b == 4)
    ensures n % (a * b) == 0 ==> n % b == 0
  {
    if n % (a * b) == 0 {
      var k := n / (a * b);
      if a == 4 {
        assert n == 100 * (4 * k);
      } else {
        assert n == 4 * (25 * k);
      }
    }
  }

  lemma MonthsFillTheYear(y: int)
    ensures DaysBeforeMonth(y, 12) + 31 == if Leap(y) then 366 else 365
  {
    var february := DaysInMonth(y, 2);
    assert DaysBeforeMonth(y, 2) == 31;
    assert DaysBeforeMonth(y, 3) == 31 + february;
    assert DaysBeforeMonth(y, 5) == 92 + february;
    assert DaysBeforeMonth(y, 7) == 153 + february;
    assert DaysBeforeMonth(y, 9) == 215 + february;
    assert DaysBeforeMonth(y, 11) == 276 + february;
  }

  /** Day numbers count days: 1 January 1970 is 0 and the next day is always one more. */
  lemma DayNumbersCountDays(d: Date)
    requires Valid(d) && Valid(NextDay(d))
    ensures DayNumber(NextDay(d)) == DayNumber(d) + 1
    ensures Valid(Date(1970, 1, 1)) && DayNumber(Date(1970, 1, 1)) == 0
  {
    YearLength(d.year);
    MonthsFillTheYear(d.year);
  }

  predicate Before(a: Date, b: Date) {
    a.year < b.year
    || (a.year == b.year && (a.month < b.month || (a.month == b.month && a.day < b.day)))
  }

  lemma {:induction false} YearsAdvance(a: int, b: int)
    requires a < b
    ensures YearStart(a + 1) <= YearStart(b)
    decreases b - a
  {
    if a + 1 < b {
      YearLength(b - 1);
      YearsAdvance(a, b - 1);
    }
  }

  lemma {:induction false} MonthsAdvance(y: int, a: nat, b: nat)
    requires 1 <= a < b <= 12
    ensures DaysBeforeMonth(y, a) + DaysInMonth(y, a) <= DaysBeforeMonth(y, b)
    decreases b - a
  {
    if a + 1 < b {
      MonthsAdvance(y, a, b - 1);
    }
  }

  lemma EarlierHasSmallerNumber(a: Date, b: Date)
    requires Valid(a) && Valid(b) && Before(a, b)
    ensures DayNumber(a) < DayNumber(b)
  {
    if a.year < b.year {
      YearsAdvance(a.year, b.year);
      YearLength(a.year);
      MonthsFillTheYear(a.year);
      if a.month < 12 {
        MonthsAdvance(a.year, a.month, 12);
      }
    } else if a.month < b.month {
      MonthsAdvance(a.year, a.month, b.month);
    }
  }

  lemma CalendarOrderIsDayOrder(a: Date, b: Date)
    requires Valid(a) && Valid(b)
    ensures Before(a, b) <==> DayNumber(a) < DayNumber(b)
  {
    if Before(a, b) {
      EarlierHasSmallerNumber(a, b);
    } else if a != b {
      EarlierHasSmallerNumber(b, a);
    }
  }

  // ---- Text order ---------------------------------------------------------------

  /** The texts compare as the numbers, and for equal numbers as `rest` says. */
  predicate OrderedAs(a: nat, b: nat, s: string, t: string, rest: bool) {
    Less(s, t) <==> a < b || (a == b && rest)
  }

  /** Fixed-width digits compare as numbers, and equal ones leave the decision to what follows. */
  lemma {:induction false} PaddedOrder(a: nat, b: nat, width: nat, x: string, y: string)
    requires a < Pow10(width) && b < Pow10(width)
    ensures OrderedAs(a, b, Padded(a, width) + x, Padded(b, width) + y, Less(x, y))
    decreases width
  {
    if width == 0 {
      assert "" + x == x && "" + y == y;
    } else {
      var u, v := [Digit(a % 10)] + x, [Digit(b % 10)] + y;
      PaddedOrder(a / 10, b / 10, width - 1, u, v);
      Associates(Padded(a / 10, width - 1), [Digit(a % 10)], x);
      Associates(Padded(b / 10, width - 1), [Digit(b % 10)], y);
      LeadingCharacter(a % 10, b % 10, x, y);
    }
  }

  lemma LeadingCharacter(a: nat, b: nat, x: string, y: string)
    requires a < 10 && b < 10
    ensures Less([Digit(a)] + x, [Digit(b)] + y) <==> a < b || (a == b && Less(x, y))
  {
    assert ([Digit(a)] + x)[1..] == x && ([Digit(b)] + y)[1..] == y;
  }

  function IsoText(d: Date): string
    requires Valid(d)
  {
    assert Pow10(4) == 10000 && Pow10(2) == 100;
    Padded(d.year, 4) + "-" + Padded(d.month, 2) + "-" + Padded(d.day, 2)
  }

  lemma {:induction false} PaddedWidth(n: nat, width: nat)
    ensures |Padded(n, width)| == width
    decreases width
  {
    if width > 0 {
      PaddedWidth(n / 10, width - 1);
    }
  }

  /** Ten characters: four digits of the year, two of the month and two of the day, with dashes between. */
  lemma IsoTextShape(d: Date)
    requires Valid(d)
    ensures var text := IsoText(d);
            && |text| == 10 && text[4] == '-' == text[7]
            && text[..4] == Padded(d.year, 4) && text[5..7] == Padded(d.month, 2) && text[8..] == Padded(d.day, 2)
  {
    PaddedWidth(d.year, 4);
    PaddedWidth(d.month, 2);
    PaddedWidth(d.day, 2);
  }

  /** For valid dates, comparing the texts, the calendar dates and the day numbers is the same thing. */
  lemma TextOrderIsDayOrder(a: Date, b: Date)
    requires Valid(a) && Valid(b)
    ensures Less(IsoText(a), IsoText(b)) <==> DayNumber(a) < DayNumber(b)
  {
    CalendarOrderIsDayOrder(a, b);
    TextSplits(a);
    TextSplits(b);
    PaddedOrder(a.year, b.year, 4, "-" + MonthDay(a), "-" + MonthDay(b));
    SharedFirst('-', MonthDay(a), MonthDay(b));
    PaddedOrder(a.month, b.month, 2, "-" + DayText(a), "-" + DayText(b));
    SharedFirst('-', DayText(a), DayText(b));
    PaddedOrder(a.day, b.day, 2, "", "");
    assert DayText(a) + "" == DayText(a) && DayText(b) + "" == DayText(b);
  }

  function DayText(d: Date): string
    requires Valid(d)
  {
    assert Pow10(2) == 100;
    Padded(d.day, 2)
  }

  function MonthDay(d: Date): string
    requires Valid(d)
  {
    assert Pow10(2) == 100;
    Padded(d.month, 2) + ("-" + DayText(d))
  }

  lemma TextSplits(d: Date)
    requires Valid(d)
    ensures Pow10(4) == 10000 && Pow10(2) == 100
    ensures IsoText(d) == Padded(d.year, 4) + ("-" + MonthDay(d))
  {
    assert Pow10(2) == 100;
    assert Pow10(4) == 10000;
  }

  lemma SharedFirst(c: char, x: string, y: string)
    ensures Less([c] + x, [c] + y) <==> Less(x, y)
  {
    assert ([c] + x)[1..] == x && ([c] + y)[1..] == y;
  }
}
