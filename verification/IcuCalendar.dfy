/** The calendar behind the ICU date functions, in UTC: an instant in whole milliseconds with fields to add and to take
    differences of. Days all have the same length; months follow the proleptic Gregorian calendar. */
module IcuCalendar {
  const MSECS_PER_SEC := 1000
  const MSECS_PER_MINUTE := 60 * MSECS_PER_SEC
  const MSECS_PER_HOUR := 60 * MSECS_PER_MINUTE
  const MSECS_PER_DAY := 24 * MSECS_PER_HOUR

  /** Division and remainder of C++: toward zero. */
  function TruncDiv(a: int, b: int): (q: int)
    requires b > 0
  {
    if a >= 0 then a / b else -((-a) / b)
  }

  function TruncRem(a: int, b: int): (r: int)
    requires b > 0
  {
    a - TruncDiv(a, b) * b
  }

  lemma TruncBounds(a: int, b: int)
    requires b > 0
    ensures a == TruncDiv(a, b) * b + TruncRem(a, b) && -b < TruncRem(a, b) < b
    ensures a >= 0 ==> TruncRem(a, b) >= 0 && TruncDiv(a, b) == a / b
    ensures a <= 0 ==> TruncRem(a, b) <= 0
  {
    assert (if a >= 0 then a else -a) % b == (if a >= 0 then a else -a) - (if a >= 0 then a else -a) / b * b;
  }

  lemma AtLeastOnce(x: int, d: int)
    requires d > 0
    ensures x >= 1 ==> x * d >= d
    ensures x <= -1 ==> x * d <= -d
  {
    if x >= 1 {
      assert x * d == (x - 1) * d + d;
    } else if x <= -1 {
      assert x * d == (x + 1) * d - d;
    }
  }

  /** The quotient and remainder of floor division are the only ones that fit. */
  lemma FloorUnique(a: int, d: int, q: int, r: int)
    requires d > 0 && a == q * d + r && 0 <= r < d
    ensures a / d == q && a % d == r
  {
    var x := a / d - q;
    Quotient(a, d);
    assert x * d == a / d * d - q * d;
    AtLeastOnce(x, d);
  }

  lemma Quotient(a: int, d: int)
    requires d > 0
    ensures a == a / d * d + a % d && 0 <= a % d < d
  {}

  // ---- Months: number 0 is January 1970 ----

  predicate IsLeapYear(y: int) { y % 4 == 0 && (y % 100 != 0 || y % 400 == 0) }

  function MonthLength(m: int): (n: int)
    ensures 28 <= n <= 31
  {
    var month := m % 12;
    if month == 1 then if IsLeapYear(1970 + m / 12) then 29 else 28
    else if month == 3 || month == 5 || month == 8 || month == 10 then 30
    else 31
  }

  /** The first day of a month, in days since 1970-01-01. */
  function MonthStart(m: int): int
    decreases if m < 0 then -m else m
  {
    if m == 0 then 0 else if m > 0 then MonthStart(m - 1) + MonthLength(m - 1) else MonthStart(m + 1) - MonthLength(m)
  }

  lemma MonthStep(m: int)
    ensures MonthStart(m + 1) == MonthStart(m) + MonthLength(m)
  {}

  lemma {:induction false} MonthStartGrows(m: int, n: int)
    requires m < n
    ensures MonthStart(m) + (n - m) <= MonthStart(n)
    decreases n - m
  {
    MonthStep(m);
    if m + 1 < n {
      MonthStartGrows(m + 1, n);
    }
  }

  /** The month a day is in, searched from month m. */
  function MonthFrom(day: int, m: int): (r: int)
    ensures MonthStart(r) <= day < MonthStart(r + 1)
    decreases
      if day < MonthStart(m) then MonthStart(m) - day
      else if day >= MonthStart(m + 1) then day - MonthStart(m)
      else 0
  {
    MonthStep(m);
    MonthStep(m - 1);
    if day < MonthStart(m) then MonthFrom(day, m - 1)
    else if day >= MonthStart(m + 1) then MonthFrom(day, m + 1)
    else m
  }

  function MonthOf(day: int): (r: int)
    ensures MonthStart(r) <= day < MonthStart(r + 1)
  {
    MonthFrom(day, 0)
  }

  lemma MonthUnique(day: int, m: int)
    requires MonthStart(m) <= day < MonthStart(m + 1)
    ensures MonthOf(day) == m
  {
    var r := MonthOf(day);
    if r < m {
      if r + 1 < m {
        MonthStartGrows(r + 1, m);
      }
    } else if m < r {
      if m + 1 < r {
        MonthStartGrows(m + 1, r);
      }
    }
  }

  lemma MonthOfStart(m: int)
    ensures MonthOf(MonthStart(m)) == m
  {
    MonthStep(m);
    MonthUnique(MonthStart(m), m);
  }

  // ---- The first day of a year ----

  /** Counted from 1970: the days before year 1970 + y. */
  function YearStart(y: int): int { 365 * y + (1969 + y) / 4 - (1969 + y) / 100 + (1969 + y) / 400 - 477 }

  lemma {:induction false} YearStartIsMonthStart(y: int)
    ensures MonthStart(12 * y) == YearStart(y)
    decreases if y < 0 then -y else y
  {
    if y > 0 {
      YearStartIsMonthStart(y - 1);
      YearStep(y - 1);
    } else if y < 0 {
      YearStartIsMonthStart(y + 1);
      YearStep(y);
    }
  }

  lemma YearStep(y: int)
    ensures MonthStart(12 * y + 12) - MonthStart(12 * y) == YearStart(y + 1) - YearStart(y)
  {
    hide MonthStart, MonthLength;
    Quarter(y, 0);
    Quarter(y, 3);
    Quarter(y, 6);
    Quarter(y, 9);
    LeapDays(1970 + y);
  }

  lemma Quarter(y: int, k: nat)
    requires k in {0, 3, 6, 9}
    ensures MonthStart(12 * y + k + 3) == MonthStart(12 * y + k) +
      if k == 0 then if IsLeapYear(1970 + y) then 91 else 90 else if k == 3 then 91 else 92
  {
    hide MonthStart, IsLeapYear;
    MonthStep(12 * y + k);
    MonthStep(12 * y + k + 1);
    MonthStep(12 * y + k + 2);
    FloorUnique(12 * y + k, 12, y, k);
    FloorUnique(12 * y + k + 1, 12, y, k + 1);
    FloorUnique(12 * y + k + 2, 12, y, k + 2);
  }

  lemma LeapDays(y: int)
    ensures y / 4 - y / 100 + y / 400 - ((y - 1) / 4 - (y - 1) / 100 + (y - 1) / 400) == if IsLeapYear(y) then 1 else 0
  {
    NextQuotient(y, 4);
    NextQuotient(y, 100);
    NextQuotient(y, 400);
  }

  lemma NextQuotient(a: int, d: int)
    requires d > 1
    ensures a / d == (a - 1) / d + if a % d == 0 then 1 else 0
  {
    var q, r := a / d, a % d;
    Quotient(a, d);
    if r == 0 {
      FloorUnique(a - 1, d, q - 1, d - 1);
    } else {
      FloorUnique(a - 1, d, q, r - 1);
    }
  }

  /** December begins 31 days before the next year, and January ends 31 days into it. */
  lemma AroundNewYear(y: int)
    ensures MonthStart(12 * y - 1) == YearStart(y) - 31
    ensures MonthStart(12 * y) == YearStart(y) && MonthStart(12 * y + 1) == YearStart(y) + 31
  {
    hide MonthStart;
    YearStartIsMonthStart(y);
    MonthStep(12 * y - 1);
    MonthStep(12 * y);
  }

  // ---- The calendar ----

  datatype Field = MONTH | DATE | HOUR | MINUTE | SECOND | MILLISECOND

  function Unit(field: Field): (u: int)
    requires field != MONTH
    ensures u > 0
  {
    match field
    case DATE => MSECS_PER_DAY
    case HOUR => MSECS_PER_HOUR
    case MINUTE => MSECS_PER_MINUTE
    case SECOND => MSECS_PER_SEC
    case MILLISECOND => 1
  }

  /** The same day of another month, or the last one if it is too short. */
  function MonthsLater(day: int, n: int): int {
    var m := MonthOf(day);
    var dom, last := day - MonthStart(m), MonthLength(m + n) - 1;
    MonthStart(m + n) + if dom < last then dom else last
  }

  function AddMonths(millis: int, n: int): int {
    MonthsLater(millis / MSECS_PER_DAY, n) * MSECS_PER_DAY + millis % MSECS_PER_DAY
  }

  lemma AddNoMonths(millis: int)
    ensures AddMonths(millis, 0) == millis
  {
    hide MonthStart, MonthFrom, MonthLength;
    MonthStep(MonthOf(millis / MSECS_PER_DAY));
    Quotient(millis, MSECS_PER_DAY);
  }

  lemma AddMonthsToStart(m: int, n: int)
    ensures AddMonths(MonthStart(m) * MSECS_PER_DAY, n) == MonthStart(m + n) * MSECS_PER_DAY
  {
    MonthOfStart(m);
    FloorUnique(MonthStart(m) * MSECS_PER_DAY, MSECS_PER_DAY, MonthStart(m), 0);
  }

  /** Adding months goes to that many months later, to the same day of the month or to the last one if there is no such
      day, and keeps the time of day. */
  lemma AddMonthsLands(millis: int, n: int)
    ensures var sum := AddMonths(millis, n); var d, r := millis / MSECS_PER_DAY, sum / MSECS_PER_DAY;
      && sum % MSECS_PER_DAY == millis % MSECS_PER_DAY && MonthOf(r) == MonthOf(d) + n
      && (if d - MonthStart(MonthOf(d)) < MonthStart(MonthOf(r) + 1) - MonthStart(MonthOf(r))
          then r - MonthStart(MonthOf(r)) == d - MonthStart(MonthOf(d))
          else r == MonthStart(MonthOf(r) + 1) - 1)
  {
    hide MonthStart, MonthLength, MonthFrom;
    var d := millis / MSECS_PER_DAY;
    var m := MonthOf(d);
    var r := MonthsLater(d, n);
    MonthStep(m + n);
    FloorUnique(AddMonths(millis, n), MSECS_PER_DAY, r, millis % MSECS_PER_DAY);
    MonthUnique(r, m + n);
  }

  /** Whether the next day is cut off, or left out, by a month of another length: it does not land a day later. */
  predicate CutsShort(day: int, n: int) {
    var m := MonthOf(day);
    var dom, length, later := day - MonthStart(m), MonthLength(m), MonthLength(m + n);
    if dom + 1 < length then dom + 1 >= later else length < later
  }

  lemma NextDayLater(day: int, n: int)
    ensures MonthsLater(day + 1, n) == MonthsLater(day, n) + 1 <==> !CutsShort(day, n)
  {
    hide MonthStart, MonthLength, MonthFrom;
    var m := MonthOf(day);
    MonthStep(m);
    MonthStep(m + 1);
    MonthStep(m + n);
    MonthStep(m + n + 1);
    if day + 1 < MonthStart(m + 1) {
      MonthUnique(day + 1, m);
    } else {
      MonthLengths(m + 1);
      MonthUnique(day + 1, m + 1);
    }
    MonthLengths(m);
    MonthLengths(m + n);
    MonthLengths(m + n + 1);
  }

  /** The millisecond after another lands right after it, too, unless midnight is between them and that happens. */
  lemma NextMilliLater(millis: int, n: int)
    ensures AddMonths(millis + 1, n) == AddMonths(millis, n) + 1
       <==> !((millis + 1) % MSECS_PER_DAY == 0 && CutsShort(millis / MSECS_PER_DAY, n))
  {
    hide MonthStart, MonthLength, MonthOf, CutsShort;
    var day := millis / MSECS_PER_DAY;
    NextDayLater(day, n);
    Quotient(millis, MSECS_PER_DAY);
    if (millis + 1) % MSECS_PER_DAY == 0 {
      assert millis % MSECS_PER_DAY == MSECS_PER_DAY - 1 && (millis + 1) / MSECS_PER_DAY == day + 1;
      assert AddMonths(millis + 1, n) == MonthsLater(day + 1, n) * MSECS_PER_DAY;
    } else {
      FloorUnique(millis + 1, MSECS_PER_DAY, day, millis % MSECS_PER_DAY + 1);
    }
  }

  /** The lengths of the months, by their names. */
  lemma MonthLengths(m: int)
    ensures var february := if IsLeapYear(1970 + m / 12) then 29 else 28;
      MonthLength(m) == [31, february, 31, 30, 31, 30, 31, 31, 30, 31, 30, 31][m % 12]
  {
    hide IsLeapYear;
  }

  /** The instant n units later. */
  function Shifted(millis: int, field: Field, n: int): int {
    if field == MONTH then AddMonths(millis, n) else millis + n * Unit(field)
  }

  lemma ShiftedGrows(millis: int, field: Field, m: int, n: int)
    requires m < n
    ensures Shifted(millis, field, m) < Shifted(millis, field, n)
  {
    hide MonthStart, MonthOf, MonthLength;
    if field == MONTH {
      var month := MonthOf(millis / MSECS_PER_DAY);
      MonthStep(month + m);
      MonthStep(month + n);
      if m + 1 < n {
        MonthStartGrows(month + m + 1, month + n);
      }
    } else {
      AtLeastOnce(n - m, Unit(field));
      assert (n - m) * Unit(field) == n * Unit(field) - m * Unit(field);
    }
  }

  /** n is how often the unit fits between two instants: going on by it does not pass the target, by one more does. */
  predicate Fits(start: int, when: int, field: Field, n: int) {
    if start <= when then n >= 0 && Shifted(start, field, n) <= when < Shifted(start, field, n + 1)
    else n <= 0 && Shifted(start, field, n - 1) < when <= Shifted(start, field, n)
  }

  lemma FitsOnce(start: int, when: int, field: Field, m: int, n: int)
    requires Fits(start, when, field, m) && Fits(start, when, field, n)
    ensures m == n
  {
    hide Shifted;
    var more := if start <= when then 1 else 0;
    if m < n {
      ShiftedInOrder(start, field, m + more, n - 1 + more);
    } else if n < m {
      ShiftedInOrder(start, field, n + more, m - 1 + more);
    }
  }

  lemma ShiftedInOrder(millis: int, field: Field, m: int, n: int)
    requires m <= n
    ensures Shifted(millis, field, m) <= Shifted(millis, field, n)
  {
    hide Shifted;
    if m < n {
      ShiftedGrows(millis, field, m, n);
    }
  }

  lemma NotShifted(millis: int, field: Field)
    ensures Shifted(millis, field, 0) == millis
  {
    if field == MONTH {
      AddNoMonths(millis);
    }
  }

  /** An instant a number of units away is that far away. */
  lemma ShiftedFits(start: int, field: Field, n: int)
    ensures Fits(start, Shifted(start, field, n), field, n)
  {
    hide Shifted;
    NotShifted(start, field);
    ShiftedGrows(start, field, n, n + 1);
    ShiftedGrows(start, field, n - 1, n);
    if n < 0 {
      ShiftedGrows(start, field, n, 0);
    } else {
      ShiftedInOrder(start, field, 0, n);
    }
  }

  lemma FitsAtLeast(start: int, when: int, field: Field, n: int)
    requires n >= 0 && start < when && Shifted(start, field, n) < when < Shifted(start, field, n + 1)
    ensures Fits(start, when, field, n)
  {}

  lemma FitsAtMost(start: int, when: int, field: Field, n: int)
    requires n <= 0 && when < start && Shifted(start, field, n - 1) < when < Shifted(start, field, n)
    ensures Fits(start, when, field, n)
  {}

  lemma Halfway(low: int, high: int)
    requires high - low > 1
    ensures low < high + TruncDiv(low - high, 2) < high
  {}

  /** How many months fit between two instants. */
  function MonthsBetween(start: int, when: int): (n: int)
    ensures Fits(start, when, MONTH, n)
  {
    CalendarMonthsFit(start, when);
    CalendarMonths(start, when)
  }

  /** The difference of the months' numbers, less one if the day and time of the start are not reached. */
  function CalendarMonths(start: int, when: int): int {
    var n := MonthOf(when / MSECS_PER_DAY) - MonthOf(start / MSECS_PER_DAY);
    if start <= when then if Shifted(start, MONTH, n) <= when then n else n - 1
    else if when <= Shifted(start, MONTH, n) then n else n + 1
  }

  lemma CalendarMonthsFit(start: int, when: int)
    ensures Fits(start, when, MONTH, CalendarMonths(start, when))
  {
    hide MonthOf, Shifted;
    MonthsNearby(start, when);
  }

  lemma MonthsNearby(start: int, when: int)
    ensures var n := MonthOf(when / MSECS_PER_DAY) - MonthOf(start / MSECS_PER_DAY);
      && Shifted(start, MONTH, n - 1) < when < Shifted(start, MONTH, n + 1) && Shifted(start, MONTH, 0) == start
      && (start <= when ==> n >= 0) && (when <= start ==> n <= 0)
  {
    hide AddMonths, MonthStart, MonthOf;
    var n := MonthOf(when / MSECS_PER_DAY) - MonthOf(start / MSECS_PER_DAY);
    var month := MonthOf(start / MSECS_PER_DAY);
    InItsMonth(start, n - 1);
    InItsMonth(start, n + 1);
    NotShifted(start, MONTH);
    Quotient(when, MSECS_PER_DAY);
    if start <= when {
      MonthsInOrder(start / MSECS_PER_DAY, when / MSECS_PER_DAY);
    }
    if when <= start {
      MonthsInOrder(when / MSECS_PER_DAY, start / MSECS_PER_DAY);
    }
  }

  lemma InItsMonth(millis: int, n: int)
    ensures var m := MonthOf(millis / MSECS_PER_DAY) + n;
      MonthStart(m) * MSECS_PER_DAY <= AddMonths(millis, n) < MonthStart(m + 1) * MSECS_PER_DAY
  {
    hide MonthStart, MonthFrom, MonthLength;
    MonthStep(MonthOf(millis / MSECS_PER_DAY) + n);
  }

  lemma MonthsInOrder(a: int, b: int)
    requires a <= b
    ensures MonthOf(a) <= MonthOf(b)
  {
    hide MonthStart;
    if MonthOf(b) < MonthOf(a) {
      if MonthOf(b) + 1 < MonthOf(a) {
        MonthStartGrows(MonthOf(b) + 1, MonthOf(a));
      }
      assert false;
    }
  }

  /** For units of a fixed length, the number that fits is a quotient rounded toward zero. */
  lemma FixedDifference(start: int, when: int, field: Field)
    requires field != MONTH
    ensures forall n {:trigger Fits(start, when, field, n)} | Fits(start, when, field, n) ::
      n == TruncDiv(when - start, Unit(field))
  {
    var u := Unit(field);
    forall n | Fits(start, when, field, n) ensures n == TruncDiv(when - start, u) {
      assert (n + 1) * u == n * u + u && (n - 1) * u == n * u - u && (-n) * u == -(n * u);
      if start <= when {
        FloorUnique(when - start, u, n, when - start - n * u);
      } else {
        FloorUnique(start - when, u, -n, start - when + n * u);
      }
    }
  }

  class Calendar {
    var millis: int

    constructor ()
    {
      millis := 0;
    }

    method SetMillis(when: int)
      modifies this
      ensures millis == when
    {
      millis := when;
    }

    method AddField(field: Field, n: int)
      modifies this
      ensures millis == Shifted(old(millis), field, n)
    {
      millis := if field == MONTH then AddMonths(millis, n) else millis + n * Unit(field);
    }

    /** Doubles the number of units until the target is passed, and searches between the last two numbers. The units are
        always added to the start, so that days cut off in a short month do not add up. */
    method FieldDifference(when: int, field: Field) returns (n: int)
      modifies this
      ensures Fits(old(millis), when, field, n) && millis == Shifted(old(millis), field, n)
      ensures field != MONTH ==>
        n == TruncDiv(when - old(millis), Unit(field)) && millis == old(millis) + n * Unit(field)
    {
      var start, min := millis, 0;
      NotShifted(start, field);
      if field != MONTH {
        FixedDifference(start, when, field);
      }
      hide Shifted, Fits, TruncDiv;
      if start < when {
        var max := 1;
        ShiftedGrows(start, field, 0, max);
        while true
          invariant 0 <= min < max && Shifted(start, field, min) < when
          decreases when - Shifted(start, field, min)
        {
          SetMillis(start);
          AddField(field, max);
          if millis == when {
            ShiftedFits(start, field, max);
            return max;
          } else if millis > when {
            break;
          }
          ShiftedGrows(start, field, min, max);
          min := max;
          max := max * 2;
        }
        while max - min > 1
          invariant 0 <= min < max && Shifted(start, field, min) < when < Shifted(start, field, max)
        {
          var t := min + (max - min) / 2;
          SetMillis(start);
          AddField(field, t);
          if millis == when {
            ShiftedFits(start, field, t);
            return t;
          } else if millis > when {
            max := t;
          } else {
            min := t;
          }
        }
        FitsAtLeast(start, when, field, min);
      } else if start > when {
        var max := -1;
        ShiftedGrows(start, field, max, 0);
        while true
          invariant max < min <= 0 && when < Shifted(start, field, min)
          decreases Shifted(start, field, min) - when
        {
          SetMillis(start);
          AddField(field, max);
          if millis == when {
            ShiftedFits(start, field, max);
            return max;
          } else if millis < when {
            break;
          }
          ShiftedGrows(start, field, max, min);
          min := max;
          max := max * 2;
        }
        while min - max > 1
          invariant max < min <= 0 && Shifted(start, field, max) < when < Shifted(start, field, min)
        {
          var t := min + TruncDiv(max - min, 2);
          Halfway(max, min);
          SetMillis(start);
          AddField(field, t);
          if millis == when {
            ShiftedFits(start, field, t);
            return t;
          } else if millis < when {
            max := t;
          } else {
            min := t;
          }
        }
        FitsAtMost(start, when, field, min);
      } else {
        ShiftedFits(start, field, 0);
      }
      SetMillis(start);
      AddField(field, min);
      return min;
    }

    /** Sets all fields below the month to their first value. */
    method TruncateMonth()
      modifies this
      ensures millis == MonthStart(MonthOf(old(millis) / MSECS_PER_DAY)) * MSECS_PER_DAY
    {
      millis := MonthStart(MonthOf(millis / MSECS_PER_DAY)) * MSECS_PER_DAY;
    }
  }
}
