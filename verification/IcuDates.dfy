/** Adding intervals to instants and subtracting instants: an instant in microseconds is split into the milliseconds of
    a calendar and the rest, and put together again. */
module IcuDates {
  import opened IcuCalendar

  const MICROS_PER_MSEC := 1000
  const MICROS_PER_DAY := MICROS_PER_MSEC * MSECS_PER_DAY
  const INT32_MAX := 0x7FFF_FFFF
  const INT32_MIN := -0x8000_0000
  const INT64_MAX := 0x7FFF_FFFF_FFFF_FFFF
  const INT64_MIN := -0x8000_0000_0000_0000
  const UINT64 := 0x1_0000_0000_0000_0000

  datatype Interval = Interval(months: int, days: int, micros: int)

  datatype Result<T> = Ok(value: T) | OutOfRange | InvalidInput | Null

  predicate IsInt64(x: int) { INT64_MIN <= x <= INT64_MAX }

  predicate IsInt32(x: int) { INT32_MIN <= x <= INT32_MAX }

  predicate IsFinite(us: int) { us != INT64_MAX && us != -INT64_MAX }

  /** Timestamp::GetDate, which takes the infinite instants to the infinite dates. */
  function GetDate(us: int): int {
    if us == INT64_MAX then INT32_MAX else if us == -INT64_MAX then -INT32_MAX else us / MICROS_PER_DAY
  }

  /** An instant whose day can be converted back to microseconds. */
  predicate InRange(us: int) { IsInt64(us) && IsInt64(GetDate(us) * MICROS_PER_DAY) }

  /** The infinite instants are those that get the infinite dates. */
  lemma InfiniteDates(us: int)
    requires IsInt64(us)
    ensures IsFinite(us) <==> -INT32_MAX < GetDate(us) < INT32_MAX
    ensures !IsFinite(us) ==> us == INT64_MAX || us == -INT64_MAX
  {}

  lemma InRangeIsFinite(us: int)
    requires InRange(us)
    ensures IsFinite(us)
  {}

  /** TryGetTime */
  function FromMillis(millis: int, micros: int): Result<int> {
    if IsInt64(millis * MICROS_PER_MSEC) && InRange(millis * MICROS_PER_MSEC + micros)
    then Ok(millis * MICROS_PER_MSEC + micros) else OutOfRange
  }

  method GetTime(calendar: Calendar, micros: int) returns (r: Result<int>)
    ensures r == FromMillis(calendar.millis, micros)
  {
    var us := calendar.millis * MICROS_PER_MSEC;
    if !IsInt64(us) || !IsInt64(us + micros) {
      return OutOfRange;
    }
    us := us + micros;
    if !IsInt64(GetDate(us) * MICROS_PER_DAY) {
      return OutOfRange;
    }
    return Ok(us);
  }

  /** The milliseconds go to the calendar, rounded down; the microseconds left are returned. */
  method SetTime(calendar: Calendar, date: int) returns (micros: int)
    modifies calendar
    ensures calendar.millis == date / MICROS_PER_MSEC && micros == date % MICROS_PER_MSEC
  {
    var millis := TruncDiv(date, MICROS_PER_MSEC);
    micros := TruncRem(date, MICROS_PER_MSEC);
    TruncBounds(date, MICROS_PER_MSEC);
    if micros < 0 {
      millis := millis - 1;
      micros := micros + MICROS_PER_MSEC;
    }
    FloorUnique(date, MICROS_PER_MSEC, millis, micros);
    calendar.SetMillis(millis);
  }

  /** The hours of an interval do not fit into 32 bits and are added in pieces. */
  method CalendarAddHour(calendar: Calendar, intervalHour: int)
    modifies calendar
    ensures calendar.millis == old(calendar.millis) + intervalHour * MSECS_PER_HOUR
  {
    var h := intervalHour;
    ghost var added := 0;
    if h >= 0 {
      while h > 0
        invariant added + (if h > 0 then h else 0) == intervalHour
        invariant calendar.millis == old(calendar.millis) + added * MSECS_PER_HOUR
      {
        var n := if h > INT32_MAX then INT32_MAX else h;
        calendar.AddField(HOUR, n);
        added := added + n;
        h := h - INT32_MAX;
      }
    } else {
      while h < 0
        invariant added + (if h < 0 then h else 0) == intervalHour
        invariant calendar.millis == old(calendar.millis) + added * MSECS_PER_HOUR
      {
        var n := if h < INT32_MIN then INT32_MIN else h;
        calendar.AddField(HOUR, n);
        added := added + n;
        h := h - INT32_MIN;
      }
    }
  }

  // ---- Add ----

  /** The microseconds below a millisecond are moved by hand, with at most one carry. */
  function Moved(timestamp: int, micros: int): (m: (int, int))
    ensures m.0 * MICROS_PER_MSEC + m.1 == timestamp + TruncRem(micros, MICROS_PER_MSEC)
  {
    var millis := TruncDiv(timestamp, MICROS_PER_MSEC);
    var rest := TruncRem(timestamp, MICROS_PER_MSEC) + TruncRem(micros, MICROS_PER_MSEC);
    if rest >= MICROS_PER_MSEC then (millis + 1, rest - MICROS_PER_MSEC)
    else if rest < 0 then (millis - 1, rest + MICROS_PER_MSEC)
    else (millis, rest)
  }

  /** The calendar part of an addition: months before days, and from the coarse to the fine unless something is
      negative. */
  function AddMillis(millis: int, interval: Interval): int {
    var time := TruncDiv(interval.micros, MICROS_PER_MSEC);
    if interval.months < 0 || interval.days < 0 || interval.micros < 0
    then AddMonths(millis + time, interval.months) + interval.days * MSECS_PER_DAY
    else AddMonths(millis, interval.months) + interval.days * MSECS_PER_DAY + time
  }

  function Added(timestamp: int, interval: Interval): Result<int> {
    if !IsFinite(timestamp) then Ok(timestamp)
    else
      var m := Moved(timestamp, interval.micros);
      if InRange(m.0 * MICROS_PER_MSEC) then FromMillis(AddMillis(m.0, interval), m.1) else OutOfRange
  }

  method Add(calendar: Calendar, timestamp: int, interval: Interval) returns (r: Result<int>)
    modifies calendar
    ensures r == Added(timestamp, interval)
  {
    hide AddMonths, TruncDiv, TruncRem, InRange, FromMillis;
    if !IsFinite(timestamp) {
      return Ok(timestamp);
    }
    var millis := TruncDiv(timestamp, MICROS_PER_MSEC);
    var micros := TruncRem(timestamp, MICROS_PER_MSEC);
    micros := micros + TruncRem(interval.micros, MICROS_PER_MSEC);
    if micros >= MICROS_PER_MSEC {
      micros := micros - MICROS_PER_MSEC;
      millis := millis + 1;
    } else if micros < 0 {
      micros := micros + MICROS_PER_MSEC;
      millis := millis - 1;
    }
    if !InRange(millis * MICROS_PER_MSEC) {
      return OutOfRange;
    }
    calendar.SetMillis(millis);
    var h := TruncDiv(interval.micros, MICROS_PER_MSEC);
    var ms := TruncRem(h, 1000);
    h := TruncDiv(h, 1000);
    var s := TruncRem(h, 60);
    h := TruncDiv(h, 60);
    var m := TruncRem(h, 60);
    h := TruncDiv(h, 60);
    Units(TruncDiv(interval.micros, MICROS_PER_MSEC), h, m, s, ms);
    if interval.months < 0 || interval.days < 0 || interval.micros < 0 {
      calendar.AddField(MILLISECOND, ms);
      calendar.AddField(SECOND, s);
      calendar.AddField(MINUTE, m);
      CalendarAddHour(calendar, h);
      calendar.AddField(MONTH, interval.months);
      calendar.AddField(DATE, interval.days);
    } else {
      calendar.AddField(MONTH, interval.months);
      calendar.AddField(DATE, interval.days);
      CalendarAddHour(calendar, h);
      calendar.AddField(MINUTE, m);
      calendar.AddField(SECOND, s);
      calendar.AddField(MILLISECOND, ms);
    }
    r := GetTime(calendar, micros);
  }

  lemma Units(millis: int, h: int, m: int, s: int, ms: int)
    requires ms == TruncRem(millis, 1000) && s == TruncRem(TruncDiv(millis, 1000), 60)
    requires m == TruncRem(TruncDiv(TruncDiv(millis, 1000), 60), 60)
    requires h == TruncDiv(TruncDiv(TruncDiv(millis, 1000), 60), 60)
    ensures h * MSECS_PER_HOUR + m * MSECS_PER_MINUTE + s * MSECS_PER_SEC + ms == millis
  {}

  lemma AddMillisPlain(millis: int, interval: Interval)
    requires interval.months == 0
    ensures AddMillis(millis, interval) ==
      millis + TruncDiv(interval.micros, MICROS_PER_MSEC) + interval.days * MSECS_PER_DAY
  {
    hide AddMonths, TruncDiv;
    AddNoMonths(millis);
    AddNoMonths(millis + TruncDiv(interval.micros, MICROS_PER_MSEC));
  }

  /** Without months, adding an interval moves the instant by exactly its length. */
  lemma AddIsExact(timestamp: int, interval: Interval)
    requires interval.months == 0 && IsFinite(timestamp)
    ensures var m, sum :=
      Moved(timestamp, interval.micros), timestamp + interval.days * MICROS_PER_DAY + interval.micros;
      Added(timestamp, interval) ==
        if InRange(m.0 * MICROS_PER_MSEC) && IsInt64(sum - m.1) && InRange(sum) then Ok(sum) else OutOfRange
  {
    hide AddMonths, InRange, TruncRem, TruncDiv, AddMillis, Moved;
    var m := Moved(timestamp, interval.micros);
    AddMillisPlain(m.0, interval);
    TruncBounds(interval.micros, MICROS_PER_MSEC);
  }

  /** Away from the ends of the range there is no error. */
  lemma AddStaysInRange(timestamp: int, interval: Interval)
    requires interval.months == 0 && IsFinite(timestamp)
    requires var sum := timestamp + interval.days * MICROS_PER_DAY + interval.micros;
      InRange(timestamp - 2000) && InRange(timestamp + 2000) && InRange(sum - 2000) && InRange(sum + 2000)
    ensures Added(timestamp, interval) == Ok(timestamp + interval.days * MICROS_PER_DAY + interval.micros)
  {
    AddIsExact(timestamp, interval);
    TruncBounds(timestamp, MICROS_PER_MSEC);
    TruncBounds(interval.micros, MICROS_PER_MSEC);
    var m := Moved(timestamp, interval.micros);
    Between(timestamp - 2000, m.0 * MICROS_PER_MSEC, timestamp + 2000);
    var sum := timestamp + interval.days * MICROS_PER_DAY + interval.micros;
    Between(sum - 2000, sum, sum + 2000);
  }

  lemma Between(a: int, b: int, c: int)
    requires a <= b <= c && InRange(a) && InRange(c)
    ensures InRange(b)
  {
    assert a / MICROS_PER_DAY <= b / MICROS_PER_DAY <= c / MICROS_PER_DAY;
  }

  // ---- Months ----

  /** The same time of the same day some months later, or of the last day of that month. */
  function Landed(timestamp: int, months: int): int {
    AddMonths(timestamp / MICROS_PER_MSEC, months) * MICROS_PER_MSEC + timestamp % MICROS_PER_MSEC
  }

  lemma LandedOn(timestamp: int, months: int)
    ensures var sum := Landed(timestamp, months); var d, r := timestamp / MICROS_PER_DAY, sum / MICROS_PER_DAY;
      && sum % MICROS_PER_DAY == timestamp % MICROS_PER_DAY && MonthOf(r) == MonthOf(d) + months
      && (if d - MonthStart(MonthOf(d)) < MonthStart(MonthOf(r) + 1) - MonthStart(MonthOf(r))
          then r - MonthStart(MonthOf(r)) == d - MonthStart(MonthOf(d))
          else r == MonthStart(MonthOf(r) + 1) - 1)
  {
    hide MonthStart, MonthOf, MonthsLater, AddMonths;
    var millis := timestamp / MICROS_PER_MSEC;
    AddMonthsLands(millis, months);
    MillisOfDay(timestamp, millis, timestamp % MICROS_PER_MSEC);
    MillisOfDay(Landed(timestamp, months), AddMonths(millis, months), timestamp % MICROS_PER_MSEC);
  }

  lemma MillisOfDay(timestamp: int, millis: int, micros: int)
    requires timestamp == millis * MICROS_PER_MSEC + micros && 0 <= micros < MICROS_PER_MSEC
    ensures timestamp / MICROS_PER_DAY == millis / MSECS_PER_DAY
    ensures timestamp % MICROS_PER_DAY == millis % MSECS_PER_DAY * MICROS_PER_MSEC + micros
  {
    Quotient(millis, MSECS_PER_DAY);
    FloorUnique(timestamp, MICROS_PER_DAY, millis / MSECS_PER_DAY, millis % MSECS_PER_DAY * MICROS_PER_MSEC + micros);
  }

  predicate IsBackward(interval: Interval) { interval.months < 0 || interval.days < 0 || interval.micros < 0 }

  /** What an addition means: months, then days, then the time, or the other way around if something is negative. */
  function Meant(timestamp: int, interval: Interval): int {
    if IsBackward(interval) then Landed(timestamp + interval.micros, interval.months) + interval.days * MICROS_PER_DAY
    else Landed(timestamp, interval.months) + interval.days * MICROS_PER_DAY + interval.micros
  }

  /** The microseconds below a millisecond are added before the months. This is too early when it takes the instant past
      midnight, or too late when it takes the instant back past midnight by less than a millisecond, and the day that
      is left lands on the same day or far from the one that is reached. */
  predicate LosesDay(timestamp: int, interval: Interval) {
    var below := if IsBackward(interval) then timestamp + interval.micros else timestamp;
    && (below / MICROS_PER_MSEC + 1) % MSECS_PER_DAY == 0 && CutsShort(below / MICROS_PER_DAY, interval.months)
    && if IsBackward(interval)
       then TruncRem(timestamp, MICROS_PER_MSEC) + TruncRem(interval.micros, MICROS_PER_MSEC) < -MICROS_PER_MSEC
       else timestamp % MICROS_PER_MSEC + interval.micros % MICROS_PER_MSEC >= MICROS_PER_MSEC
  }

  /** Every sum that is in range is the one that is meant, except in that case. */
  lemma AddIsMeant(timestamp: int, interval: Interval)
    requires IsFinite(timestamp) && Added(timestamp, interval).Ok?
    ensures Added(timestamp, interval).value == Meant(timestamp, interval) <==> !LosesDay(timestamp, interval)
  {
    hide AddMonths, CutsShort, InRange, TruncDiv;
    if IsBackward(interval) {
      BackwardIsMeant(timestamp, interval);
    } else {
      ForwardIsMeant(timestamp, interval);
    }
  }

  lemma ForwardIsMeant(timestamp: int, interval: Interval)
    requires !IsBackward(interval)
    ensures var m := Moved(timestamp, interval.micros);
      AddMillis(m.0, interval) * MICROS_PER_MSEC + m.1 == Meant(timestamp, interval) <==> !LosesDay(timestamp, interval)
  {
    hide AddMonths, CutsShort;
    var f, s, r := timestamp / MICROS_PER_MSEC, timestamp % MICROS_PER_MSEC, interval.micros % MICROS_PER_MSEC;
    var m := Moved(timestamp, interval.micros);
    MovedUp(timestamp, interval.micros);
    NextMilliLater(f, interval.months);
    MillisOfDay(timestamp, f, s);
  }

  lemma MovedUp(timestamp: int, micros: int)
    requires micros >= 0
    ensures var f, s, r := timestamp / MICROS_PER_MSEC, timestamp % MICROS_PER_MSEC, micros % MICROS_PER_MSEC;
      && TruncDiv(micros, MICROS_PER_MSEC) * MICROS_PER_MSEC == micros - r
      && Moved(timestamp, micros) == if s + r >= MICROS_PER_MSEC then (f + 1, s + r - MICROS_PER_MSEC) else (f, s + r)
  {
    TruncBounds(timestamp, MICROS_PER_MSEC);
    TruncBounds(micros, MICROS_PER_MSEC);
    Quotient(timestamp, MICROS_PER_MSEC);
  }

  lemma BackwardIsMeant(timestamp: int, interval: Interval)
    requires IsBackward(interval)
    ensures var m := Moved(timestamp, interval.micros);
      AddMillis(m.0, interval) * MICROS_PER_MSEC + m.1 == Meant(timestamp, interval) <==> !LosesDay(timestamp, interval)
  {
    hide AddMonths, CutsShort, TruncDiv, TruncRem, Moved;
    var t, m := timestamp + interval.micros, Moved(timestamp, interval.micros);
    var millis := m.0 + TruncDiv(interval.micros, MICROS_PER_MSEC);
    MovedBack(timestamp, interval.micros);
    if m.1 < 0 {
      FloorUnique(t, MICROS_PER_MSEC, millis - 1, m.1 + MICROS_PER_MSEC);
      NextMilliLater(millis - 1, interval.months);
      MillisOfDay(t, millis - 1, m.1 + MICROS_PER_MSEC);
    } else {
      FloorUnique(t, MICROS_PER_MSEC, millis, m.1);
    }
  }

  lemma MovedBack(timestamp: int, micros: int)
    ensures var m := Moved(timestamp, micros);
      && (m.0 + TruncDiv(micros, MICROS_PER_MSEC)) * MICROS_PER_MSEC + m.1 == timestamp + micros
      && -MICROS_PER_MSEC < m.1 < MICROS_PER_MSEC
      && (m.1 < 0 <==> TruncRem(timestamp, MICROS_PER_MSEC) + TruncRem(micros, MICROS_PER_MSEC) < -MICROS_PER_MSEC)
  {
    TruncBounds(timestamp, MICROS_PER_MSEC);
    TruncBounds(micros, MICROS_PER_MSEC);
  }

  /** An interval of months alone never loses a day: the sum is in that many months, at the same time of the same day of
      the month, or of the last day. */
  lemma AddOfMonths(timestamp: int, months: int)
    requires IsFinite(timestamp) && Added(timestamp, Interval(months, 0, 0)).Ok?
    ensures var sum := Added(timestamp, Interval(months, 0, 0)).value;
      var d, r := timestamp / MICROS_PER_DAY, sum / MICROS_PER_DAY;
      && sum % MICROS_PER_DAY == timestamp % MICROS_PER_DAY && MonthOf(r) == MonthOf(d) + months
      && (if d - MonthStart(MonthOf(d)) < MonthStart(MonthOf(r) + 1) - MonthStart(MonthOf(r))
          then r - MonthStart(MonthOf(r)) == d - MonthStart(MonthOf(d))
          else r == MonthStart(MonthOf(r) + 1) - 1)
  {
    hide Landed, Added, CutsShort, MonthOf, MonthStart;
    AddIsMeant(timestamp, Interval(months, 0, 0));
    TruncBounds(timestamp, MICROS_PER_MSEC);
    assert TruncRem(0, MICROS_PER_MSEC) == 0;
    LandedOn(timestamp, months);
  }

  /** For example, a microsecond before midnight of 30 January 1970 plus a month and a microsecond is 28 February and
      not 1 March. */
  lemma OneDayLost()
    ensures var t, interval := 30 * MICROS_PER_DAY - 1, Interval(1, 0, 1);
      && Meant(t, interval) == 59 * MICROS_PER_DAY && Added(t, interval) == Ok(58 * MICROS_PER_DAY)
  {
    hide MonthsLater, InRange;
    var t, interval := 30 * MICROS_PER_DAY - 1, Interval(1, 0, 1);
    EndOfJanuary();
    assert Landed(t, 1) == 59 * MICROS_PER_DAY - 1;
    assert Moved(t, 1) == (30 * MSECS_PER_DAY, 0);
    assert AddMillis(30 * MSECS_PER_DAY, interval) == 58 * MSECS_PER_DAY;
    assert InRange(30 * MICROS_PER_DAY) && InRange(58 * MICROS_PER_DAY) by { Februaries(); }
  }

  lemma Februaries()
    ensures InRange(30 * MICROS_PER_DAY) && InRange(58 * MICROS_PER_DAY)
  {}

  lemma EndOfJanuary()
    ensures MonthsLater(29, 1) == 58 && MonthsLater(30, 1) == 58
  {
    assert MonthStart(1) == 31 && MonthLength(1) == 28;
    MonthUnique(29, 0);
    MonthUnique(30, 0);
  }

  // ---- Sub ----

  /** The difference of two instants: with start <= end, whole days and the rest. A negative remainder of the end is
      converted to a huge unsigned number, so it is never borrowed for, and comes back by wrapping around. */
  method Sub(calendar: Calendar, endDate: int, startDate: int) returns (r: Result<Interval>)
    requires IsInt64(endDate) && IsInt64(startDate)
    modifies calendar
    ensures r == Difference(endDate, startDate)
  {
    if !IsFinite(endDate) || !IsFinite(startDate) {
      return InvalidInput;
    }
    if startDate > endDate {
      var negated := SubOrdered(calendar, startDate, endDate);
      return Ok(Interval(-negated.months, -negated.days, -negated.micros));
    }
    var interval := SubOrdered(calendar, endDate, startDate);
    return Ok(interval);
  }

  function Difference(endDate: int, startDate: int): Result<Interval> {
    if !IsFinite(endDate) || !IsFinite(startDate) then InvalidInput
    else if startDate > endDate then
      var negated := OrderedDifference(startDate, endDate);
      Ok(Interval(-negated.months, -negated.days, -negated.micros))
    else Ok(OrderedDifference(endDate, startDate))
  }

  function AsUint64(x: int): int { x % UINT64 }

  /** The low 32 bits as a signed number. */
  function AsInt32(x: int): int {
    var low := x % 0x1_0000_0000;
    if low > INT32_MAX then low - 0x1_0000_0000 else low
  }

  /** The low 64 bits as a signed number. */
  function AsInt64(x: int): int {
    var low := x % UINT64;
    if low > INT64_MAX then low - UINT64 else low
  }

  /** A number has 64 bits, or 32, exactly if it is not changed by cutting it off. */
  lemma WidthsCutNothing(x: int)
    ensures IsInt64(x) <==> AsInt64(x) == x
    ensures IsInt32(x) <==> AsInt32(x) == x
  {}

  predicate Borrows(endDate: int, startDate: int) {
    startDate % MICROS_PER_MSEC > AsUint64(TruncRem(endDate, MICROS_PER_MSEC))
  }

  function Borrow(endDate: int, startDate: int): int { if Borrows(endDate, startDate) then MICROS_PER_MSEC else 0 }

  /** The milliseconds of a difference. */
  function Whole(endDate: int, startDate: int): int {
    TruncDiv(AsInt64(endDate - Borrow(endDate, startDate)), MICROS_PER_MSEC) - startDate / MICROS_PER_MSEC
  }

  function OrderedDifference(endDate: int, startDate: int): Interval {
    var whole := Whole(endDate, startDate);
    var rest := TruncRem(endDate, MICROS_PER_MSEC) + Borrow(endDate, startDate) - startDate % MICROS_PER_MSEC;
    Interval(0, TruncDiv(whole, MSECS_PER_DAY), TruncRem(whole, MSECS_PER_DAY) * MICROS_PER_MSEC + rest)
  }

  method SubOrdered(calendar: Calendar, endDate: int, startDate: int) returns (interval: Interval)
    requires IsInt64(endDate)
    modifies calendar
    ensures interval == OrderedDifference(endDate, startDate)
  {
    Kept64(endDate);
    hide AsUint64, AsInt32, AsInt64, TruncDiv, TruncRem, Shifted;
    var end := endDate;
    var startMicros := SetTime(calendar, startDate);
    var endMicros := AsUint64(TruncRem(end, MICROS_PER_MSEC));
    if startMicros > endMicros {
      end := AsInt64(end - MICROS_PER_MSEC);
      endMicros := AsUint64(endMicros + MICROS_PER_MSEC);
    }
    var when := TruncDiv(end, MICROS_PER_MSEC);
    ghost var whole := when - calendar.millis;
    var days := calendar.FieldDifference(when, DATE);
    var h := calendar.FieldDifference(when, HOUR);
    var m := calendar.FieldDifference(when, MINUTE);
    var s := calendar.FieldDifference(when, SECOND);
    var ms := calendar.FieldDifference(when, MILLISECOND);
    var micros := AsInt32(AsUint64(ms * MICROS_PER_MSEC + AsUint64(endMicros - startMicros)));
    var time := ((h * 60 + m) * 60 + s) * 1000 * MICROS_PER_MSEC + micros;
    Differences(whole, days, h, m, s, ms);
    UnsignedSum(TruncRem(endDate, MICROS_PER_MSEC), 0);
    Unwrap(endDate, startDate, ms);
    return Interval(0, days, time);
  }

  /** The fields below the day add up to the milliseconds below the day. */
  lemma Differences(whole: int, days: int, h: int, m: int, s: int, ms: int)
    requires days == TruncDiv(whole, MSECS_PER_DAY)
    requires h == TruncDiv(whole - days * MSECS_PER_DAY, MSECS_PER_HOUR)
    requires m == TruncDiv(whole - days * MSECS_PER_DAY - h * MSECS_PER_HOUR, MSECS_PER_MINUTE)
    requires s == TruncDiv(whole - days * MSECS_PER_DAY - h * MSECS_PER_HOUR - m * MSECS_PER_MINUTE, MSECS_PER_SEC)
    requires
      ms == TruncDiv(whole - days * MSECS_PER_DAY - h * MSECS_PER_HOUR - m * MSECS_PER_MINUTE - s * MSECS_PER_SEC, 1)
    ensures ((h * 60 + m) * 60 + s) * 1000 + ms == TruncRem(whole, MSECS_PER_DAY) && -1000 < ms < 1000
  {}

  lemma UnsignedSum(x: int, y: int)
    ensures AsUint64(AsUint64(x) + y) == AsUint64(x + y) && AsUint64(x + AsUint64(y)) == AsUint64(x + y)
  {}

  lemma SmallIsKept(v: int)
    requires INT32_MIN <= v <= INT32_MAX
    ensures AsInt32(AsUint64(v)) == v
  {
    if v < 0 {
      assert AsUint64(v) == v + UINT64;
      assert (v + UINT64) % 0x1_0000_0000 == v + 0x1_0000_0000;
    }
  }

  /** The unsigned detour of the microseconds has no effect. */
  lemma Unwrap(endDate: int, startDate: int, ms: int)
    requires -1000 < ms < 1000
    ensures var rem, s := TruncRem(endDate, MICROS_PER_MSEC), startDate % MICROS_PER_MSEC;
      var borrow := Borrow(endDate, startDate);
      AsInt32(AsUint64(ms * MICROS_PER_MSEC + AsUint64(AsUint64(AsUint64(rem) + borrow) - s))) ==
        ms * MICROS_PER_MSEC + rem + borrow - s
  {
    hide AsUint64, AsInt32, TruncRem;
    var rem, s := TruncRem(endDate, MICROS_PER_MSEC), startDate % MICROS_PER_MSEC;
    var borrow := Borrow(endDate, startDate);
    TruncBounds(endDate, MICROS_PER_MSEC);
    UnsignedSum(rem, borrow);
    UnsignedSum(rem + borrow, -s);
    UnsignedSum(ms * MICROS_PER_MSEC, rem + borrow - s);
    SmallIsKept(ms * MICROS_PER_MSEC + rem + borrow - s);
  }

  /** Whether a subtraction is one millisecond too long: the borrow takes the end below 1970, and its milliseconds are
      then rounded toward zero. */
  predicate BorrowsAcross1970(endDate: int, startDate: int) {
    0 < endDate < MICROS_PER_MSEC && startDate % MICROS_PER_MSEC > endDate
  }

  const LOWEST_MSEC := -9_223_372_036_854_775_000

  /** Whether the borrow leaves the 64 bits: the end is the first whole millisecond in them. */
  predicate BorrowUnderflows(endDate: int, startDate: int) {
    endDate == LOWEST_MSEC && startDate % MICROS_PER_MSEC != 0
  }

  /** How much longer a difference is than the time between its instants. */
  function Excess(endDate: int, startDate: int): int {
    if BorrowsAcross1970(endDate, startDate) then MICROS_PER_MSEC
    else if BorrowUnderflows(endDate, startDate) then UINT64 / MICROS_PER_MSEC * MICROS_PER_MSEC
    else 0
  }

  ghost function Length(interval: Interval): int
    requires interval.months == 0
  {
    interval.days * MICROS_PER_DAY + interval.micros
  }

  lemma Kept64(x: int)
    ensures IsInt64(x) ==> AsInt64(x) == x
  {}

  /** What the borrow does to the end. */
  lemma Borrowed(endDate: int, startDate: int)
    requires IsInt64(endDate)
    ensures TruncDiv(AsInt64(endDate - Borrow(endDate, startDate)), MICROS_PER_MSEC) ==
        TruncDiv(endDate - Borrow(endDate, startDate), MICROS_PER_MSEC)
        + if BorrowUnderflows(endDate, startDate) then UINT64 / MICROS_PER_MSEC else 0
  {
    if endDate < INT64_MIN + MICROS_PER_MSEC && Borrows(endDate, startDate) {
      assert TruncRem(endDate, MICROS_PER_MSEC) == 0;
      assert endDate == LOWEST_MSEC;
      assert AsInt64(LOWEST_MSEC - MICROS_PER_MSEC) == LOWEST_MSEC - MICROS_PER_MSEC + UINT64;
    } else {
      Kept64(endDate - Borrow(endDate, startDate));
    }
  }

  /** The exact value of a difference, for all instants. */
  lemma DifferenceLength(endDate: int, startDate: int)
    requires IsInt64(endDate)
    ensures var d := OrderedDifference(endDate, startDate);
      d.months == 0 && Length(d) == endDate - startDate + Excess(endDate, startDate)
  {
    WholeIsExact(endDate, startDate);
    hide TruncDiv, Whole, Excess, Borrow;
    TruncBounds(Whole(endDate, startDate), MSECS_PER_DAY);
  }

  lemma WholeIsExact(endDate: int, startDate: int)
    requires IsInt64(endDate)
    ensures var whole, borrow, rem :=
      Whole(endDate, startDate), Borrow(endDate, startDate), TruncRem(endDate, MICROS_PER_MSEC);
      && whole * MICROS_PER_MSEC + rem + borrow - startDate % MICROS_PER_MSEC ==
           endDate - startDate + Excess(endDate, startDate)
      && 0 <= startDate % MICROS_PER_MSEC < MICROS_PER_MSEC && -MICROS_PER_MSEC < rem < MICROS_PER_MSEC
      && (startDate <= endDate ==> whole >= 0)
      && (rem >= 0 ==> 0 <= rem + borrow - startDate % MICROS_PER_MSEC < MICROS_PER_MSEC)
      && (rem < 0 ==> borrow == 0 && endDate < 0 && Excess(endDate, startDate) == 0)
  {
    Borrowed(endDate, startDate);
    hide TruncDiv, TruncRem, AsUint64, AsInt64;
    TruncBounds(endDate, MICROS_PER_MSEC);
    Unsigned(TruncRem(endDate, MICROS_PER_MSEC));
    Lowered(endDate);
    Quotient(startDate, MICROS_PER_MSEC);
  }

  lemma Unsigned(rem: int)
    requires -MICROS_PER_MSEC < rem < MICROS_PER_MSEC
    ensures AsUint64(rem) == if rem >= 0 then rem else rem + UINT64
  {}

  /** One millisecond less, rounded toward zero. */
  lemma Lowered(endDate: int)
    ensures TruncDiv(endDate - MICROS_PER_MSEC, MICROS_PER_MSEC)
         == TruncDiv(endDate, MICROS_PER_MSEC) - if 0 < endDate < MICROS_PER_MSEC then 0 else 1
    ensures 0 <= endDate < MICROS_PER_MSEC ==>
      TruncDiv(endDate, MICROS_PER_MSEC) == 0 && TruncRem(endDate, MICROS_PER_MSEC) == endDate
    ensures endDate < 0 ==> TruncRem(endDate, MICROS_PER_MSEC) <= 0
  {}

  /** The difference is exact if and only if no borrow crosses 1970 or leaves the 64 bits. */
  lemma SubIsExact(endDate: int, startDate: int)
    requires IsInt64(endDate) && IsInt64(startDate) && IsFinite(endDate) && IsFinite(startDate)
    ensures Difference(endDate, startDate).Ok? && Difference(endDate, startDate).value.months == 0
    ensures var end, start :=
      if startDate > endDate then startDate else endDate, if startDate > endDate then endDate else startDate;
      Length(Difference(endDate, startDate).value) == endDate - startDate <==>
      !BorrowsAcross1970(end, start) && !BorrowUnderflows(end, start)
  {
    hide OrderedDifference;
    DifferenceLength(endDate, startDate);
    DifferenceLength(startDate, endDate);
  }

  /** No instant in range is that low. */
  lemma InRangeBorrows(endDate: int, startDate: int)
    requires InRange(endDate)
    ensures !BorrowUnderflows(endDate, startDate)
  {}

  /** For example, two instants a microsecond apart are found to be 584542 years apart. */
  lemma LowestMillisecond()
    ensures var d := Difference(LOWEST_MSEC, LOWEST_MSEC - 1);
      d.Ok? && d.value.days == 213503982 && Length(d.value) == 18_446_744_073_709_551_001
  {
    DifferenceLength(LOWEST_MSEC, LOWEST_MSEC - 1);
  }

  /** Whether the rest below a day is negative: the end is before 1970 and not in whole milliseconds, and the difference
      is short of whole days by no more than what the milliseconds cut off. */
  predicate HasNegativeRest(endDate: int, startDate: int) {
    && endDate < 0 && endDate % MICROS_PER_MSEC != 0
    && (endDate - startDate) % MICROS_PER_DAY
       >= MICROS_PER_DAY - (startDate % MICROS_PER_MSEC + (-endDate) % MICROS_PER_MSEC)
  }

  /** The parts of a difference: days are not negative, the rest is less than a day, and it is negative exactly in that
      case. */
  lemma SubIsNormalized(endDate: int, startDate: int)
    requires IsInt64(endDate) && startDate <= endDate
    ensures var d := OrderedDifference(endDate, startDate);
      d.days >= 0 && d.micros < MICROS_PER_DAY && (d.micros < 0 <==> HasNegativeRest(endDate, startDate))
  {
    WholeIsExact(endDate, startDate);
    hide TruncDiv, TruncRem, Excess, Borrow, Whole;
    var whole, rem := Whole(endDate, startDate), TruncRem(endDate, MICROS_PER_MSEC);
    TruncBounds(whole, MSECS_PER_DAY);
    TruncBounds(endDate, MICROS_PER_MSEC);
    Quotient(whole, MSECS_PER_DAY);
    if endDate < 0 {
      NegativeRemainder(endDate);
    }
    if rem < 0 {
      RestBefore1970(endDate, startDate, whole, rem, startDate % MICROS_PER_MSEC);
    }
  }

  lemma NegativeRemainder(endDate: int)
    requires endDate < 0
    ensures TruncRem(endDate, MICROS_PER_MSEC) == -((-endDate) % MICROS_PER_MSEC)
    ensures endDate % MICROS_PER_MSEC == 0 <==> (-endDate) % MICROS_PER_MSEC == 0
  {}

  /** Without a borrow, the milliseconds below a day decide. */
  lemma RestBefore1970(endDate: int, startDate: int, whole: int, rem: int, s: int)
    requires -MICROS_PER_MSEC < rem < 0 <= s < MICROS_PER_MSEC && whole >= 0
    requires endDate - startDate == whole * MICROS_PER_MSEC + rem - s
    ensures whole % MSECS_PER_DAY * MICROS_PER_MSEC + rem - s < 0
       <==> (endDate - startDate) % MICROS_PER_DAY >= MICROS_PER_DAY - (s - rem)
  {
    var below := whole % MSECS_PER_DAY * MICROS_PER_MSEC + rem - s;
    Quotient(whole, MSECS_PER_DAY);
    if below < 0 {
      FloorUnique(endDate - startDate, MICROS_PER_DAY, whole / MSECS_PER_DAY - 1, below + MICROS_PER_DAY);
    } else {
      FloorUnique(endDate - startDate, MICROS_PER_DAY, whole / MSECS_PER_DAY, below);
    }
  }

  /** For example one day and minus one microsecond. */
  lemma NegativeRest()
    ensures OrderedDifference(-1, -MICROS_PER_DAY) == Interval(0, 1, -1)
  {}

  /** From 998 microseconds before 1970 to one after it, the difference is a millisecond too long. */
  lemma OneMillisecondTooLong()
    ensures BorrowsAcross1970(1, -998) && Length(OrderedDifference(1, -998)) == 1999
  {
    DifferenceLength(1, -998);
  }

  /** Where an addition stops: the start, with the microseconds moved by hand, is no longer in range. */
  predicate MovesOutOfRange(timestamp: int, interval: Interval) {
    !InRange(Moved(timestamp, interval.micros).0 * MICROS_PER_MSEC)
  }

  /** Round trip: adding the difference to the start gives the end, if and only if no borrow crosses 1970 and the start
      stays in range when its microseconds are moved. */
  lemma AddUndoesSub(endDate: int, startDate: int)
    requires InRange(endDate) && InRange(startDate) && startDate <= endDate
    ensures var d := OrderedDifference(endDate, startDate);
      Added(startDate, d) == Ok(endDate) <==> !BorrowsAcross1970(endDate, startDate) && !MovesOutOfRange(startDate, d)
  {
    var d := OrderedDifference(endDate, startDate);
    InRangeBorrows(endDate, startDate);
    DifferenceLength(endDate, startDate);
    SubIsNormalized(endDate, startDate);
    InRangeIsFinite(startDate);
    hide OrderedDifference, HasNegativeRest, Moved, Added, GetDate;
    AddIsExact(startDate, d);
    MovedNearby(startDate, d.micros);
    SumFits(startDate, d, endDate);
  }

  /** Only a start less than two milliseconds above the first day in range can stop the addition, and only before
      1970. */
  lemma MovesOutOfRangeRarely(endDate: int, startDate: int)
    requires InRange(endDate) && InRange(startDate) && startDate <= endDate
    ensures MovesOutOfRange(startDate, OrderedDifference(endDate, startDate)) ==>
      endDate < 0 && !InRange(startDate - 2 * MICROS_PER_MSEC)
  {
    var d := OrderedDifference(endDate, startDate);
    InRangeBorrows(endDate, startDate);
    DifferenceLength(endDate, startDate);
    SubIsNormalized(endDate, startDate);
    hide OrderedDifference, HasNegativeRest, Moved, InRange;
    if endDate >= 0 {
      MovesForwardInRange(startDate, d, endDate);
    } else if InRange(startDate - 2 * MICROS_PER_MSEC) {
      MovedNearby(startDate, d.micros);
      ZeroIsInRange();
      Between(startDate - 2 * MICROS_PER_MSEC, Moved(startDate, d.micros).0 * MICROS_PER_MSEC, 2 * MICROS_PER_MSEC);
    }
  }

  lemma ZeroIsInRange()
    ensures InRange(2 * MICROS_PER_MSEC)
  {}

  lemma MovesForwardInRange(timestamp: int, d: Interval, endDate: int)
    requires InRange(timestamp) && InRange(endDate) && d.months == 0 && d.days >= 0 && d.micros >= 0
    requires timestamp + Length(d) <= endDate || timestamp + Length(d) < 2 * MICROS_PER_MSEC
    ensures !MovesOutOfRange(timestamp, d)
  {
    hide Moved, InRange;
    MovedForward(timestamp, d.micros);
    FirstOfDay(timestamp);
    ZeroIsInRange();
    var first := timestamp / MICROS_PER_DAY * MICROS_PER_DAY;
    var last := if timestamp + Length(d) <= endDate then endDate else 2 * MICROS_PER_MSEC;
    Between(first, Moved(timestamp, d.micros).0 * MICROS_PER_MSEC, last);
  }

  lemma FirstOfDay(timestamp: int)
    requires InRange(timestamp)
    ensures InRange(timestamp / MICROS_PER_DAY * MICROS_PER_DAY)
  {
    FloorUnique(timestamp / MICROS_PER_DAY * MICROS_PER_DAY, MICROS_PER_DAY, timestamp / MICROS_PER_DAY, 0);
  }

  /** For example from the start of that day to one microsecond before its end: the difference cannot be added. */
  lemma FirstDayIsStuck()
    ensures var start := -106751991 * MICROS_PER_DAY; var end := start + MICROS_PER_DAY - 1;
      InRange(start) && InRange(end) && Difference(end, start) == Ok(Interval(0, 1, -1)) &&
        Added(start, Interval(0, 1, -1)) == OutOfRange
  {
    var start := -106751991 * MICROS_PER_DAY;
    var end := start + MICROS_PER_DAY - 1;
    Kept64(end);
    assert Difference(end, start) == Ok(Interval(0, 1, -1)) by {
      hide AsInt64, InRange, Added;
      assert !Borrows(end, start);
    }
    hide Difference, AsInt64;
    assert Moved(start, -1).0 * MICROS_PER_MSEC == start - MICROS_PER_MSEC;
  }

  lemma MovedNearby(timestamp: int, micros: int)
    ensures var m := Moved(timestamp, micros);
      -MICROS_PER_MSEC < m.1 < MICROS_PER_MSEC
      && timestamp - 2 * MICROS_PER_MSEC < m.0 * MICROS_PER_MSEC < timestamp + 2 * MICROS_PER_MSEC
  {
    TruncBounds(timestamp, MICROS_PER_MSEC);
    TruncBounds(micros, MICROS_PER_MSEC);
  }

  /** The end minus the microseconds fits into 64 bits. */
  lemma SumFits(timestamp: int, d: Interval, endDate: int)
    requires InRange(timestamp) && InRange(endDate) && timestamp <= endDate && d.months == 0
    requires Length(d) == endDate - timestamp + if BorrowsAcross1970(endDate, timestamp) then MICROS_PER_MSEC else 0
    requires endDate >= 0 ==> d.micros >= 0
    ensures IsInt64(timestamp + Length(d) - Moved(timestamp, d.micros).1)
  {
    MovedNearby(timestamp, d.micros);
    if endDate >= 0 {
      MovedForward(timestamp, d.micros);
    }
  }

  lemma MovedForward(timestamp: int, micros: int)
    requires micros >= 0
    ensures var m := Moved(timestamp, micros);
      0 <= m.1 < MICROS_PER_MSEC && m.0 * MICROS_PER_MSEC <= timestamp + micros
      && timestamp / MICROS_PER_DAY * MICROS_PER_DAY <= m.0 * MICROS_PER_MSEC
  {
    TruncBounds(timestamp, MICROS_PER_MSEC);
    TruncBounds(micros, MICROS_PER_MSEC);
    Quotient(timestamp, MICROS_PER_DAY);
  }
}
