/** time_bucket in UTC: rounding an instant down to a multiple of a width from an origin, on both sides of it. */
module IcuTimeBucket {
  import opened IcuCalendar
  import opened IcuDates

  /** The bucket that is meant: the origin plus a whole number of widths, rounded down. */
  ghost function Bucket(ts: int, origin: int, width: int): int
    requires width > 0
  {
    origin + (ts - origin) / width * width
  }

  ghost predicate Contains(bucket: int, ts: int, origin: int, width: int)
    requires width > 0
  {
    (exists k :: bucket == origin + k * width) && bucket <= ts < bucket + width
  }

  lemma BucketContains(ts: int, origin: int, width: int, bucket: int)
    requires width > 0
    ensures Contains(bucket, ts, origin, width) <==> bucket == Bucket(ts, origin, width)
  {
    Quotient(ts - origin, width);
    assert Bucket(ts, origin, width) == origin + (ts - origin) / width * width;
    if Contains(bucket, ts, origin, width) {
      var k :| bucket == origin + k * width;
      FloorUnique(ts - origin, width, k, ts - bucket);
    }
  }

  /** Bucketing keeps the order, and the start of a bucket is its own bucket. */
  lemma BucketOrder(a: int, b: int, origin: int, width: int)
    requires width > 0
    ensures a <= b ==> Bucket(a, origin, width) <= Bucket(b, origin, width)
    ensures Bucket(Bucket(a, origin, width), origin, width) == Bucket(a, origin, width)
  {
    var j, k := (a - origin) / width, (b - origin) / width;
    FloorUnique(j * width, width, j, 0);
    if a <= b {
      Quotient(a - origin, width);
      Quotient(b - origin, width);
      AtLeastOnce(j - k, width);
      assert (j - k) * width == j * width - k * width;
    }
  }

  // ---- Microseconds ----

  ghost function MicrosOutcome(ts: int, origin: int, width: int): Result<int> {
    if width <= 0 || !IsInt64(ts - origin) || !IsInt64(Bucket(ts, origin, width) - origin) then OutOfRange
    else Added(origin, Interval(0, 0, Bucket(ts, origin, width) - origin))
  }

  method WidthConvertibleToMicros(calendar: Calendar, width: int, ts: int, origin: int) returns (r: Result<int>)
    requires width >= 0
    modifies calendar
    ensures r == MicrosOutcome(ts, origin, width)
  {
    if width == 0 {
      return OutOfRange;
    }
    var tsMicros := ts - origin;
    if !IsInt64(tsMicros) {
      return OutOfRange;
    }
    var resultMicros := TruncDiv(tsMicros, width) * width;
    FloorFromTrunc(tsMicros, width);
    if tsMicros < 0 && TruncRem(tsMicros, width) != 0 {
      resultMicros := resultMicros - width;
      if !IsInt64(resultMicros) {
        return OutOfRange;
      }
    }
    MultipleFits(tsMicros, width);
    r := Add(calendar, origin, Interval(0, 0, resultMicros));
  }

  /** Rounding toward zero and then down by one width where something was cut off. */
  lemma FloorFromTrunc(x: int, width: int)
    requires width > 0
    ensures x / width * width == TruncDiv(x, width) * width - if x < 0 && TruncRem(x, width) != 0 then width else 0
  {
    TruncBounds(x, width);
    var q := TruncDiv(x, width);
    if x < 0 && TruncRem(x, width) != 0 {
      assert (q - 1) * width == q * width - width;
      FloorUnique(x, width, q - 1, TruncRem(x, width) + width);
    } else {
      FloorUnique(x, width, q, TruncRem(x, width));
    }
  }

  lemma MultipleFits(x: int, width: int)
    requires width > 0 && IsInt64(x)
    ensures IsInt64(TruncDiv(x, width) * width)
  {
    TruncBounds(x, width);
    if x < 0 {
      Quotient(-x, width);
      assert TruncDiv(x, width) * width == -((-x) / width * width);
    } else {
      Quotient(x, width);
    }
  }

  lemma MicrosBucketIsExact(ts: int, origin: int, width: int)
    requires width > 0 && IsFinite(origin)
    ensures var r := Added(origin, Interval(0, 0, Bucket(ts, origin, width) - origin));
      r.Ok? ==> r == Ok(Bucket(ts, origin, width))
  {
    AddIsExact(origin, Interval(0, 0, Bucket(ts, origin, width) - origin));
  }

  /** Away from the ends of the 64-bit range bucketing succeeds. */
  lemma MicrosBucketInRange(ts: int, origin: int, width: int)
    requires width > 0 && IsFinite(origin) && IsInt64(ts - origin) && IsInt64(Bucket(ts, origin, width) - origin)
    requires InRange(origin - 2000) && InRange(origin + 2000)
    requires InRange(Bucket(ts, origin, width) - 2000) && InRange(Bucket(ts, origin, width) + 2000)
    ensures MicrosOutcome(ts, origin, width) == Ok(Bucket(ts, origin, width))
  {
    hide InRange, Added, Bucket;
    AddStaysInRange(origin, Interval(0, 0, Bucket(ts, origin, width) - origin));
  }

  // ---- Days ----

  /** The whole days from the origin to the instant, both cut to milliseconds, and of those the whole widths. */
  function ResultDays(ts: int, origin: int, width: int): int
    requires width > 0
  {
    TruncDiv(TruncDiv(TruncDiv(ts, MICROS_PER_MSEC) - origin / MICROS_PER_MSEC, MSECS_PER_DAY), width) * width
  }

  function FirstBucket(ts: int, origin: int, width: int): int
    requires width > 0
  {
    origin + ResultDays(ts, origin, width) * MICROS_PER_DAY
  }

  function DaysBucket(ts: int, origin: int, width: int): int
    requires width > 0
  {
    var bucket := FirstBucket(ts, origin, width);
    if ts < bucket then bucket - width * MICROS_PER_DAY else bucket
  }

  function DaysOutcome(ts: int, origin: int, width: int): Result<int> {
    if width <= 0 || !IsInt32(ResultDays(ts, origin, width)) then OutOfRange
    else
      var first := Added(origin, Interval(0, ResultDays(ts, origin, width), 0));
      if first.Ok? && ts < first.value then Added(first.value, Interval(0, -width, 0)) else first
  }

  method WidthConvertibleToDays(calendar: Calendar, width: int, ts: int, origin: int) returns (r: Result<int>)
    requires width >= 0
    modifies calendar
    ensures r == DaysOutcome(ts, origin, width)
  {
    hide TruncDiv, TruncRem, Added;
    if width == 0 {
      return OutOfRange;
    }
    var _ := SetTime(calendar, origin);
    var tsDays := calendar.FieldDifference(TruncDiv(ts, MICROS_PER_MSEC), DATE);
    var resultDays := TruncDiv(tsDays, width) * width;
    if !IsInt32(resultDays) {
      return OutOfRange;
    }
    r := Add(calendar, origin, Interval(0, resultDays, 0));
    if r.Ok? && ts < r.value {
      r := Add(calendar, r.value, Interval(0, -width, 0));
    }
  }

  /** What is not out of range is the bucket computed on unbounded numbers. */
  lemma DaysOutcomeIsBucket(ts: int, origin: int, width: int)
    requires IsFinite(origin) && DaysOutcome(ts, origin, width).Ok?
    ensures width > 0 && DaysOutcome(ts, origin, width).value == DaysBucket(ts, origin, width)
  {
    hide TruncDiv, TruncRem, Added;
    var first := Added(origin, Interval(0, ResultDays(ts, origin, width), 0));
    AddIsExact(origin, Interval(0, ResultDays(ts, origin, width), 0));
    if first.Ok? && ts < first.value {
      InRangeIsFinite(first.value);
      AddIsExact(first.value, Interval(0, -width, 0));
    }
  }

  /** The instants before 1970 that get the bucket behind them: less than the origin's part below a millisecond after
      the instant a whole number of widths before the origin's millisecond. */
  predicate MissesBucket(ts: int, origin: int, width: int)
    requires width > 0
  {
    var below := origin % MICROS_PER_MSEC;
    var x := ts - (origin - below);
    ts < 0 && x < 0 && 0 < x % (width * MICROS_PER_DAY) < below
  }

  /** Dividing toward zero by days and then by the width is dividing by both. */
  lemma TruncTwice(u: int, width: int)
    requires width > 0
    ensures var p := TruncDiv(TruncDiv(u, MSECS_PER_DAY), width) * width * MSECS_PER_DAY;
      var d := width * MSECS_PER_DAY;
      && (u >= 0 ==> 0 <= u - p < d) && (u < 0 ==> -d < u - p <= 0) && exists j :: p == j * d
  {
    var n := TruncDiv(u, MSECS_PER_DAY);
    var j := TruncDiv(n, width);
    TruncBounds(u, MSECS_PER_DAY);
    TruncBounds(n, width);
    assert j * width * MSECS_PER_DAY == j * (width * MSECS_PER_DAY);
    assert u == (j * width + TruncRem(n, width)) * MSECS_PER_DAY + TruncRem(u, MSECS_PER_DAY);
  }

  /** What the code computes, in milliseconds: u from the origin to the instant, p the multiple of the width in it; r
      and below are the parts of the instant and the origin that are cut off. */
  ghost predicate Cut(ts: int, origin: int, u: int, r: int, below: int, p: int, j: int, d: int) {
    && ts - (origin - below) == u * MICROS_PER_MSEC + r && 0 <= below < MICROS_PER_MSEC
    && (ts >= 0 ==> 0 <= r < MICROS_PER_MSEC) && (ts < 0 ==> -MICROS_PER_MSEC < r <= 0)
    && p == j * d && d >= MSECS_PER_DAY
    && (u >= 0 ==> 0 <= u - p < d) && (u < 0 ==> -d < u - p <= 0)
  }

  ghost predicate Unlucky(ts: int, u: int, r: int, below: int, p: int, d: int) {
    ts < 0 && u < 0 && u - p == 1 - d && below - r > MICROS_PER_MSEC
  }

  lemma CutContains(ts: int, origin: int, u: int, r: int, below: int, p: int, j: int, d: int)
    requires Cut(ts, origin, u, r, below, p, j, d)
    ensures var first := origin + p * MICROS_PER_MSEC;
      var b := if ts < first then first - d * MICROS_PER_MSEC else first;
      b <= ts < b + d * MICROS_PER_MSEC <==> !Unlucky(ts, u, r, below, p, d)
  {}

  lemma UnluckyMisses(ts: int, origin: int, u: int, r: int, below: int, p: int, j: int, d: int)
    requires Cut(ts, origin, u, r, below, p, j, d) && Unlucky(ts, u, r, below, p, d)
    ensures var x := ts - (origin - below); x < 0 && 0 < x % (d * MICROS_PER_MSEC) < below
  {
    var x := ts - (origin - below);
    assert x == (j * d - d) * MICROS_PER_MSEC + MICROS_PER_MSEC + r;
    assert (j - 1) * (d * MICROS_PER_MSEC) == (j * d - d) * MICROS_PER_MSEC;
    FloorUnique(x, d * MICROS_PER_MSEC, j - 1, MICROS_PER_MSEC + r);
  }

  lemma MissesAreUnlucky(ts: int, origin: int, u: int, r: int, below: int, p: int, j: int, d: int)
    requires Cut(ts, origin, u, r, below, p, j, d) && ts < 0
    requires var x := ts - (origin - below); x < 0 && 0 < x % (d * MICROS_PER_MSEC) < below
    ensures Unlucky(ts, u, r, below, p, d)
  {
    var x, w := ts - (origin - below), d * MICROS_PER_MSEC;
    var k, y := x / w, x % w;
    Quotient(x, w);
    assert k * w == (k * d) * MICROS_PER_MSEC;
    assert (u - k * d) * MICROS_PER_MSEC == y - r;
    assert u == k * d + 1;
    AtLeastOnce(k, d);
    AtLeastOnce(k - j, d);
    AtLeastOnce(k - j + 1, d);
    assert (k - j) * d == k * d - p && (k - j + 1) * d == k * d - p + d;
    assert k < 0;
    assert k - j == -1;
  }

  lemma DaysAreCut(ts: int, origin: int, width: int) returns (u: int, r: int, p: int, j: int)
    requires width > 0
    ensures Cut(ts, origin, u, r, origin % MICROS_PER_MSEC, p, j, width * MSECS_PER_DAY)
    ensures FirstBucket(ts, origin, width) == origin + p * MICROS_PER_MSEC
  {
    hide TruncDiv, TruncRem;
    u := TruncDiv(ts, MICROS_PER_MSEC) - origin / MICROS_PER_MSEC;
    r := TruncRem(ts, MICROS_PER_MSEC);
    p := TruncDiv(TruncDiv(u, MSECS_PER_DAY), width) * width * MSECS_PER_DAY;
    TruncBounds(ts, MICROS_PER_MSEC);
    Quotient(origin, MICROS_PER_MSEC);
    TruncTwice(u, width);
    j :| p == j * (width * MSECS_PER_DAY);
  }

  /** The bucket contains its instant if and only if it is not one of those. */
  lemma DaysBucketContains(ts: int, origin: int, width: int)
    requires width > 0
    ensures Contains(DaysBucket(ts, origin, width), ts, origin, width * MICROS_PER_DAY)
       <==> !MissesBucket(ts, origin, width)
  {
    hide FirstBucket, Cut, Unlucky;
    var d, below := width * MSECS_PER_DAY, origin % MICROS_PER_MSEC;
    var u, r, p, j := DaysAreCut(ts, origin, width);
    CutContains(ts, origin, u, r, below, p, j, d);
    if Unlucky(ts, u, r, below, p, d) {
      UnluckyMisses(ts, origin, u, r, below, p, j, d);
      UnluckyIsEarly(ts, u, r, below, p, d);
    }
    if MissesBucket(ts, origin, width) {
      MissesAreUnlucky(ts, origin, u, r, below, p, j, d);
    }
    Aligned(ts, origin, u, r, below, p, j, width);
  }

  lemma UnluckyIsEarly(ts: int, u: int, r: int, below: int, p: int, d: int)
    requires Unlucky(ts, u, r, below, p, d)
    ensures ts < 0
  {}

  lemma Aligned(ts: int, origin: int, u: int, r: int, below: int, p: int, j: int, width: int)
    requires width > 0 && Cut(ts, origin, u, r, below, p, j, width * MSECS_PER_DAY)
    ensures var first, w := origin + p * MICROS_PER_MSEC, width * MICROS_PER_DAY;
      (exists k :: first == origin + k * w) && (exists k :: first - w == origin + k * w)
  {
    var first, w := origin + p * MICROS_PER_MSEC, width * MICROS_PER_DAY;
    assert j * w == j * (width * MSECS_PER_DAY) * MICROS_PER_MSEC;
    assert first == origin + j * w;
    assert first - w == origin + (j - 1) * w;
  }

  /** An origin in whole milliseconds, as the default one, never misses. */
  lemma WholeMillisecondOrigin(ts: int, origin: int, width: int)
    requires width > 0 && origin % MICROS_PER_MSEC == 0
    ensures !MissesBucket(ts, origin, width)
  {}

  /** So day buckets from such an origin keep the order, and the start of a bucket is its own bucket. */
  lemma DaysBucketOrder(a: int, b: int, origin: int, width: int)
    requires width > 0 && origin % MICROS_PER_MSEC == 0
    ensures a <= b ==> DaysBucket(a, origin, width) <= DaysBucket(b, origin, width)
    ensures DaysBucket(DaysBucket(a, origin, width), origin, width) == DaysBucket(a, origin, width)
  {
    hide FirstBucket, DaysBucket, Contains, Bucket;
    var d := width * MICROS_PER_DAY;
    DaysBucketIsFloor(a, origin, width);
    DaysBucketIsFloor(b, origin, width);
    DaysBucketIsFloor(DaysBucket(a, origin, width), origin, width);
    BucketOrder(a, b, origin, d);
  }

  lemma DaysBucketIsFloor(ts: int, origin: int, width: int)
    requires width > 0 && origin % MICROS_PER_MSEC == 0
    ensures DaysBucket(ts, origin, width) == Bucket(ts, origin, width * MICROS_PER_DAY)
  {
    hide FirstBucket, DaysBucket, Contains, Bucket;
    DaysBucketContains(ts, origin, width);
    WholeMillisecondOrigin(ts, origin, width);
    BucketContains(ts, origin, width * MICROS_PER_DAY, DaysBucket(ts, origin, width));
  }

  /** With an origin two microseconds after 1970-01-01, an instant one day earlier and one microsecond after midnight
      gets a bucket that starts one microsecond behind it. */
  lemma BucketBehindInstant()
    ensures MissesBucket(-MICROS_PER_DAY + 1, 2, 1) && DaysBucket(-MICROS_PER_DAY + 1, 2, 1) == -MICROS_PER_DAY + 2
  {}

  // ---- Months ----

  ghost function MonthNumber(ts: int): int { MonthOf(ts / MICROS_PER_MSEC / MSECS_PER_DAY) }

  ghost function StartOfMonth(m: int): int { MonthStart(m) * MICROS_PER_DAY }

  ghost function MonthBucket(ts: int, origin: int, width: int): int
    requires width > 0
  {
    MonthNumber(origin) + (MonthNumber(ts) - MonthNumber(origin)) / width * width
  }

  /** The outcome that is meant, on unbounded numbers up to the last step. */
  ghost function MeantMonths(ts: int, origin: int, width: int): Result<int> {
    if width <= 0 || !IsInt32(MonthBucket(ts, origin, width) - MonthNumber(origin)) then OutOfRange
    else Added(StartOfMonth(MonthNumber(origin)), Interval(MonthBucket(ts, origin, width) - MonthNumber(origin), 0, 0))
  }

  /** The start of the month, converted back to microseconds without a check. */
  ghost function Truncated(ts: int): int { AsInt64(StartOfMonth(MonthNumber(ts))) }

  ghost function MonthsOutcome(ts: int, origin: int, width: int): Result<int> {
    if width <= 0 then OutOfRange
    else
      var start, end := Truncated(origin), Truncated(ts);
      var months := MonthsBetween(start / MICROS_PER_MSEC, TruncDiv(end, MICROS_PER_MSEC)) / width * width;
      if IsInt32(months) then Added(start, Interval(months, 0, 0)) else OutOfRange
  }

  /** SetTime, truncation to the month, and GetTimeUnsafe. */
  method TruncatedToMonth(calendar: Calendar, ts: int) returns (r: int)
    modifies calendar
    ensures r == Truncated(ts)
  {
    var _ := SetTime(calendar, ts);
    calendar.TruncateMonth();
    r := AsInt64(calendar.millis * MICROS_PER_MSEC);
  }

  /** The number of months between two 64-bit instants fits into 32 bits. */
  lemma MonthsFit(start: int, when: int)
    requires INT64_MIN <= start * MICROS_PER_MSEC + MICROS_PER_MSEC && start * MICROS_PER_MSEC <= INT64_MAX
    requires INT64_MIN <= when * MICROS_PER_MSEC + MICROS_PER_MSEC && when * MICROS_PER_MSEC <= INT64_MAX
    ensures IsInt32(MonthsBetween(start, when))
  {
    hide MonthStart, MonthOf, Shifted, Fits;
    MonthsApart(start / MSECS_PER_DAY, when / MSECS_PER_DAY);
    MonthsApart(when / MSECS_PER_DAY, start / MSECS_PER_DAY);
  }

  lemma MonthsApart(a: int, b: int)
    ensures a <= b ==> MonthOf(b) - MonthOf(a) <= b - a + 1
    ensures b <= a ==> MonthOf(b) <= MonthOf(a)
  {
    hide MonthStart;
    if b <= a {
      MonthsInOrder(b, a);
    } else if MonthOf(a) + 1 < MonthOf(b) {
      MonthStartGrows(MonthOf(a) + 1, MonthOf(b));
    }
  }

  method WidthConvertibleToMonths(calendar: Calendar, width: int, ts: int, origin: int) returns (r: Result<int>)
    requires 0 <= width && IsInt32(width) && IsInt64(ts) && IsInt64(origin)
    modifies calendar
    ensures r == MonthsOutcome(ts, origin, width)
  {
    hide MonthStart, Added, TruncDiv, TruncRem, Truncated, Fits;
    if width == 0 {
      return OutOfRange;
    }
    var truncatedTs := TruncatedToMonth(calendar, ts);
    var truncatedOrigin := TruncatedToMonth(calendar, origin);
    var _ := SetTime(calendar, truncatedOrigin);
    ghost var start, when := calendar.millis, TruncDiv(truncatedTs, MICROS_PER_MSEC);
    var tsMonths := calendar.FieldDifference(TruncDiv(truncatedTs, MICROS_PER_MSEC), MONTH);
    FitsOnce(start, when, MONTH, tsMonths, MonthsBetween(start, when));
    MillisFit(ts, origin);
    MonthsFit(start, when);
    assert IsInt32(tsMonths);
    var resultMonths := TruncDiv(tsMonths, width) * width;
    FloorFromTrunc(tsMonths, width);
    if tsMonths < 0 && TruncRem(tsMonths, width) != 0 {
      resultMonths := resultMonths - width;
    }
    if !IsInt32(resultMonths) {
      return OutOfRange;
    }
    r := Add(calendar, truncatedOrigin, Interval(resultMonths, 0, 0));
  }

  lemma MillisFit(ts: int, origin: int)
    ensures var start, when := Truncated(origin) / MICROS_PER_MSEC, TruncDiv(Truncated(ts), MICROS_PER_MSEC);
      && INT64_MIN <= start * MICROS_PER_MSEC + MICROS_PER_MSEC && start * MICROS_PER_MSEC <= INT64_MAX
      && INT64_MIN <= when * MICROS_PER_MSEC + MICROS_PER_MSEC && when * MICROS_PER_MSEC <= INT64_MAX
  {
    hide StartOfMonth, MonthNumber;
    TruncBounds(Truncated(ts), MICROS_PER_MSEC);
  }

  lemma StartIsAligned(m: int)
    ensures StartOfMonth(m) / MICROS_PER_MSEC == TruncDiv(StartOfMonth(m), MICROS_PER_MSEC) ==
      MonthStart(m) * MSECS_PER_DAY
    ensures MonthOf(MonthStart(m) * MSECS_PER_DAY / MSECS_PER_DAY) == m
  {
    hide MonthStart;
    MonthOfStart(m);
    FloorUnique(StartOfMonth(m), MICROS_PER_MSEC, MonthStart(m) * MSECS_PER_DAY, 0);
    FloorUnique(-StartOfMonth(m), MICROS_PER_MSEC, -MonthStart(m) * MSECS_PER_DAY, 0);
    FloorUnique(MonthStart(m) * MSECS_PER_DAY, MSECS_PER_DAY, MonthStart(m), 0);
  }

  /** The start of a month is the start of the bucket, a whole number of widths from the origin's month, and the instant
      is before the start of the next bucket. */
  lemma MonthBucketContains(ts: int, origin: int, width: int)
    requires width > 0
    ensures var m := MonthBucket(ts, origin, width);
      && StartOfMonth(m) <= ts < StartOfMonth(m + width)
      && (m - MonthNumber(origin)) % width == 0
  {
    hide MonthStart;
    var a, o := MonthNumber(ts), MonthNumber(origin);
    var k := (a - o) / width;
    Quotient(a - o, width);
    FloorUnique(k * width, width, k, 0);
    var m := o + k * width;
    Quotient(ts, MICROS_PER_MSEC);
    Quotient(ts / MICROS_PER_MSEC, MSECS_PER_DAY);
    if m < a {
      MonthStartGrows(m, a);
    }
    if a + 1 < m + width {
      MonthStartGrows(a + 1, m + width);
    }
  }

  lemma MonthBucketOrder(a: int, b: int, origin: int, width: int)
    requires width > 0
    ensures a <= b ==> MonthBucket(a, origin, width) <= MonthBucket(b, origin, width)
    ensures MonthBucket(StartOfMonth(MonthBucket(a, origin, width)), origin, width) == MonthBucket(a, origin, width)
  {
    hide MonthStart;
    var o := MonthNumber(origin);
    StartIsAligned(MonthBucket(a, origin, width));
    BucketOrder(MonthNumber(a), MonthNumber(b), o, width);
    if a <= b {
      assert a / MICROS_PER_MSEC / MSECS_PER_DAY <= b / MICROS_PER_MSEC / MSECS_PER_DAY;
      MonthsInOrder(a / MICROS_PER_MSEC / MSECS_PER_DAY, b / MICROS_PER_MSEC / MSECS_PER_DAY);
    }
  }

  lemma MeantIsBucket(ts: int, origin: int, width: int)
    requires MeantMonths(ts, origin, width).Ok?
    ensures width > 0 && MeantMonths(ts, origin, width).value == StartOfMonth(MonthBucket(ts, origin, width))
  {
    hide MonthStart, TruncDiv, TruncRem;
    AddedMonths(MonthNumber(origin), MonthBucket(ts, origin, width) - MonthNumber(origin));
  }

  /** Adding months to the start of a month gives the start of a month. */
  lemma AddedMonths(m: int, n: int)
    ensures Added(StartOfMonth(m), Interval(n, 0, 0)).Ok? ==>
      Added(StartOfMonth(m), Interval(n, 0, 0)).value == StartOfMonth(m + n)
  {
    hide MonthStart, AddMonths, TruncDiv;
    StartIsAligned(m);
    AddMonthsToStart(m, n);
    NotInfinity(m);
    assert TruncDiv(0, MICROS_PER_MSEC) == 0 && TruncRem(0, MICROS_PER_MSEC) == 0 by { NoTime(); }
  }

  lemma NoTime()
    ensures TruncDiv(0, MICROS_PER_MSEC) == 0 && TruncRem(0, MICROS_PER_MSEC) == 0
  {}

  lemma NotInfinity(m: int)
    ensures IsFinite(StartOfMonth(m)) && StartOfMonth(m) % MICROS_PER_MSEC == 0
  {
    hide MonthStart;
    FloorUnique(StartOfMonth(m), MICROS_PER_MSEC, MonthStart(m) * MSECS_PER_DAY, 0);
    assert INT64_MAX % MICROS_PER_MSEC == 807 && (-INT64_MAX) % MICROS_PER_MSEC == 193;
  }

  // December of the year -290308, the first month that 64 bits reach into, begins outside of them.

  const FIRST_MONTH := 12 * -292277 - 1
  const LAST_MONTH := 12 * 292277
  const FIRST_WHOLE_MONTH := -106751981 * MICROS_PER_DAY
  const WRAPPED_START := -106752012 * MICROS_PER_DAY + UINT64

  predicate InCutMonth(ts: int) { ts < FIRST_WHOLE_MONTH }

  lemma FirstMonths()
    ensures StartOfMonth(FIRST_MONTH) == WRAPPED_START - UINT64 && StartOfMonth(FIRST_MONTH + 1) == FIRST_WHOLE_MONTH
    ensures StartOfMonth(LAST_MONTH - 1) == 106751951 * MICROS_PER_DAY
    ensures StartOfMonth(LAST_MONTH) == 106751982 * MICROS_PER_DAY
    ensures StartOfMonth(LAST_MONTH + 1) == 106752013 * MICROS_PER_DAY
  {
    hide MonthStart;
    AroundNewYear(-292277);
    AroundNewYear(292277);
  }

  lemma NumberOf(ts: int, m: int)
    ensures StartOfMonth(m) <= ts < StartOfMonth(m + 1) <==> MonthNumber(ts) == m
    ensures StartOfMonth(m) <= ts <==> m <= MonthNumber(ts)
  {
    hide MonthStart, MonthOf;
    var day := ts / MICROS_PER_MSEC / MSECS_PER_DAY;
    Quotient(ts, MICROS_PER_MSEC);
    Quotient(ts / MICROS_PER_MSEC, MSECS_PER_DAY);
    var n := MonthOf(day);
    if m < n {
      MonthStartGrows(m, n);
      if m + 1 < n {
        MonthStartGrows(m + 1, n);
      }
    } else if n < m {
      if n + 1 < m {
        MonthStartGrows(n + 1, m);
      }
    }
  }

  /** The start of its month fits into 64 bits for exactly the instants of the other months. */
  lemma CutMonthWraps(ts: int)
    requires IsInt64(ts)
    ensures IsInt64(StartOfMonth(MonthNumber(ts))) <==> !InCutMonth(ts)
    ensures Truncated(ts) == if InCutMonth(ts) then WRAPPED_START else StartOfMonth(MonthNumber(ts))
    ensures MonthNumber(ts) <= LAST_MONTH
    ensures if InCutMonth(ts) then MonthNumber(ts) == FIRST_MONTH else FIRST_MONTH < MonthNumber(ts)
  {
    hide StartOfMonth, MonthNumber;
    FirstMonths();
    NumberOf(ts, FIRST_MONTH);
    NumberOf(ts, FIRST_MONTH + 1);
    NumberOf(ts, LAST_MONTH + 1);
    NumberOf(ts, MonthNumber(ts));
    if !InCutMonth(ts) {
      NumberOf(FIRST_WHOLE_MONTH, FIRST_MONTH + 1);
      StartsInOrder(FIRST_MONTH + 1, MonthNumber(ts));
      Kept64(StartOfMonth(MonthNumber(ts)));
    }
  }

  lemma StartsInOrder(m: int, n: int)
    requires m <= n
    ensures StartOfMonth(m) <= StartOfMonth(n)
  {
    hide MonthStart;
    if m < n {
      MonthStartGrows(m, n);
    }
  }

  /** Two instants outside of it get the bucket that is meant; otherwise that bucket would be out of range. */
  lemma MonthsAreMeant(ts: int, origin: int, width: int)
    requires IsInt64(ts) && IsInt64(origin)
    ensures !InCutMonth(ts) && !InCutMonth(origin) ==>
      MonthsOutcome(ts, origin, width) == MeantMonths(ts, origin, width)
    ensures InCutMonth(ts) || InCutMonth(origin) ==> MeantMonths(ts, origin, width) == OutOfRange
  {
    hide StartOfMonth, MonthNumber, Added, MonthsBetween;
    CutMonthWraps(ts);
    CutMonthWraps(origin);
    FirstMonths();
    if width <= 0 {
    } else if InCutMonth(origin) {
      NothingAdded(MonthBucket(ts, origin, width) - FIRST_MONTH);
    } else if InCutMonth(ts) {
      CutBucketIsOut(ts, origin, width);
    } else {
      WholeMonthsBetween(MonthNumber(origin), MonthNumber(ts));
    }
  }

  /** The bucket that is meant begins no later than the cut month. */
  lemma CutBucketIsOut(ts: int, origin: int, width: int)
    requires width > 0 && IsInt64(ts) && InCutMonth(ts)
    ensures MeantMonths(ts, origin, width) == OutOfRange
  {
    hide StartOfMonth, MonthNumber, MonthBucket, Added;
    var o, m := MonthNumber(origin), MonthBucket(ts, origin, width);
    MonthBucketContains(ts, origin, width);
    CutMonthWraps(ts);
    NumberOf(ts, m);
    FirstMonths();
    StartsInOrder(m, FIRST_MONTH);
    NotInfinity(o);
    AddedMonths(o, m - o);
    AddedFits64(StartOfMonth(o), m - o);
  }

  lemma NothingAdded(n: int)
    ensures Added(StartOfMonth(FIRST_MONTH), Interval(n, 0, 0)) == OutOfRange
  {
    hide MonthStart, AddMillis, TruncDiv;
    FirstMonths();
    NoTime();
    StartIsAligned(FIRST_MONTH);
    NotInfinity(FIRST_MONTH);
  }

  lemma AddedFits64(ts: int, n: int)
    requires IsFinite(ts)
    ensures var r := Added(ts, Interval(n, 0, 0)); if r.Ok? then IsInt64(r.value) else r == OutOfRange
  {
    hide AddMillis, Moved;
  }

  lemma WholeMonthsBetween(a: int, b: int)
    ensures MonthsBetween(StartOfMonth(a) / MICROS_PER_MSEC, TruncDiv(StartOfMonth(b), MICROS_PER_MSEC)) == b - a
  {
    hide MonthStart, MonthsBetween, Fits, AddMonths;
    StartIsAligned(a);
    StartIsAligned(b);
    var start, when := MonthStart(a) * MSECS_PER_DAY, MonthStart(b) * MSECS_PER_DAY;
    AddMonthsToStart(a, b - a);
    ShiftedFits(start, MONTH, b - a);
    FitsOnce(start, when, MONTH, b - a, MonthsBetween(start, when));
  }

  /** From any origin outside of it, an instant in the cut month is taken for one at the other end of time, and never
      counted backward. */
  lemma CutMonthIsAhead(o: int)
    requires FIRST_MONTH < o <= LAST_MONTH
    ensures var n := MonthsBetween(StartOfMonth(o) / MICROS_PER_MSEC, TruncDiv(WRAPPED_START, MICROS_PER_MSEC));
      n == if o == LAST_MONTH then 0 else LAST_MONTH - 1 - o
  {
    hide MonthStart, MonthsBetween, AddMonths, Shifted;
    FirstMonths();
    StartIsAligned(o);
    var start, when := MonthStart(o) * MSECS_PER_DAY, TruncDiv(WRAPPED_START, MICROS_PER_MSEC);
    assert when == 9_223_370_236_909_551;
    var n := if o == LAST_MONTH then 0 else LAST_MONTH - 1 - o;
    StartOfShifted(o, n);
    StartOfShifted(o, n + 1);
    StartOfShifted(o, n - 1);
    if o < LAST_MONTH {
      StartsInOrder(o, LAST_MONTH - 1);
    }
    assert Fits(start, when, MONTH, n);
    FitsOnce(start, when, MONTH, n, MonthsBetween(start, when));
  }

  lemma StartOfShifted(m: int, n: int)
    ensures Shifted(MonthStart(m) * MSECS_PER_DAY, MONTH, n) == MonthStart(m + n) * MSECS_PER_DAY
    ensures StartOfMonth(m + n) == MonthStart(m + n) * MSECS_PER_DAY * MICROS_PER_MSEC
  {
    hide MonthStart, AddMonths;
    AddMonthsToStart(m, n);
  }

  /** So it gets the bucket of an instant 2^64 microseconds later, unless the origin is later still. */
  lemma CutMonthJumps(ts: int, origin: int, width: int)
    requires IsInt64(ts) && InCutMonth(ts) && FIRST_WHOLE_MONTH <= origin <= WRAPPED_START
    ensures MonthsOutcome(ts, origin, width) == MeantMonths(WRAPPED_START, origin, width)
  {
    hide StartOfMonth, MonthNumber, Added, MonthsBetween;
    CutMonthWraps(ts);
    CutMonthWraps(origin);
    FirstMonths();
    NumberOf(WRAPPED_START, LAST_MONTH - 1);
    NumberOf(origin, LAST_MONTH);
    CutMonthIsAhead(MonthNumber(origin));
  }

  /** For example, the last day but nine of the year -290308 gets a bucket of a month in the year 294246. */
  lemma BucketAtOtherEnd()
    ensures var ts, origin := -106751991 * MICROS_PER_DAY, DEFAULT_ORIGIN_MICROS_2;
      InRange(ts) && MonthsOutcome(ts, origin, 1) == Ok(106751951 * MICROS_PER_DAY)
  {
    hide StartOfMonth, MonthNumber, Added, MonthsOutcome;
    var ts, origin := -106751991 * MICROS_PER_DAY, DEFAULT_ORIGIN_MICROS_2;
    CutMonthJumps(ts, origin, 1);
    FirstMonths();
    NumberOf(WRAPPED_START, LAST_MONTH - 1);
    CutMonthWraps(origin);
    var o := MonthNumber(origin);
    NumberOf(origin, o);
    StartsInOrder(FIRST_MONTH + 1, o);
    MonthInRange(o, LAST_MONTH - 1 - o);
  }

  lemma MonthInRange(m: int, n: int)
    requires InRange(StartOfMonth(m)) && InRange(StartOfMonth(m + n))
    ensures Added(StartOfMonth(m), Interval(n, 0, 0)) == Ok(StartOfMonth(m + n))
  {
    hide MonthStart, AddMonths, TruncDiv, GetDate;
    StartIsAligned(m);
    AddMonthsToStart(m, n);
    NotInfinity(m);
    NoTime();
    InRangeIsFinite(StartOfMonth(m));
  }

  /** What is added to the wrapped start keeps its microseconds, so it does not start a month. */
  lemma CutOriginStartsNoMonth(n: int, m: int)
    ensures Added(WRAPPED_START, Interval(n, 0, 0)) != Ok(StartOfMonth(m))
  {
    hide MonthStart, AddMillis, InRange;
    NotInfinity(m);
    assert Moved(WRAPPED_START, 0) == (9_223_370_236_909_551, 616);
    var r := FromMillis(AddMillis(9_223_370_236_909_551, Interval(n, 0, 0)), 616);
    if r.Ok? {
      FloorUnique(r.value, MICROS_PER_MSEC, AddMillis(9_223_370_236_909_551, Interval(n, 0, 0)), 616);
    }
  }

  /** A bucket of months that starts at b contains the instant. */
  ghost predicate HoldsMonth(b: int, ts: int, origin: int, width: int)
    requires width > 0
  {
    exists m :: b == StartOfMonth(m) && b <= ts < StartOfMonth(m + width) && (m - MonthNumber(origin)) % width == 0
  }

  lemma MonthsOutcomeHolds(ts: int, origin: int, width: int)
    requires width > 0 && IsInt64(ts) && IsInt64(origin) && MonthsOutcome(ts, origin, width).Ok?
    ensures HoldsMonth(MonthsOutcome(ts, origin, width).value, ts, origin, width) <==>
      !InCutMonth(ts) && !InCutMonth(origin)
  {
    hide StartOfMonth, MonthNumber, Added, MonthsBetween;
    var b := MonthsOutcome(ts, origin, width).value;
    CutMonthWraps(ts);
    CutMonthWraps(origin);
    if InCutMonth(origin) {
      forall m ensures b != StartOfMonth(m) {
        CutOriginOutcome(ts, origin, width, m);
      }
    } else if InCutMonth(ts) {
      CutMonthIsBehind(ts, origin, width);
    } else {
      MonthsAreMeant(ts, origin, width);
      MeantIsBucket(ts, origin, width);
      MonthBucketContains(ts, origin, width);
    }
  }

  lemma CutOriginOutcome(ts: int, origin: int, width: int, m: int)
    requires width > 0 && IsInt64(origin) && InCutMonth(origin)
    ensures MonthsOutcome(ts, origin, width) != Ok(StartOfMonth(m))
  {
    hide StartOfMonth, MonthNumber, Added, MonthsBetween, Truncated;
    CutMonthWraps(origin);
    var end := TruncDiv(Truncated(ts), MICROS_PER_MSEC);
    var months := MonthsBetween(WRAPPED_START / MICROS_PER_MSEC, end) / width * width;
    CutOriginStartsNoMonth(months, m);
  }

  lemma CutMonthIsBehind(ts: int, origin: int, width: int)
    requires width > 0 && IsInt64(ts) && IsInt64(origin) && InCutMonth(ts) && !InCutMonth(origin)
    requires MonthsOutcome(ts, origin, width).Ok?
    ensures ts < MonthsOutcome(ts, origin, width).value
  {
    hide StartOfMonth, MonthNumber, Added, MonthsBetween, TruncDiv;
    CutMonthWraps(ts);
    CutMonthWraps(origin);
    var o := MonthNumber(origin);
    CutMonthIsAhead(o);
    var n := if o == LAST_MONTH then 0 else LAST_MONTH - 1 - o;
    WholeWidths(n, width);
    AddedMonths(o, n / width * width);
    FirstMonths();
    StartsInOrder(FIRST_MONTH + 1, o + n / width * width);
  }

  lemma WholeWidths(n: nat, width: int)
    requires width > 0
    ensures n / width * width >= 0
  {
    if n / width >= 1 {
      AtLeastOnce(n / width, width);
    }
  }

  // ---- Any width ----

  /** The operator with an origin: NULL for an infinite origin, then ClassifyBucketWidthErrorThrow and the choice of the
      function; what is not implemented is an invalid input here. */
  method TimeBucket(calendar: Calendar, width: Interval, ts: int, origin: int) returns (r: Result<int>)
    requires IsInt32(width.months) && IsInt64(ts) && IsInt64(origin)
    modifies calendar
    ensures !IsFinite(origin) ==> r == Null
    ensures IsFinite(origin) && !PureWidth(width) ==> r == InvalidInput
    ensures IsFinite(origin) && PureWidth(width) && !IsFinite(ts) ==> r == Ok(ts)
    ensures IsFinite(origin) && PureWidth(width) && IsFinite(ts) ==> r == BucketOutcome(ts, origin, width)
    ensures PureWidth(width) && IsFinite(ts) && r.Ok? ==>
      (HoldsInstant(r.value, ts, origin, width) <==> !Misses(ts, origin, width))
  {
    if !IsFinite(origin) {
      return Null;
    }
    if width.months == 0 && width.days == 0 {
      if width.micros <= 0 {
        return InvalidInput;
      }
      if !IsFinite(ts) {
        return Ok(ts);
      }
      r := WidthConvertibleToMicros(calendar, width.micros, ts, origin);
      MicrosBucketIsExact(ts, origin, width.micros);
      BucketContains(ts, origin, width.micros, Bucket(ts, origin, width.micros));
    } else if width.months == 0 && width.micros == 0 {
      if width.days <= 0 {
        return InvalidInput;
      }
      if !IsFinite(ts) {
        return Ok(ts);
      }
      r := WidthConvertibleToDays(calendar, width.days, ts, origin);
      if r.Ok? {
        DaysOutcomeIsBucket(ts, origin, width.days);
        DaysBucketContains(ts, origin, width.days);
      }
    } else if width.days == 0 && width.micros == 0 {
      if width.months <= 0 {
        return InvalidInput;
      }
      if !IsFinite(ts) {
        return Ok(ts);
      }
      r := WidthConvertibleToMonths(calendar, width.months, ts, origin);
      if r.Ok? {
        MonthsOutcomeHolds(ts, origin, width.months);
      }
    } else {
      return InvalidInput;
    }
  }

  /** Exactly one part of the width is set, and it is positive. */
  predicate PureWidth(w: Interval) {
    || (w.months == 0 && w.days == 0 && w.micros > 0)
    || (w.months == 0 && w.days > 0 && w.micros == 0)
    || (w.months > 0 && w.days == 0 && w.micros == 0)
  }

  ghost function BucketOutcome(ts: int, origin: int, w: Interval): Result<int>
    requires PureWidth(w)
  {
    if w.micros > 0 then MicrosOutcome(ts, origin, w.micros)
    else if w.days > 0 then DaysOutcome(ts, origin, w.days)
    else MonthsOutcome(ts, origin, w.months)
  }

  /** The instant is in the bucket that starts at b. */
  ghost predicate HoldsInstant(b: int, ts: int, origin: int, w: Interval)
    requires PureWidth(w)
  {
    if w.micros > 0 then Contains(b, ts, origin, w.micros)
    else if w.days > 0 then Contains(b, ts, origin, w.days * MICROS_PER_DAY)
    else HoldsMonth(b, ts, origin, w.months)
  }

  /** The instants and origins for which the bucket returned does not contain the instant. */
  predicate Misses(ts: int, origin: int, w: Interval)
    requires PureWidth(w)
  {
    if w.days > 0 then MissesBucket(ts, origin, w.days) else w.months > 0 && (InCutMonth(ts) || InCutMonth(origin))
  }

  const DEFAULT_ORIGIN_MICROS_1 := 10959 * MICROS_PER_DAY
  const DEFAULT_ORIGIN_MICROS_2 := 10957 * MICROS_PER_DAY

  /** Monday 2000-01-03, or 2000-01-01 for months. */
  function DefaultOrigin(width: Interval): int {
    if width.months > 0 then DEFAULT_ORIGIN_MICROS_2 else DEFAULT_ORIGIN_MICROS_1
  }

  /** Day 0, 1970-01-01, was a Thursday. */
  predicate IsMonday(day: int) { day % 7 == 4 }

  /** Months are counted from the first of January 2000, and everything else from the first Monday behind it. */
  lemma DefaultOrigins(width: Interval)
    ensures width.months > 0 ==> DefaultOrigin(width) == StartOfMonth(12 * 30)
    ensures width.months <= 0 ==>
      var day := DefaultOrigin(width) / MICROS_PER_DAY;
      && DefaultOrigin(width) == day * MICROS_PER_DAY && IsMonday(day) && MonthStart(12 * 30) <= day
      && forall d | MonthStart(12 * 30) <= d < day :: !IsMonday(d)
  {
    hide MonthStart;
    AroundNewYear(30);
    assert YearStart(30) == 10957;
  }

  /** The operator without an origin or offset. */
  method DefaultTimeBucket(calendar: Calendar, width: Interval, ts: int) returns (r: Result<int>)
    requires IsInt32(width.months) && IsInt64(ts)
    modifies calendar
    ensures !PureWidth(width) ==> r == InvalidInput
    ensures PureWidth(width) && !IsFinite(ts) ==> r == Ok(ts)
    ensures PureWidth(width) && IsFinite(ts) ==> r == BucketOutcome(ts, DefaultOrigin(width), width)
  {
    hide HoldsInstant, Misses, BucketOutcome;
    r := TimeBucket(calendar, width, ts, DefaultOrigin(width));
  }

  /** Buckets of whole weeks start on Mondays at midnight. */
  lemma WeeksStartOnMonday(ts: int, width: Interval)
    requires PureWidth(width) && width.days % 7 == 0 && width.days > 0
    requires BucketOutcome(ts, DefaultOrigin(width), width).Ok?
    ensures var b := BucketOutcome(ts, DefaultOrigin(width), width).value;
      b % MICROS_PER_DAY == 0 && IsMonday(b / MICROS_PER_DAY)
  {
    hide DaysOutcome, DaysBucket, MonthStart;
    var origin, w := DefaultOrigin(width), width.days * MICROS_PER_DAY;
    DefaultOrigins(width);
    DaysOutcomeIsBucket(ts, origin, width.days);
    DaysBucketIsFloor(ts, origin, width.days);
    var k, weeks := (ts - origin) / w, width.days / 7;
    var day := origin / MICROS_PER_DAY + 7 * (k * weeks);
    assert width.days == 7 * weeks;
    assert k * w == 7 * (k * weeks) * MICROS_PER_DAY;
    FloorUnique(origin + k * w, MICROS_PER_DAY, day, 0);
    WeeksLater(origin / MICROS_PER_DAY, k * weeks);
  }

  lemma WeeksLater(day: int, k: int)
    ensures IsMonday(day + 7 * k) == IsMonday(day)
  {}

  /** Buckets of a time that divides a day are counted from midnight. */
  lemma TimesStartAtMidnight(ts: int, width: Interval)
    requires PureWidth(width) && width.micros > 0 && MICROS_PER_DAY % width.micros == 0
    requires BucketOutcome(ts, DefaultOrigin(width), width).Ok?
    ensures BucketOutcome(ts, DefaultOrigin(width), width).value % width.micros == 0
  {
    hide MonthStart, Added, Bucket;
    var origin, w := DefaultOrigin(width), width.micros;
    DefaultOrigins(width);
    MicrosBucketIsExact(ts, origin, w);
    BucketContains(ts, origin, w, Bucket(ts, origin, w));
    var k :| Bucket(ts, origin, w) == origin + k * w;
    var day, n := origin / MICROS_PER_DAY, MICROS_PER_DAY / w;
    Quotient(MICROS_PER_DAY, w);
    assert day * MICROS_PER_DAY == day * (n * w) == (day * n) * w;
    assert (day * n + k) * w == (day * n) * w + k * w;
    FloorUnique(origin + k * w, w, day * n + k, 0);
  }

  /** Buckets of whole years start on the first of January. */
  lemma YearsStartInJanuary(ts: int, width: Interval)
    requires PureWidth(width) && width.months > 0 && width.months % 12 == 0 && IsInt64(ts) && !InCutMonth(ts)
    requires BucketOutcome(ts, DefaultOrigin(width), width).Ok?
    ensures exists y :: BucketOutcome(ts, DefaultOrigin(width), width).value == YearStart(y) * MICROS_PER_DAY
  {
    hide MonthStart, MonthsOutcome, MeantMonths, MonthNumber, Added, YearStart;
    var origin, years := DefaultOrigin(width), width.months / 12;
    DefaultOrigins(width);
    MonthsAreMeant(ts, origin, width.months);
    MeantIsBucket(ts, origin, width.months);
    OriginMonth(origin);
    var k := (MonthNumber(ts) - 12 * 30) / width.months;
    JanuaryAgain(k, width.months, years);
    AroundNewYear(30 + k * years);
  }

  lemma OriginMonth(origin: int)
    requires origin == StartOfMonth(12 * 30)
    ensures MonthNumber(origin) == 12 * 30
  {
    hide StartOfMonth, MonthNumber;
    NumberOf(origin, 12 * 30);
    MonthGrows(12 * 30);
  }

  lemma MonthGrows(m: int)
    ensures StartOfMonth(m) < StartOfMonth(m + 1)
  {
    hide MonthStart;
    MonthStartGrows(m, m + 1);
  }

  lemma JanuaryAgain(k: int, months: int, years: int)
    requires months == 12 * years
    ensures 12 * 30 + k * months == 12 * (30 + k * years)
  {
    assert k * (12 * years) == 12 * (k * years);
  }

  /** Negation in 32 and 64 bits. */
  function Negated(interval: Interval): Interval {
    Interval(AsInt32(-interval.months), AsInt32(-interval.days), AsInt64(-interval.micros))
  }

  /** It is the opposite interval unless a part is the lowest number there is. */
  lemma NegatedIsOpposite(interval: Interval)
    requires interval.months == 0 && IsInt32(interval.days) && IsInt64(interval.micros)
    ensures Negated(interval).months == 0
    ensures Length(Negated(interval)) == -Length(interval) <==>
      interval.days != INT32_MIN && interval.micros != INT64_MIN
  {
    Negate32(interval.days);
    Negate64(interval.micros);
    hide AsInt32, AsInt64;
  }

  lemma Negate32(x: int)
    requires IsInt32(x)
    ensures AsInt32(-x) == if x == INT32_MIN then x else -x
    ensures AsInt32(0) == 0
  {
    SmallIsKept(if x == INT32_MIN then 0 else -x);
    SmallIsKept(0);
  }

  lemma Negate64(x: int)
    requires IsInt64(x)
    ensures AsInt64(-x) == if x == INT64_MIN then x else -x
  {
    if x != INT64_MIN {
      Kept64(-x);
    }
  }

  ghost function OffsetOutcome(ts: int, width: Interval, offset: Interval): Result<int>
    requires PureWidth(width)
  {
    if !IsFinite(ts) then Ok(ts)
    else
      var moved := Added(ts, Negated(offset));
      if !moved.Ok? then moved
      else
        var bucket := BucketOutcome(moved.value, DefaultOrigin(width), width);
        if bucket.Ok? then Added(bucket.value, offset) else bucket
  }

  /** The operator with an offset: the instant is moved back, put into its bucket, and the bucket moved forward. */
  method OffsetTimeBucket(calendar: Calendar, width: Interval, ts: int, offset: Interval) returns (r: Result<int>)
    requires IsInt32(width.months) && IsInt64(ts)
    modifies calendar
    ensures r == if PureWidth(width) then OffsetOutcome(ts, width, offset) else InvalidInput
    ensures PureWidth(width) && IsFinite(ts) && r.Ok? && offset.months == 0 ==>
      var back := ts + Length(Negated(offset));
      HoldsInstant(r.value - Length(offset), back, DefaultOrigin(width), width) <==>
        !(width.months > 0 && InCutMonth(back))
  {
    hide Added, HoldsInstant, InRange, Moved, BucketOutcome;
    if !PureWidth(width) {
      return InvalidInput;
    }
    if !IsFinite(ts) {
      return Ok(ts);
    }
    var back := Negated(offset);
    var moved := Add(calendar, ts, back);
    if !moved.Ok? {
      return moved;
    }
    AddedFits(ts, back);
    var bucket := TimeBucket(calendar, width, moved.value, DefaultOrigin(width));
    if !bucket.Ok? {
      return bucket;
    }
    r := Add(calendar, bucket.value, offset);
    if offset.months == 0 {
      AddIsExact(ts, back);
      OutcomeIsFinite(moved.value, DefaultOrigin(width), width);
      AddIsExact(bucket.value, offset);
      DefaultOriginMisses(moved.value, width);
    }
  }

  lemma AddedFits(ts: int, interval: Interval)
    requires IsInt64(ts) && IsFinite(ts) && Added(ts, interval).Ok?
    ensures InRange(Added(ts, interval).value) && IsFinite(Added(ts, interval).value)
  {
    InRangeIsFinite(Added(ts, interval).value);
  }

  lemma OutcomeIsFinite(ts: int, origin: int, width: Interval)
    requires PureWidth(width) && IsFinite(origin) && IsInt64(origin) && BucketOutcome(ts, origin, width).Ok?
    ensures IsFinite(BucketOutcome(ts, origin, width).value)
  {
    hide Moved, AddMillis, ResultDays, Bucket, MonthBucket, MonthStart, InRange;
    var value := BucketOutcome(ts, origin, width).value;
    if width.months > 0 {
      CutMonthWraps(origin);
      NotInfinity(MonthNumber(origin));
    }
    if width.days > 0 {
      FirstIsFinite(ts, origin, width.days);
    }
    InRangeIsFinite(value);
  }

  lemma FirstIsFinite(ts: int, origin: int, width: int)
    requires width > 0 && IsFinite(origin)
    ensures var first := Added(origin, Interval(0, ResultDays(ts, origin, width), 0));
      first.Ok? ==> InRange(first.value) && IsFinite(first.value)
  {
    hide Moved, AddMillis, ResultDays, InRange;
    var first := Added(origin, Interval(0, ResultDays(ts, origin, width), 0));
    if first.Ok? {
      InRangeIsFinite(first.value);
    }
  }

  /** With the default origins, only buckets of months miss an instant, and only those in the cut month. */
  lemma DefaultOriginMisses(ts: int, width: Interval)
    requires PureWidth(width) && IsInt64(ts) && BucketOutcome(ts, DefaultOrigin(width), width).Ok?
    ensures HoldsInstant(BucketOutcome(ts, DefaultOrigin(width), width).value, ts, DefaultOrigin(width), width)
       <==> !(width.months > 0 && InCutMonth(ts))
  {
    hide Contains, Added, Bucket, DaysOutcome, MonthsOutcome, MonthBucket, MonthStart, HoldsMonth;
    var origin := DefaultOrigin(width);
    if width.micros > 0 {
      MicrosBucketIsExact(ts, origin, width.micros);
      BucketContains(ts, origin, width.micros, Bucket(ts, origin, width.micros));
    } else if width.days > 0 {
      assert DEFAULT_ORIGIN_MICROS_1 % MICROS_PER_MSEC == 0;
      WholeMillisecondOrigin(ts, origin, width.days);
      DaysOutcomeIsBucket(ts, origin, width.days);
      DaysBucketContains(ts, origin, width.days);
    } else {
      MonthsOutcomeHolds(ts, origin, width.months);
    }
  }
}
