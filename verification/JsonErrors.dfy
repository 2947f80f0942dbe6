/** Errors of a parallel scan are held back until every earlier buffer has published its number of lines. */
module JsonErrors {
  import opened Wrappers

  datatype JSONError = JSONError(bufIndex: nat, line: nat, message: string)

  /** What a call does besides updating the reader: nothing, or throw the error with its line number filled in. */
  datatype Outcome = Continue | Throw(line: nat, message: string)

  /** The state under the reader's lock; None stands for the count -1 of a buffer that is not counted yet. */
  datatype Log = Log(error: Option<JSONError>, counts: seq<Option<nat>>, thrown: bool)

  datatype Event = NewBuffer | Report(e: JSONError) | Publish(bufIndex: nat, count: nat)

  predicate Before(a: JSONError, b: JSONError) {
    a.bufIndex < b.bufIndex || (a.bufIndex == b.bufIndex && a.line < b.line)
  }

  /** The lines of the first n buffers. */
  function Total(counts: seq<Option<nat>>, n: nat): nat
    requires n <= |counts|
  {
    if n == 0 then 0 else Total(counts, n - 1) + if counts[n - 1].Some? then counts[n - 1].value else 0
  }

  /** Every buffer before `bufIndex` has been counted. */
  ghost predicate Counted(counts: seq<Option<nat>>, bufIndex: nat) {
    bufIndex <= |counts| && forall b | 0 <= b < bufIndex :: counts[b].Some?
  }

  ghost function Raised(log: Log): Outcome {
    if log.error.Some? && Counted(log.counts, log.error.value.bufIndex)
    then Throw(Total(log.counts, log.error.value.bufIndex) + log.error.value.line + 1, log.error.value.message)
    else Continue
  }

  ghost function WithThrown(log: Log): Log { log.(thrown := log.thrown || Raised(log).Throw?) }

  ghost function After(log: Log, event: Event): Log {
    match event
    case NewBuffer => log.(counts := log.counts + [None])
    case Report(e) => WithThrown(log.(error :=
      if log.error.Some? && Before(log.error.value, e) then log.error else Some(e)))
    case Publish(b, n) => if b < |log.counts| then WithThrown(log.(counts := log.counts[b := Some(n)])) else log
  }

  class JSONReader {
    var error: Option<JSONError>
    var buffer_line_or_object_counts: seq<Option<nat>>
    var thrown: bool

    ghost predicate Valid()
      reads this
    {
      error.Some? ==> error.value.bufIndex < |buffer_line_or_object_counts|
    }

    ghost function Contents(): Log
      reads this
    {
      Log(error, buffer_line_or_object_counts, thrown)
    }

    constructor ()
      ensures Valid() && Contents() == Log(None, [], false)
    {
      error, buffer_line_or_object_counts, thrown := None, [], false;
    }

    method GetBufferIndex() returns (i: nat)
      requires Valid()
      modifies this
      ensures Valid() && i == old(|buffer_line_or_object_counts|)
      ensures Contents() == After(old(Contents()), NewBuffer)
    {
      i := |buffer_line_or_object_counts|;
      buffer_line_or_object_counts := buffer_line_or_object_counts + [None];
    }

    /** SetBufferLineOrObjectCount */
    method PublishCount(bufIndex: nat, count: nat) returns (r: Outcome)
      requires Valid() && bufIndex < |buffer_line_or_object_counts| && buffer_line_or_object_counts[bufIndex].None?
      modifies this
      ensures Valid() && Contents() == After(old(Contents()), Publish(bufIndex, count)) && r == Raised(Contents())
    {
      buffer_line_or_object_counts := buffer_line_or_object_counts[bufIndex := Some(count)];
      r := ThrowErrorsIfPossible();
    }

    /** AddParseError and AddTransformError, once the line is known. */
    method ReportError(bufIndex: nat, line: nat, message: string) returns (r: Outcome)
      requires Valid() && bufIndex < |buffer_line_or_object_counts|
      modifies this
      ensures Valid() && Contents() == After(old(Contents()), Report(JSONError(bufIndex, line, message)))
      ensures r == Raised(Contents())
    {
      AddError(bufIndex, line, message);
      r := ThrowErrorsIfPossible();
    }

    method AddError(bufIndex: nat, line: nat, message: string)
      requires Valid() && bufIndex < |buffer_line_or_object_counts|
      modifies `error
      ensures Valid()
      ensures error == if old(error).Some? && Before(old(error).value, JSONError(bufIndex, line, message))
                       then old(error)
                       else Some(JSONError(bufIndex, line, message))
    {
      if error.Some? {
        if error.value.bufIndex < bufIndex || (error.value.bufIndex == bufIndex && error.value.line < line) {
          return;
        }
      }
      error := Some(JSONError(bufIndex, line, message));
    }

    method TryGetLineNumber(bufIndex: nat, lineInBuffer: nat) returns (r: Option<nat>)
      requires Valid() && bufIndex <= |buffer_line_or_object_counts|
      ensures r.Some? <==> Counted(buffer_line_or_object_counts, bufIndex)
      ensures r.Some? ==> r.value == Total(buffer_line_or_object_counts, bufIndex) + lineInBuffer
    {
      var line := lineInBuffer;
      var counts := buffer_line_or_object_counts;
      for b := 0 to bufIndex
        invariant Counted(counts, b) && line == Total(counts, b) + lineInBuffer
      {
        if counts[b].None? {
          return None;
        }
        line := line + counts[b].value;
      }
      return Some(line);
    }

    method ThrowErrorsIfPossible() returns (r: Outcome)
      requires Valid()
      modifies `thrown
      ensures Contents() == WithThrown(old(Contents())) && r == Raised(Contents())
    {
      if error.None? {
        return Continue;
      }
      var line := TryGetLineNumber(error.value.bufIndex, error.value.line);
      if line.None? {
        return Continue;
      }
      thrown := true;
      r := Throw(line.value + 1, error.value.message);
    }
  }

  // ---- Any interleaving of the scanners' calls ----

  ghost function LogAfter(events: seq<Event>, k: nat): Log
    requires k <= |events|
  {
    if k == 0 then Log(None, [], false) else After(LogAfter(events, k - 1), events[k - 1])
  }

  /** How many buffers exist after the first k calls. */
  ghost function Buffers(events: seq<Event>, k: nat): nat
    requires k <= |events|
  {
    if k == 0 then 0 else Buffers(events, k - 1) + if events[k - 1].NewBuffer? then 1 else 0
  }

  ghost predicate Published(events: seq<Event>, k: nat, b: nat)
    requires k <= |events|
  {
    exists j :: 0 <= j < k && events[j].Publish? && events[j].bufIndex == b
  }

  /** What the scanners guarantee: a buffer's errors come in the order of its lines, all before its count, which is
      published once. */
  ghost predicate Orderly(events: seq<Event>) {
    forall k | 0 <= k < |events| :: OrderlyAt(events, k)
  }

  ghost predicate OrderlyAt(events: seq<Event>, k: nat)
    requires k < |events|
  {
    match events[k]
    case NewBuffer => true
    case Publish(b, n) => b < Buffers(events, k) && !Published(events, k, b)
    case Report(e) =>
      && e.bufIndex < Buffers(events, k) && !Published(events, k, e.bufIndex)
      && forall j | 0 <= j < k && events[j].Report? && events[j].e.bufIndex == e.bufIndex :: events[j].e.line <= e.line
  }

  lemma {:induction false} CountsFollow(events: seq<Event>, k: nat)
    requires k <= |events| && Orderly(events)
    ensures |LogAfter(events, k).counts| == Buffers(events, k)
    ensures forall b | 0 <= b < Buffers(events, k) :: LogAfter(events, k).counts[b].Some? <==> Published(events, k, b)
    decreases k
  {
    if k > 0 {
      CountsFollow(events, k - 1);
      assert OrderlyAt(events, k - 1);
      hide LogAfter;
      LogStep(events, k);
      forall b | 0 <= b < Buffers(events, k)
        ensures LogAfter(events, k).counts[b].Some? <==> Published(events, k, b)
      {
        PublishedStep(events, k, b);
        NotPublishedEarly(events, k - 1);
      }
    }
  }

  lemma LogStep(events: seq<Event>, k: nat)
    requires 0 < k <= |events|
    ensures LogAfter(events, k) == After(LogAfter(events, k - 1), events[k - 1])
  {}

  lemma PublishedStep(events: seq<Event>, k: nat, b: nat)
    requires 0 < k <= |events|
    ensures Published(events, k, b) <==>
      Published(events, k - 1, b) || (events[k - 1].Publish? && events[k - 1].bufIndex == b)
  {}

  /** Nothing is published for a buffer that does not exist yet. */
  lemma {:induction false} NotPublishedEarly(events: seq<Event>, k: nat)
    requires k <= |events| && Orderly(events)
    ensures forall b: nat | Buffers(events, k) <= b :: !Published(events, k, b)
    decreases k
  {
    if k > 0 {
      NotPublishedEarly(events, k - 1);
      assert OrderlyAt(events, k - 1);
      forall b: nat | Buffers(events, k) <= b ensures !Published(events, k, b) {
        PublishedStep(events, k, b);
      }
    }
  }

  /** The error kept is the least one reported so far. */
  lemma {:induction false} KeptErrorIsLeast(events: seq<Event>, k: nat)
    requires k <= |events|
    ensures var kept := LogAfter(events, k).error;
      && (forall j | 0 <= j < k && events[j].Report? :: kept.Some? && !Before(events[j].e, kept.value))
      && (kept.Some? ==> exists j :: 0 <= j < k && events[j] == Report(kept.value))
    decreases k
  {
    if k > 0 {
      KeptErrorIsLeast(events, k - 1);
      hide LogAfter, Raised;
      LogStep(events, k);
      var kept := LogAfter(events, k).error;
      if kept.Some? {
        if events[k - 1].Report? && kept == Some(events[k - 1].e) {
          assert events[k - 1] == Report(kept.value);
        } else {
          assert kept == LogAfter(events, k - 1).error;
          var j :| 0 <= j < k - 1 && events[j] == Report(kept.value);
          assert 0 <= j < k && events[j] == Report(kept.value);
        }
      }
    }
  }

  /** A published count never changes. */
  lemma {:induction false} CountsStay(events: seq<Event>, k: nat, m: nat, b: nat)
    requires k <= m <= |events| && Orderly(events)
    requires b < |LogAfter(events, k).counts| && LogAfter(events, k).counts[b].Some?
    ensures b < |LogAfter(events, m).counts| && LogAfter(events, m).counts[b] == LogAfter(events, k).counts[b]
    decreases m
  {
    if k < m {
      CountsStay(events, k, m - 1, b);
      CountsFollow(events, m - 1);
      assert OrderlyAt(events, m - 1);
      CountStays(LogAfter(events, m - 1), events[m - 1], b);
      hide *;
      LogStep(events, m);
    }
  }

  lemma CountStays(log: Log, event: Event, b: nat)
    requires b < |log.counts| && log.counts[b].Some? && (event.Publish? ==> event.bufIndex != b)
    ensures b < |After(log, event).counts| && After(log, event).counts[b] == log.counts[b]
  {
    hide Raised;
  }

  lemma {:induction false} SameTotal(a: seq<Option<nat>>, c: seq<Option<nat>>, n: nat)
    requires n <= |a| && n <= |c| && forall b | 0 <= b < n :: a[b] == c[b]
    ensures Total(a, n) == Total(c, n)
  {
    if n > 0 {
      SameTotal(a, c, n - 1);
    }
  }

  /** The state after `k` calls throws: the first condition under which ThrowErrorsIfPossible is reached. */
  ghost predicate Throws(events: seq<Event>, k: nat)
    requires k <= |events|
  {
    k > 0 && !events[k - 1].NewBuffer? && Raised(LogAfter(events, k)).Throw?
  }

  /** No report of the whole run, earlier or later than the throw, is smaller than the error thrown. */
  lemma EarliestErrorWins(events: seq<Event>, k: nat)
    requires Orderly(events) && k <= |events| && Throws(events, k)
    ensures var kept := LogAfter(events, k).error;
      && kept.Some?
      && (exists i :: 0 <= i < k && events[i] == Report(kept.value))
      && forall j | 0 <= j < |events| && events[j].Report? :: !Before(events[j].e, kept.value)
  {
    KeptErrorIsLeast(events, k);
    CountsFollow(events, k);
    var e := LogAfter(events, k).error.value;
    var i :| 0 <= i < k && events[i] == Report(e);
    forall j | k <= j < |events| && events[j].Report? ensures !Before(events[j].e, e) {
      assert OrderlyAt(events, j);
      if events[j].e.bufIndex < e.bufIndex {
        assert Published(events, k, events[j].e.bufIndex);
        PublishedStays(events, k, j, events[j].e.bufIndex);
        assert false;
      }
    }
  }

  lemma PublishedStays(events: seq<Event>, k: nat, m: nat, b: nat)
    requires k <= m <= |events| && Published(events, k, b)
    ensures Published(events, m, b)
  {}

  /** The number shown counts the lines of all earlier buffers, as published by the end of the run. */
  lemma ThrownLineIsInFile(events: seq<Event>, k: nat)
    requires Orderly(events) && k <= |events| && Throws(events, k)
    ensures LogAfter(events, k).error.Some?
    ensures var e, counts := LogAfter(events, k).error.value, LogAfter(events, |events|).counts;
      && Counted(counts, e.bufIndex)
      && Raised(LogAfter(events, k)) == Throw(Total(counts, e.bufIndex) + e.line + 1, e.message)
  {
    CountsFollow(events, k);
    CountsFollow(events, |events|);
    var log, end := LogAfter(events, k), LogAfter(events, |events|);
    forall b | 0 <= b < log.error.value.bufIndex ensures b < |end.counts| && end.counts[b] == log.counts[b] {
      CountsStay(events, k, |events|, b);
    }
    var n := log.error.value.bufIndex;
    assert n == 0 || n - 1 < |end.counts|;
    SameTotal(log.counts, end.counts, n);
  }

  /** An error is thrown as soon as every earlier buffer is counted, so none is swallowed: once all buffers are
      counted, some call has thrown if any call reported an error. */
  lemma NoErrorIsSwallowed(events: seq<Event>, j: nat)
    requires Orderly(events) && j < |events| && events[j].Report?
    requires Counted(LogAfter(events, |events|).counts, Buffers(events, |events|))
    ensures LogAfter(events, |events|).thrown
  {
    hide After, OrderlyAt, LogAfter;
    KeptErrorIsLeast(events, |events|);
    CountsFollow(events, |events|);
    KeptIsKnown(events, |events|);
    ThrownWhenDue(events, |events|);
  }

  /** And nothing is thrown without one: some call has met the condition. */
  lemma {:induction false} ThrownWasDue(events: seq<Event>, k: nat)
    requires k <= |events| && LogAfter(events, k).thrown
    ensures exists j :: 0 <= j <= k && Throws(events, j)
    decreases k
  {
    if k > 0 {
      if LogAfter(events, k - 1).thrown {
        ThrownWasDue(events, k - 1);
      } else {
        assert Throws(events, k);
      }
    }
  }

  lemma KeptIsKnown(events: seq<Event>, k: nat)
    requires Orderly(events) && k <= |events| && LogAfter(events, k).error.Some?
    ensures LogAfter(events, k).error.value.bufIndex < Buffers(events, k)
  {
    KeptErrorIsLeast(events, k);
    var kept := LogAfter(events, k).error.value;
    var j :| 0 <= j < k && events[j] == Report(kept);
    assert OrderlyAt(events, j);
    BuffersGrow(events, j, k);
  }

  lemma {:induction false} BuffersGrow(events: seq<Event>, j: nat, k: nat)
    requires j <= k <= |events|
    ensures Buffers(events, j) <= Buffers(events, k)
    decreases k
  {
    if j < k {
      BuffersGrow(events, j, k - 1);
    }
  }

  lemma {:induction false} ThrownWhenDue(events: seq<Event>, k: nat)
    requires Orderly(events) && k <= |events| && Raised(LogAfter(events, k)).Throw?
    ensures LogAfter(events, k).thrown
    decreases k
  {
    if k > 0 && events[k - 1].NewBuffer? {
      KeptIsKnown(events, k - 1);
      CountsFollow(events, k - 1);
      SameTotal(LogAfter(events, k - 1).counts, LogAfter(events, k).counts, LogAfter(events, k).error.value.bufIndex);
      ThrownWhenDue(events, k - 1);
    } else if k > 0 {
      CountsFollow(events, k - 1);
      assert OrderlyAt(events, k - 1);
    }
  }

  // ---- The line a scanner reports ----

  /** For a unit that does not parse; `inBuffer` units of the buffer have been parsed before it. */
  function ParseErrorLine(inBuffer: nat): nat { inBuffer + 1 }

  /** For unit `objectIndex` of a chunk of `scanCount` units, the last of the `inBuffer` units parsed so far. */
  function TransformErrorLine(inBuffer: nat, scanCount: nat, objectIndex: nat): nat
    requires objectIndex < scanCount <= inBuffer
  {
    inBuffer - scanCount + objectIndex
  }

  /** Counted from 1, a unit that does not transform is reported by its number in the file, one that does not parse
      by the number after it. */
  lemma ReportedNumbers(log: Log, bufIndex: nat, unit: nat, message: string, inBuffer: nat, scanCount: nat)
    requires scanCount <= inBuffer && inBuffer - scanCount <= unit < inBuffer
    requires log.error.None? && Counted(log.counts, bufIndex) 
    ensures var number := Total(log.counts, bufIndex) + unit + 1;
      && Raised(After(log, Report(JSONError(bufIndex, ParseErrorLine(unit), message)))) == Throw(number + 1, message)
      && var line := TransformErrorLine(inBuffer, scanCount, unit - (inBuffer - scanCount));
         Raised(After(log, Report(JSONError(bufIndex, line, message))))
         == Throw(number, message)
  {}

  // ---- The scanners that make the calls ----

  type Unit = string

  /** A scanner has no buffer, or has counted some units of one and has the last of them in its chunk, or has reported
      an error in its buffer, which it does not go on with. */
  datatype Scanner =
    | Idle
    | Scanning(bufIndex: nat, inBuffer: nat, chunk: seq<Unit>)
    | Failed(bufIndex: nat, inBuffer: nat)

  datatype Failure = NotParsed | NotTransformed(unit: Unit)

  /** The calls made so far and, next to them, the units parsed in every buffer and what was wrong with it. */
  datatype Scan = Scan(
    scanners: seq<Scanner>, buffers: nat, events: seq<Event>, parsed: seq<seq<Unit>>, failures: map<nat, Failure>)

  datatype Action =
    | Claim
    | ParseChunk(units: seq<Unit>)
    | FailToParse(units: seq<Unit>, message: string)
    | FailToTransform(objectIndex: nat, message: string)
    | Release

  predicate Can(scanner: Scanner, action: Action) {
    match action
    case Claim => scanner.Idle?
    case ParseChunk(_) => scanner.Scanning?
    case FailToParse(_, _) => scanner.Scanning?
    case FailToTransform(i, _) => scanner.Scanning? && i < |scanner.chunk| <= scanner.inBuffer
    case Release => !scanner.Idle?
  }

  function Act(s: Scan, w: nat, action: Action): Scan
    requires w < |s.scanners| && Can(s.scanners[w], action)
  {
    var scanner := s.scanners[w];
    match action
    case Claim =>
      s.(scanners := s.scanners[w := Scanning(s.buffers, 0, [])], buffers := s.buffers + 1,
         events := s.events + [NewBuffer], parsed := s.parsed + [[]])
    case ParseChunk(units) =>
      s.(scanners := s.scanners[w := Scanning(scanner.bufIndex, scanner.inBuffer + |units|, units)],
         parsed := Parsed(s.parsed, scanner.bufIndex, units))
    case FailToParse(units, message) =>
      var inBuffer := scanner.inBuffer + |units|;
      var e := JSONError(scanner.bufIndex, ParseErrorLine(inBuffer), message);
      Scan(s.scanners[w := Failed(scanner.bufIndex, inBuffer)], s.buffers, s.events + [Report(e)],
           Parsed(s.parsed, scanner.bufIndex, units), s.failures[scanner.bufIndex := NotParsed])
    case FailToTransform(i, message) =>
      var e := JSONError(scanner.bufIndex, TransformErrorLine(scanner.inBuffer, |scanner.chunk|, i), message);
      s.(scanners := s.scanners[w := Failed(scanner.bufIndex, scanner.inBuffer)], events := s.events + [Report(e)],
         failures := s.failures[scanner.bufIndex := NotTransformed(scanner.chunk[i])])
    case Release =>
      s.(scanners := s.scanners[w := Idle], events := s.events + [Publish(scanner.bufIndex, scanner.inBuffer)])
  }

  /** More units of buffer b. */
  function Parsed(parsed: seq<seq<Unit>>, b: nat, units: seq<Unit>): seq<seq<Unit>> {
    if b < |parsed| then parsed[b := parsed[b] + units] else parsed
  }

  ghost predicate Next(s: Scan, s': Scan) {
    exists w: nat, action :: w < |s.scanners| && Can(s.scanners[w], action) && s' == Act(s, w, action)
  }

  ghost predicate Run(run: seq<Scan>) {
    && run != [] && (forall scanner <- run[0].scanners :: scanner.Idle?) && run[0].buffers == 0 && run[0].events == []
    && run[0].parsed == [] && run[0].failures == map[]
    && forall k | 0 < k < |run| :: Next(run[k - 1], run[k])
  }

  /** The buffer of a scanner exists, is not counted yet, is its own, and has no error unless the scanner failed. */
  ghost predicate Owns(s: Scan, w: nat)
    requires w < |s.scanners|
  {
    var scanner := s.scanners[w];
    !scanner.Idle? ==>
      && scanner.bufIndex < s.buffers && !Published(s.events, |s.events|, scanner.bufIndex)
      && (scanner.Scanning? ==> forall e <- s.events | e.Report? :: e.e.bufIndex != scanner.bufIndex)
      && forall v | 0 <= v < |s.scanners| && v != w && !s.scanners[v].Idle? ::
           s.scanners[v].bufIndex != scanner.bufIndex
  }

  ghost predicate Held(s: Scan, b: nat) { exists scanner <- s.scanners :: !scanner.Idle? && scanner.bufIndex == b }

  ghost predicate Inv(s: Scan) {
    && Orderly(s.events) && Buffers(s.events, |s.events|) == s.buffers
    && (forall w | 0 <= w < |s.scanners| :: Owns(s, w))
    && (forall e <- s.events | e.Report? :: e.e.bufIndex < s.buffers)
    && forall b: nat | b < s.buffers :: Held(s, b) || Published(s.events, |s.events|, b)
  }

  lemma {:induction false} BuffersOfPrefix(events: seq<Event>, e: Event, k: nat)
    requires k <= |events|
    ensures Buffers(events + [e], k) == Buffers(events, k)
    decreases k
  {
    if k > 0 {
      BuffersOfPrefix(events, e, k - 1);
    }
  }

  lemma PublishedInPrefix(events: seq<Event>, e: Event, k: nat, b: nat)
    requires k <= |events|
    ensures Published(events + [e], k, b) <==> Published(events, k, b)
  {
    if Published(events, k, b) {
      var j :| 0 <= j < k && events[j].Publish? && events[j].bufIndex == b;
      assert (events + [e])[j] == events[j];
    }
  }

  /** One more call in order. */
  lemma OrderlyNext(events: seq<Event>, e: Event)
    requires Orderly(events) && OrderlyAt(events + [e], |events|)
    ensures Orderly(events + [e])
    ensures Buffers(events + [e], |events| + 1) == Buffers(events, |events|) + if e.NewBuffer? then 1 else 0
    ensures forall b: nat :: Published(events + [e], |events| + 1, b) <==>
      Published(events, |events|, b) || (e.Publish? && e.bufIndex == b)
  {
    var more := events + [e];
    forall k | 0 <= k < |more| ensures OrderlyAt(more, k) {
      if k < |events| {
        BuffersOfPrefix(events, e, k);
        assert OrderlyAt(events, k);
        forall b: nat ensures Published(more, k, b) <==> Published(events, k, b) {
          PublishedInPrefix(events, e, k, b);
        }
      }
    }
    BuffersOfPrefix(events, e, |events|);
    forall b: nat ensures Published(more, |events| + 1, b) <==>
      Published(events, |events|, b) || (e.Publish? && e.bufIndex == b) {
      PublishedInPrefix(events, e, |events|, b);
      PublishedStep(more, |events| + 1, b);
    }
  }

  /** The call a scanner makes is in order. */
  lemma CallIsOrderly(s: Scan, w: nat, action: Action)
    requires Inv(s) && w < |s.scanners| && Can(s.scanners[w], action) && !action.ParseChunk?
    ensures var events := Act(s, w, action).events;
      |events| == |s.events| + 1 && s.events == events[..|s.events|] && OrderlyAt(events, |s.events|)
  {
    var events := Act(s, w, action).events;
    var e := events[|s.events|];
    assert events == s.events + [e];
    assert Owns(s, w);
    BuffersOfPrefix(s.events, e, |s.events|);
    if !s.scanners[w].Idle? {
      PublishedInPrefix(s.events, e, |s.events|, s.scanners[w].bufIndex);
    }
  }

  lemma ActKeepsInv(s: Scan, w: nat, action: Action)
    requires Inv(s) && w < |s.scanners| && Can(s.scanners[w], action)
    ensures Inv(Act(s, w, action))
  {
    hide Orderly, OrderlyAt, Buffers, Published;
    var s' := Act(s, w, action);
    assert Owns(s, w);
    if !action.ParseChunk? {
      CallIsOrderly(s, w, action);
      var e := s'.events[|s.events|];
      assert s'.events == s.events + [e];
      OrderlyNext(s.events, e);
    }
    NotPublishedEarly(s.events, |s.events|);
    forall v | 0 <= v < |s.scanners| && !s.scanners[v].Idle? ensures s.scanners[v].bufIndex < s.buffers {
      assert Owns(s, v);
    }
    forall v | 0 <= v < |s'.scanners| ensures Owns(s', v) {
      assert Owns(s, v);
      var b := if s'.scanners[v].Idle? then 0 else s'.scanners[v].bufIndex;
      assert Published(s'.events, |s'.events|, b) ==> Published(s.events, |s.events|, b) || action.Release?;
    }
    forall b: nat | b < s'.buffers ensures Held(s', b) || Published(s'.events, |s'.events|, b) {
      StaysHeld(s, w, action, b);
    }
  }

  /** A buffer that is let go of is published. */
  lemma StaysHeld(s: Scan, w: nat, action: Action, b: nat)
    requires w < |s.scanners| && Can(s.scanners[w], action)
    ensures Held(s, b) || (action.Claim? && b == s.buffers) ==>
      Held(Act(s, w, action), b) ||
        (action.Release? && Act(s, w, action).events == s.events + [Publish(b, s.scanners[w].inBuffer)])
  {
    var s' := Act(s, w, action);
    assert s'.scanners[w] in s'.scanners;
    if Held(s, b) {
      var scanner :| scanner in s.scanners && !scanner.Idle? && scanner.bufIndex == b;
      var v :| 0 <= v < |s.scanners| && s.scanners[v] == scanner;
      assert s'.scanners[v] in s'.scanners;
      if v != w {
        assert s'.scanners[v] == scanner;
      }
    }
  }

  /** In every run of any number of scanners the calls are in order. */
  lemma {:induction false} RunIsOrderly(run: seq<Scan>, k: nat)
    requires Run(run) && k < |run|
    ensures Orderly(run[k].events) && Inv(run[k])
    decreases k
  {
    hide Inv, Act;
    if k == 0 {
      NothingCalled(run[0]);
    } else {
      RunIsOrderly(run, k - 1);
      assert Next(run[k - 1], run[k]);
      var w: nat, action :|
        w < |run[k - 1].scanners| && Can(run[k - 1].scanners[w], action) && run[k] == Act(run[k - 1], w, action);
      ActKeepsInv(run[k - 1], w, action);
    }
    InvIsOrderly(run[k]);
  }

  lemma NothingCalled(s: Scan)
    requires (forall scanner <- s.scanners :: scanner.Idle?) && s.buffers == 0 && s.events == []
    ensures Inv(s)
  {}

  lemma InvIsOrderly(s: Scan)
    requires Inv(s)
    ensures Orderly(s.events)
  {}

  /** So the first error in the file is the one that is thrown, and when all scanners have let go of their buffers, one
      has been thrown if any was found. */
  lemma RunThrowsFirstError(run: seq<Scan>, k: nat, n: nat)
    requires Run(run) && k < |run| && n <= |run[k].events|
    ensures var events := run[k].events;
      && (Throws(events, n) ==> forall e <- events | e.Report? ::
            LogAfter(events, n).error.Some? && !Before(e.e, LogAfter(events, n).error.value))
      && ((forall scanner <- run[k].scanners :: scanner.Idle?) && (exists e <- events :: e.Report?) ==>
            LogAfter(events, |events|).thrown)
  {
    hide LogAfter, Run, Raised;
    var s := run[k];
    RunIsOrderly(run, k);
    if Throws(s.events, n) {
      EarliestErrorWins(s.events, n);
    }
    if (forall scanner <- s.scanners :: scanner.Idle?) && (exists e <- s.events :: e.Report?) {
      var j :| 0 <= j < |s.events| && s.events[j].Report?;
      CountsFollow(s.events, |s.events|);
      forall b: nat | b < s.buffers ensures Published(s.events, |s.events|, b) {
        assert !Held(s, b);
      }
      NoErrorIsSwallowed(s.events, j);
    }
  }

  // ---- The number that is shown, and the units that were parsed ----

  function Flatten(parsed: seq<seq<Unit>>): seq<Unit> {
    if parsed == [] then [] else Flatten(parsed[..|parsed| - 1]) + parsed[|parsed| - 1]
  }

  /** What a scanner has counted is what has been parsed of its buffer, and its chunk is the end of that. */
  ghost predicate Counts(s: Scan, w: nat)
    requires w < |s.scanners|
  {
    var scanner := s.scanners[w];
    !scanner.Idle? ==>
      && scanner.bufIndex < |s.parsed|
      && var units := s.parsed[scanner.bufIndex];
         && scanner.inBuffer == |units|
         && (scanner.Scanning? ==> |scanner.chunk| <= |units| && units[|units| - |scanner.chunk|..] == scanner.chunk)
  }

  /** What a call says about a buffer is true of the units parsed in it. */
  ghost predicate IsTrue(s: Scan, e: Event) {
    match e
    case NewBuffer => true
    case Publish(b, n) => b < |s.parsed| && n == |s.parsed[b]|
    case Report(e) =>
      && e.bufIndex < |s.parsed| && e.bufIndex in s.failures
      && match s.failures[e.bufIndex]
         case NotParsed => e.line == |s.parsed[e.bufIndex]| + 1
         case NotTransformed(unit) => e.line < |s.parsed[e.bufIndex]| && s.parsed[e.bufIndex][e.line] == unit
  }

  ghost predicate Recorded(s: Scan) {
    && |s.parsed| == s.buffers && (forall w | 0 <= w < |s.scanners| :: Counts(s, w))
    && forall e <- s.events :: IsTrue(s, e)
  }

  lemma ActKeepsRecord(s: Scan, w: nat, action: Action)
    requires Inv(s) && Recorded(s) && w < |s.scanners| && Can(s.scanners[w], action)
    ensures Recorded(Act(s, w, action))
  {
    hide Orderly, OrderlyAt, Buffers;
    var s' := Act(s, w, action);
    assert Owns(s, w) && Counts(s, w);
    forall v | 0 <= v < |s'.scanners| ensures Counts(s', v) {
      assert Owns(s, v) && Counts(s, v);
    }
    forall e <- s'.events ensures IsTrue(s', e) {
      if e in s.events {
        assert IsTrue(s, e);
        StaysTrue(s, w, action, e);
      } else {
        assert e == s'.events[|s.events|];
      }
    }
  }

  /** The units of a buffer that is counted or failed do not change. */
  lemma StaysTrue(s: Scan, w: nat, action: Action, e: Event)
    requires Inv(s) && Recorded(s) && w < |s.scanners| && Can(s.scanners[w], action) && e in s.events
    ensures IsTrue(Act(s, w, action), e)
  {
    hide Orderly, OrderlyAt, Buffers;
    assert Owns(s, w) && IsTrue(s, e);
    if e.Publish? {
      var j :| 0 <= j < |s.events| && s.events[j] == e;
      assert Published(s.events, |s.events|, e.bufIndex);
    }
  }

  lemma {:induction false} RunIsRecorded(run: seq<Scan>, k: nat)
    requires Run(run) && k < |run|
    ensures Recorded(run[k])
    decreases k
  {
    hide Inv, Act;
    if k > 0 {
      hide Recorded;
      RunIsRecorded(run, k - 1);
      RunIsOrderly(run, k - 1);
      assert Next(run[k - 1], run[k]);
      var w: nat, action :|
        w < |run[k - 1].scanners| && Can(run[k - 1].scanners[w], action) && run[k] == Act(run[k - 1], w, action);
      ActKeepsRecord(run[k - 1], w, action);
    }
  }

  /** Every unit of a chunk can fail to transform. */
  lemma ChunkCanFail(run: seq<Scan>, k: nat, w: nat, i: nat, message: string)
    requires Run(run) && k < |run| && w < |run[k].scanners|
    requires run[k].scanners[w].Scanning? && i < |run[k].scanners[w].chunk|
    ensures Can(run[k].scanners[w], FailToTransform(i, message))
  {
    hide Run, Act, IsTrue;
    RunIsRecorded(run, k);
    assert Counts(run[k], w);
  }

  /** A count is the number of units parsed. */
  lemma {:induction false} CountsAreTrue(s: Scan, n: nat, b: nat)
    requires Recorded(s) && n <= |s.events| && b < |LogAfter(s.events, n).counts|
    requires LogAfter(s.events, n).counts[b].Some?
    ensures b < |s.parsed| && LogAfter(s.events, n).counts[b].value == |s.parsed[b]|
    decreases n
  {
    hide Raised, Counts;
    if n > 0 {
      LogStep(s.events, n);
      assert IsTrue(s, s.events[n - 1]);
      var before := LogAfter(s.events, n - 1);
      hide LogAfter;
      if b < |before.counts| && before.counts[b].Some? {
        CountsAreTrue(s, n - 1, b);
      }
    }
  }

  lemma {:induction false} TotalIsLength(counts: seq<Option<nat>>, parsed: seq<seq<Unit>>, n: nat)
    requires n <= |counts| && n <= |parsed| && forall b | 0 <= b < n :: counts[b] == Some(|parsed[b]|)
    ensures Total(counts, n) == |Flatten(parsed[..n])|
    decreases n
  {
    if n > 0 {
      TotalIsLength(counts, parsed, n - 1);
      assert parsed[..n][..n - 1] == parsed[..n - 1];
    }
  }

  /** The units of a buffer come right behind those of the buffers before it. */
  lemma {:induction false} FlattenAt(parsed: seq<seq<Unit>>, b: nat, i: nat)
    requires b < |parsed| && i < |parsed[b]|
    ensures |Flatten(parsed[..b])| + i < |Flatten(parsed)|
    ensures Flatten(parsed)[|Flatten(parsed[..b])| + i] == parsed[b][i]
    decreases |parsed|
  {
    var front := parsed[..|parsed| - 1];
    if b < |front| {
      assert front[..b] == parsed[..b];
      FlattenAt(front, b, i);
    }
  }

  /** The number shown with an error is that of the unit among all units parsed, counted from 1, if it does not
      transform, whatever the scanners did in between. For a unit that does not parse it is higher by one: 2 more than
      the units parsed before it. */
  lemma NumberIsOfUnit(run: seq<Scan>, k: nat, n: nat)
    requires Run(run) && k < |run| && n <= |run[k].events| && Throws(run[k].events, n)
    ensures var s, log := run[k], LogAfter(run[k].events, n);
      && log.error.Some? && Raised(log).Throw? && log.error.value.bufIndex in s.failures
      && var b, number := log.error.value.bufIndex, Raised(log).line;
         match s.failures[b]
         case NotTransformed(unit) => 0 < number <= |Flatten(s.parsed)| && Flatten(s.parsed)[number - 1] == unit
         case NotParsed => b < |s.parsed| && number == |Flatten(s.parsed[..b + 1])| + 2
  {
    hide LogAfter, Run, Orderly, Counts, Flatten;
    var s, log := run[k], LogAfter(run[k].events, n);
    RunIsOrderly(run, k);
    RunIsRecorded(run, k);
    KeptErrorIsLeast(s.events, n);
    var e := log.error.value;
    var j :| 0 <= j < n && s.events[j] == Report(e);
    assert IsTrue(s, s.events[j]);
    forall b | 0 <= b < e.bufIndex ensures log.counts[b] == Some(|s.parsed[b]|) {
      CountsAreTrue(s, n, b);
    }
    TotalIsLength(log.counts, s.parsed, e.bufIndex);
    if s.failures[e.bufIndex].NotTransformed? {
      FlattenAt(s.parsed, e.bufIndex, e.line);
    } else {
      FlattenNext(s.parsed, e.bufIndex);
    }
  }

  lemma FlattenNext(parsed: seq<seq<Unit>>, b: nat)
    requires b < |parsed|
    ensures Flatten(parsed[..b + 1]) == Flatten(parsed[..b]) + parsed[b]
  {
    assert parsed[..b + 1][..b] == parsed[..b];
  }

  /** Where in the file a report belongs: so many units, of all that were parsed, come before it. */
  ghost function Place(s: Scan, e: JSONError): nat
    requires IsTrue(s, Report(e))
  {
    |Flatten(s.parsed[..e.bufIndex])| +
      match s.failures[e.bufIndex]
      case NotParsed => |s.parsed[e.bufIndex]|
      case NotTransformed(_) => e.line
  }

  /** No error that is found at any time, before the throw or after it, has its place before the one thrown. */
  lemma FirstInFile(run: seq<Scan>, k: nat, n: nat, e: JSONError)
    requires Run(run) && k < |run| && n <= |run[k].events| && Throws(run[k].events, n) && Report(e) in run[k].events
    ensures var s, kept := run[k], LogAfter(run[k].events, n).error;
      && kept.Some? && IsTrue(s, Report(kept.value)) && IsTrue(s, Report(e)) && Place(s, kept.value) <= Place(s, e)
  {
    hide LogAfter, Run, Orderly, Counts, Flatten;
    var s := run[k];
    RunIsOrderly(run, k);
    RunIsRecorded(run, k);
    KeptErrorIsLeast(s.events, n);
    EarliestErrorWins(s.events, n);
    var kept := LogAfter(s.events, n).error.value;
    assert IsTrue(s, Report(e)) && IsTrue(s, Report(kept));
    var j :| 0 <= j < |s.events| && s.events[j] == Report(e);
    if kept.bufIndex < e.bufIndex {
      FlattenNext(s.parsed, kept.bufIndex);
      FlattenGrows(s.parsed, kept.bufIndex + 1, e.bufIndex);
    }
  }

  lemma {:induction false} FlattenGrows(parsed: seq<seq<Unit>>, a: nat, b: nat)
    requires a <= b <= |parsed|
    ensures |Flatten(parsed[..a])| <= |Flatten(parsed[..b])|
    decreases b
  {
    if a < b {
      FlattenGrows(parsed, a, b - 1);
      FlattenNext(parsed, b - 1);
    }
  }
}
