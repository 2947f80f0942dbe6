/** The protocol of a parallel newline-delimited scan: scanners claim ranges of the file, publish buffers in a shared
    map, copy the tail of the buffer before their own and release reference-counted buffers. A state holds what the
    scanners share and how far each of them is; every interleaving of their atomic steps is a run. */
module JsonParallel {
  import opened Wrappers
  import opened JsonText
  import opened JsonSplit
  import opened JsonBlocks

  const YYJSON_PADDING_SIZE: nat := 4

  /** What does not change during a scan: the file and maximum_object_size, which is half the buffer capacity. */
  datatype Job = Job(file: Bytes, max: nat) {
    ghost predicate Valid() { max > YYJSON_PADDING_SIZE }

    function Request(): int { max - YYJSON_PADDING_SIZE }
  }

  /** Between two of its atomic steps, a scanner is in one of these stages with its buffer. */
  datatype Stage =
    | Claimed    // has a buffer index and a range of the file
    | Published  // buffer read and in the map; waits for the previous buffer
    | TailCopied // previous tail copied; still counted as a reader of the previous buffer
    | Unlinking  // was the last reader of the previous buffer, has to remove it
    | Scanning
    | Scanned    // all units delivered
    | Counted    // line count published
    | Removing   // was the last reader of its own buffer, has to remove it
    | Finished

  datatype Task = Task(pos: nat, size: nat, stage: Stage, offset: nat, units: seq<Bytes>, count: Option<nat>)

  datatype Buffer = Buffer(bytes: Bytes, start: nat, readers: int)

  datatype Worker = Idle | On(i: nat) | Gone

  /** `crashed` records an access to a buffer that is not in the map, a buffer published twice, or a reader count
      below zero; `thrown` records the error for a value above the maximum size. */
  datatype State = State(
    readPosition: nat, lastReadRequested: bool, tasks: seq<Task>, buffers: map<nat, Buffer>,
    workers: seq<Worker>, thrown: bool, crashed: bool)

  ghost predicate Init(s: State) {
    s == State(0, false, [], map[], s.workers, false, false) && forall w <- s.workers :: w == Idle
  }

  ghost predicate Enabled(s: State, w: nat) {
    && w < |s.workers| && !s.thrown && !s.crashed
    && match s.workers[w]
       case Idle => true
       case Gone => false
       case On(i) =>
         i < |s.tasks| && s.tasks[i].stage != Finished
         && (s.tasks[i].stage == Published && i > 0 ==> i - 1 in s.buffers)  // the spin loop
  }

  ghost function At(s: State, i: nat, stage: Stage): State
    requires i < |s.tasks|
  {
    s.(tasks := s.tasks[i := s.tasks[i].(stage := stage)])
  }

  ghost function Crash(s: State): State { s.(crashed := true) }

  /** GetPositionAndSize and GetBufferIndex, under the lock of the file list. */
  ghost function Claim(job: Job, s: State, w: nat): State
    requires w < |s.workers|
  {
    if s.lastReadRequested then s.(workers := s.workers[w := Gone])
    else
      var end := Next(job, s.readPosition);
      if end < s.readPosition then Crash(s)
      else
        s.(readPosition := end,
           lastReadRequested := end == s.readPosition,
           tasks := s.tasks + [Task(s.readPosition, end - s.readPosition, Claimed, 0, [], None)],
           workers := s.workers[w := On(|s.tasks|)])
  }

  function Next(job: Job, pos: nat): int {
    if job.Request() < |job.file| - pos then pos + job.Request() else |job.file|
  }

  /** ReadNextBufferSeek and InsertBuffer; the bytes in front of the block are arbitrary. */
  ghost function Publish(job: Job, s: State, i: nat, junk: Bytes): State
    requires i < |s.tasks|
  {
    var t := s.tasks[i];
    if i in s.buffers || t.pos + t.size > |job.file| then Crash(s)
    else
      s.(tasks := s.tasks[i := t.(stage := Published, offset := job.max)],
         buffers := s.buffers[i :=
           Buffer(junk + job.file[t.pos..t.pos + t.size], job.max, if t.size == 0 then 1 else 2)])
  }

  /** CopyRemainderFromPreviousBuffer up to the memcpy. */
  ghost function Copy(job: Job, s: State, i: nat): State
    requires i < |s.tasks|
  {
    if i == 0 then At(s, i, Scanning)
    else if i - 1 !in s.buffers || i !in s.buffers then Crash(s)
    else
      var prev, own := s.buffers[i - 1], s.buffers[i];
      if prev.start >= |prev.bytes| || job.max > |own.bytes| then Crash(s)
      else
        var tail := Tail(prev.bytes[prev.start..]);
        if |tail| > job.max then s.(thrown := true)
        else
          s.(tasks := s.tasks[i :=
            s.tasks[i].(stage := TailCopied, offset := if |tail| == 1 then job.max else job.max - |tail|)],
             buffers := s.buffers[i := own.(bytes := InFront(tail, own.bytes, job.max))])
  }

  ghost function InFront(tail: Bytes, bytes: Bytes, at: nat): Bytes
    requires |tail| <= at <= |bytes|
  {
    bytes[..at - |tail|] + tail + bytes[at..]
  }

  /** --readers on buffer k, by the scanner of buffer i. */
  ghost function Release(s: State, i: nat, k: int, lastReader: Stage, otherwise: Stage): State
    requires i < |s.tasks|
  {
    if k < 0 || k !in s.buffers || s.buffers[k].readers <= 0 then Crash(s)
    else
      var b := s.buffers[k].(readers := s.buffers[k].readers - 1);
      At(s, i, if b.readers == 0 then lastReader else otherwise).(buffers := s.buffers[k := b])
  }

  ghost function Remove(s: State, i: nat, k: int, stage: Stage): State
    requires i < |s.tasks|
  {
    if k < 0 || k !in s.buffers then Crash(s) else At(s, i, stage).(buffers := s.buffers - {k})
  }

  /** ParseNextChunk until the buffer is used up. */
  ghost function Parse(job: Job, s: State, i: nat): State
    requires i < |s.tasks|
  {
    if i !in s.buffers || s.tasks[i].offset > |s.buffers[i].bytes| then Crash(s)
    else
      var text := s.buffers[i].bytes[s.tasks[i].offset..];
      if |Lazy(text).rest| > job.max then s.(thrown := true)
      else s.(tasks := s.tasks[i := s.tasks[i].(stage := Scanned, units := Delivered(text, s.tasks[i].size == 0))])
  }

  ghost function Delivered(text: Bytes, last: bool): seq<Bytes> {
    if last then Split(NewlineDelimited, EveryUnit, text).units else Lazy(text).units
  }

  /** SetBufferLineOrObjectCount. */
  ghost function Count(s: State, i: nat): State
    requires i < |s.tasks|
  {
    if i !in s.buffers || s.tasks[i].count.Some? then Crash(s)
    else s.(tasks := s.tasks[i := s.tasks[i].(stage := Counted, count := Some(|s.tasks[i].units|))])
  }

  ghost function FreeIfFinished(s: State, w: nat, i: nat): State
    requires w < |s.workers|
  {
    if i < |s.tasks| && s.tasks[i].stage == Finished then s.(workers := s.workers[w := Idle]) else s
  }

  /** The next atomic step of worker w. */
  ghost function Act(job: Job, s: State, w: nat, junk: Bytes): State
    requires Enabled(s, w)
  {
    match s.workers[w]
    case Idle => Claim(job, s, w)
    case On(i) => FreeIfFinished(Work(job, s, i, junk), w, i)
  }

  ghost function Work(job: Job, s: State, i: nat, junk: Bytes): State
    requires i < |s.tasks| && s.tasks[i].stage != Finished
  {
    match s.tasks[i].stage
    case Claimed => Publish(job, s, i, junk)
    case Published => Copy(job, s, i)
    case TailCopied => Release(s, i, i - 1, Unlinking, Scanning)
    case Unlinking => Remove(s, i, i - 1, Scanning)
    case Scanning => Parse(job, s, i)
    case Scanned => Count(s, i)
    case Counted => Release(s, i, i, Removing, Finished)
    case Removing => Remove(s, i, i, Finished)
  }

  // ---- The text of each buffer, fixed by the file and the request size ----

  ghost function Pos(job: Job, i: nat): (p: nat)
    requires job.Valid()
    ensures p <= |job.file|
  {
    if i == 0 then 0 else Next(job, Pos(job, i - 1))
  }

  lemma PosStep(job: Job, i: nat)
    requires job.Valid()
    ensures Pos(job, i) <= Pos(job, i + 1) <= Pos(job, i) + job.max - YYJSON_PADDING_SIZE
    ensures Pos(job, i + 1) == Next(job, Pos(job, i))
    ensures Pos(job, i) == Pos(job, i + 1) <==> Pos(job, i) == |job.file|
  {}

  ghost function Block(job: Job, i: nat): Bytes
    requires job.Valid()
  {
    PosStep(job, i);
    job.file[Pos(job, i)..Pos(job, i + 1)]
  }

  ghost function Text(job: Job, i: nat): Bytes
    requires job.Valid()
  {
    if i == 0 || Block(job, i - 1) == [] then Block(job, i) else Carried(Block(job, i - 1)) + Block(job, i)
  }

  ghost function Units(job: Job, i: nat): seq<Bytes>
    requires job.Valid()
  {
    Delivered(Text(job, i), Block(job, i) == [])
  }

  /** The scanner of buffer i raises the size error. */
  ghost predicate TooLong(job: Job, i: nat)
    requires job.Valid()
  {
    |Lazy(Text(job, i)).rest| > job.max
  }

  ghost predicate SomeTooLong(job: Job)
    requires job.Valid()
  {
    exists i: nat :: TooLong(job, i)
  }

  // ---- The invariant ----

  /** The ranges claimed follow each other without gaps; only the last one may be empty. */
  ghost predicate Ranges(job: Job, s: State)
    requires job.Valid()
  {
    && s.readPosition == Pos(job, |s.tasks|)
    && (s.tasks == [] ==> !s.lastReadRequested)
    && (forall i | 0 <= i < |s.tasks| :: RangeAt(job, s, i))
  }

  ghost predicate RangeAt(job: Job, s: State, i: nat)
    requires job.Valid() && i < |s.tasks|
  {
    && s.tasks[i].pos == Pos(job, i) && s.tasks[i].pos + s.tasks[i].size == Pos(job, i + 1)
    && (s.tasks[i].size == 0 <==> i + 1 == |s.tasks| && s.lastReadRequested)
  }

  function Rank(stage: Stage): nat {
    match stage
    case Claimed => 0
    case Published => 1
    case TailCopied => 2
    case Unlinking => 3
    case Scanning => 4
    case Scanned => 5
    case Counted => 6
    case Removing => 7
    case Finished => 8
  }

  ghost predicate Within(s: State, i: nat, from: Stage, to: Stage) {
    i < |s.tasks| && Rank(from) <= Rank(s.tasks[i].stage) <= Rank(to)
  }

  /** The scanner of buffer i is counted among its readers. */
  ghost predicate OwnReads(s: State, i: nat) {
    Within(s, i, Published, Counted)
  }

  /** The scanner of the next buffer has not taken the tail of buffer i yet. */
  ghost predicate NextReads(s: State, i: nat) {
    && i < |s.tasks| && s.tasks[i].stage != Claimed && s.tasks[i].size != 0
    && (i + 1 < |s.tasks| ==> Within(s, i + 1, Claimed, TailCopied))
  }

  ghost predicate BeingRemoved(s: State, i: nat) {
    Within(s, i, Removing, Removing) || Within(s, i + 1, Unlinking, Unlinking)
  }

  ghost function Readers(s: State, i: nat): int {
    (if OwnReads(s, i) then 1 else 0) + (if NextReads(s, i) then 1 else 0)
  }

  /** A buffer is in the map exactly while it has readers or its last reader is about to remove it. */
  ghost predicate Lifetime(s: State, i: nat)
    requires i < |s.tasks|
  {
    && (i in s.buffers <==> Readers(s, i) > 0 || BeingRemoved(s, i))
    && (i in s.buffers ==> s.buffers[i].readers == Readers(s, i))
    && (BeingRemoved(s, i) ==> Readers(s, i) == 0)
    && !(Within(s, i, Removing, Removing) && Within(s, i + 1, Unlinking, Unlinking))
    && (Within(s, i, Claimed, Claimed) && i + 1 < |s.tasks| ==> Within(s, i + 1, Claimed, Published))
    && (i == 0 ==> !Within(s, i, TailCopied, Unlinking))
  }

  ghost predicate Contents(job: Job, s: State, i: nat)
    requires job.Valid() && i < |s.tasks|
  {
    var t := s.tasks[i];
    && (i in s.buffers ==> s.buffers[i].start == job.max && Holds(s.buffers[i].bytes, job.max, Block(job, i)))
    && (t.stage == Published ==> t.offset == job.max)
    && (Within(s, i, TailCopied, Scanning) ==> i in s.buffers && Holds(s.buffers[i].bytes, t.offset, Text(job, i)))
    && (Within(s, i, Scanned, Finished) ==> t.units == Units(job, i) && !TooLong(job, i))
    && (t.count == if Within(s, i, Counted, Finished) then Some(|t.units|) else None)
  }

  /** Buffer bytes from `offset` to the end are `text`. */
  ghost predicate Holds(bytes: Bytes, offset: nat, text: Bytes) { offset <= |bytes| && bytes[offset..] == text }

  ghost predicate Busy(s: State, i: nat) { exists w :: 0 <= w < |s.workers| && s.workers[w] == On(i) }

  ghost predicate Assignment(s: State) {
    && (forall w | 0 <= w < |s.workers| && s.workers[w].On? ::
          s.workers[w].i < |s.tasks| && s.tasks[s.workers[w].i].stage != Finished)
    && (forall v, w | 0 <= v < w < |s.workers| && s.workers[v].On? :: s.workers[v] != s.workers[w])
    && (forall i | 0 <= i < |s.tasks| && s.tasks[i].stage != Finished :: Busy(s, i))
    && (forall w | 0 <= w < |s.workers| && s.workers[w] == Gone :: s.lastReadRequested)
  }

  ghost predicate Inv(job: Job, s: State)
    requires job.Valid()
  {
    && !s.crashed && (s.thrown ==> SomeTooLong(job))
    && Ranges(job, s) && Assignment(s)
    && (forall k <- s.buffers :: k < |s.tasks|)
    && (forall i | 0 <= i < |s.tasks| :: Lifetime(s, i))
    && (forall i | 0 <= i < |s.tasks| :: Contents(job, s, i))
  }

  // ---- Every step keeps the invariant ----

  /** s' differs from s in task i, not in its range, and in the buffers named. */
  ghost predicate Changes(s: State, s': State, i: nat, keys: set<nat>) {
    && i < |s.tasks| == |s'.tasks| && !s'.crashed
    && s'.readPosition == s.readPosition && s'.lastReadRequested == s.lastReadRequested
    && (forall j | 0 <= j < |s.tasks| && j != i :: s'.tasks[j] == s.tasks[j])
    && s'.tasks[i].pos == s.tasks[i].pos && s'.tasks[i].size == s.tasks[i].size
    && (forall k | k !in keys ::
         (k in s'.buffers <==> k in s.buffers) && (k in s.buffers ==> s'.buffers[k] == s.buffers[k]))
    && (forall k <- keys :: k in s'.buffers ==> k < |s.tasks|)
  }

  ghost predicate Works(job: Job, s: State, i: nat, stage: Stage) {
    && job.Valid() && Inv(job, s) && i < |s.tasks| && s.tasks[i].stage == stage
    && (stage == Published && i > 0 ==> i - 1 in s.buffers)
  }

  // A step of the scanner of buffer i only matters to buffers i and i - 1.

  lemma LifetimeElsewhere(s: State, s': State, i: nat, keys: set<nat>, j: nat)
    requires Changes(s, s', i, keys) && keys <= {i, i - 1} && j < |s.tasks| && j != i && j + 1 != i
    requires Lifetime(s, j)
    ensures Lifetime(s', j)
  {}

  lemma ContentsElsewhere(job: Job, s: State, s': State, i: nat, keys: set<nat>, j: nat)
    requires job.Valid() && Changes(s, s', i, keys) && keys <= {i, i - 1} && j < |s.tasks| && j != i
    requires Contents(job, s, j)
    requires j in keys && j in s'.buffers ==>
      j in s.buffers && s'.buffers[j].bytes == s.buffers[j].bytes && s'.buffers[j].start == s.buffers[j].start
    requires j in keys && j !in s'.buffers ==> !Within(s, j, TailCopied, Scanning)
    ensures Contents(job, s', j)
  {
    hide Block, Text, Units, Holds, TooLong;
  }

  lemma RangesKept(job: Job, s: State, s': State, i: nat, keys: set<nat>)
    requires job.Valid() && Ranges(job, s) && Changes(s, s', i, keys)
    ensures Ranges(job, s')
  {
    hide Pos;
    forall j | 0 <= j < |s.tasks| ensures RangeAt(job, s', j) {
      assert RangeAt(job, s, j);
    }
  }

  /** Buffer k is gone with nobody left to read it, or still has the same bytes. */
  ghost predicate SameBytes(s: State, s': State, k: nat) {
    if k in s'.buffers then k in s.buffers && s'.buffers[k].bytes == s.buffers[k].bytes &&
      s'.buffers[k].start == s.buffers[k].start
    else !Within(s, k, TailCopied, Scanning)
  }

  lemma StepKept(job: Job, s: State, s': State, i: nat, keys: set<nat>)
    requires job.Valid() && Inv(job, s) && Changes(s, s', i, keys) && keys <= {i, i - 1} && Assignment(s')
    requires s'.thrown == s.thrown
    requires Lifetime(s', i) && Contents(job, s', i)
    requires i > 0 ==> Lifetime(s', i - 1)
    requires i > 0 && i - 1 in keys ==> SameBytes(s, s', i - 1)
    ensures Inv(job, s')
  {
    hide Lifetime, Contents, Ranges, Assignment;
    RangesKept(job, s, s', i, keys);
    forall j | 0 <= j < |s.tasks| ensures Lifetime(s', j) {
      if j != i && j + 1 != i {
        LifetimeElsewhere(s, s', i, keys, j);
      }
    }
    forall j | 0 <= j < |s.tasks| ensures Contents(job, s', j) {
      if j != i {
        ContentsElsewhere(job, s, s', i, keys, j);
      }
    }
  }

  lemma WorkersKept(s: State, s': State, i: nat, keys: set<nat>)
    requires Assignment(s) && Changes(s, s', i, keys) && s'.workers == s.workers
    requires s.tasks[i].stage != Finished && s'.tasks[i].stage != Finished
    ensures Assignment(s')
  {
    forall j | 0 <= j < |s'.tasks| && s'.tasks[j].stage != Finished ensures Busy(s', j) {
      assert Busy(s, j);
    }
  }

  lemma WorkerFreed(s: State, s': State, w: nat, i: nat, keys: set<nat>)
    requires Assignment(s) && Changes(s, s', i, keys) && w < |s.workers| && s.workers[w] == On(i)
    requires s'.workers == s.workers[w := Idle] && s'.tasks[i].stage == Finished
    ensures Assignment(s')
  {
    forall j | 0 <= j < |s'.tasks| && s'.tasks[j].stage != Finished ensures Busy(s', j) {
      assert Busy(s, j);
      var v :| 0 <= v < |s.workers| && s.workers[v] == On(j);
      assert s'.workers[v] == On(j);
    }
  }

  /** An idle worker leaves, or starts on a new task. */
  lemma WorkerClaims(s: State, s': State, w: nat)
    requires Assignment(s) && w < |s.workers| && s.workers[w] == Idle
    requires s.tasks <= s'.tasks && (s.lastReadRequested ==> s'.lastReadRequested)
    requires
      || (s'.workers == s.workers[w := Gone] && |s'.tasks| == |s.tasks| && s.lastReadRequested)
      || (s'.workers == s.workers[w := On(|s.tasks|)] && |s'.tasks| == |s.tasks| + 1
          && s'.tasks[|s.tasks|].stage == Claimed)
    ensures Assignment(s')
  {
    forall i | 0 <= i < |s'.tasks| && s'.tasks[i].stage != Finished ensures Busy(s', i) {
      if i < |s.tasks| {
        assert Busy(s, i);
        var v :| 0 <= v < |s.workers| && s.workers[v] == On(i);
        assert s'.workers[v] == On(i);
      } else {
        assert s'.workers[w] == On(i);
      }
    }
  }

  lemma ClaimKeeps(job: Job, s: State, w: nat)
    requires job.Valid() && Inv(job, s) && w < |s.workers| && s.workers[w] == Idle
    ensures Inv(job, Claim(job, s, w))
  {
    hide Block, Text, Units, Holds, Assignment, Pos, TooLong;
    var s', n := Claim(job, s, w), |s.tasks|;
    PosStep(job, n);
    assert s.tasks <= s'.tasks;
    WorkerClaims(s, s', w);
    ClaimedRanges(job, s, w);
    hide Ranges;
    forall i | 0 <= i < |s'.tasks| ensures Lifetime(s', i) {
      ClaimedLifetime(job, s, w, i);
    }
    forall i | 0 <= i < |s'.tasks| ensures Contents(job, s', i) {
      if i < n {
        assert Contents(job, s, i);
      }
    }
  }

  lemma ClaimedRanges(job: Job, s: State, w: nat)
    requires job.Valid() && Ranges(job, s) && w < |s.workers|
    ensures Ranges(job, Claim(job, s, w))
  {
    hide Pos;
    var s', n := Claim(job, s, w), |s.tasks|;
    PosStep(job, n);
    if n > 0 {
      PosStep(job, n - 1);
      assert RangeAt(job, s, n - 1);
    }
    forall i | 0 <= i < |s'.tasks| ensures RangeAt(job, s', i) {
      if i < n {
        assert RangeAt(job, s, i);
      }
    }
  }

  lemma ClaimedLifetime(job: Job, s: State, w: nat, i: nat)
    requires job.Valid() && Inv(job, s) && w < |s.workers| && i < |Claim(job, s, w).tasks|
    ensures Lifetime(Claim(job, s, w), i)
  {
    hide Pos, Contents, Assignment;
    var n := |s.tasks|;
    PosStep(job, n);
    if i < n {
      assert Lifetime(s, i) && RangeAt(job, s, i);
    }
    if n > 0 {
      assert Lifetime(s, n - 1);
    }
  }

  // The steps of a scanner, one by one; each lemma gives the changes and what is left to show for buffers i and i - 1.

  ghost predicate Around(s: State, i: nat)
    requires i < |s.tasks|
  {
    Lifetime(s, i) && (i > 0 ==> Lifetime(s, i - 1))
  }

  lemma Facts(job: Job, s: State, i: nat, stage: Stage)
    requires Works(job, s, i, stage)
    ensures Around(s, i) && Contents(job, s, i) && RangeAt(job, s, i) && Assignment(s) && !s.crashed
    ensures i > 0 ==> Contents(job, s, i - 1) && RangeAt(job, s, i - 1)
  {}

  lemma PublishContents(job: Job, s: State, i: nat, junk: Bytes)
    requires Works(job, s, i, Claimed) && |junk| == job.max
    ensures var s' := Publish(job, s, i, junk);
      && Changes(s, s', i, {i}) && s'.thrown == s.thrown && s'.workers == s.workers && s'.tasks[i].stage == Published
      && Contents(job, s', i)
      && i in s'.buffers && s'.buffers[i].readers == if s.tasks[i].size == 0 then 1 else 2
  {
    hide Inv, Ranges, Assignment, Text, Units, Pos, TooLong;
    Facts(job, s, i, Claimed);
    var bytes := Publish(job, s, i, junk).buffers[i].bytes;
    assert bytes[job.max..] == job.file[s.tasks[i].pos..s.tasks[i].pos + s.tasks[i].size];
  }

  lemma PublishReaders(s: State, s': State, i: nat)
    requires Changes(s, s', i, {i}) && Around(s, i) && s.tasks[i].stage == Claimed && s'.tasks[i].stage == Published
    requires i in s'.buffers && s'.buffers[i].readers == if s.tasks[i].size == 0 then 1 else 2
    requires i > 0 ==> s.tasks[i - 1].size != 0
    requires s.tasks[i].size == 0 ==> i + 1 == |s.tasks|
    ensures Around(s', i)
  {}

  lemma PublishKeeps(job: Job, s: State, i: nat, junk: Bytes)
    requires Works(job, s, i, Claimed) && |junk| == job.max
    ensures Inv(job, Publish(job, s, i, junk))
  {
    hide Inv, Ranges, Assignment, Publish, Contents, Lifetime;
    var s' := Publish(job, s, i, junk);
    Facts(job, s, i, Claimed);
    PublishContents(job, s, i, junk);
    PublishReaders(s, s', i);
    WorkersKept(s, s', i, {i});
    StepKept(job, s, s', i, {i});
  }

  lemma BytesInFront(bytes: Bytes, at: nat, tail: Bytes)
    requires |tail| <= at <= |bytes|
    ensures var b := InFront(tail, bytes, at);
            |b| == |bytes| && b[at..] == bytes[at..] && b[at - |tail|..] == tail + bytes[at..]
  {}

  /** The tail fits: the previous buffer is in the map, its block is not empty and no longer than the room in front. */
  lemma CopyIsSafe(job: Job, s: State, i: nat)
    requires Works(job, s, i, Published) && i > 0
    ensures i in s.buffers && i - 1 in s.buffers && job.max <= |s.buffers[i].bytes|
    ensures s.buffers[i - 1].start == job.max && Holds(s.buffers[i - 1].bytes, job.max, Block(job, i - 1))
    ensures Block(job, i - 1) != [] && |Tail(Block(job, i - 1))| <= job.max
  {
    hide Text, Units, Pos, LastNewline, TooLong;
    assert Lifetime(s, i) && Contents(job, s, i) && Contents(job, s, i - 1);
    assert RangeAt(job, s, i - 1);
    PosStep(job, i - 1);
  }

  lemma OwnIsPublished(job: Job, s: State, i: nat)
    requires Works(job, s, i, Published)
    ensures i in s.buffers && s.buffers[i].start == job.max && Holds(s.buffers[i].bytes, job.max, Block(job, i))
    ensures s.tasks[i].offset == job.max && s.tasks[i].count.None? && !s.crashed
  {
    Facts(job, s, i, Published);
    hide Inv, Ranges, RangeAt, Assignment, Text, Units, Pos, Block, TooLong, Holds;
  }

  /** The state after a copy, and the text that it makes. */
  lemma Copied(job: Job, s: State, i: nat)
    requires Works(job, s, i, Published) && i > 0
    ensures i in s.buffers && Block(job, i - 1) != []
    ensures |Tail(Block(job, i - 1))| <= job.max <= |s.buffers[i].bytes|
    ensures var tail, own := Tail(Block(job, i - 1)), s.buffers[i];
      var bytes, offset := InFront(tail, own.bytes, job.max), if |tail| == 1 then job.max else job.max - |tail|;
      && Copy(job, s, i) == s.(tasks := s.tasks[i := s.tasks[i].(stage := TailCopied, offset := offset)],
                               buffers := s.buffers[i := own.(bytes := bytes)])
      && Holds(bytes, offset, Text(job, i)) && Holds(bytes, job.max, Block(job, i))
  {
    CopyIsSafe(job, s, i);
    OwnIsPublished(job, s, i);
    hide Inv, Ranges, RangeAt, Assignment, Units, Pos, Tail, Block, TooLong, Lifetime, Contents, InFront;
    BytesInFront(s.buffers[i].bytes, job.max, Tail(Block(job, i - 1)));
  }

  lemma CopyContents(job: Job, s: State, i: nat)
    requires Works(job, s, i, Published)
    ensures var s' := Copy(job, s, i);
      && Changes(s, s', i, {i}) && s'.workers == s.workers && s'.thrown == s.thrown && Contents(job, s', i)
      && s'.tasks[i].stage == (if i == 0 then Scanning else TailCopied)
      && i in s.buffers && i in s'.buffers && s'.buffers[i] == s.buffers[i].(bytes := s'.buffers[i].bytes)
  {
    hide Inv, Ranges, RangeAt, Assignment, Lifetime, Units, Pos, Tail, Block, TooLong, Holds, InFront;
    OwnIsPublished(job, s, i);
    if i > 0 {
      Copied(job, s, i);
      hide Copy, Text;
    }
  }

  lemma CopyReaders(s: State, s': State, i: nat)
    requires Changes(s, s', i, {i}) && Around(s, i) && s.tasks[i].stage == Published
    requires s'.tasks[i].stage == if i == 0 then Scanning else TailCopied
    requires i in s.buffers && i in s'.buffers && s'.buffers[i].readers == s.buffers[i].readers
    requires i > 0 ==> i - 1 in s.buffers && s.tasks[i - 1].size != 0
    ensures Around(s', i)
  {}

  lemma CopyKeeps(job: Job, s: State, i: nat)
    requires Works(job, s, i, Published)
    ensures Inv(job, Copy(job, s, i)) && Copy(job, s, i).thrown == s.thrown
  {
    hide Inv, Ranges, Assignment, Copy, Contents, Lifetime;
    var s' := Copy(job, s, i);
    Facts(job, s, i, Published);
    CopyContents(job, s, i);
    CopyReaders(s, s', i);
    WorkersKept(s, s', i, {i});
    StepKept(job, s, s', i, {i});
  }

  lemma ReleaseContents(job: Job, s: State, i: nat)
    requires Works(job, s, i, TailCopied)
    ensures var s' := Release(s, i, i - 1, Unlinking, Scanning);
      && i > 0 && Changes(s, s', i, {i - 1}) && s'.thrown == s.thrown && s'.workers == s.workers && Contents(job, s', i)
      && i - 1 in s.buffers && i - 1 in s'.buffers
      && s'.buffers[i - 1] == s.buffers[i - 1].(readers := s.buffers[i - 1].readers - 1)
      && s'.tasks[i].stage == if s'.buffers[i - 1].readers == 0 then Unlinking else Scanning
  {
    hide Inv, Ranges, Assignment, Block, Text, Units, Holds, Pos, TooLong;
    Facts(job, s, i, TailCopied);
  }

  lemma ReleaseReaders(s: State, s': State, i: nat)
    requires i > 0 && Changes(s, s', i, {i - 1}) && Around(s, i) && s.tasks[i].stage == TailCopied
    requires i - 1 in s.buffers && i - 1 in s'.buffers && s'.buffers[i - 1].readers == s.buffers[i - 1].readers - 1
    requires s'.tasks[i].stage == if s'.buffers[i - 1].readers == 0 then Unlinking else Scanning
    requires s.tasks[i - 1].size != 0
    ensures Around(s', i)
  {}

  /** The scanner of buffer i is no longer a reader of the buffer before. */
  lemma ReleaseKeeps(job: Job, s: State, i: nat)
    requires Works(job, s, i, TailCopied)
    ensures Inv(job, Release(s, i, i - 1, Unlinking, Scanning))
  {
    hide Inv, Ranges, Assignment, Release, Contents, Lifetime;
    var s' := Release(s, i, i - 1, Unlinking, Scanning);
    Facts(job, s, i, TailCopied);
    ReleaseContents(job, s, i);
    ReleaseReaders(s, s', i);
    WorkersKept(s, s', i, {i - 1});
    StepKept(job, s, s', i, {i - 1});
  }

  lemma UnlinkContents(job: Job, s: State, i: nat)
    requires Works(job, s, i, Unlinking)
    ensures var s' := Remove(s, i, i - 1, Scanning);
      && i > 0 && Changes(s, s', i, {i - 1}) && s'.thrown == s.thrown && s'.workers == s.workers && Contents(job, s', i)
      && i - 1 !in s'.buffers && s'.tasks[i].stage == Scanning && !Within(s, i - 1, TailCopied, Scanning)
  {
    hide Inv, Ranges, Assignment, Block, Text, Units, Holds, Pos, TooLong;
    Facts(job, s, i, Unlinking);
  }

  lemma UnlinkReaders(s: State, s': State, i: nat)
    requires i > 0 && Changes(s, s', i, {i - 1}) && Around(s, i)
    requires s.tasks[i].stage == Unlinking && s'.tasks[i].stage == Scanning && i - 1 !in s'.buffers
    ensures Around(s', i)
  {}

  lemma UnlinkKeeps(job: Job, s: State, i: nat)
    requires Works(job, s, i, Unlinking)
    ensures Inv(job, Remove(s, i, i - 1, Scanning))
  {
    hide Inv, Ranges, Assignment, Remove, Contents, Lifetime;
    var s' := Remove(s, i, i - 1, Scanning);
    Facts(job, s, i, Unlinking);
    UnlinkContents(job, s, i);
    UnlinkReaders(s, s', i);
    WorkersKept(s, s', i, {i - 1});
    StepKept(job, s, s', i, {i - 1});
  }

  lemma ParseContents(job: Job, s: State, i: nat)
    requires Works(job, s, i, Scanning) && !s.thrown
    ensures var s' := Parse(job, s, i);
      && !s'.crashed && s'.buffers == s.buffers && s'.workers == s.workers
      && if s'.thrown then s' == s.(thrown := true) && TooLong(job, i)
         else Changes(s, s', i, {}) && Contents(job, s', i) && s'.tasks[i].stage == Scanned
  {
    hide Inv, Ranges, Assignment, Text, Pos, Delivered, Lifetime, Lazy;
    Facts(job, s, i, Scanning);
    PosStep(job, i);
  }

  lemma SameReaders(s: State, s': State, i: nat)
    requires Changes(s, s', i, {}) && Around(s, i) && s'.buffers == s.buffers
    requires Within(s, i, Scanning, Scanned) && Rank(s'.tasks[i].stage) == Rank(s.tasks[i].stage) + 1
    ensures Around(s', i)
  {}

  lemma ParseKeeps(job: Job, s: State, i: nat)
    requires Works(job, s, i, Scanning) && !s.thrown
    ensures Inv(job, Parse(job, s, i))
  {
    hide Inv, Ranges, Assignment, Parse, Contents, Lifetime;
    var s' := Parse(job, s, i);
    Facts(job, s, i, Scanning);
    ParseContents(job, s, i);
    if s'.thrown {
      ThrowKeeps(job, s);
    } else {
      SameReaders(s, s', i);
      WorkersKept(s, s', i, {});
      StepKept(job, s, s', i, {});
    }
  }

  lemma ThrowKeeps(job: Job, s: State)
    requires job.Valid() && Inv(job, s) && SomeTooLong(job)
    ensures Inv(job, s.(thrown := true))
  {
    var s' := s.(thrown := true);
    hide Pos, Block, Text, Units, Holds, TooLong;
    forall j | 0 <= j < |s.tasks|
      ensures RangeAt(job, s', j) && Lifetime(s', j) && Contents(job, s', j) && (Busy(s', j) <==> Busy(s, j))
    {
      assert RangeAt(job, s, j) && Lifetime(s, j) && Contents(job, s, j);
    }
  }

  lemma CountContents(job: Job, s: State, i: nat)
    requires Works(job, s, i, Scanned)
    ensures Changes(s, Count(s, i), i, {}) && Contents(job, Count(s, i), i) && Count(s, i).workers == s.workers
    ensures Count(s, i).thrown == s.thrown
    ensures Count(s, i).buffers == s.buffers && Count(s, i).tasks[i].stage == Counted
  {
    hide Inv, Ranges, Assignment, Block, Text, Units, Holds, TooLong;
    Facts(job, s, i, Scanned);
  }

  lemma CountKeeps(job: Job, s: State, i: nat)
    requires Works(job, s, i, Scanned)
    ensures Inv(job, Count(s, i))
  {
    hide Inv, Ranges, Assignment, Count, Contents, Lifetime;
    Facts(job, s, i, Scanned);
    CountContents(job, s, i);
    SameReaders(s, Count(s, i), i);
    WorkersKept(s, Count(s, i), i, {});
    StepKept(job, s, Count(s, i), i, {});
  }

  lemma ReleaseOwnContents(job: Job, s: State, i: nat)
    requires Works(job, s, i, Counted)
    ensures var s' := Release(s, i, i, Removing, Finished);
      && Changes(s, s', i, {i}) && s'.thrown == s.thrown && s'.workers == s.workers && Contents(job, s', i)
      && i in s.buffers && i in s'.buffers && s'.buffers[i].readers == s.buffers[i].readers - 1
      && s'.tasks[i].stage == if s'.buffers[i].readers == 0 then Removing else Finished
  {
    hide Inv, Ranges, Assignment, Block, Text, Units, Holds, Pos, TooLong;
    Facts(job, s, i, Counted);
  }

  lemma ReleaseOwnReaders(s: State, s': State, i: nat)
    requires Changes(s, s', i, {i}) && Around(s, i) && s.tasks[i].stage == Counted
    requires i in s.buffers && i in s'.buffers && s'.buffers[i].readers == s.buffers[i].readers - 1
    requires s'.tasks[i].stage == if s'.buffers[i].readers == 0 then Removing else Finished
    ensures Around(s', i)
  {}

  lemma ReleaseOwnKeeps(job: Job, s: State, w: nat, i: nat)
    requires Works(job, s, i, Counted) && w < |s.workers| && s.workers[w] == On(i)
    ensures Inv(job, FreeIfFinished(Release(s, i, i, Removing, Finished), w, i))
  {
    hide Inv, Ranges, Assignment, Release, Contents, Lifetime;
    var s' := Release(s, i, i, Removing, Finished);
    Facts(job, s, i, Counted);
    ReleaseOwnContents(job, s, i);
    ReleaseOwnReaders(s, s', i);
    LastStepKeeps(job, s, s', w, i);
  }

  lemma RemoveOwnContents(job: Job, s: State, i: nat)
    requires Works(job, s, i, Removing)
    ensures var s' := Remove(s, i, i, Finished);
      && Changes(s, s', i, {i}) && s'.thrown == s.thrown && s'.workers == s.workers && Contents(job, s', i)
      && i !in s'.buffers && s'.tasks[i].stage == Finished
  {
    hide Inv, Ranges, Assignment, Block, Text, Units, Holds, Pos, TooLong;
    Facts(job, s, i, Removing);
  }

  lemma RemoveOwnReaders(s: State, s': State, i: nat)
    requires Changes(s, s', i, {i}) && Around(s, i)
    requires s.tasks[i].stage == Removing && s'.tasks[i].stage == Finished && i !in s'.buffers
    ensures Around(s', i)
  {}

  lemma RemoveOwnKeeps(job: Job, s: State, w: nat, i: nat)
    requires Works(job, s, i, Removing) && w < |s.workers| && s.workers[w] == On(i)
    ensures Inv(job, FreeIfFinished(Remove(s, i, i, Finished), w, i))
  {
    hide Inv, Ranges, Assignment, Remove, Contents, Lifetime;
    var s' := Remove(s, i, i, Finished);
    Facts(job, s, i, Removing);
    RemoveOwnContents(job, s, i);
    RemoveOwnReaders(s, s', i);
    LastStepKeeps(job, s, s', w, i);
  }

  lemma FreedSame(job: Job, s1: State, w: nat, i: nat)
    requires job.Valid() && w < |s1.workers| && i < |s1.tasks| && Around(s1, i) && Contents(job, s1, i)
    ensures Around(FreeIfFinished(s1, w, i), i) && Contents(job, FreeIfFinished(s1, w, i), i)
  {
    hide Block, Text, Units, Holds, TooLong;
  }

  lemma LastStepKeeps(job: Job, s: State, s1: State, w: nat, i: nat)
    requires job.Valid() && Inv(job, s) && Changes(s, s1, i, {i}) && s1.workers == s.workers && Around(s1, i)
    requires Contents(job, s1, i)
    requires s1.thrown == s.thrown
    requires w < |s.workers| && s.workers[w] == On(i) && s.tasks[i].stage != Finished
    ensures Inv(job, FreeIfFinished(s1, w, i))
  {
    hide Contents, Lifetime, Ranges, Assignment;
    var s' := FreeIfFinished(s1, w, i);
    FreedSame(job, s1, w, i);
    if s1.tasks[i].stage == Finished {
      WorkerFreed(s, s', w, i, {i});
    } else {
      WorkersKept(s, s', i, {i});
    }
    StepKept(job, s, s', i, {i});
  }

  /** No step of any worker breaks the invariant; in particular none crashes. */
  lemma StepKeepsInv(job: Job, s: State, w: nat, junk: Bytes)
    requires job.Valid() && Inv(job, s) && Enabled(s, w) && |junk| == job.max
    ensures Inv(job, Act(job, s, w, junk))
  {
    match s.workers[w]
    case Idle => ClaimKeeps(job, s, w);
    case On(i) =>
      WorkKeeps(job, s, w, i, junk);
  }

  lemma WorkKeeps(job: Job, s: State, w: nat, i: nat, junk: Bytes)
    requires job.Valid() && Inv(job, s) && Enabled(s, w) && |junk| == job.max && s.workers[w] == On(i)
    ensures Inv(job, FreeIfFinished(Work(job, s, i, junk), w, i))
  {
    hide Inv, Publish, Copy, Release, Remove, Parse, Count;
    assert Works(job, s, i, s.tasks[i].stage);
    match s.tasks[i].stage
    case Claimed =>
      PublishContents(job, s, i, junk);
      PublishKeeps(job, s, i, junk);
    case Published =>
      CopyContents(job, s, i);
      CopyKeeps(job, s, i);
    case TailCopied =>
      ReleaseContents(job, s, i);
      ReleaseKeeps(job, s, i);
    case Unlinking =>
      UnlinkContents(job, s, i);
      UnlinkKeeps(job, s, i);
    case Scanning =>
      ParseContents(job, s, i);
      ParseKeeps(job, s, i);
    case Scanned =>
      CountContents(job, s, i);
      CountKeeps(job, s, i);
    case Counted =>
      ReleaseOwnContents(job, s, i);
      ReleaseOwnKeeps(job, s, w, i);
    case Removing =>
      RemoveOwnContents(job, s, i);
      RemoveOwnKeeps(job, s, w, i);
  }

  // ---- Runs ----

  ghost predicate Step(job: Job, s: State, s': State) {
    exists w, junk :: Enabled(s, w) && |junk| == job.max && s' == Act(job, s, w, junk)
  }

  /** Any number of scanners, any interleaving of their steps. */
  ghost predicate Run(job: Job, run: seq<State>) {
    && run != [] && Init(run[0])
    && forall k | 0 < k < |run| :: Step(job, run[k - 1], run[k])
  }

  lemma InitKeepsInv(job: Job, s: State)
    requires job.Valid() && Init(s)
    ensures Inv(job, s)
  {
    forall w | 0 <= w < |s.workers| ensures s.workers[w] == Idle {
      assert s.workers[w] in s.workers;
    }
  }

  lemma {:induction false} RunKeepsInv(job: Job, run: seq<State>, k: nat)
    requires job.Valid() && Run(job, run) && k < |run|
    ensures Inv(job, run[k])
    decreases k
  {
    hide Inv, Act, Enabled;
    if k == 0 {
      InitKeepsInv(job, run[0]);
    } else {
      RunKeepsInv(job, run, k - 1);
      assert Step(job, run[k - 1], run[k]);
      var w, junk :| Enabled(run[k - 1], w) && |junk| == job.max && run[k] == Act(job, run[k - 1], w, junk);
      StepKeepsInv(job, run[k - 1], w, junk);
    }
  }

  /** No buffer is used after its removal, removed or published twice, or released too often, and a buffer is in the
      map exactly while it is published and somebody still reads it or is about to remove it. */
  lemma BuffersLiveLongEnough(job: Job, run: seq<State>, k: nat, i: nat)
    requires job.Valid() && Run(job, run) && k < |run|
    requires i < |run[k].tasks| && run[k].tasks[i].stage != Claimed
    ensures var s := run[k];
      && !s.crashed
      && (!BeingRemoved(s, i) ==> (i in s.buffers <==> Readers(s, i) > 0))
      && (i in s.buffers ==>
           s.buffers[i].readers == Readers(s, i) && (s.buffers[i].readers == 0 <==> BeingRemoved(s, i)))
      && (s.tasks[i].size != 0 && (i + 1 == |s.tasks| || Within(s, i + 1, Claimed, TailCopied)) ==> i in s.buffers)
  {
    hide Contents, Ranges, Assignment;
    RunKeepsInv(job, run, k);
    assert Lifetime(run[k], i);
  }

  /** What the scanner of buffer i relies on when it takes its next step. */
  ghost predicate IsSafe(job: Job, s: State, i: nat)
    requires i < |s.tasks|
  {
    var t := s.tasks[i];
    match t.stage
    case Claimed => i !in s.buffers && t.pos + t.size <= |job.file|
    case Published =>
      i > 0 ==> i - 1 in s.buffers && i in s.buffers
                && s.buffers[i - 1].start < |s.buffers[i - 1].bytes| && job.max <= |s.buffers[i].bytes|
    case TailCopied => i > 0 && i - 1 in s.buffers && s.buffers[i - 1].readers > 0
    case Unlinking => i > 0 && i - 1 in s.buffers && s.buffers[i - 1].readers == 0
    case Scanning => i in s.buffers && t.offset <= |s.buffers[i].bytes|
    case Scanned => i in s.buffers && t.count.None?
    case Counted => i in s.buffers && s.buffers[i].readers > 0
    case Removing => i in s.buffers && s.buffers[i].readers == 0
    case Finished => true
  }

  /** In every run, buffers are there when they are used, released only while they have readers, removed only without
      any, and published and counted once; so no step crashes. */
  lemma StepsAreSafe(job: Job, run: seq<State>, k: nat, w: nat)
    requires job.Valid() && Run(job, run) && k < |run| && Enabled(run[k], w)
    ensures !run[k].crashed && (run[k].workers[w].On? ==> IsSafe(job, run[k], run[k].workers[w].i))
  {
    hide IsSafe;
    RunKeepsInv(job, run, k);
    if run[k].workers[w].On? {
      WorkIsSafe(job, run[k], run[k].workers[w].i);
    }
  }

  lemma WorkIsSafe(job: Job, s: State, i: nat)
    requires job.Valid() && Inv(job, s) && i < |s.tasks| && s.tasks[i].stage != Finished
    requires s.tasks[i].stage == Published && i > 0 ==> i - 1 in s.buffers
    ensures IsSafe(job, s, i)
  {
    hide Text, Units, TooLong, Assignment, Ranges, Pos;
    assert Lifetime(s, i) && Contents(job, s, i) && (i > 0 ==> Lifetime(s, i - 1));
    assert RangeAt(job, s, i) && (i > 0 ==> RangeAt(job, s, i - 1)) by {
      Facts(job, s, i, s.tasks[i].stage);
    }
    if s.tasks[i].stage == Published && i > 0 {
      CopyIsSafe(job, s, i);
    }
  }

  /** Without an error some scanner can always step, until all have left. */
  lemma NoDeadlock(job: Job, run: seq<State>, k: nat)
    requires job.Valid() && Run(job, run) && k < |run|
    ensures run[k].thrown || (forall w <- run[k].workers :: w == Gone) || (exists w :: Enabled(run[k], w))
  {
    hide Contents, Ranges;
    var s := run[k];
    RunKeepsInv(job, run, k);
    if !s.thrown && !(forall w <- s.workers :: w == Gone) {
      var w :| 0 <= w < |s.workers| && s.workers[w] != Gone;
      if s.workers[w] == Idle {
        assert Enabled(s, w);
      } else {
        FirstCanStep(job, s, s.workers[w].i);
      }
    }
  }

  /** The scanner of the first unfinished buffer never waits. */
  lemma {:induction false} FirstCanStep(job: Job, s: State, i: nat)
    requires job.Valid() && Inv(job, s) && !s.thrown && i < |s.tasks| && s.tasks[i].stage != Finished
    ensures exists w :: Enabled(s, w)
    decreases i
  {
    if i > 0 && s.tasks[i - 1].stage != Finished {
      FirstCanStep(job, s, i - 1);
    } else {
      hide Contents, Pos;
      assert Busy(s, i);
      var w :| 0 <= w < |s.workers| && s.workers[w] == On(i);
      if i > 0 {
        assert Lifetime(s, i - 1) && RangeAt(job, s, i - 1);
      }
      assert Enabled(s, w);
    }
  }

  // ---- Every run ends ----

  ghost function Weight(s: State, w: nat): nat
    requires w < |s.workers|
  {
    match s.workers[w]
    case Gone => 0
    case Idle => 1
    case On(i) => if i < |s.tasks| then 10 - Rank(s.tasks[i].stage) else 0
  }

  ghost function Weights(s: State, n: nat): nat
    requires n <= |s.workers|
  {
    if n == 0 then 0 else Weights(s, n - 1) + Weight(s, n - 1)
  }

  ghost function Unread(job: Job, s: State): int {
    if s.lastReadRequested then 0 else |job.file| - s.readPosition + 1
  }

  ghost function Measure(job: Job, s: State): int {
    (if s.thrown then 0 else 1) + 11 * Unread(job, s) + Weights(s, |s.workers|)
  }

  lemma {:induction false} OneWeightChanges(s: State, s': State, w: nat, n: nat)
    requires |s'.workers| == |s.workers| >= n && w < |s.workers|
    requires forall v | 0 <= v < |s.workers| && v != w :: Weight(s', v) == Weight(s, v)
    ensures Weights(s', n) - Weights(s, n) == if w < n then Weight(s', w) - Weight(s, w) else 0
    decreases n
  {
    hide Weight;
    if n > 0 {
      OneWeightChanges(s, s', w, n - 1);
    }
  }

  /** A step of the scanner of buffer i moves on to a later stage, or throws. */
  lemma WorkMovesOn(job: Job, s: State, w: nat, i: nat, junk: Bytes)
    requires job.Valid() && Inv(job, s) && Enabled(s, w) && |junk| == job.max && s.workers[w] == On(i)
    ensures var s' := Work(job, s, i, junk);
      && |s'.tasks| == |s.tasks| && s'.workers == s.workers
      && s'.readPosition == s.readPosition && s'.lastReadRequested == s.lastReadRequested
      && (forall j | 0 <= j < |s.tasks| && j != i :: s'.tasks[j] == s.tasks[j])
      && if s'.thrown then s'.tasks == s.tasks else Rank(s'.tasks[i].stage) > Rank(s.tasks[i].stage)
  {
    hide Inv, Publish, Copy, Release, Remove, Parse, Count, Contents, Lifetime;
    assert Works(job, s, i, s.tasks[i].stage);
    match s.tasks[i].stage
    case Claimed => PublishContents(job, s, i, junk);
    case Published => CopyContents(job, s, i);
    case TailCopied => ReleaseContents(job, s, i);
    case Unlinking => UnlinkContents(job, s, i);
    case Scanning => ParseContents(job, s, i);
    case Scanned => CountContents(job, s, i);
    case Counted => ReleaseOwnContents(job, s, i);
    case Removing => RemoveOwnContents(job, s, i);
  }

  lemma StepLowersMeasure(job: Job, s: State, w: nat, junk: Bytes)
    requires job.Valid() && Inv(job, s) && Enabled(s, w) && |junk| == job.max
    ensures 0 <= Unread(job, s) && Measure(job, Act(job, s, w, junk)) < Measure(job, s)
  {
    hide Contents, Lifetime, Work, Weights, Pos;
    var s', n := Act(job, s, w, junk), |s.tasks|;
    if s.workers[w].On? {
      WorkMovesOn(job, s, w, s.workers[w].i, junk);
    } else {
      PosStep(job, n);
    }
    OneWeightChanges(s, s', w, |s.workers|);
  }

  lemma {:induction false} RunEnds(job: Job, run: seq<State>)
    requires job.Valid() && Run(job, run)
    ensures |run| <= 11 * |job.file| + |run[0].workers| + 13
  {
    RunLowersMeasure(job, run, |run| - 1);
    FirstMeasure(job, run[0], |run[0].workers|);
    RunKeepsInv(job, run, |run| - 1);
    var s := run[|run| - 1];
    assert s.readPosition <= |job.file|;
  }

  lemma {:induction false} RunLowersMeasure(job: Job, run: seq<State>, k: nat)
    requires job.Valid() && Run(job, run) && k < |run|
    ensures Measure(job, run[k]) + k <= Measure(job, run[0])
    decreases k
  {
    hide Inv, Act, Enabled, Measure;
    if k > 0 {
      RunLowersMeasure(job, run, k - 1);
      RunKeepsInv(job, run, k - 1);
      assert Step(job, run[k - 1], run[k]);
      var w, junk :| Enabled(run[k - 1], w) && |junk| == job.max && run[k] == Act(job, run[k - 1], w, junk);
      StepLowersMeasure(job, run[k - 1], w, junk);
    }
  }

  lemma {:induction false} FirstMeasure(job: Job, s: State, n: nat)
    requires Init(s) && n <= |s.workers|
    ensures Weights(s, n) == n
  {
    if n > 0 {
      FirstMeasure(job, s, n - 1);
      assert s.workers[n - 1] in s.workers;
    }
  }

  // ---- What a finished run has delivered ----

  ghost function Blocks(job: Job, n: nat): (blocks: seq<Bytes>)
    requires job.Valid()
    ensures |blocks| == n && forall i | 0 <= i < n :: blocks[i] == Block(job, i)
  {
    seq(n, i requires 0 <= i < n => Block(job, i))
  }

  /** The units of the first n buffers in buffer order. */
  ghost function Collected(tasks: seq<Task>, n: nat): seq<Bytes>
    requires n <= |tasks|
  {
    if n == 0 then [] else Collected(tasks, n - 1) + tasks[n - 1].units
  }

  lemma {:induction false} BlocksJoin(job: Job, n: nat, m: nat)
    requires job.Valid() && m <= n
    ensures Join(Blocks(job, n), m) == job.file[..Pos(job, m)]
    decreases m
  {
    hide Next;
    if m > 0 {
      BlocksJoin(job, n, m - 1);
      PosStep(job, m - 1);
      assert job.file[..Pos(job, m)] == job.file[..Pos(job, m - 1)] + Block(job, m - 1);
    }
  }

  lemma {:induction false} CollectedUnits(job: Job, s: State, n: nat, m: nat)
    requires job.Valid() && Inv(job, s) && m <= n + 1 == |s.tasks| && [] !in Blocks(job, n) && Block(job, n) == []
    requires forall i | 0 <= i < |s.tasks| :: s.tasks[i].stage == Finished
    ensures Collected(s.tasks, m) == UnitsUpTo(Blocks(job, n), m)
    decreases m
  {
    hide Inv, Blocks, Block, Units, BlockUnits, TooLong;
    if m > 0 {
      CollectedUnits(job, s, n, m - 1);
      FinishedUnits(job, s, m - 1);
      OneBlock(job, n, m - 1);
    }
  }

  lemma FinishedUnits(job: Job, s: State, i: nat)
    requires job.Valid() && Inv(job, s) && i < |s.tasks| && s.tasks[i].stage == Finished
    ensures s.tasks[i].units == Units(job, i) && !TooLong(job, i)
  {
    hide Block, Text, Units, Lifetime, Ranges, Assignment, TooLong;
    assert Contents(job, s, i);
  }

  lemma OneBlock(job: Job, n: nat, i: nat)
    requires job.Valid() && i <= n && [] !in Blocks(job, n) && Block(job, n) == []
    ensures Units(job, i) == BlockUnits(Blocks(job, n), i)
  {
    hide Split, Carried, Block, Consume;
    var blocks := Blocks(job, n);
    assert i > 0 ==> blocks[i - 1] in blocks;
    assert i < n ==> blocks[i] in blocks;
    assert Text(job, i) == BlockText(blocks, i);
  }

  lemma BusyIsAtWork(s: State, i: nat)
    requires Assignment(s) && i < |s.tasks| && s.tasks[i].stage != Finished
    ensures On(i) in s.workers
  {
    assert Busy(s, i);
  }

  /** The scanners have left after the empty read that ends the file, and every buffer is finished. */
  lemma AllFinished(job: Job, s: State)
    requires job.Valid() && Inv(job, s) && s.workers != [] && forall w <- s.workers :: w == Gone
    ensures s.tasks != [] && (forall i | 0 <= i < |s.tasks| :: s.tasks[i].stage == Finished)
    ensures [] !in Blocks(job, |s.tasks| - 1) && Block(job, |s.tasks| - 1) == []
    ensures Pos(job, |s.tasks| - 1) == |job.file|
  {
    hide Contents, Lifetime, Pos;
    assert s.workers[0] in s.workers;
    forall i | 0 <= i < |s.tasks| ensures s.tasks[i].stage == Finished {
      if s.tasks[i].stage != Finished {
        BusyIsAtWork(s, i);
        assert false;
      }
    }
    var n := |s.tasks| - 1;
    assert RangeAt(job, s, n);
    PosStep(job, n);
    var blocks := Blocks(job, n);
    forall i | 0 <= i < n ensures blocks[i] != [] {
      assert RangeAt(job, s, i);
    }
  }

  /** A run that cannot go on: no scanner has another step. */
  ghost predicate Maximal(run: seq<State>) { run != [] && Stuck(run[|run| - 1]) }

  ghost predicate Stuck(s: State) { forall w :: !Enabled(s, w) }

  lemma StepKeepsWorkers(job: Job, s: State, w: nat, junk: Bytes)
    requires job.Valid() && Inv(job, s) && Enabled(s, w) && |junk| == job.max
    ensures |Act(job, s, w, junk).workers| == |s.workers|
  {
    hide Contents, Lifetime, Work, Pos;
    if s.workers[w].On? {
      WorkMovesOn(job, s, w, s.workers[w].i, junk);
    }
  }

  lemma {:induction false} RunKeepsWorkers(job: Job, run: seq<State>, k: nat)
    requires job.Valid() && Run(job, run) && k < |run|
    ensures |run[k].workers| == |run[0].workers|
    decreases k
  {
    hide Inv, Act, Enabled;
    if k > 0 {
      RunKeepsWorkers(job, run, k - 1);
      RunKeepsInv(job, run, k - 1);
      assert Step(job, run[k - 1], run[k]);
      var w, junk :| Enabled(run[k - 1], w) && |junk| == job.max && run[k] == Act(job, run[k - 1], w, junk);
      StepKeepsWorkers(job, run[k - 1], w, junk);
    }
  }

  /** Behind the empty read there is nothing to scan. */
  lemma {:induction false} NothingBehind(job: Job, n: nat, i: nat)
    requires job.Valid() && Pos(job, n) == |job.file| && n <= i
    ensures Pos(job, i) == |job.file| && Block(job, i) == [] && (n < i ==> Text(job, i) == [] && !TooLong(job, i))
    decreases i
  {
    hide Lazy;
    PosStep(job, i);
    if n < i {
      NothingBehind(job, n, i - 1);
      PosStep(job, i - 1);
      LazyRestFits([]);
    }
  }

  lemma LazyRestFits(text: Bytes)
    ensures |Lazy(text).rest| <= |text|
  {
    hide Lazy;
    RestIsSuffix(text);
  }

  /** Every buffer that was finished fitted. */
  lemma FinishedFit(job: Job, s: State)
    requires job.Valid() && Inv(job, s) && s.workers != [] && forall w <- s.workers :: w == Gone
    ensures !SomeTooLong(job)
  {
    hide TooLong, Inv;
    AllFinished(job, s);
    forall i: nat ensures !TooLong(job, i) {
      if i < |s.tasks| {
        FinishedUnits(job, s, i);
      } else {
        NothingBehind(job, |s.tasks| - 1, i);
      }
    }
  }

  /** For any number of scanners and any interleaving, a run that cannot go on has raised the size error exactly if some
      buffer is left with an unfinished value above the maximum size. Otherwise all scanners have left, and their units
      in buffer order are the trimmed non-blank lines of the file if and only if no tail is dropped. */
  lemma EveryLineOnce(job: Job, run: seq<State>)
    requires job.Valid() && Run(job, run) && Maximal(run) && run[0].workers != []
    ensures var s := run[|run| - 1];
      && (s.thrown <==> SomeTooLong(job))
      && (!s.thrown ==>
            && (forall w <- s.workers :: w == Gone)
            && s.tasks != [] && [] !in Blocks(job, |s.tasks| - 1)
            && (Collected(s.tasks, |s.tasks|) == NonBlankLines(job.file) <==> KeepsTails(Blocks(job, |s.tasks| - 1))))
  {
    hide Contents, Lifetime, Ranges, Assignment, SomeTooLong, Pos, NonBlankLines, KeepsTails, UnitsUpTo, Join, Block,
      Enabled;
    var s := run[|run| - 1];
    RunKeepsInv(job, run, |run| - 1);
    NoDeadlock(job, run, |run| - 1);
    RunKeepsWorkers(job, run, |run| - 1);
    if !s.thrown {
      FinishedFit(job, s);
      AllFinished(job, s);
      CollectedLines(job, s);
    }
  }

  lemma CollectedLines(job: Job, s: State)
    requires job.Valid() && Inv(job, s) && s.workers != [] && forall w <- s.workers :: w == Gone
    ensures s.tasks != [] && [] !in Blocks(job, |s.tasks| - 1)
    ensures Collected(s.tasks, |s.tasks|) == NonBlankLines(job.file) <==> KeepsTails(Blocks(job, |s.tasks| - 1))
  {
    hide Contents, Lifetime, Ranges, Assignment, Pos, NonBlankLines, KeepsTails, UnitsUpTo, Join, Block;
    AllFinished(job, s);
    var n := |s.tasks| - 1;
    CollectedUnits(job, s, n, n + 1);
    BlocksJoin(job, n, n);
    assert job.file[..|job.file|] == job.file;
    ParallelScanIsExactlyOnce(Blocks(job, n));
  }

  ghost predicate NewlineFrom(job: Job, a: nat)
    requires job.Valid() && a + job.Request() <= |job.file|
  {
    '\n' in job.file[a..a + job.Request()]
  }

  /** Every stretch of one read request holds a newline: no line is longer than a request. */
  ghost predicate NoLongLine(job: Job)
    requires job.Valid()
  {
    forall a | 0 <= a <= |job.file| - job.Request() :: NewlineFrom(job, a)
  }

  /** The files the scan is made for: empty, or with a newline at the end, and without a line longer than a request. */
  ghost predicate Ordinary(job: Job)
    requires job.Valid()
  {
    NoLongLine(job) && (job.file != [] ==> job.file[|job.file| - 1] == '\n')
  }

  lemma EveryBlockHasNewline(job: Job, i: nat)
    requires job.Valid() && Ordinary(job) && Block(job, i) != []
    ensures '\n' in Block(job, i)
  {
    hide Pos;
    PosStep(job, i);
    var a, b := Pos(job, i), Pos(job, i + 1);
    if b == |job.file| {
      assert Block(job, i)[b - a - 1] == '\n';
    } else {
      assert NewlineFrom(job, a);
    }
  }

  lemma BlockFits(job: Job, i: nat)
    requires job.Valid()
    ensures |Block(job, i)| < job.max
  {
    hide Pos;
    PosStep(job, i);
  }

  /** What is left unfinished of an ordinary file is never longer than a block. */
  lemma OrdinaryTextFits(job: Job, i: nat)
    requires job.Valid() && Ordinary(job)
    ensures !TooLong(job, i)
  {
    hide Pos, Block, Lazy, LastNewline, Ordinary;
    var block, front := Block(job, i), if i == 0 || Block(job, i - 1) == [] then [] else Carried(Block(job, i - 1));
    BlockFits(job, i);
    assert Text(job, i) == front + block by { assert [] + block == block; }
    if block != [] {
      EveryBlockHasNewline(job, i);
      RestOfBlock(front, block);
    } else {
      LazyRestFits(Text(job, i));
      if i > 0 {
        BlockFits(job, i - 1);
      }
    }
  }

  /** No state of any run over an ordinary file has raised the size error. */
  lemma OrdinaryFileNeverThrows(job: Job, run: seq<State>, k: nat)
    requires job.Valid() && Run(job, run) && Ordinary(job) && k < |run|
    ensures !run[k].thrown && !SomeTooLong(job)
  {
    hide TooLong, Ordinary, Contents, Lifetime, Ranges, Assignment;
    RunKeepsInv(job, run, k);
    if SomeTooLong(job) {
      var i: nat :| TooLong(job, i);
      OrdinaryTextFits(job, i);
      assert false;
    }
  }

  /** Every run over an ordinary file that cannot go on, and each run ends, has delivered its lines: all scanners have
      left without an error, and their units in buffer order are the trimmed non-blank lines of the file. */
  lemma LinesOfOrdinaryFile(job: Job, run: seq<State>)
    requires job.Valid() && Run(job, run) && Maximal(run) && run[0].workers != [] && Ordinary(job)
    ensures var s := run[|run| - 1];
      && !s.thrown && (forall w <- s.workers :: w == Gone) && Collected(s.tasks, |s.tasks|) == NonBlankLines(job.file)
  {
    hide Inv, Contents, Lifetime, Ranges, Assignment, Pos, NonBlankLines, KeepsTails, Block, Ordinary, SomeTooLong,
      Maximal;
    OrdinaryFileNeverThrows(job, run, |run| - 1);
    EveryLineOnce(job, run);
    var n := |run[|run| - 1].tasks| - 1;
    var blocks := Blocks(job, n);
    forall b | b in blocks ensures '\n' in b {
      var i :| 0 <= i < n && b == blocks[i];
      EveryBlockHasNewline(job, i);
    }
    NewlineInEveryBlock(blocks);
  }
}
