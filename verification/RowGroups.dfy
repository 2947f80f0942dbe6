/** Writing Parquet row groups from several threads: every thread buffers rows, small rests meet in a shared combine
    buffer, and what is large enough is flushed without a lock. The methods are the atomic steps of the threads. */
module RowGroups {
  import opened Wrappers

  const STANDARD_VECTOR_SIZE: nat := 2048

  /** A column data collection; its size in bytes is whatever the allocator makes it. */
  datatype Buffer<Row> = Buffer(rows: seq<Row>, bytes: nat)

  datatype Origin = FromSink | FromCombine | FromMerge | FromFinalize

  datatype Group<Row> = Group(buffer: Buffer<Row>, origin: Origin)

  /** A thread sinks, or is about to flush its buffer, or has combined. After a merge it owns the combine buffer. */
  datatype Stage = Sinking | Flushing(origin: Origin) | Combined

  datatype Thread<Row> = Thread(buffer: Buffer<Row>, stage: Stage)

  ghost function Held<Row>(threads: seq<Thread<Row>>): multiset<Row> {
    if threads == [] then multiset{} else Held(threads[..|threads| - 1]) + multiset(threads[|threads| - 1].buffer.rows)
  }

  ghost function Flushed<Row>(groups: seq<Group<Row>>): multiset<Row> {
    if groups == [] then multiset{} else Flushed(groups[..|groups| - 1]) + multiset(groups[|groups| - 1].buffer.rows)
  }

  class ParquetWrite<Row(==)> {
    const rowGroupSize: nat
    const rowGroupSizeBytes: nat
    var threads: seq<Thread<Row>>
    var combineBuffer: Option<Buffer<Row>>
    var groups: seq<Group<Row>>
    var finalized: bool
    ghost var sunk: multiset<Row>

    predicate AtLeastHalf(b: Buffer<Row>) { |b.rows| >= rowGroupSize / 2 || b.bytes >= rowGroupSizeBytes / 2 }

    predicate Full(b: Buffer<Row>) { |b.rows| >= rowGroupSize || b.bytes >= rowGroupSizeBytes }

    /** The sizes a flushed buffer can have, by who flushes it. */
    ghost predicate Fits(b: Buffer<Row>, origin: Origin) {
      match origin
      case FromSink => Full(b) && |b.rows| < rowGroupSize + STANDARD_VECTOR_SIZE + 1
      case FromCombine => AtLeastHalf(b) && |b.rows| < rowGroupSize + STANDARD_VECTOR_SIZE + 1
      case FromMerge => AtLeastHalf(b) && |b.rows| < rowGroupSize
      case FromFinalize => !AtLeastHalf(b)
    }

    ghost predicate Valid()
      reads this
    {
      && (forall t | 0 <= t < |threads| :: ThreadValid(threads[t]))
      && (combineBuffer.Some? ==> !AtLeastHalf(combineBuffer.value))
      && (forall g <- groups :: g.buffer.rows != [] && Fits(g.buffer, g.origin))
      && (finalized ==> combineBuffer.None? && forall t <- threads :: t.stage == Combined)
      && sunk == Flushed(groups) + Held(threads) + Waiting()
    }

    ghost predicate ThreadValid(t: Thread<Row>) {
      match t.stage
      case Sinking => |t.buffer.rows| <= rowGroupSize
      case Flushing(origin) => origin != FromFinalize && Fits(t.buffer, origin)
      case Combined => t.buffer.rows == []
    }

    ghost function Waiting(): multiset<Row>
      reads this
    {
      if combineBuffer.Some? then multiset(combineBuffer.value.rows) else multiset{}
    }

    constructor (rowGroupSize: nat, rowGroupSizeBytes: nat, threadCount: nat)
      ensures Valid() && fresh(this) && |threads| == threadCount && sunk == multiset{} && groups == [] && !finalized
      ensures this.rowGroupSize == rowGroupSize && this.rowGroupSizeBytes == rowGroupSizeBytes
      ensures forall t <- threads :: t == Thread(Buffer([], 0), Sinking)
    {
      this.rowGroupSize, this.rowGroupSizeBytes := rowGroupSize, rowGroupSizeBytes;
      threads := seq(threadCount, _ => Thread(Buffer([], 0), Sinking));
      combineBuffer, groups, finalized, sunk := None, [], false, multiset{};
      new;
      NothingHeld(threads);
    }

    /** ParquetWriteSink up to the flush. */
    method Sink(t: nat, chunk: seq<Row>, bytes: nat)
      requires Valid() && t < |threads| && threads[t].stage == Sinking && |chunk| <= STANDARD_VECTOR_SIZE
      modifies this`threads, this`sunk
      ensures Valid() && sunk == old(sunk) + multiset(chunk)
      ensures var b := Buffer(old(threads)[t].buffer.rows + chunk, bytes);
              threads == old(threads)[t := Thread(b, if |b.rows| >= rowGroupSize || b.bytes >= rowGroupSizeBytes
                                                     then Flushing(FromSink) else Sinking)]
    {
      hide Held, Flushed;
      var b := Buffer(threads[t].buffer.rows + chunk, bytes);
      assert multiset(b.rows) == multiset(threads[t].buffer.rows) + multiset(chunk);
      SetThread(threads, t, Thread(b, if Full(b) then Flushing(FromSink) else Sinking), multiset{}, multiset(chunk));
      threads := threads[t := Thread(b, if Full(b) then Flushing(FromSink) else Sinking)];
      sunk := sunk + multiset(chunk);
      Conserve(old(Flushed(groups)), old(Held(threads)), Waiting() + multiset(chunk),
               Flushed(groups), Held(threads), Waiting(), multiset{}, multiset(chunk));
      assert old(sunk) + multiset(chunk) == old(Flushed(groups)) + old(Held(threads)) + (Waiting() + multiset(chunk));
    }

    /** ParquetWriter::Flush, which does nothing with an empty buffer and resets the others. */
    method Flush(t: nat)
      requires Valid() && t < |threads| && threads[t].stage.Flushing?
      modifies this`threads, this`groups
      ensures Valid()
      ensures var thread := old(threads)[t];
        && threads == old(threads)[t :=
             Thread(Buffer([], 0), if thread.stage.origin == FromSink then Sinking else Combined)]
        && groups == old(groups) + if thread.buffer.rows == [] then [] else [Group(thread.buffer, thread.stage.origin)]
    {
      hide Held, Flushed;
      var thread := threads[t];
      var next := Thread(Buffer([], 0), if thread.stage.origin == FromSink then Sinking else Combined);
      ghost var rows := multiset(thread.buffer.rows);
      SetThread(threads, t, next, rows, multiset{});
      if thread.buffer.rows != [] {
        OneMoreGroup(groups, Group(thread.buffer, thread.stage.origin));
        groups := groups + [Group(thread.buffer, thread.stage.origin)];
      }
      threads := threads[t := next];
      Conserve(old(Flushed(groups)), old(Held(threads)), Waiting(),
               Flushed(groups), Held(threads), Waiting(), rows, multiset{});
      assert groups == old(groups) +
        if thread.buffer.rows == [] then [] else [Group(thread.buffer, thread.stage.origin)];
    }

    /** ParquetWriteCombine up to the flush, the merge under the lock; `bytes` is the size after the merge. */
    method Combine(t: nat, bytes: nat)
      requires Valid() && t < |threads| && threads[t].stage == Sinking && !finalized
      modifies this`threads, this`combineBuffer
      ensures Valid()
      ensures var b := old(threads)[t].buffer;
        if AtLeastHalf(b) then
          combineBuffer == old(combineBuffer) && threads == old(threads)[t := Thread(b, Flushing(FromCombine))]
        else if old(combineBuffer).None? then
          combineBuffer == Some(b) && threads == old(threads)[t := Thread(Buffer([], 0), Combined)]
        else
          var all := Buffer(old(combineBuffer).value.rows + b.rows, bytes);
          if AtLeastHalf(all) then
            combineBuffer == None && threads == old(threads)[t := Thread(all, Flushing(FromMerge))]
          else combineBuffer == Some(all) && threads == old(threads)[t := Thread(Buffer([], 0), Combined)]
    {
      hide Held, Flushed;
      var b := threads[t].buffer;
      if AtLeastHalf(b) {
        SetThread(threads, t, Thread(b, Flushing(FromCombine)), multiset{}, multiset{});
        threads := threads[t := Thread(b, Flushing(FromCombine))];
        Conserve(Flushed(groups), old(Held(threads)), Waiting(),
                 Flushed(groups), Held(threads), Waiting(), multiset{}, multiset{});
        return;
      }
      Merge(t, bytes);
    }

    /** The part of it under the lock. */
    method Merge(t: nat, bytes: nat)
      requires Valid() && t < |threads| && threads[t].stage == Sinking && !finalized && !AtLeastHalf(threads[t].buffer)
      modifies this`threads, this`combineBuffer
      ensures Valid()
      ensures var b := old(threads)[t].buffer;
        if old(combineBuffer).None? then
          combineBuffer == Some(b) && threads == old(threads)[t := Thread(Buffer([], 0), Combined)]
        else
          var all := Buffer(old(combineBuffer).value.rows + b.rows, bytes);
          if AtLeastHalf(all) then
            combineBuffer == None && threads == old(threads)[t := Thread(all, Flushing(FromMerge))]
          else combineBuffer == Some(all) && threads == old(threads)[t := Thread(Buffer([], 0), Combined)]
    {
      hide Held, Flushed;
      var b := threads[t].buffer;
      ghost var f, h, w, rows := Flushed(groups), Held(threads), Waiting(), multiset(b.rows);
      if combineBuffer.Some? {
        var all := Buffer(combineBuffer.value.rows + b.rows, bytes);
        assert multiset(all.rows) == multiset(combineBuffer.value.rows) + multiset(b.rows);
        if AtLeastHalf(all) {
          SetThread(threads, t, Thread(all, Flushing(FromMerge)), multiset{}, w);
          combineBuffer := None;
          threads := threads[t := Thread(all, Flushing(FromMerge))];
          Conserve(f, h, w, f, Held(threads), Waiting(), multiset{}, w);
        } else {
          SetThread(threads, t, Thread(Buffer([], 0), Combined), rows, multiset{});
          combineBuffer := Some(all);
          threads := threads[t := Thread(Buffer([], 0), Combined)];
          Conserve(f, h, w, f, Held(threads), Waiting(), rows, multiset{});
        }
        return;
      }
      SetThread(threads, t, Thread(Buffer([], 0), Combined), rows, multiset{});
      combineBuffer := Some(b);
      threads := threads[t := Thread(Buffer([], 0), Combined)];
      Conserve(f, h, w, f, Held(threads), Waiting(), rows, multiset{});
    }

    /** ParquetWriteFinalize, called when every thread has combined. */
    method Finalize()
      requires Valid() && (forall t <- threads :: t.stage == Combined) && !finalized
      modifies this`combineBuffer, this`groups, this`finalized
      ensures Valid() && finalized && sunk == Flushed(groups)
      ensures groups == old(groups) + if old(combineBuffer).Some? && old(combineBuffer).value.rows != []
                                      then [Group(old(combineBuffer).value, FromFinalize)] else []
    {
      hide Held, Flushed;
      AllCombined(threads);
      if combineBuffer.Some? && combineBuffer.value.rows != [] {
        OneMoreGroup(groups, Group(combineBuffer.value, FromFinalize));
        groups := groups + [Group(combineBuffer.value, FromFinalize)];
      }
      combineBuffer := None;
      finalized := true;
      assert groups == old(groups) + if old(combineBuffer).Some? && old(combineBuffer).value.rows != []
                                     then [Group(old(combineBuffer).value, FromFinalize)] else [];
    }

    lemma AllCombined(threads: seq<Thread<Row>>)
      requires forall t | 0 <= t < |threads| :: ThreadValid(threads[t])
      requires forall t <- threads :: t.stage == Combined
      ensures Held(threads) == multiset{}
    {
      forall t | 0 <= t < |threads| ensures threads[t].buffer.rows == [] {
        assert threads[t] in threads;
      }
      NothingHeld(threads);
    }
  }

  /** A thread that gets a buffer with `gained` more and `lost` less rows changes what all threads hold by that much. */
  lemma {:induction false} SetThread<Row>(threads: seq<Thread<Row>>, t: nat, thread: Thread<Row>, lost: multiset<Row>,
                                          gained: multiset<Row>)
    requires t < |threads| && multiset(thread.buffer.rows) + lost == multiset(threads[t].buffer.rows) + gained
    ensures threads[t] in threads && Held(threads[t := thread]) + lost == Held(threads) + gained
    decreases |threads|
  {
    var n := |threads| - 1;
    var after, front := threads[t := thread], threads[..n];
    if t < n {
      assert after[..n] == front[t := thread] && after[n] == threads[n] && front[t] == threads[t];
      SetThread(front, t, thread, lost, gained);
      Regroup(Held(front[t := thread]), Held(front), multiset(threads[n].buffer.rows), lost, gained);
    } else {
      assert after[..n] == front && after[n] == thread;
      Regroup(multiset(thread.buffer.rows), multiset(threads[n].buffer.rows), Held(front), lost, gained);
    }
  }

  lemma Regroup<T>(a: multiset<T>, b: multiset<T>, c: multiset<T>, lost: multiset<T>, gained: multiset<T>)
    requires a + lost == b + gained
    ensures (a + c) + lost == (b + c) + gained && (c + a) + lost == (c + b) + gained
  {
    forall x ensures a[x] + lost[x] == b[x] + gained[x] {
      assert (a + lost)[x] == (b + gained)[x];
    }
  }

  /** What the threads lose goes to the groups or the combine buffer. */
  lemma Conserve<T>(f: multiset<T>, h: multiset<T>, w: multiset<T>, f2: multiset<T>, h2: multiset<T>, w2: multiset<T>,
                    lost: multiset<T>, gained: multiset<T>)
    requires h2 + lost == h + gained && f2 + w2 + gained == f + w + lost
    ensures f2 + h2 + w2 == f + h + w
  {
    forall x ensures (f2 + h2 + w2)[x] == (f + h + w)[x] {
      assert (h2 + lost)[x] == (h + gained)[x] && (f2 + w2 + gained)[x] == (f + w + lost)[x];
    }
  }

  lemma {:induction false} NothingHeld<Row>(threads: seq<Thread<Row>>)
    requires forall t | 0 <= t < |threads| :: threads[t].buffer.rows == []
    ensures Held(threads) == multiset{}
    decreases |threads|
  {
    if threads != [] {
      assert multiset(threads[|threads| - 1].buffer.rows) == multiset{};
      NothingHeld(threads[..|threads| - 1]);
    }
  }

  lemma OneMoreGroup<Row>(groups: seq<Group<Row>>, group: Group<Row>)
    ensures Flushed(groups + [group]) == Flushed(groups) + multiset(group.buffer.rows)
  {
    assert (groups + [group])[..|groups|] == groups;
  }

  // ---- Any interleaving ----

  datatype Step<Row> =
    | SinkStep(t: nat, chunk: seq<Row>, bytes: nat)
    | FlushStep(t: nat)
    | CombineStep(t: nat, bytes: nat)

  predicate IsEnabled<Row>(write: ParquetWrite<Row>, step: Step<Row>)
    reads write
  {
    && step.t < |write.threads|
    && match step
       case SinkStep(t, chunk, _) => write.threads[t].stage == Sinking && |chunk| <= STANDARD_VECTOR_SIZE
       case FlushStep(t) => write.threads[t].stage.Flushing?
       case CombineStep(t, _) => write.threads[t].stage == Sinking && !write.finalized
  }

  /** Any number of threads, steps and interleavings, then Finalize if all threads have combined: the row groups hold
      exactly the rows sunk, and a group below both half thresholds can only come from Finalize, at the end. */
  method Run<Row(==)>(rowGroupSize: nat, rowGroupSizeBytes: nat, threadCount: nat, steps: seq<Step<Row>>)
    returns (write: ParquetWrite<Row>, ghost sunk: multiset<Row>)
    ensures write.Valid() && write.sunk == sunk
    ensures (forall t <- write.threads :: t.stage == Combined) ==> write.finalized
    ensures write.finalized ==> sunk == Flushed(write.groups)
    ensures write.rowGroupSize == rowGroupSize && write.rowGroupSizeBytes == rowGroupSizeBytes
    ensures forall i | 0 <= i < |write.groups| ::
      && (write.groups[i].origin == FromMerge ==> |write.groups[i].buffer.rows| < rowGroupSize)
      && (!write.AtLeastHalf(write.groups[i].buffer) ==> write.finalized && i == |write.groups| - 1)
  {
    hide ParquetWrite.Valid, ParquetWrite.AtLeastHalf, Held, Flushed;
    write := new ParquetWrite<Row>(rowGroupSize, rowGroupSizeBytes, threadCount);
    sunk := multiset{};
    for k := 0 to |steps|
      invariant write.Valid() && write.sunk == sunk && !write.finalized
      invariant write.rowGroupSize == rowGroupSize && write.rowGroupSizeBytes == rowGroupSizeBytes && fresh(write)
      invariant forall g <- write.groups :: g.origin != FromFinalize
    {
      if IsEnabled(write, steps[k]) {
        match steps[k]
        case SinkStep(t, chunk, bytes) =>
          write.Sink(t, chunk, bytes);
          sunk := sunk + multiset(chunk);
        case FlushStep(t) => FlushOne(write, t);
        case CombineStep(t, bytes) => write.Combine(t, bytes);
      }
    }
    ghost var before := write.groups;
    if forall t | 0 <= t < |write.threads| :: write.threads[t].stage == Combined {
      write.Finalize();
    }
    assert write.finalized || exists t ::
      0 <= t < |write.threads| && write.threads[t] in write.threads && write.threads[t].stage != Combined;
    SizesInOrder(write, before);
  }

  /** Only the last group can be small, if it comes from Finalize. */
  lemma SizesInOrder<Row>(write: ParquetWrite<Row>, before: seq<Group<Row>>)
    requires write.Valid() && (forall g <- before :: g.origin != FromFinalize)
    requires before == write.groups ||
      (write.finalized && |write.groups| == |before| + 1 && before == write.groups[..|before|])
    ensures forall i | 0 <= i < |write.groups| ::
      && (write.groups[i].origin == FromMerge ==> |write.groups[i].buffer.rows| < write.rowGroupSize)
      && (!write.AtLeastHalf(write.groups[i].buffer) ==> write.finalized && i == |write.groups| - 1)
  {
    forall i | 0 <= i < |write.groups|
      ensures write.groups[i].origin == FromMerge ==> |write.groups[i].buffer.rows| < write.rowGroupSize
      ensures !write.AtLeastHalf(write.groups[i].buffer) ==> write.finalized && i == |write.groups| - 1
    {
      SizeTellsOrigin(write, i);
      if i < |before| {
        assert write.groups[i] == before[i] && before[i] in before;
      }
    }
  }

  method FlushOne<Row(==)>(write: ParquetWrite<Row>, t: nat)
    requires write.Valid() && t < |write.threads| && write.threads[t].stage.Flushing?
    requires !write.finalized && forall g <- write.groups :: g.origin != FromFinalize
    modifies write`threads, write`groups
    ensures write.Valid() && forall g <- write.groups :: g.origin != FromFinalize
  {
    write.Flush(t);
  }

  /** The sizes of the groups, whoever flushed them. */
  lemma SizeTellsOrigin<Row>(write: ParquetWrite<Row>, i: nat)
    requires write.Valid() && i < |write.groups|
    ensures var g := write.groups[i];
      && (2 * |g.buffer.rows| + 1 < write.rowGroupSize && 2 * g.buffer.bytes + 1 < write.rowGroupSizeBytes
          <==> g.origin == FromFinalize)
      && (g.origin == FromSink ==>
            |g.buffer.rows| >= write.rowGroupSize || g.buffer.bytes >= write.rowGroupSizeBytes)
      && (g.origin == FromMerge ==> |g.buffer.rows| < write.rowGroupSize)
      && g.buffer.rows != [] && |g.buffer.rows| <= write.rowGroupSize + STANDARD_VECTOR_SIZE
  {
    assert write.groups[i] in write.groups;
  }
}
