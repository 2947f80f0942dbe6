/** Repetition and definition levels of a column writer, which is fed batch by batch and inherits from its parent. */
module DefineLevels {
  import opened Wrappers

  const PARQUET_DEFINE_VALID: nat := 65535

  datatype Outcome = Done | NullMapKey

  /** A validity mask; without one all rows are valid. */
  type Mask = Option<seq<bool>>

  predicate RowIsValid(mask: Mask, i: nat) { mask.None? || i >= |mask.value| || mask.value[i] }

  class ColumnWriterState {
    var definitionLevels: seq<nat>
    var repetitionLevels: seq<nat>
    var isEmpty: seq<bool>
    var nullCount: nat
    var parentNullCount: nat

    constructor ()
      ensures definitionLevels == [] && repetitionLevels == [] && isEmpty == [] && nullCount == 0
      ensures parentNullCount == 0
    {
      definitionLevels, repetitionLevels, isEmpty, nullCount, parentNullCount := [], [], [], 0, 0;
    }
  }

  // ---- What each slot gets ----

  /** The row of the batch that belongs to slot k: empty slots have none. */
  ghost function Rank(isEmpty: seq<bool>, start: nat, k: nat): nat
    requires start <= k && (isEmpty == [] || k <= |isEmpty|)
    decreases k - start
  {
    if k == start then 0 else Rank(isEmpty, start, k - 1) + if isEmpty == [] || !isEmpty[k - 1] then 1 else 0
  }

  /** It is the number of slots before it in the batch that are not empty. */
  lemma {:induction false} RankCounts(isEmpty: seq<bool>, start: nat, k: nat)
    requires start <= k && (isEmpty == [] || k <= |isEmpty|)
    ensures Rank(isEmpty, start, k) == |set i | start <= i < k && (isEmpty == [] || !isEmpty[i])|
    decreases k
  {
    if start < k {
      RankCounts(isEmpty, start, k - 1);
      var before := set i | start <= i < k - 1 && (isEmpty == [] || !isEmpty[i]);
      var all := set i | start <= i < k && (isEmpty == [] || !isEmpty[i]);
      assert all == before + if isEmpty == [] || !isEmpty[k - 1] then {k - 1} else {};
    }
  }

  /** The levels of a parent and which of its slots are empty; a list of empty slots covers all levels. */
  datatype Parent = Parent(levels: seq<nat>, isEmpty: seq<bool>) {
    ghost predicate Valid() { isEmpty == [] || |levels| <= |isEmpty| }

    ghost function RowOf(start: nat, k: nat): nat
      requires Valid() && start <= k <= |levels|
    {
      Rank(isEmpty, start, k)
    }

    /** A slot that is null because of this column, not because of an ancestor. */
    ghost predicate IsNull(start: nat, k: nat, mask: Mask)
      requires Valid() && start <= k < |levels|
    {
      levels[k] == PARQUET_DEFINE_VALID && !RowIsValid(mask, RowOf(start, k))
    }

    ghost function Level(start: nat, k: nat, mask: Mask, defineValue: nat, nullValue: nat): nat
      requires Valid() && start <= k < |levels|
    {
      if levels[k] != PARQUET_DEFINE_VALID then levels[k]
      else if RowIsValid(mask, RowOf(start, k)) then defineValue
      else nullValue
    }
  }

  ghost function CountNot(levels: seq<nat>, value: nat): nat {
    if levels == [] then 0
    else CountNot(levels[..|levels| - 1], value) + if levels[|levels| - 1] != value then 1 else 0
  }

  /** The counters account for every slot that is not defined. */
  ghost predicate Counted(state: ColumnWriterState, defineValue: nat)
    reads state
  {
    state.nullCount + state.parentNullCount == CountNot(state.definitionLevels, defineValue)
  }

  /** The level of a defined slot is told apart from null levels. */
  ghost predicate Separate(parentLevels: seq<nat>, defineValue: nat, nullValue: nat) {
    nullValue != defineValue && forall l <- parentLevels :: l == defineValue ==> l == PARQUET_DEFINE_VALID
  }

  method HandleRepeatLevels(state: ColumnWriterState, parent: ColumnWriterState?)
    modifies state`repetitionLevels
    ensures parent == null || parent == state ==> state.repetitionLevels == old(state.repetitionLevels)
    ensures parent != null && parent != state && old(state.repetitionLevels) <= parent.repetitionLevels ==>
      state.repetitionLevels == parent.repetitionLevels
    ensures old(state.repetitionLevels) <= state.repetitionLevels
  {
    if parent == null {
      return;
    }
    if |state.repetitionLevels| >= |parent.repetitionLevels| {
      return;
    }
    state.repetitionLevels := state.repetitionLevels + parent.repetitionLevels[|state.repetitionLevels|..];
  }

  /** With a parent: every new slot of the parent gets a level, inherited or from the mask; the error is raised at the
      first null of a column that may not have any. */
  method InheritDefineLevels(state: ColumnWriterState, parent: Parent, mask: Mask, defineValue: nat, nullValue: nat,
                             canHaveNulls: bool)
    returns (r: Outcome)
    requires parent.Valid() && |state.definitionLevels| <= |parent.levels|
    modifies state
    ensures state.repetitionLevels == old(state.repetitionLevels) && state.isEmpty == old(state.isEmpty)
    ensures var start := old(|state.definitionLevels|);
      && (r == NullMapKey <==>
           !canHaveNulls && exists k | start <= k < |parent.levels| :: parent.IsNull(start, k, mask))
      && (r == Done ==>
            && |state.definitionLevels| == |parent.levels| && old(state.definitionLevels) <= state.definitionLevels
            && (forall k | start <= k < |parent.levels| ::
                  state.definitionLevels[k] == parent.Level(start, k, mask, defineValue, nullValue))
            && (Separate(parent.levels, defineValue, nullValue) && old(Counted(state, defineValue)) ==>
                 Counted(state, defineValue)))
  {
    hide CountNot;
    ghost var start := |state.definitionLevels|;
    ghost var counts := Separate(parent.levels, defineValue, nullValue) && Counted(state, defineValue);
    var vectorIndex := 0;
    while |state.definitionLevels| < |parent.levels|
      invariant start <= |state.definitionLevels| <= |parent.levels|
      invariant vectorIndex == parent.RowOf(start, |state.definitionLevels|)
      invariant old(state.definitionLevels) <= state.definitionLevels && (counts ==> Counted(state, defineValue))
      invariant state.repetitionLevels == old(state.repetitionLevels) && state.isEmpty == old(state.isEmpty)
      invariant forall k | start <= k < |state.definitionLevels| ::
        state.definitionLevels[k] == parent.Level(start, k, mask, defineValue, nullValue)
      invariant !canHaveNulls ==> forall k | start <= k < |state.definitionLevels| :: !parent.IsNull(start, k, mask)
      decreases |parent.levels| - |state.definitionLevels|
    {
      var current := |state.definitionLevels|;
      assert parent.levels[current] in parent.levels;
      if parent.levels[current] != PARQUET_DEFINE_VALID {
        Push(state, parent.levels[current], defineValue);
        state.parentNullCount := state.parentNullCount + 1;
      } else if RowIsValid(mask, vectorIndex) {
        Push(state, defineValue, defineValue);
      } else {
        if !canHaveNulls {
          assert parent.IsNull(start, current, mask);
          return NullMapKey;
        }
        state.nullCount := state.nullCount + 1;
        Push(state, nullValue, defineValue);
      }
      if parent.isEmpty == [] || !parent.isEmpty[current] {
        vectorIndex := vectorIndex + 1;
      }
    }
    return Done;
  }

  method Push(state: ColumnWriterState, level: nat, ghost defineValue: nat)
    modifies state`definitionLevels
    ensures state.definitionLevels == old(state.definitionLevels) + [level]
    ensures CountNot(state.definitionLevels, defineValue)
         == CountNot(old(state.definitionLevels), defineValue) + if level != defineValue then 1 else 0
  {
    ghost var before := state.definitionLevels;
    state.definitionLevels := state.definitionLevels + [level];
    assert state.definitionLevels[..|before|] == before;
  }

  ghost predicate AnyNull(mask: Mask, count: nat) { exists i :: 0 <= i < count && !RowIsValid(mask, i) }

  ghost function MaskLevels(mask: Mask, count: nat, defineValue: nat, nullValue: nat): seq<nat> {
    seq(count, i requires 0 <= i < count => if RowIsValid(mask, i) then defineValue else nullValue)
  }

  lemma FirstMaskLevels(levels: seq<nat>, mask: Mask, count: nat, defineValue: nat, nullValue: nat)
    ensures levels + MaskLevels(mask, 0, defineValue, nullValue) == levels && !AnyNull(mask, 0)
    ensures mask.None? ==>
      MaskLevels(mask, count, defineValue, nullValue) == seq(count, _ => defineValue) && !AnyNull(mask, count)
  {}

  lemma NextMaskLevel(levels: seq<nat>, mask: Mask, i: nat, defineValue: nat, nullValue: nat)
    ensures levels + MaskLevels(mask, i, defineValue, nullValue) +
      [if RowIsValid(mask, i) then defineValue else nullValue]
         == levels + MaskLevels(mask, i + 1, defineValue, nullValue)
    ensures AnyNull(mask, i + 1) <==> AnyNull(mask, i) || !RowIsValid(mask, i)
  {
    if !RowIsValid(mask, i) {
      assert 0 <= i < i + 1;
    }
  }

  /** Without a parent: the levels of `count` rows, from the mask alone. */
  method RootDefineLevels(state: ColumnWriterState, mask: Mask, count: nat, defineValue: nat, nullValue: nat,
                          canHaveNulls: bool)
    returns (r: Outcome)
    modifies state
    ensures state.repetitionLevels == old(state.repetitionLevels) && state.isEmpty == old(state.isEmpty)
    ensures state.parentNullCount == old(state.parentNullCount)
    ensures r == NullMapKey <==> !canHaveNulls && (old(state.nullCount) > 0 || AnyNull(mask, count))
    ensures state.definitionLevels == old(state.definitionLevels)
            + MaskLevels(mask, count, defineValue, nullValue)
    ensures nullValue != defineValue && old(Counted(state, defineValue)) ==> Counted(state, defineValue)
  {
    hide CountNot, AnyNull, MaskLevels;
    ghost var before := state.definitionLevels;
    ghost var counts := nullValue != defineValue && Counted(state, defineValue);
    FirstMaskLevels(state.definitionLevels, mask, count, defineValue, nullValue);
    if mask.None? {
      AllDefined(state.definitionLevels, defineValue, count);
      state.definitionLevels := state.definitionLevels + seq(count, _ => defineValue);
    } else {
      for i := 0 to count
        invariant state.repetitionLevels == old(state.repetitionLevels) && state.isEmpty == old(state.isEmpty)
        invariant state.parentNullCount == old(state.parentNullCount) && (counts ==> Counted(state, defineValue))
        invariant state.definitionLevels == before + MaskLevels(mask, i, defineValue, nullValue)
        invariant state.nullCount >= old(state.nullCount)
        invariant state.nullCount > old(state.nullCount) <==> AnyNull(mask, i)
      {
        NextMaskLevel(before, mask, i, defineValue, nullValue);
        var isNull := !RowIsValid(mask, i);
        Push(state, if isNull then nullValue else defineValue, defineValue);
        state.nullCount := state.nullCount + if isNull then 1 else 0;
      }
    }
    if !canHaveNulls && state.nullCount != 0 {
      return NullMapKey;
    }
    return Done;
  }

  lemma {:induction false} AllDefined(levels: seq<nat>, value: nat, count: nat)
    ensures CountNot(levels + seq(count, _ => value), value) == CountNot(levels, value)
    decreases count
  {
    var more := seq(count, _ => value);
    if count == 0 {
      assert levels + more == levels;
    } else {
      AllDefined(levels, value, count - 1);
      assert (levels + more)[..|levels| + count - 1] == levels + seq(count - 1, _ => value);
    }
  }

  method HandleDefineLevels(state: ColumnWriterState, parent: ColumnWriterState?, mask: Mask, count: nat,
                            defineValue: nat, nullValue: nat, canHaveNulls: bool)
    returns (r: Outcome)
    requires parent != null ==>
      && parent != state && |state.definitionLevels| <= |parent.definitionLevels|
      && Parent(parent.definitionLevels, parent.isEmpty).Valid()
    modifies state
    ensures state.repetitionLevels == old(state.repetitionLevels) && state.isEmpty == old(state.isEmpty)
    ensures r == Done && old(Counted(state, defineValue)) ==>
      Separate(if parent == null then [] else parent.definitionLevels, defineValue, nullValue) ==>
        Counted(state, defineValue)
    ensures parent == null ==>
      && (r == NullMapKey <==> !canHaveNulls && (old(state.nullCount) > 0 || AnyNull(mask, count)))
      && state.definitionLevels == old(state.definitionLevels)
         + MaskLevels(mask, count, defineValue, nullValue)
    ensures parent != null ==>
      var start, p := old(|state.definitionLevels|), Parent(parent.definitionLevels, parent.isEmpty);
      && (r == NullMapKey <==> !canHaveNulls && exists k | start <= k < |p.levels| :: p.IsNull(start, k, mask))
      && (r == Done ==>
            && |state.definitionLevels| == |p.levels| && old(state.definitionLevels) <= state.definitionLevels
            && forall k | start <= k < |p.levels| ::
                 state.definitionLevels[k] == p.Level(start, k, mask, defineValue, nullValue))
  {
    if parent != null {
      r := InheritDefineLevels(state, Parent(parent.definitionLevels, parent.isEmpty), mask, defineValue, nullValue,
        canHaveNulls);
    } else {
      r := RootDefineLevels(state, mask, count, defineValue, nullValue, canHaveNulls);
    }
  }

  // ---- A chain of structs ----

  /** The nullable columns from the root to a leaf; `nulls` are their null values, one below their maximum levels. */
  datatype Chain = Chain(nulls: seq<nat>, leafDefine: nat) {
    ghost predicate Valid() {
      && nulls != [] && leafDefine < PARQUET_DEFINE_VALID
      && (forall i, j | 0 <= i < j < |nulls| :: nulls[i] < nulls[j])
      && (forall i | 0 <= i < |nulls| :: nulls[i] < leafDefine)
    }

    function Define(j: nat): nat { if j + 1 < |nulls| then PARQUET_DEFINE_VALID else leafDefine }

    /** The outermost column up to j that is null in the row. */
    ghost function FirstNull(row: seq<bool>, j: nat): (r: Option<nat>)
      requires j < |row| == |nulls|
      ensures r.Some? ==> r.value <= j && !row[r.value] && forall i | 0 <= i < r.value :: row[i]
      ensures r.None? ==> forall i | 0 <= i <= j :: row[i]
    {
      if j > 0 && FirstNull(row, j - 1).Some? then FirstNull(row, j - 1)
      else if row[j] then None else Some(j)
    }

    ghost function Level(row: seq<bool>, j: nat): nat
      requires j < |row| == |nulls|
    {
      match FirstNull(row, j)
      case None => Define(j)
      case Some(i) => nulls[i]
    }
  }

  /** The state of column j holds the levels of the rows. */
  ghost predicate Written(chain: Chain, state: ColumnWriterState, rows: seq<seq<bool>>, j: nat)
    requires j < |chain.nulls|
    reads state
  {
    && state.isEmpty == [] && |state.definitionLevels| == |rows| && Counted(state, chain.Define(j))
    && forall k | 0 <= k < |rows| :: |rows[k]| == |chain.nulls| && state.definitionLevels[k] == chain.Level(rows[k], j)
  }

  /** A new state holds no rows. */
  lemma NothingWritten(chain: Chain, state: ColumnWriterState, j: nat)
    requires j < |chain.nulls| && state.definitionLevels == [] && state.isEmpty == []
    requires state.nullCount == 0 && state.parentNullCount == 0
    ensures Written(chain, state, [], j)
  {}

  /** The validity of all columns in row k of a batch. */
  ghost function RowOf(masks: seq<Mask>, k: nat): seq<bool> {
    seq(|masks|, j requires 0 <= j < |masks| => RowIsValid(masks[j], k))
  }

  ghost function RowsOf(masks: seq<Mask>, count: nat): seq<seq<bool>> {
    seq(count, k requires 0 <= k < count => RowOf(masks, k))
  }

  lemma {:induction false} RankWithoutEmpty(start: nat, k: nat)
    requires start <= k
    ensures Rank([], start, k) == k - start
    decreases k
  {
    if start < k {
      RankWithoutEmpty(start, k - 1);
    }
  }

  /** Prepare, from the struct at the root down to the leaf. */
  method PrepareChain(chain: Chain, states: seq<ColumnWriterState>, masks: seq<Mask>, count: nat,
                      ghost rows: seq<seq<bool>>)
    requires chain.Valid() && |states| == |masks| == |chain.nulls|
    requires forall i, j | 0 <= i < j < |states| :: states[i] != states[j]
    requires forall j | 0 <= j < |states| :: Written(chain, states[j], rows, j)
    modifies states
    ensures forall j | 0 <= j < |states| :: Written(chain, states[j], rows + RowsOf(masks, count), j)
  {
    for j := 0 to |states|
      invariant forall i | 0 <= i < j :: Written(chain, states[i], rows + RowsOf(masks, count), i)
      invariant forall i | j <= i < |states| :: Written(chain, states[i], rows, i)
    {
      PrepareColumn(chain, states[j], if j == 0 then null else states[j - 1], masks, j, count, rows);
    }
  }

  method PrepareColumn(chain: Chain, state: ColumnWriterState, parent: ColumnWriterState?, masks: seq<Mask>, j: nat,
                       count: nat, ghost rows: seq<seq<bool>>)
    requires chain.Valid() && j < |masks| == |chain.nulls| && Written(chain, state, rows, j)
    requires if j == 0 then parent == null
             else parent != null && parent != state && Written(chain, parent, rows + RowsOf(masks, count), j - 1)
    modifies state
    ensures Written(chain, state, rows + RowsOf(masks, count), j)
  {
    hide CountNot, Rank, RowIsValid;
    ghost var all, n := rows + RowsOf(masks, count), |rows|;
    if j > 0 {
      ParentLevels(chain, parent, all, j);
    }
    var r := HandleDefineLevels(state, parent, masks[j], count, chain.Define(j), chain.nulls[j], true);
    forall k | 0 <= k < |all| ensures |all[k]| == |chain.nulls| && state.definitionLevels[k] == chain.Level(all[k], j) {
      if k < n {
        assert all[k] == rows[k];
      } else {
        assert all[k] == RowOf(masks, k - n);
        if j > 0 {
          InheritedLevel(chain, Parent(parent.definitionLevels, []), n, k, masks, j);
        } else {
          RootLevel(chain, masks, k - n);
        }
      }
    }
  }

  lemma RootLevel(chain: Chain, masks: seq<Mask>, k: nat)
    requires |masks| == |chain.nulls| > 0
    ensures chain.Level(RowOf(masks, k), 0) == if RowIsValid(masks[0], k) then chain.Define(0) else chain.nulls[0]
  {
    hide RowIsValid;
  }

  lemma InheritedLevel(chain: Chain, parent: Parent, start: nat, k: nat, masks: seq<Mask>, j: nat)
    requires chain.Valid() && 0 < j < |masks| == |chain.nulls| && start <= k < |parent.levels| && parent.isEmpty == []
    requires parent.levels[k] == chain.Level(RowOf(masks, k - start), j - 1)
    ensures parent.Level(start, k, masks[j], chain.Define(j), chain.nulls[j]) == chain.Level(RowOf(masks, k - start), j)
  {
    hide RowIsValid, Rank;
    RankWithoutEmpty(start, k);
    assert RowOf(masks, k - start)[j] == RowIsValid(masks[j], k - start);
  }

  /** A parent's level is a null value below the leaf's level, or says that it is valid. */
  lemma ParentLevels(chain: Chain, parent: ColumnWriterState, rows: seq<seq<bool>>, j: nat)
    requires chain.Valid() && 0 < j < |chain.nulls| && Written(chain, parent, rows, j - 1)
    ensures forall l <- parent.definitionLevels :: l == chain.Define(j) ==> l == PARQUET_DEFINE_VALID
  {}

  /** The level of the leaf tells which column is the outermost null one, or that there is none. */
  lemma LeafTellsOutermostNull(chain: Chain, row: seq<bool>)
    requires chain.Valid() && |row| == |chain.nulls|
    ensures var j := |row| - 1; var level := chain.Level(row, j);
      && (level == chain.leafDefine <==> chain.FirstNull(row, j) == None)
      && forall i | 0 <= i <= j :: level == chain.nulls[i] <==> chain.FirstNull(row, j) == Some(i)
  {}
}
