/** Writing columns of lists, nested to any depth: every list writer turns the slots of its parent into slots for its
    elements, and the levels of the leaf tell the lists apart again. */
module ListLevels {
  import opened Wrappers
  import opened DefineLevels

  /** A place in a column: one value, or none in an empty slot, which stands for a list that is null or has no elements,
      in this column or in one around it. */
  datatype Slot = Slot(repeat: nat, define: nat, empty: bool)

  ghost function NonEmpty(slots: seq<Slot>): nat {
    if slots == [] then 0 else (if slots[0].empty then 0 else 1) + NonEmpty(slots[1..])
  }

  /** The slots for the elements of a list of that length; there is one slot for a list that is null or empty. */
  ghost function Expand(slot: Slot, length: Option<nat>, maxDefine: nat, maxRepeat: nat): seq<Slot>
    requires maxDefine > 0
  {
    if slot.define != PARQUET_DEFINE_VALID then [Slot(slot.repeat, slot.define, true)]
    else if length == None then [Slot(slot.repeat, maxDefine - 1, true)]
    else if length == Some(0) then [Slot(slot.repeat, maxDefine, true)]
    else [Slot(slot.repeat, PARQUET_DEFINE_VALID, false)] + Repeated(length.value - 1, maxRepeat)
  }

  /** The slots of further elements of a list. */
  ghost function Repeated(n: nat, maxRepeat: nat): seq<Slot> {
    seq(n, _ => Slot(maxRepeat + 1, PARQUET_DEFINE_VALID, false))
  }

  ghost function ExpandAll(slots: seq<Slot>, lengths: seq<Option<nat>>, maxDefine: nat, maxRepeat: nat): seq<Slot>
    requires maxDefine > 0 && NonEmpty(slots) <= |lengths|
    decreases |slots|
  {
    if slots == [] then []
    else if slots[0].empty then [slots[0]] + ExpandAll(slots[1..], lengths, maxDefine, maxRepeat)
    else Expand(slots[0], lengths[0], maxDefine, maxRepeat) + ExpandAll(slots[1..], lengths[1..], maxDefine, maxRepeat)
  }

  // ---- Nested values, and the levels they are shredded into ----

  datatype Value<V> = Null | Prim(v: V) | List(items: seq<Value<V>>)

  /** A value of a column of lists of lists and so on, n deep. */
  ghost predicate Nested<V>(value: Value<V>, n: nat) {
    value.Null? || if n == 0 then value.Prim? else value.List? && forall item <- value.items :: Nested(item, n - 1)
  }

  ghost predicate AllNested<V>(values: seq<Value<V>>, n: nat) { forall i | 0 <= i < |values| :: Nested(values[i], n) }

  ghost function LengthOf<V>(value: Value<V>): Option<nat> { if value.List? then Some(|value.items|) else None }

  ghost function Lengths<V>(values: seq<Value<V>>): (s: seq<Option<nat>>)
    ensures |s| == |values|
  {
    seq(|values|, i requires 0 <= i < |values| => LengthOf(values[i]))
  }

  /** The elements of all lists in order. */
  ghost function Items<V>(values: seq<Value<V>>): seq<Value<V>> {
    if values == [] then []
    else (if values[0].List? then values[0].items else []) + Items(values[1..])
  }

  datatype Level = Level(repeat: nat, define: nat)

  /** What a reader of the file gets: the levels of all slots of the leaf, and the values that are not null. */
  datatype Shredded<V> = Shredded(levels: seq<Level>, prims: seq<V>)

  /** The maximum levels of the list that is j deep; every list and the leaf can be null. */
  function MaxDefine(j: nat): nat { 2 * j + 1 }

  ghost function LeafDefine<V>(slot: Slot, value: Value<V>, n: nat): nat {
    if slot.define != PARQUET_DEFINE_VALID then slot.define
    else if value.Null? then MaxDefine(n) - 1
    else MaxDefine(n)
  }

  /** The leaf below n lists: values take the slots that are not empty. */
  ghost function Leaf<V>(slots: seq<Slot>, values: seq<Value<V>>, n: nat): Shredded<V>
    requires NonEmpty(slots) == |values|
    decreases |slots|
  {
    if slots == [] then Shredded([], [])
    else if slots[0].empty then
      var rest := Leaf(slots[1..], values, n);
      Shredded([Level(slots[0].repeat, slots[0].define)] + rest.levels, rest.prims)
    else
      var rest := Leaf(slots[1..], values[1..], n);
      Shredded([Level(slots[0].repeat, LeafDefine(slots[0], values[0], n))] + rest.levels,
               (if values[0].Prim? then [values[0].v] else []) + rest.prims)
  }

  /** Slots of the column that is j deep. */
  ghost predicate Proper(slots: seq<Slot>, j: nat) {
    forall i | 0 <= i < |slots| ::
      && slots[i].repeat <= j
      && if slots[i].empty then slots[i].define < 2 * j else slots[i].define == PARQUET_DEFINE_VALID
  }

  lemma {:induction false} ExpandedNonEmpty<V>(slots: seq<Slot>, values: seq<Value<V>>, j: nat)
    requires NonEmpty(slots) == |values| && Proper(slots, j) && 2 * j + 2 < PARQUET_DEFINE_VALID
    ensures var next := ExpandAll(slots, Lengths(values), MaxDefine(j), j);
      NonEmpty(next) == |Items(values)| && Proper(next, j + 1)
    decreases |slots|
  {
    if slots != [] {
      var rest := slots[1..];
      if slots[0].empty {
        ExpandedNonEmpty(rest, values, j);
        NonEmptyConcat([slots[0]], ExpandAll(rest, Lengths(values), MaxDefine(j), j));
      } else {
        assert Lengths(values)[1..] == Lengths(values[1..]);
        ExpandedNonEmpty(rest, values[1..], j);
        var more := Expand(slots[0], LengthOf(values[0]), MaxDefine(j), j);
        NonEmptyConcat(more, ExpandAll(rest, Lengths(values[1..]), MaxDefine(j), j));
        AllThere(more, if values[0].List? then |values[0].items| else 0);
      }
    }
  }

  lemma {:induction false} NonEmptyConcat(a: seq<Slot>, b: seq<Slot>)
    ensures NonEmpty(a + b) == NonEmpty(a) + NonEmpty(b)
    decreases |a|
  {
    if a == [] {
      assert a + b == b;
    } else {
      assert (a + b)[1..] == a[1..] + b;
      NonEmptyConcat(a[1..], b);
    }
  }

  /** One slot that is empty, or n that are not. */
  lemma {:induction false} AllThere(slots: seq<Slot>, n: nat)
    requires if n == 0 then |slots| == 1 && slots[0].empty
             else |slots| == n && forall i | 0 <= i < n :: !slots[i].empty
    ensures NonEmpty(slots) == n
    decreases n
  {
    if n > 1 {
      AllThere(slots[1..], n - 1);
    } else {
      assert slots[1..] == [];
    }
  }

  lemma {:induction false} ItemsNested<V>(values: seq<Value<V>>, n: nat)
    requires n > 0 && AllNested(values, n)
    ensures AllNested(Items(values), n - 1)
    decreases |values|
  {
    if values != [] {
      assert Nested(values[0], n);
      ItemsNested(values[1..], n);
      var first := if values[0].List? then values[0].items else [];
      forall i | 0 <= i < |Items(values)| ensures Nested(Items(values)[i], n - 1) {
        if i < |first| {
          assert first[i] in first;
        } else {
          assert Nested(Items(values[1..])[i - |first|], n - 1);
        }
      }
    }
  }

  /** What the list writers and the leaf make of the values that are j deep, of n. */
  ghost function Shred<V>(slots: seq<Slot>, values: seq<Value<V>>, j: nat, n: nat): Shredded<V>
    requires j <= n && NonEmpty(slots) == |values| && Proper(slots, j) && 2 * n < PARQUET_DEFINE_VALID
    decreases n - j
  {
    if j == n then Leaf(slots, values, n)
    else
      ExpandedNonEmpty(slots, values, j);
      Shred(ExpandAll(slots, Lengths(values), MaxDefine(j), j), Items(values), j + 1, n)
  }

  ghost function Roots(n: nat): seq<Slot> { seq(n, _ => Slot(0, PARQUET_DEFINE_VALID, false)) }

  lemma {:induction false} RootsProper(n: nat)
    ensures NonEmpty(Roots(n)) == n && Proper(Roots(n), 0)
  {
    if n > 0 {
      RootsProper(n - 1);
      assert Roots(n)[1..] == Roots(n - 1);
    }
  }

  /** The shredding of a column. */
  ghost function ShredRows<V>(rows: seq<Value<V>>, n: nat): Shredded<V>
    requires 2 * n < PARQUET_DEFINE_VALID
  {
    RootsProper(|rows|);
    Shred(Roots(|rows|), rows, 0, n)
  }

  // ---- Putting the lists together again ----

  /** How many levels in a row continue a list of depth j. */
  ghost function Continued(levels: seq<Level>, j: nat): (k: nat)
    ensures k <= |levels|
  {
    if levels == [] || levels[0].repeat != j + 1 then 0 else 1 + Continued(levels[1..], j)
  }

  /** Values with the levels of their slots; levels other than PARQUET_DEFINE_VALID belong to slots without one. */
  datatype Assembled<V> = Assembled(levels: seq<Level>, values: seq<Value<V>>)

  ghost function AssembleLeaf<V>(levels: seq<Level>, prims: seq<V>, n: nat): Assembled<V> {
    if levels == [] then Assembled([], [])
    else if levels[0].define == MaxDefine(n) && prims != [] then
      var rest := AssembleLeaf(levels[1..], prims[1..], n);
      Assembled([Level(levels[0].repeat, PARQUET_DEFINE_VALID)] + rest.levels, [Prim(prims[0])] + rest.values)
    else
      var rest := AssembleLeaf(levels[1..], prims, n);
      if levels[0].define == MaxDefine(n) - 1 then
        Assembled([Level(levels[0].repeat, PARQUET_DEFINE_VALID)] + rest.levels, [Null] + rest.values)
      else Assembled([levels[0]] + rest.levels, rest.values)
  }

  /** Groups elements into lists of depth j. */
  ghost function Collapse<V>(levels: seq<Level>, values: seq<Value<V>>, j: nat): Assembled<V>
    decreases |levels|
  {
    if levels == [] then Assembled([], [])
    else
      var here := levels[0];
      var valid := [Level(here.repeat, PARQUET_DEFINE_VALID)];
      if here.define == PARQUET_DEFINE_VALID && 1 + Continued(levels[1..], j) <= |values| then
        var n := 1 + Continued(levels[1..], j);
        var rest := Collapse(levels[n..], values[n..], j);
        Assembled(valid + rest.levels, [List(values[..n])] + rest.values)
      else
        var rest := Collapse(levels[1..], values, j);
        if here.define == MaxDefine(j) then Assembled(valid + rest.levels, [List([])] + rest.values)
        else if here.define == MaxDefine(j) - 1 then Assembled(valid + rest.levels, [Null] + rest.values)
        else Assembled([here] + rest.levels, rest.values)
  }

  ghost function Assemble<V>(shredded: Shredded<V>, j: nat, n: nat): Assembled<V>
    requires j <= n
    decreases n - j
  {
    if j == n then AssembleLeaf(shredded.levels, shredded.prims, n)
    else
      var deeper := Assemble(shredded, j + 1, n);
      Collapse(deeper.levels, deeper.values, j)
  }

  ghost function LevelsOf(slots: seq<Slot>): seq<Level> {
    seq(|slots|, i requires 0 <= i < |slots| => Level(slots[i].repeat, slots[i].define))
  }

  lemma LevelsOfConcat(a: seq<Slot>, b: seq<Slot>)
    ensures LevelsOf(a + b) == LevelsOf(a) + LevelsOf(b)
  {}

  lemma {:induction false} LeafRoundTrip<V>(slots: seq<Slot>, values: seq<Value<V>>, n: nat)
    requires NonEmpty(slots) == |values| && Proper(slots, n) && AllNested(values, 0) && 2 * n + 1 < PARQUET_DEFINE_VALID
    ensures var leaf := Leaf(slots, values, n);
      AssembleLeaf(leaf.levels, leaf.prims, n) == Assembled(LevelsOf(slots), values)
    decreases |slots|
  {
    if slots != [] {
      var rest := slots[1..];
      LevelsOfConcat([slots[0]], rest);
      assert slots == [slots[0]] + rest;
      if slots[0].empty {
        LeafRoundTrip(rest, values, n);
      } else {
        assert Nested(values[0], 0);
        LeafRoundTrip(rest, values[1..], n);
      }
      var leaf := Leaf(slots, values, n);
      var tail := if slots[0].empty then Leaf(rest, values, n) else Leaf(rest, values[1..], n);
      assert leaf.levels[1..] == tail.levels;
      if !slots[0].empty && values[0].Prim? {
        assert leaf.prims[1..] == tail.prims;
      } else {
        assert leaf.prims == tail.prims;
      }
    }
  }

  lemma {:induction false} ContinuedRepeats(n: nat, rest: seq<Level>, j: nat)
    requires rest == [] || rest[0].repeat <= j
    ensures Continued(LevelsOf(Repeated(n, j)) + rest, j) == n
    decreases n
  {
    var all := LevelsOf(Repeated(n, j)) + rest;
    if n > 0 {
      assert all[1..] == LevelsOf(Repeated(n - 1, j)) + rest;
      ContinuedRepeats(n - 1, rest, j);
    } else {
      assert all == rest;
    }
  }

  lemma {:induction false} FirstRepeat(slots: seq<Slot>, lengths: seq<Option<nat>>, j: nat)
    requires NonEmpty(slots) <= |lengths| && Proper(slots, j)
    ensures var levels := LevelsOf(ExpandAll(slots, lengths, MaxDefine(j), j)); levels == [] || levels[0].repeat <= j
  {
    hide ExpandAll, Expand;
    ExpandFirst(slots, lengths, MaxDefine(j), j);
    if slots != [] && !slots[0].empty {
      ExpandedRepeat(slots[0], lengths[0], MaxDefine(j), j);
    }
  }

  lemma ExpandedRepeat(slot: Slot, length: Option<nat>, maxDefine: nat, maxRepeat: nat)
    requires maxDefine > 0
    ensures var more := Expand(slot, length, maxDefine, maxRepeat); more != [] && more[0].repeat == slot.repeat
  {}

  /** One step: the slots made for the elements tell which lists they were made for. */
  lemma {:induction false} CollapseUndoesExpand<V>(slots: seq<Slot>, values: seq<Value<V>>, j: nat)
    requires NonEmpty(slots) == |values| && Proper(slots, j) && 2 * j + 2 < PARQUET_DEFINE_VALID
    requires forall i | 0 <= i < |values| :: !values[i].Prim?
    ensures var next := ExpandAll(slots, Lengths(values), MaxDefine(j), j);
      Collapse(LevelsOf(next), Items(values), j) == Assembled(LevelsOf(slots), values)
    decreases |slots|
  {
    if slots == [] {
    } else if slots[0].empty {
      var rest := ExpandAll(slots[1..], Lengths(values), MaxDefine(j), j);
      CollapseUndoesExpand(slots[1..], values, j);
      FirstLevel(slots[0], rest);
      FirstLevel(slots[0], slots[1..]);
      assert slots == [slots[0]] + slots[1..];
    } else {
      assert Lengths(values)[1..] == Lengths(values[1..]);
      CollapseUndoesExpand(slots[1..], values[1..], j);
      ListRestored(slots, values, j);
    }
  }

  lemma FirstLevel(slot: Slot, rest: seq<Slot>)
    ensures var levels := LevelsOf([slot] + rest);
      levels != [] && levels[0] == Level(slot.repeat, slot.define) && levels[1..] == LevelsOf(rest)
  {}

  /** The first list, when the others are restored. */
  lemma {:induction false} ListRestored<V>(slots: seq<Slot>, values: seq<Value<V>>, j: nat)
    requires slots != [] && !slots[0].empty && Proper(slots, j) && 2 * j + 2 < PARQUET_DEFINE_VALID
    requires NonEmpty(slots) == |values| && !values[0].Prim?
    requires var next := ExpandAll(slots[1..], Lengths(values[1..]), MaxDefine(j), j);
      Collapse(LevelsOf(next), Items(values[1..]), j) == Assembled(LevelsOf(slots[1..]), values[1..])
    ensures var next := ExpandAll(slots, Lengths(values), MaxDefine(j), j);
      Collapse(LevelsOf(next), Items(values), j) == Assembled(LevelsOf(slots), values)
  {
    hide Continued, Collapse, ExpandAll;
    assert Lengths(values)[1..] == Lengths(values[1..]);
    ExpandFirst(slots, Lengths(values), MaxDefine(j), j);
    var rest := ExpandAll(slots[1..], Lengths(values[1..]), MaxDefine(j), j);
    var more := Expand(slots[0], LengthOf(values[0]), MaxDefine(j), j);
    FirstLevel(slots[0], slots[1..]);
    assert slots == [slots[0]] + slots[1..];
    if values[0].List? && values[0].items != [] {
      var n := |values[0].items|;
      var tail := Repeated(n - 1, j) + rest;
      assert more + rest == [more[0]] + tail;
      FirstRepeat(slots[1..], Lengths(values[1..]), j);
      assert Items(values)[..n] == values[0].items && Items(values)[n..] == Items(values[1..]);
      ElementsCollapse(more[0], n, rest, Items(values), j);
    } else {
      FirstLevel(more[0], rest);
      assert Items(values) == Items(values[1..]);
      EmptyCollapses(LevelsOf(more + rest), Items(values), j);
    }
  }

  /** The levels of n elements make a list of the first n values. */
  lemma ElementsCollapse<V>(first: Slot, n: nat, rest: seq<Slot>, values: seq<Value<V>>, j: nat)
    requires first.define == PARQUET_DEFINE_VALID && 0 < n <= |values|
    requires LevelsOf(rest) == [] || LevelsOf(rest)[0].repeat <= j
    ensures var deeper := Collapse(LevelsOf(rest), values[n..], j);
      Collapse(LevelsOf([first] + (Repeated(n - 1, j) + rest)), values, j) ==
        Assembled([Level(first.repeat, PARQUET_DEFINE_VALID)] + deeper.levels, [List(values[..n])] + deeper.values)
  {
    hide Continued;
    var tail := Repeated(n - 1, j) + rest;
    FirstLevel(first, tail);
    LevelsOfConcat(Repeated(n - 1, j), rest);
    ContinuedRepeats(n - 1, LevelsOf(rest), j);
    assert LevelsOf([first] + tail)[n..] == LevelsOf(rest);
  }

  lemma EmptyCollapses<V>(levels: seq<Level>, values: seq<Value<V>>, j: nat)
    requires levels != [] && levels[0].define != PARQUET_DEFINE_VALID
    ensures var deeper, valid := Collapse(levels[1..], values, j), [Level(levels[0].repeat, PARQUET_DEFINE_VALID)];
      Collapse(levels, values, j) ==
        if levels[0].define == MaxDefine(j) then Assembled(valid + deeper.levels, [List([])] + deeper.values)
        else if levels[0].define == MaxDefine(j) - 1 then Assembled(valid + deeper.levels, [Null] + deeper.values)
        else Assembled([levels[0]] + deeper.levels, deeper.values)
  {
    hide Continued;
  }

  lemma {:induction false} AssembleUndoesShred<V>(slots: seq<Slot>, values: seq<Value<V>>, j: nat, n: nat)
    requires j <= n && NonEmpty(slots) == |values| && Proper(slots, j) && 2 * n + 1 < PARQUET_DEFINE_VALID
    requires AllNested(values, n - j)
    ensures Assemble(Shred(slots, values, j, n), j, n) == Assembled(LevelsOf(slots), values)
    decreases n - j
  {
    hide ExpandAll, Collapse, Leaf, AssembleLeaf;
    if j == n {
      LeafRoundTrip(slots, values, n);
    } else {
      ExpandedNonEmpty(slots, values, j);
      ItemsNested(values, n - j);
      AssembleUndoesShred(ExpandAll(slots, Lengths(values), MaxDefine(j), j), Items(values), j + 1, n);
      forall i | 0 <= i < |values| ensures !values[i].Prim? {
        assert Nested(values[i], n - j);
      }
      CollapseUndoesExpand(slots, values, j);
    }
  }

  /** Round trip: the levels of the leaf and the values that are not null determine all rows, with every list, however
      deep, that is null or empty. */
  lemma RowsRoundTrip<V>(rows: seq<Value<V>>, n: nat)
    requires 2 * n + 1 < PARQUET_DEFINE_VALID && AllNested(rows, n)
    ensures Assemble(ShredRows(rows, n), 0, n).values == rows
  {
    RootsProper(|rows|);
    AssembleUndoesShred(Roots(|rows|), rows, 0, n);
  }

  // ---- The list writer ----

  datatype ListEntry = ListEntry(offset: nat, length: nat)

  /** The state of a list writer: its slots, and how many slots of the parent it has dealt with. */
  class ListColumnWriterState {
    const state: ColumnWriterState
    var parentIndex: nat

    constructor ()
      ensures fresh(state) && Whole(state) && Slots(state) == [] && parentIndex == 0
    {
      state := new ColumnWriterState();
      parentIndex := 0;
    }
  }

  ghost predicate Whole(state: ColumnWriterState)
    reads state
  {
    |state.isEmpty| == |state.repetitionLevels| == |state.definitionLevels|
  }

  ghost function SlotsOf(repeats: seq<nat>, defines: seq<nat>, empty: seq<bool>): seq<Slot>
    requires |empty| == |repeats| == |defines|
  {
    seq(|empty|, i requires 0 <= i < |empty| => Slot(repeats[i], defines[i], empty[i]))
  }

  ghost function Slots(state: ColumnWriterState): seq<Slot>
    requires Whole(state)
    reads state
  {
    SlotsOf(state.repetitionLevels, state.definitionLevels, state.isEmpty)
  }

  method PushSlot(state: ColumnWriterState, repeat: nat, define: nat, empty: bool)
    requires Whole(state)
    modifies state`definitionLevels, state`repetitionLevels, state`isEmpty
    ensures Whole(state) && Slots(state) == old(Slots(state)) + [Slot(repeat, define, empty)]
  {
    state.definitionLevels := state.definitionLevels + [define];
    state.repetitionLevels := state.repetitionLevels + [repeat];
    state.isEmpty := state.isEmpty + [empty];
  }

  /** A struct has no repetition levels or empty slots of its own until one of its ancestors is a list. */
  ghost predicate IsParent(parent: ColumnWriterState)
    reads parent
  {
    && (parent.isEmpty == [] || |parent.isEmpty| == |parent.repetitionLevels| == |parent.definitionLevels|)
    && (parent.repetitionLevels == [] || |parent.repetitionLevels| == |parent.definitionLevels|)
  }

  /** The slots of the parent from `start` on, or those of `count` rows of a column without one. */
  ghost function ParentSlots(parent: ColumnWriterState?, start: nat, count: nat, maxRepeat: nat): seq<Slot>
    requires parent != null ==> IsParent(parent) && start <= |parent.definitionLevels|
    reads parent
  {
    if parent == null then seq(count, _ => Slot(maxRepeat, PARQUET_DEFINE_VALID, false))
    else
      var repeats, defines, empty := parent.repetitionLevels, parent.definitionLevels, parent.isEmpty;
      seq(|defines| - start, i requires 0 <= i < |defines| - start =>
        Slot(if repeats == [] then maxRepeat else repeats[start + i], defines[start + i],
             empty != [] && empty[start + i]))
  }

  ghost function EntryLengths(entries: seq<ListEntry>, valid: seq<bool>): (s: seq<Option<nat>>)
    requires |valid| == |entries|
    ensures |s| == |entries|
  {
    seq(|entries|, i requires 0 <= i < |entries| => if valid[i] then Some(entries[i].length) else None)
  }

  /** Whether a list that is null takes a slot of a parent that is not. */
  ghost predicate MeetsNull(slots: seq<Slot>, lengths: seq<Option<nat>>)
    requires NonEmpty(slots) <= |lengths|
    decreases |slots|
  {
    slots != [] &&
      if slots[0].empty then MeetsNull(slots[1..], lengths)
      else (slots[0].define == PARQUET_DEFINE_VALID && lengths[0] == None) || MeetsNull(slots[1..], lengths[1..])
  }

  /** Prepare, up to the call for the child: the new slots of the parent are expanded in order. */
  method PrepareList(list: ListColumnWriterState, parent: ColumnWriterState?, entries: seq<ListEntry>, valid: seq<bool>,
                     count: nat, maxDefine: nat, maxRepeat: nat, canHaveNulls: bool)
    returns (r: Outcome)
    requires Whole(list.state) && maxDefine > 0 && |valid| == |entries| && parent != list.state
    requires parent != null ==> IsParent(parent) && list.parentIndex <= |parent.definitionLevels|
    requires NonEmpty(ParentSlots(parent, list.parentIndex, count, maxRepeat)) <= |entries|
    modifies list, list.state
    ensures var slots, lengths :=
        old(ParentSlots(parent, list.parentIndex, count, maxRepeat)), EntryLengths(entries, valid);
      && Whole(list.state) && (r == NullMapKey <==> !canHaveNulls && MeetsNull(slots, lengths))
      && (r == Done ==>
            && Slots(list.state) == old(Slots(list.state)) + ExpandAll(slots, lengths, maxDefine, maxRepeat)
            && list.parentIndex == old(list.parentIndex) + |slots|)
  {
    hide ExpandAll, MeetsNull, NonEmpty, Slots, Expand, ParentSlots;
    ParentSlotCount(parent, list.parentIndex, count, maxRepeat);
    var state := list.state;
    ghost var slots, lengths := ParentSlots(parent, list.parentIndex, count, maxRepeat), EntryLengths(entries, valid);
    var vcount := if parent != null then |parent.definitionLevels| - list.parentIndex else count;
    var vectorIndex := 0;
    ghost var before := Slots(state);
    assert slots[0..] == slots && lengths[0..] == lengths;
    for i := 0 to vcount
      invariant vcount == |slots| && Whole(state) && list.parentIndex == old(list.parentIndex)
      invariant parent != null ==> IsParent(parent) && list.parentIndex + vcount == |parent.definitionLevels|
      invariant slots == ParentSlots(parent, list.parentIndex, count, maxRepeat)
      invariant vectorIndex <= |lengths| && NonEmpty(slots[i..]) <= |lengths| - vectorIndex
      invariant before + ExpandAll(slots, lengths, maxDefine, maxRepeat)
             == Slots(state) + ExpandAll(slots[i..], lengths[vectorIndex..], maxDefine, maxRepeat)
      invariant !canHaveNulls ==> (MeetsNull(slots, lengths) <==> MeetsNull(slots[i..], lengths[vectorIndex..]))
    {
      NextSlot(slots, lengths, i, vectorIndex, maxDefine, maxRepeat);
      ParentSlotAt(parent, list.parentIndex, count, maxRepeat, i);
      ghost var done := Slots(state);
      var parentIndex := list.parentIndex + i;
      if parent != null && parent.isEmpty != [] && parent.isEmpty[parentIndex] {
        PushSlot(state, parent.repetitionLevels[parentIndex], parent.definitionLevels[parentIndex], true);
        Reassociate(done, [slots[i]], ExpandAll(slots[i + 1..], lengths[vectorIndex..], maxDefine, maxRepeat));
        continue;
      }
      var firstRepeat := if parent != null && parent.repetitionLevels != [] then parent.repetitionLevels[parentIndex]
                         else maxRepeat;
      var define := if parent != null then parent.definitionLevels[parentIndex] else PARQUET_DEFINE_VALID;
      r := PushRow(state, firstRepeat, define, valid[vectorIndex], entries[vectorIndex].length, maxDefine, maxRepeat,
                   canHaveNulls);
      if r != Done {
        return;
      }
      Reassociate(done, Expand(slots[i], lengths[vectorIndex], maxDefine, maxRepeat),
                  ExpandAll(slots[i + 1..], lengths[vectorIndex + 1..], maxDefine, maxRepeat));
      vectorIndex := vectorIndex + 1;
    }
    NoSlots(slots[vcount..], lengths[vectorIndex..], maxDefine, maxRepeat);
    list.parentIndex := list.parentIndex + vcount;
    return Done;
  }

  lemma ParentSlotCount(parent: ColumnWriterState?, start: nat, count: nat, maxRepeat: nat)
    requires parent != null ==> IsParent(parent) && start <= |parent.definitionLevels|
    ensures |ParentSlots(parent, start, count, maxRepeat)| == if parent == null then count
                                                             else |parent.definitionLevels| - start
  {}

  lemma ParentSlotAt(parent: ColumnWriterState?, start: nat, count: nat, maxRepeat: nat, i: nat)
    requires parent != null ==> IsParent(parent) && start <= |parent.definitionLevels|
    requires i < |ParentSlots(parent, start, count, maxRepeat)|
    ensures ParentSlots(parent, start, count, maxRepeat)[i] ==
      if parent == null then Slot(maxRepeat, PARQUET_DEFINE_VALID, false)
      else Slot(if parent.repetitionLevels == [] then maxRepeat else parent.repetitionLevels[start + i],
                parent.definitionLevels[start + i], parent.isEmpty != [] && parent.isEmpty[start + i])
  {}

  lemma Reassociate(done: seq<Slot>, more: seq<Slot>, rest: seq<Slot>)
    ensures done + (more + rest) == done + more + rest
  {}

  lemma NoSlots(slots: seq<Slot>, lengths: seq<Option<nat>>, maxDefine: nat, maxRepeat: nat)
    requires maxDefine > 0 && slots == []
    ensures NonEmpty(slots) == 0 && ExpandAll(slots, lengths, maxDefine, maxRepeat) == [] && !MeetsNull(slots, lengths)
  {}

  lemma ExpandedSlot(slot: Slot, length: Option<nat>, maxDefine: nat, maxRepeat: nat)
    requires maxDefine > 0
    ensures Expand(slot, length, maxDefine, maxRepeat) ==
      if slot.define != PARQUET_DEFINE_VALID then [Slot(slot.repeat, slot.define, true)]
      else if length == None then [Slot(slot.repeat, maxDefine - 1, true)]
      else Elements(slot.repeat, length.value, maxDefine, maxRepeat)
  {}

  ghost function Elements(repeat: nat, n: nat, maxDefine: nat, maxRepeat: nat): seq<Slot> {
    if n == 0 then [Slot(repeat, maxDefine, true)]
    else [Slot(repeat, PARQUET_DEFINE_VALID, false)] + Repeated(n - 1, maxRepeat)
  }

  lemma NextSlot(slots: seq<Slot>, lengths: seq<Option<nat>>, i: nat, v: nat, maxDefine: nat, maxRepeat: nat)
    requires maxDefine > 0 && i < |slots| && v <= |lengths| && NonEmpty(slots[i..]) <= |lengths| - v
    ensures slots[i].empty ==>
      && NonEmpty(slots[i + 1..]) <= |lengths| - v
      && ExpandAll(slots[i..], lengths[v..], maxDefine, maxRepeat)
         == [slots[i]] + ExpandAll(slots[i + 1..], lengths[v..], maxDefine, maxRepeat)
      && (MeetsNull(slots[i..], lengths[v..]) <==> MeetsNull(slots[i + 1..], lengths[v..]))
    ensures !slots[i].empty ==>
      && v < |lengths| && NonEmpty(slots[i + 1..]) <= |lengths| - v - 1
      && ExpandAll(slots[i..], lengths[v..], maxDefine, maxRepeat)
         == Expand(slots[i], lengths[v], maxDefine, maxRepeat)
            + ExpandAll(slots[i + 1..], lengths[v + 1..], maxDefine, maxRepeat)
      && (MeetsNull(slots[i..], lengths[v..]) <==>
            (slots[i].define == PARQUET_DEFINE_VALID && lengths[v] == None)
            || MeetsNull(slots[i + 1..], lengths[v + 1..]))
  {
    assert slots[i..][1..] == slots[i + 1..];
    if !slots[i].empty {
      assert lengths[v..][1..] == lengths[v + 1..];
    }
  }

  /** One slot of the parent that is not empty. */
  method PushRow(state: ColumnWriterState, firstRepeat: nat, define: nat, isValid: bool, length: nat, maxDefine: nat,
                 maxRepeat: nat, canHaveNulls: bool)
    returns (r: Outcome)
    requires Whole(state) && maxDefine > 0
    modifies state`definitionLevels, state`repetitionLevels, state`isEmpty
    ensures Whole(state) && (r == NullMapKey <==> !canHaveNulls && define == PARQUET_DEFINE_VALID && !isValid)
    ensures r == Done ==>
      var length := if isValid then Some(length) else None;
      Slots(state) == old(Slots(state)) + Expand(Slot(firstRepeat, define, false), length, maxDefine, maxRepeat)
  {
    hide Slots, Expand;
    ExpandedSlot(Slot(firstRepeat, define, false), if isValid then Some(length) else None, maxDefine, maxRepeat);
    if define != PARQUET_DEFINE_VALID {
      PushSlot(state, firstRepeat, define, true);
    } else if isValid {
      PushElements(state, firstRepeat, length, maxDefine, maxRepeat);
    } else {
      if !canHaveNulls {
        return NullMapKey;
      }
      PushSlot(state, firstRepeat, maxDefine - 1, true);
    }
    return Done;
  }

  /** The slots of a list that is not null. */
  method PushElements(state: ColumnWriterState, firstRepeat: nat, length: nat, maxDefine: nat, maxRepeat: nat)
    requires Whole(state)
    modifies state`definitionLevels, state`repetitionLevels, state`isEmpty
    ensures Whole(state) && Slots(state) == old(Slots(state)) + Elements(firstRepeat, length, maxDefine, maxRepeat)
  {
    hide Slots;
    ghost var before := Slots(state);
    if length == 0 {
      PushSlot(state, firstRepeat, maxDefine, true);
    } else {
      PushSlot(state, firstRepeat, PARQUET_DEFINE_VALID, false);
    }
    ghost var first := Slots(state);
    var k := 1;
    assert first + Repeated(0, maxRepeat) == first;
    while k < length
      invariant 1 <= k && if length == 0 then k == 1 else k <= length
      invariant Whole(state) && Slots(state) == first + Repeated(k - 1, maxRepeat)
    {
      PushSlot(state, maxRepeat + 1, PARQUET_DEFINE_VALID, false);
      assert Repeated(k, maxRepeat) == Repeated(k - 1, maxRepeat) + [Slot(maxRepeat + 1, PARQUET_DEFINE_VALID, false)];
      k := k + 1;
    }
    Reassociate(before, [Slot(firstRepeat, PARQUET_DEFINE_VALID, false)], Repeated(k - 1, maxRepeat));
  }

  // ---- Vectors of nested lists ----

  function Pick<T>(s: seq<T>, sel: seq<nat>): seq<T>
    requires forall i | 0 <= i < |sel| :: sel[i] < |s|
  {
    seq(|sel|, i requires 0 <= i < |sel| => s[sel[i]])
  }

  datatype Vector<V> = Flat(values: seq<Option<V>>) | Lists(entries: seq<ListEntry>, valid: seq<bool>, child: Vector<V>)
  {
    function Size(): nat { if Flat? then |values| else |entries| }

    /** The lists lie within the child vector, in any order and with any gaps or overlaps. */
    ghost predicate Valid() {
      Lists? ==>
        && child.Valid() && |valid| == |entries|
        && forall i | 0 <= i < |entries| && valid[i] :: entries[i].offset + entries[i].length <= child.Size()
    }

    ghost function At(i: nat): Value<V>
      requires Valid() && i < Size()
    {
      match this
      case Flat(values) => if values[i].Some? then Prim(values[i].value) else Null
      case Lists(entries, valid, child) =>
        if valid[i]
        then List(seq(entries[i].length, k requires 0 <= k < entries[i].length => child.At(entries[i].offset + k)))
        else Null
    }

    function Slice(sel: seq<nat>): Vector<V>
      requires Valid() && forall i | 0 <= i < |sel| :: sel[i] < Size()
    {
      var n := Size();
      if Flat? then
        assert n == |values|;
        Flat(Pick(values, sel))
      else
        assert n == |entries| == |valid|;
        Lists(Pick(entries, sel), Pick(valid, sel), child)
    }
  }

  /** The first rows of a vector. */
  ghost function Rows<V>(vector: Vector<V>, count: nat): (rows: seq<Value<V>>)
    requires vector.Valid() && count <= vector.Size()
    ensures |rows| == count
  {
    seq(count, i requires 0 <= i < count => vector.At(i))
  }

  ghost function Picked<V>(vector: Vector<V>, sel: seq<nat>): (rows: seq<Value<V>>)
    requires vector.Valid() && forall i | 0 <= i < |sel| :: sel[i] < vector.Size()
    ensures |rows| == |sel|
  {
    seq(|sel|, i requires 0 <= i < |sel| => vector.At(sel[i]))
  }

  lemma SliceIsPicked<V>(vector: Vector<V>, sel: seq<nat>)
    requires vector.Valid() && forall i | 0 <= i < |sel| :: sel[i] < vector.Size()
    ensures vector.Slice(sel).Valid() && vector.Slice(sel).Size() == |sel|
    ensures Rows(vector.Slice(sel), |sel|) == Picked(vector, sel)
  {}

  lemma {:induction false} ItemsConcat<V>(a: seq<Value<V>>, b: seq<Value<V>>)
    ensures Items(a + b) == Items(a) + Items(b)
    decreases |a|
  {
    if a == [] {
      assert a + b == b;
    } else {
      assert (a + b)[1..] == a[1..] + b;
      ItemsConcat(a[1..], b);
    }
  }

  lemma NextItems<V>(vector: Vector<V>, c: nat)
    requires vector.Valid() && c < vector.Size()
    ensures Items(Rows(vector, c + 1)) == Items(Rows(vector, c)) + if vector.At(c).List? then vector.At(c).items else []
  {
    var row := vector.At(c);
    assert Rows(vector, c + 1) == Rows(vector, c) + [row];
    ItemsConcat(Rows(vector, c), [row]);
    assert [row][1..] == [];
  }

  /** The elements of the lists one after the other: the child vector as it is if they lie there like that from its
      start, and otherwise a copy of them. */
  method GetConsecutiveChildList<V>(vector: Vector<V>, count: nat) returns (result: Vector<V>, total: nat)
    requires vector.Lists? && vector.Valid() && count <= vector.Size()
    ensures result.Valid() && total <= result.Size() && Rows(result, total) == Items(Rows(vector, count))
    ensures forall n: nat :: Deep(vector.child, n) ==> Deep(result, n)
  {
    hide Items, Rows, Picked;
    var isConsecutive := true;
    total := 0;
    NoRows(vector);
    for c := 0 to count
      invariant total == |Items(Rows(vector, c))|
      invariant isConsecutive ==>
        total <= vector.child.Size() && Rows(vector.child, total) == Items(Rows(vector, c))
    {
      NextItems(vector, c);
      if !vector.valid[c] {
        continue;
      }
      if vector.entries[c].offset != total {
        isConsecutive := false;
      }
      if isConsecutive {
        MoreRows(vector.child, total, vector.entries[c].length);
      }
      total := total + vector.entries[c].length;
    }
    if isConsecutive {
      return vector.child, total;
    }
    var sel: seq<nat> := [];
    NoRows(vector);
    assert Picked(vector.child, []) == [] by { NonePicked(vector.child); }
    for c := 0 to count
      invariant forall i | 0 <= i < |sel| :: sel[i] < vector.child.Size()
      invariant Picked(vector.child, sel) == Items(Rows(vector, c))
    {
      NextItems(vector, c);
      if !vector.valid[c] {
        continue;
      }
      ghost var before := sel;
      for k := 0 to vector.entries[c].length
        invariant forall i | 0 <= i < |sel| :: sel[i] < vector.child.Size()
        invariant Picked(vector.child, sel) == Picked(vector.child, before) + vector.At(c).items[..k]
      {
        PickMore(vector.child, sel, vector.entries[c].offset + k);
        sel := sel + [vector.entries[c].offset + k];
      }
      assert vector.At(c).items[..vector.entries[c].length] == vector.At(c).items;
    }
    SliceIsPicked(vector.child, sel);
    result := vector.child.Slice(sel);
    forall n: nat ensures Deep(vector.child, n) ==> Deep(result, n) {
      SliceIsDeep(vector.child, sel, n);
    }
  }

  /** A vector with lists to a depth of n. */
  ghost predicate Deep<V>(vector: Vector<V>, n: nat) {
    vector.Valid() && if n == 0 then vector.Flat? else vector.Lists? && Deep(vector.child, n - 1)
  }

  lemma SliceIsDeep<V>(vector: Vector<V>, sel: seq<nat>, n: nat)
    requires vector.Valid() && forall i | 0 <= i < |sel| :: sel[i] < vector.Size()
    ensures Deep(vector, n) ==> Deep(vector.Slice(sel), n)
  {}

  lemma NoRows<V>(vector: Vector<V>)
    requires vector.Valid()
    ensures Rows(vector, 0) == [] && Items(Rows(vector, 0)) == []
    ensures vector.Lists? ==> Rows(vector.child, 0) == []
  {}

  lemma NonePicked<V>(vector: Vector<V>)
    requires vector.Valid()
    ensures Picked(vector, []) == []
  {}

  lemma MoreRows<V>(vector: Vector<V>, n: nat, more: nat)
    requires vector.Valid() && n + more <= vector.Size()
    ensures Rows(vector, n + more) == Rows(vector, n) + seq(more, k requires 0 <= k < more => vector.At(n + k))
  {}

  lemma PickMore<V>(vector: Vector<V>, sel: seq<nat>, i: nat)
    requires vector.Valid() && i < vector.Size() && forall k | 0 <= k < |sel| :: sel[k] < vector.Size()
    ensures Picked(vector, sel + [i]) == Picked(vector, sel) + [vector.At(i)]
  {}

  // ---- A column of nested lists, batch by batch ----

  /** What the column that is j deep gets from some rows: the slots of its parent, and the values for those not
      empty. */
  datatype Stage<V> = Stage(slots: seq<Slot>, values: seq<Value<V>>)

  ghost function StageAt<V>(rows: seq<Value<V>>, j: nat): (s: Stage<V>)
    requires 2 * j < PARQUET_DEFINE_VALID
    ensures NonEmpty(s.slots) == |s.values| && Proper(s.slots, j)
  {
    if j == 0 then
      RootsProper(|rows|);
      Stage(Roots(|rows|), rows)
    else
      var above := StageAt(rows, j - 1);
      ExpandedNonEmpty(above.slots, above.values, j - 1);
      Stage(ExpandAll(above.slots, Lengths(above.values), MaxDefine(j - 1), j - 1), Items(above.values))
  }

  lemma {:induction false} ShredIsLeaf<V>(rows: seq<Value<V>>, j: nat, n: nat)
    requires j <= n && 2 * n < PARQUET_DEFINE_VALID
    ensures Shred(StageAt(rows, j).slots, StageAt(rows, j).values, j, n)
         == Leaf(StageAt(rows, n).slots, StageAt(rows, n).values, n)
    decreases n - j
  {
    hide ExpandAll, Leaf, Items;
    if j < n {
      ShredIsLeaf(rows, j + 1, n);
    }
  }

  lemma {:induction false} ExpandAllConcat(a: seq<Slot>, b: seq<Slot>, la: seq<Option<nat>>, lb: seq<Option<nat>>,
                                           d: nat, r: nat)
    requires d > 0 && NonEmpty(a) == |la| && NonEmpty(b) <= |lb|
    ensures NonEmpty(a + b) <= |la + lb|
    ensures ExpandAll(a + b, la + lb, d, r) == ExpandAll(a, la, d, r) + ExpandAll(b, lb, d, r)
    decreases |a|
  {
    hide ExpandAll, Expand;
    NonEmptyConcat(a, b);
    ExpandFirst(a, la, d, r);
    ExpandFirst(a + b, la + lb, d, r);
    if a == [] {
      assert a + b == b && la + lb == lb;
    } else {
      assert (a + b)[1..] == a[1..] + b;
      var first := if a[0].empty then [a[0]] else Expand(a[0], la[0], d, r);
      var more := if a[0].empty then la else la[1..];
      assert !a[0].empty ==> (la + lb)[1..] == more + lb;
      ExpandAllConcat(a[1..], b, more, lb, d, r);
      Reassociate(first, ExpandAll(a[1..], more, d, r), ExpandAll(b, lb, d, r));
    }
  }

  lemma ExpandFirst(slots: seq<Slot>, lengths: seq<Option<nat>>, d: nat, r: nat)
    requires d > 0 && NonEmpty(slots) <= |lengths|
    ensures slots == [] ==> ExpandAll(slots, lengths, d, r) == []
    ensures slots != [] && slots[0].empty ==>
      NonEmpty(slots[1..]) <= |lengths| &&
        ExpandAll(slots, lengths, d, r) == [slots[0]] + ExpandAll(slots[1..], lengths, d, r)
    ensures slots != [] && !slots[0].empty ==>
      && lengths != [] && NonEmpty(slots[1..]) <= |lengths[1..]|
      && ExpandAll(slots, lengths, d, r)
         == Expand(slots[0], lengths[0], d, r) + ExpandAll(slots[1..], lengths[1..], d, r)
  {
    hide Expand;
  }

  lemma {:induction false} StageConcat<V>(a: seq<Value<V>>, b: seq<Value<V>>, j: nat)
    requires 2 * j < PARQUET_DEFINE_VALID
    ensures StageAt(a + b, j).slots == StageAt(a, j).slots + StageAt(b, j).slots
    ensures StageAt(a + b, j).values == StageAt(a, j).values + StageAt(b, j).values
    decreases j
  {
    hide ExpandAll, Items;
    if j > 0 {
      StageConcat(a, b, j - 1);
      var s, t := StageAt(a, j - 1), StageAt(b, j - 1);
      assert Lengths(s.values + t.values) == Lengths(s.values) + Lengths(t.values);
      ExpandAllConcat(s.slots, t.slots, Lengths(s.values), Lengths(t.values), MaxDefine(j - 1), j - 1);
      ItemsConcat(s.values, t.values);
    }
  }

  lemma {:induction false} LeafConcat<V>(a: seq<Slot>, b: seq<Slot>, va: seq<Value<V>>, vb: seq<Value<V>>, n: nat)
    requires NonEmpty(a) == |va| && NonEmpty(b) == |vb|
    ensures NonEmpty(a + b) == |va + vb|
    ensures Leaf(a + b, va + vb, n) == Joined(Leaf(a, va, n), Leaf(b, vb, n))
    decreases |a|
  {
    hide LeafDefine;
    NonEmptyConcat(a, b);
    if a == [] {
      assert a + b == b && va + vb == vb;
    } else {
      assert (a + b)[1..] == a[1..] + b;
      var first := if a[0].empty then [] else [va[0]];
      var more := va[|first|..];
      assert (va + vb)[|first|..] == more + vb;
      LeafConcat(a[1..], b, more, vb, n);
      LeafFirst(a, va, n);
      LeafFirst(a + b, va + vb, n);
      JoinedFirst(LeafSlot(a[0], first, n), Leaf(a[1..], more, n), Leaf(b, vb, n));
    }
  }

  ghost function Joined<V>(a: Shredded<V>, b: Shredded<V>): Shredded<V> {
    Shredded(a.levels + b.levels, a.prims + b.prims)
  }

  lemma JoinedFirst<V>(first: Shredded<V>, a: Shredded<V>, b: Shredded<V>)
    ensures Joined(first, Joined(a, b)) == Joined(Joined(first, a), b)
  {
    assert first.levels + (a.levels + b.levels) == first.levels + a.levels + b.levels;
    assert first.prims + (a.prims + b.prims) == first.prims + a.prims + b.prims;
  }

  /** What one slot gives, with its value or without one. */
  ghost function LeafSlot<V>(slot: Slot, value: seq<Value<V>>, n: nat): Shredded<V> {
    if value == [] then Shredded([Level(slot.repeat, slot.define)], [])
    else Shredded([Level(slot.repeat, LeafDefine(slot, value[0], n))], if value[0].Prim? then [value[0].v] else [])
  }

  lemma LeafFirst<V>(slots: seq<Slot>, values: seq<Value<V>>, n: nat)
    requires NonEmpty(slots) == |values| && slots != []
    ensures slots[0].empty ==>
      Leaf(slots, values, n) == Joined(LeafSlot(slots[0], [], n), Leaf(slots[1..], values, n))
    ensures !slots[0].empty ==>
      Leaf(slots, values, n) == Joined(LeafSlot(slots[0], [values[0]], n), Leaf(slots[1..], values[1..], n))
  {
    hide LeafDefine;
  }

  /** Only as many lengths are used as there are slots that are not empty. */
  lemma {:induction false} LengthsUsed(slots: seq<Slot>, lengths: seq<Option<nat>>, m: nat, d: nat, r: nat)
    requires d > 0 && NonEmpty(slots) <= m <= |lengths|
    ensures ExpandAll(slots, lengths[..m], d, r) == ExpandAll(slots, lengths, d, r)
    decreases |slots|
  {
    if slots != [] {
      if slots[0].empty {
        LengthsUsed(slots[1..], lengths, m, d, r);
      } else {
        assert lengths[..m][1..] == lengths[1..][..m - 1];
        LengthsUsed(slots[1..], lengths[1..], m - 1, d, r);
      }
    }
  }

  ghost predicate ListWritten<V>(list: ListColumnWriterState, rows: seq<Value<V>>, j: nat)
    requires 2 * j + 2 < PARQUET_DEFINE_VALID
    reads list, list.state
  {
    && Whole(list.state) && Slots(list.state) == StageAt(rows, j + 1).slots
    && list.parentIndex == |StageAt(rows, j).slots|
  }

  /** The list that is j deep gets a batch of rows. */
  method PrepareLevel<V>(list: ListColumnWriterState, parent: ListColumnWriterState?, vector: Vector<V>, count: nat,
                         j: nat, ghost rows: seq<Value<V>>, ghost batch: seq<Value<V>>)
    requires 2 * j + 2 < PARQUET_DEFINE_VALID && ListWritten(list, rows, j)
    requires if j == 0 then parent == null
             else parent != null && parent != list && parent.state != list.state
                  && ListWritten(parent, rows + batch, j - 1)
    requires vector.Lists? && vector.Valid() && count <= vector.Size()
    requires Rows(vector, count) == StageAt(batch, j).values
    modifies list, list.state
    ensures ListWritten(list, rows + batch, j)
  {
    hide ExpandAll, NonEmpty, Items, MeetsNull, StageAt, Rows;
    ghost var slots := StageAt(batch, j).slots;
    StageConcat(rows, batch, j);
    StageConcat(rows, batch, j + 1);
    NewSlots(list, parent, j, count, rows, batch);
    var r := PrepareList(list, if parent == null then null else parent.state, vector.entries, vector.valid, count,
                         MaxDefine(j), j, true);
    RowLengths(vector, count);
    LengthsUsed(slots, EntryLengths(vector.entries, vector.valid), count, MaxDefine(j), j);
    NextStage(batch, j);
  }

  lemma NextStage<V>(rows: seq<Value<V>>, j: nat)
    requires 2 * j + 2 < PARQUET_DEFINE_VALID
    ensures var s := StageAt(rows, j);
      StageAt(rows, j + 1) == Stage(ExpandAll(s.slots, Lengths(s.values), MaxDefine(j), j), Items(s.values))
  {}

  lemma RowLengths<V>(vector: Vector<V>, count: nat)
    requires vector.Lists? && vector.Valid() && count <= vector.Size()
    ensures EntryLengths(vector.entries, vector.valid)[..count] == Lengths(Rows(vector, count))
  {}

  /** What is new for a list: the slots its parent has got from the batch. */
  lemma NewSlots<V>(list: ListColumnWriterState, parent: ListColumnWriterState?, j: nat, count: nat,
                    rows: seq<Value<V>>, batch: seq<Value<V>>)
    requires 2 * j + 2 < PARQUET_DEFINE_VALID && ListWritten(list, rows, j) && count == |StageAt(batch, j).values|
    requires if j == 0 then parent == null else parent != null && ListWritten(parent, rows + batch, j - 1)
    requires StageAt(rows + batch, j).slots == StageAt(rows, j).slots + StageAt(batch, j).slots
    ensures var p := if parent == null then null else parent.state;
      && (p != null ==> IsParent(p) && list.parentIndex <= |p.definitionLevels|)
      && ParentSlots(p, list.parentIndex, count, j) == StageAt(batch, j).slots
  {
    if j == 0 {
      assert ParentSlots(null, list.parentIndex, count, j) == Roots(|batch|);
    } else {
      hide NonEmpty, ExpandAll, StageAt;
      WrittenSlots(parent.state, list.parentIndex, j);
      assert Slots(parent.state)[list.parentIndex..] == StageAt(batch, j).slots;
    }
  }

  lemma WrittenSlots(parent: ColumnWriterState, start: nat, j: nat)
    requires Whole(parent) && start <= |parent.definitionLevels|
    ensures IsParent(parent) && ParentSlots(parent, start, 0, j) == Slots(parent)[start..]
  {}

  /** The levels of a leaf. */
  ghost function LevelsIn(leaf: ColumnWriterState): seq<Level>
    requires |leaf.repetitionLevels| == |leaf.definitionLevels|
    reads leaf
  {
    ZipLevels(leaf.repetitionLevels, leaf.definitionLevels)
  }

  ghost function ZipLevels(repeats: seq<nat>, defines: seq<nat>): seq<Level>
    requires |repeats| == |defines|
  {
    seq(|repeats|, i requires 0 <= i < |repeats| => Level(repeats[i], defines[i]))
  }

  ghost predicate LeafWritten<V>(leaf: ColumnWriterState, rows: seq<Value<V>>, n: nat)
    requires 2 * n < PARQUET_DEFINE_VALID
    reads leaf
  {
    |leaf.repetitionLevels| == |leaf.definitionLevels| && LevelsIn(leaf) == ShredRows(rows, n).levels
  }

  /** The row that a slot of the leaf gets is the number of slots before it that are not empty. */
  lemma {:induction false} RankIsNonEmpty(isEmpty: seq<bool>, slots: seq<Slot>, start: nat, i: nat)
    requires i <= |slots| && start + |slots| == |isEmpty|
    requires forall k | 0 <= k < |slots| :: slots[k].empty == isEmpty[start + k]
    ensures Rank(isEmpty, start, start + i) == NonEmpty(slots[..i])
    decreases i
  {
    if i > 0 {
      RankIsNonEmpty(isEmpty, slots, start, i - 1);
      assert slots[..i] == slots[..i - 1] + [slots[i - 1]];
      NonEmptyConcat(slots[..i - 1], [slots[i - 1]]);
      assert [slots[i - 1]][1..] == [];
    }
  }

  lemma {:induction false} LeafAt<V>(slots: seq<Slot>, values: seq<Value<V>>, n: nat, i: nat)
    requires NonEmpty(slots) == |values| && i < |slots|
    ensures |Leaf(slots, values, n).levels| == |slots|
    ensures slots[i].empty ==> Leaf(slots, values, n).levels[i] == Level(slots[i].repeat, slots[i].define)
    ensures !slots[i].empty ==>
      && NonEmpty(slots[..i]) < |values|
      && Leaf(slots, values, n).levels[i]
         == Level(slots[i].repeat, LeafDefine(slots[i], values[NonEmpty(slots[..i])], n))
    decreases |slots|
  {
    var rest := slots[1..];
    if i > 0 {
      assert slots[..i][1..] == rest[..i - 1];
      if slots[0].empty {
        LeafAt(rest, values, n, i - 1);
      } else {
        LeafAt(rest, values[1..], n, i - 1);
      }
    } else {
      LeafLength(slots, values, n);
    }
  }

  lemma {:induction false} LeafLength<V>(slots: seq<Slot>, values: seq<Value<V>>, n: nat)
    requires NonEmpty(slots) == |values|
    ensures |Leaf(slots, values, n).levels| == |slots|
    decreases |slots|
  {
    if slots != [] {
      LeafLength(slots[1..], if slots[0].empty then values else values[1..], n);
    }
  }

  /** The leaf gets a batch; its parent is the innermost list. */
  method PrepareLeaf<V>(leaf: ColumnWriterState, parent: ListColumnWriterState, vector: Vector<V>, count: nat, n: nat,
                        ghost rows: seq<Value<V>>, ghost batch: seq<Value<V>>)
    requires 0 < n && 2 * n < PARQUET_DEFINE_VALID && LeafWritten(leaf, rows, n) && leaf != parent.state
    requires ListWritten(parent, rows + batch, n - 1)
    requires vector.Flat? && count <= vector.Size() && Rows(vector, count) == StageAt(batch, n).values
    modifies leaf
    ensures LeafWritten(leaf, rows + batch, n)
  {
    hide StageAt, ShredRows, CountNot, Slots, Whole, Rank, RowIsValid, Rows, ZipLevels;
    ghost var a, b := StageAt(rows, n), StageAt(batch, n);
    LeafLevels(rows, batch, n);
    ParentOfLeaf(leaf, parent, n, rows, batch);
    ghost var start, repeats, old0 := |leaf.definitionLevels|, leaf.repetitionLevels, LevelsIn(leaf);
    ghost var defines := leaf.definitionLevels;
    HandleRepeatLevels(leaf, parent.state);
    var mask := Some(Validity(vector.values));
    var r := HandleDefineLevels(leaf, parent.state, mask, count, MaxDefine(n), MaxDefine(n) - 1, true);
    ghost var p := Parent(parent.state.definitionLevels, parent.state.isEmpty);
    forall k | start <= k < |p.levels|
      ensures Level(leaf.repetitionLevels[k], leaf.definitionLevels[k]) == Leaf(b.slots, b.values, n).levels[k - start]
    {
      SlotLevel(parent.state, start, k, b, vector, count, n);
    }
    Zipped(repeats, defines, leaf.repetitionLevels, leaf.definitionLevels, Leaf(b.slots, b.values, n).levels);
  }

  function Validity<V>(values: seq<Option<V>>): seq<bool> {
    seq(|values|, i requires 0 <= i < |values| => values[i].Some?)
  }

  lemma LeafLevels<V>(rows: seq<Value<V>>, batch: seq<Value<V>>, n: nat)
    requires 2 * n < PARQUET_DEFINE_VALID
    ensures var a, b := StageAt(rows, n), StageAt(batch, n);
      && StageAt(rows + batch, n).slots == a.slots + b.slots
      && |Leaf(a.slots, a.values, n).levels| == |a.slots| && |Leaf(b.slots, b.values, n).levels| == |b.slots|
      && ShredRows(rows, n).levels == Leaf(a.slots, a.values, n).levels
      && ShredRows(rows + batch, n).levels == Leaf(a.slots, a.values, n).levels + Leaf(b.slots, b.values, n).levels
      && ShredRows(rows + batch, n).prims == ShredRows(rows, n).prims + Leaf(b.slots, b.values, n).prims
  {
    hide Leaf, Shred;
    var a, b := StageAt(rows, n), StageAt(batch, n);
    StageConcat(rows, batch, n);
    ShredIsLeaf(rows, 0, n);
    ShredIsLeaf(rows + batch, 0, n);
    LeafConcat(a.slots, b.slots, a.values, b.values, n);
    LeafLength(a.slots, a.values, n);
    LeafLength(b.slots, b.values, n);
  }

  lemma ParentOfLeaf<V>(leaf: ColumnWriterState, parent: ListColumnWriterState, n: nat, rows: seq<Value<V>>,
                        batch: seq<Value<V>>)
    requires 0 < n && 2 * n < PARQUET_DEFINE_VALID && LeafWritten(leaf, rows, n)
    requires ListWritten(parent, rows + batch, n - 1)
    requires var a, b := StageAt(rows, n), StageAt(batch, n);
      && StageAt(rows + batch, n).slots == a.slots + b.slots && |Leaf(a.slots, a.values, n).levels| == |a.slots|
      && ShredRows(rows, n).levels == Leaf(a.slots, a.values, n).levels
    ensures var state, start := parent.state, |leaf.definitionLevels|;
      && start == |leaf.repetitionLevels| == |StageAt(rows, n).slots|
      && Parent(state.definitionLevels, state.isEmpty).Valid()
      && |state.definitionLevels| == |state.isEmpty| == |state.repetitionLevels| == start + |StageAt(batch, n).slots|
      && leaf.repetitionLevels <= state.repetitionLevels
      && forall k | start <= k < |state.isEmpty| ::
           StageAt(batch, n).slots[k - start]
             == Slot(state.repetitionLevels[k], state.definitionLevels[k], state.isEmpty[k])
  {
    hide StageAt, ShredRows, Leaf, NonEmpty, Proper;
    var a, b, state := StageAt(rows, n), StageAt(batch, n), parent.state;
    assert Slots(state) == a.slots + b.slots && LevelsIn(leaf) == Leaf(a.slots, a.values, n).levels;
    SameRepeats(leaf, state, a, b, n);
    SlotsBehind(state, a.slots, b.slots);
  }

  lemma SameRepeats<V>(leaf: ColumnWriterState, state: ColumnWriterState, a: Stage<V>, b: Stage<V>, n: nat)
    requires |leaf.repetitionLevels| == |leaf.definitionLevels| == |a.slots| && NonEmpty(a.slots) == |a.values|
    requires LevelsIn(leaf) == Leaf(a.slots, a.values, n).levels && Whole(state) && Slots(state) == a.slots + b.slots
    ensures leaf.repetitionLevels <= state.repetitionLevels
  {
    hide Leaf, NonEmpty;
    forall k | 0 <= k < |a.slots| ensures leaf.repetitionLevels[k] == state.repetitionLevels[k] {
      assert Slots(state)[k] == a.slots[k] && LevelsIn(leaf)[k] == Leaf(a.slots, a.values, n).levels[k];
      LeafRepeats(a.slots, a.values, n, k);
    }
  }

  lemma SlotsBehind(state: ColumnWriterState, a: seq<Slot>, b: seq<Slot>)
    requires Whole(state) && Slots(state) == a + b
    ensures forall k | |a| <= k < |state.isEmpty| ::
      b[k - |a|] == Slot(state.repetitionLevels[k], state.definitionLevels[k], state.isEmpty[k])
  {
    forall k | |a| <= k < |state.isEmpty|
      ensures b[k - |a|] == Slot(state.repetitionLevels[k], state.definitionLevels[k], state.isEmpty[k])
    {
      assert Slots(state)[k] == b[k - |a|];
    }
  }

  lemma LeafRepeats<V>(slots: seq<Slot>, values: seq<Value<V>>, n: nat, k: nat)
    requires NonEmpty(slots) == |values| && k < |slots|
    ensures |Leaf(slots, values, n).levels| == |slots| && Leaf(slots, values, n).levels[k].repeat == slots[k].repeat
  {
    hide Leaf, LeafDefine;
    LeafAt(slots, values, n, k);
  }

  /** The level of one slot of the leaf. */
  lemma SlotLevel<V>(parent: ColumnWriterState, start: nat, k: nat, b: Stage<V>, vector: Vector<V>, count: nat, n: nat)
    requires start <= k < |parent.definitionLevels| == |parent.isEmpty| == |parent.repetitionLevels|
    requires start + |b.slots| == |parent.isEmpty| && NonEmpty(b.slots) == |b.values| && Proper(b.slots, n)
    requires 0 < n && 2 * n < PARQUET_DEFINE_VALID
    requires forall i | start <= i < |parent.isEmpty| ::
      b.slots[i - start] == Slot(parent.repetitionLevels[i], parent.definitionLevels[i], parent.isEmpty[i])
    requires vector.Flat? && count <= vector.Size() && Rows(vector, count) == b.values
    ensures |Leaf(b.slots, b.values, n).levels| == |b.slots|
    ensures var p, mask := Parent(parent.definitionLevels, parent.isEmpty), Some(Validity(vector.values));
      Level(parent.repetitionLevels[k], p.Level(start, k, mask, MaxDefine(n), MaxDefine(n) - 1))
        == Leaf(b.slots, b.values, n).levels[k - start]
  {
    hide Leaf, NonEmpty, Rank;
    var i := k - start;
    LeafAt(b.slots, b.values, n, i);
    forall x | 0 <= x < |b.slots| ensures b.slots[x].empty == parent.isEmpty[start + x] {
      assert b.slots[start + x - start] == b.slots[x];
    }
    RankIsNonEmpty(parent.isEmpty, b.slots, start, i);
  }

  lemma Zipped(repeats: seq<nat>, defines: seq<nat>, repeats': seq<nat>, defines': seq<nat>, more: seq<Level>)
    requires |repeats| == |defines| && repeats <= repeats' && defines <= defines'
    requires |repeats'| == |defines'| == |repeats| + |more|
    requires forall k | |repeats| <= k < |repeats'| :: Level(repeats'[k], defines'[k]) == more[k - |repeats|]
    ensures ZipLevels(repeats', defines') == ZipLevels(repeats, defines) + more
  {}

  /** The column holds the rows: the slots of every list and the levels of the leaf. */
  ghost predicate ColumnWritten<V>(lists: seq<ListColumnWriterState>, leaf: ColumnWriterState, rows: seq<Value<V>>,
                                   more: seq<Value<V>>, done: nat)
    requires 2 * |lists| < PARQUET_DEFINE_VALID
    reads lists, set list <- lists :: list.state, leaf
  {
    && (forall j | 0 <= j < |lists| :: ListWritten(lists[j], if j < done then rows + more else rows, j))
    && LeafWritten(leaf, if done > |lists| then rows + more else rows, |lists|)
  }

  ghost predicate Apart(lists: seq<ListColumnWriterState>, leaf: ColumnWriterState)
    reads lists
  {
    && (forall i, j | 0 <= i < j < |lists| :: lists[i] != lists[j] && lists[i].state != lists[j].state)
    && forall list <- lists :: list.state != leaf
  }

  /** The values that are not null. */
  function Defined<V>(values: seq<Option<V>>): seq<V> {
    if values == [] then []
    else (if values[0].Some? then [values[0].value] else []) + Defined(values[1..])
  }

  lemma {:induction false} LeafPrims<V>(slots: seq<Slot>, values: seq<Value<V>>, options: seq<Option<V>>, n: nat)
    requires NonEmpty(slots) == |values| == |options|
    requires forall i | 0 <= i < |values| :: values[i] == if options[i].Some? then Prim(options[i].value) else Null
    ensures Leaf(slots, values, n).prims == Defined(options)
    decreases |slots|
  {
    if slots != [] {
      if slots[0].empty {
        LeafPrims(slots[1..], values, options, n);
      } else {
        LeafPrims(slots[1..], values[1..], options[1..], n);
      }
    }
  }

  /** Prepare for the list that is j deep and all below it; the values of the leaf that are not null are returned. */
  method PrepareFrom<V>(lists: seq<ListColumnWriterState>, leaf: ColumnWriterState, vector: Vector<V>, count: nat,
                        j: nat, ghost rows: seq<Value<V>>, ghost batch: seq<Value<V>>)
    returns (prims: seq<V>)
    requires j <= |lists| && lists != [] && 2 * |lists| < PARQUET_DEFINE_VALID && Apart(lists, leaf)
    requires Deep(vector, |lists| - j) && count <= vector.Size() && Rows(vector, count) == StageAt(batch, j).values
    requires ColumnWritten(lists, leaf, rows, batch, j)
    modifies lists, set list <- lists :: list.state, leaf
    ensures ColumnWritten(lists, leaf, rows, batch, |lists| + 1)
    ensures ShredRows(rows + batch, |lists|).prims == ShredRows(rows, |lists|).prims + prims
    decreases |lists| - j
  {
    hide StageAt, ShredRows, ListWritten, LeafWritten, Rows, Items;
    var n := |lists|;
    if j == n {
      PrepareLeaf(leaf, lists[n - 1], vector, count, n, rows, batch);
      LeafLevels(rows, batch, n);
      FlatRows(vector, count);
      LeafPrims(StageAt(batch, n).slots, StageAt(batch, n).values, vector.values[..count], n);
      return Defined(vector.values[..count]);
    }
    PrepareLevel(lists[j], if j == 0 then null else lists[j - 1], vector, count, j, rows, batch);
    var child, total := GetConsecutiveChildList(vector, count);
    NextStage(batch, j);
    prims := PrepareFrom(lists, leaf, child, total, j + 1, rows, batch);
  }

  /** New writers hold no rows. */
  lemma NothingWritten<V>(lists: seq<ListColumnWriterState>, leaf: ColumnWriterState)
    requires 2 * |lists| < PARQUET_DEFINE_VALID
    requires forall list <- lists :: Whole(list.state) && Slots(list.state) == [] && list.parentIndex == 0
    requires leaf.definitionLevels == [] && leaf.repetitionLevels == []
    ensures var none: seq<Value<V>> := []; ColumnWritten(lists, leaf, none, none, |lists| + 1)
  {
    var none: seq<Value<V>> := [];
    forall j | 0 <= j < |lists| ensures ListWritten(lists[j], none, j) {
      NoStage<V>(j);
      NoStage<V>(j + 1);
    }
    NoStage<V>(|lists|);
    ShredIsLeaf(none, 0, |lists|);
    assert none + none == none;
  }

  lemma {:induction false} NoStage<V>(j: nat)
    requires 2 * j < PARQUET_DEFINE_VALID
    ensures var none: seq<Value<V>> := []; StageAt(none, j) == Stage([], none)
  {
    if j > 0 {
      NoStage<V>(j - 1);
    }
  }

  /** For example, the lists [a], [], [NULL]. */
  lemma ThreeLists<V>(a: V)
    ensures var rows := [List([Prim(a)]), List([]), List([Null])];
      ShredRows(rows, 1) == Shredded([Level(0, 3), Level(0, 1), Level(0, 2)], [a])
  {
    hide Leaf, ExpandAll, Items, NonEmpty;
    var rows := [List([Prim(a)]), List([]), List([Null])];
    var v, e := Slot(0, PARQUET_DEFINE_VALID, false), Slot(0, 1, true);
    ShredIsLeaf(rows, 0, 1);
    assert Roots(3) == [v, v, v] && Lengths(rows) == [Some(1), Some(0), Some(1)];
    ThreeExpanded();
    assert Items(rows) == [Prim(a), Null] by {
      ItemsConcat([rows[0]], [rows[1], rows[2]]);
      ItemsConcat([rows[1]], [rows[2]]);
      ItemsOfOne([Prim(a)]);
      ItemsOfOne<V>([]);
      ItemsOfOne<V>([Null]);
      assert rows == [rows[0]] + [rows[1], rows[2]] && [rows[1], rows[2]] == [rows[1]] + [rows[2]];
    }
    ThreeLeaves(a);
  }

  lemma ItemsOfOne<V>(items: seq<Value<V>>)
    ensures Items([List(items)]) == items
  {
    assert [List(items)][1..] == [];
  }

  lemma ThreeExpanded()
    ensures var v, e := Slot(0, PARQUET_DEFINE_VALID, false), Slot(0, 1, true);
      NonEmpty([v, v, v]) == 3 && ExpandAll([v, v, v], [Some(1), Some(0), Some(1)], 1, 0) == [v, e, v]
  {
    var v, e := Slot(0, PARQUET_DEFINE_VALID, false), Slot(0, 1, true);
    assert Repeated(0, 0) == [];
    assert [v][1..] == [] && [v, v][1..] == [v] && [v, v, v][1..] == [v, v];
    assert ExpandAll([v], [Some(1)], 1, 0) == [v];
    assert ExpandAll([v, v], [Some(0), Some(1)], 1, 0) == [e, v];
  }

  lemma ThreeLeaves<V>(a: V)
    ensures var v, e := Slot(0, PARQUET_DEFINE_VALID, false), Slot(0, 1, true);
      && NonEmpty([v, e, v]) == 2
      && Leaf([v, e, v], [Prim(a), Null], 1) == Shredded([Level(0, 3), Level(0, 1), Level(0, 2)], [a])
  {
    var v, e := Slot(0, PARQUET_DEFINE_VALID, false), Slot(0, 1, true);
    var none: seq<Value<V>> := [Null];
    assert [v][1..] == [] && [e, v][1..] == [v] && [v, e, v][1..] == [e, v] && [Prim(a), Null][1..] == none;
    assert Leaf([v], none, 1) == Shredded([Level(0, 2)], []);
    assert Leaf([e, v], none, 1) == Shredded([Level(0, 1), Level(0, 2)], []);
  }

  lemma FlatRows<V>(vector: Vector<V>, count: nat)
    requires vector.Flat? && count <= vector.Size()
    ensures forall i | 0 <= i < count ::
      Rows(vector, count)[i] == if vector.values[i].Some? then Prim(vector.values[i].value) else Null
  {}

  /** A batch of rows of a column of nested lists. What the file then holds, the levels of the leaf and the values that
      are not null, can be assembled into exactly the rows so far. */
  method PrepareRows<V>(lists: seq<ListColumnWriterState>, leaf: ColumnWriterState, vector: Vector<V>, count: nat,
                        ghost rows: seq<Value<V>>)
    returns (prims: seq<V>)
    requires lists != [] && 2 * |lists| + 1 < PARQUET_DEFINE_VALID && Apart(lists, leaf)
    requires Deep(vector, |lists|) && count <= vector.Size() && AllNested(rows, |lists|)
    requires ColumnWritten(lists, leaf, rows, [], |lists| + 1)
    modifies lists, set list <- lists :: list.state, leaf
    ensures ColumnWritten(lists, leaf, rows + Rows(vector, count), [], |lists| + 1)
    ensures AllNested(rows + Rows(vector, count), |lists|)
    ensures ShredRows(rows + Rows(vector, count), |lists|).prims == ShredRows(rows, |lists|).prims + prims
    ensures |leaf.repetitionLevels| == |leaf.definitionLevels|
    ensures Assemble(Shredded(LevelsIn(leaf), ShredRows(rows, |lists|).prims + prims), 0, |lists|).values
         == rows + Rows(vector, count)
  {
    hide ShredRows, ListWritten, Rows, Items, Assemble;
    ghost var batch, n := Rows(vector, count), |lists|;
    assert rows + [] == rows && (rows + batch) + [] == rows + batch;
    prims := PrepareFrom(lists, leaf, vector, count, 0, rows, batch);
    RowsNested(vector, count, n);
    RowsRoundTrip(rows + batch, n);
    assert ShredRows(rows + batch, n) == Shredded(LevelsIn(leaf), ShredRows(rows, n).prims + prims);
  }

  lemma {:induction false} AtIsNested<V>(vector: Vector<V>, i: nat, n: nat)
    requires Deep(vector, n) && i < vector.Size()
    ensures Nested(vector.At(i), n)
    decreases n
  {
    if n > 0 && vector.valid[i] {
      var row := vector.At(i);
      forall item <- row.items ensures Nested(item, n - 1) {
        var k :| 0 <= k < |row.items| && row.items[k] == item;
        AtIsNested(vector.child, vector.entries[i].offset + k, n - 1);
      }
    }
  }

  lemma RowsNested<V>(vector: Vector<V>, count: nat, n: nat)
    requires Deep(vector, n) && count <= vector.Size()
    ensures AllNested(Rows(vector, count), n)
  {
    forall i | 0 <= i < count ensures Nested(vector.At(i), n) {
      AtIsNested(vector, i, n);
    }
  }
}
