/** list_filter and list_transform: many lists are flattened into batches of a fixed size, the lambda is executed batch
    by batch, and the lists of the result are put together again by counters that live on between batches. */
module LambdaFunctions {
  import opened Wrappers

  datatype ListEntry = ListEntry(offset: nat, length: nat)

  /** A captured column; constant vectors are passed on, the others are sliced by row. */
  datatype Column<V> = Constant(value: V) | Flat(values: seq<V>)

  /** The arguments of a call: row r holds list sel[r]; `lambda` gets an element, its index if it wants one, and the
      captured columns. */
  datatype Args<!T, !V, !R> = Args(
    sel: seq<nat>, valid: seq<bool>, entries: seq<ListEntry>, child: seq<T>,
    columns: seq<Column<V>>, hasIndex: bool, lambda: (T, Option<int>, seq<V>) -> R)
  {
    ghost predicate Valid() {
      && |valid| == |entries| && (forall r | 0 <= r < |sel| :: sel[r] < |entries|)
      && (forall i | 0 <= i < |entries| && valid[i] :: entries[i].offset + entries[i].length <= |child|)
      && (forall c | 0 <= c < |columns| && columns[c].Flat? :: |sel| <= |columns[c].values|)
    }

    ghost predicate IsNull(r: nat)
      requires Valid() && r < |sel|
    {
      !valid[sel[r]]
    }

    /** The number of elements of row r; a NULL row has none. */
    ghost function Len(r: nat): nat
      requires Valid()
    {
      if r >= |sel| || IsNull(r) then 0 else entries[sel[r]].length
    }

    ghost function Elem(r: nat, c: nat): T
      requires Valid() && c < Len(r)
    {
      child[entries[sel[r]].offset + c]
    }

    function Captured(r: nat): seq<V>
      requires forall c | 0 <= c < |columns| && columns[c].Flat? :: r < |columns[c].values|
    {
      seq(|columns|, c requires 0 <= c < |columns| =>
        if columns[c].Constant? then columns[c].value else columns[c].values[r])
    }

    /** The lambda on element c of row r, with its 1-based index and the columns of that row. */
    ghost function Eval(r: nat, c: nat): R
      requires Valid() && c < Len(r)
    {
      lambda(Elem(r, c), if hasIndex then Some(c + 1) else None, Captured(r))
    }

    /** How many elements there are in the rows before row r. */
    ghost function Start(r: nat): nat
      requires Valid()
    {
      if r == 0 then 0 else Start(r - 1) + Len(r - 1)
    }
  }

  type FilterArgs<!T, !V> = Args<T, V, Option<bool>>

  // ---- The meaning of the functions, row by row ----

  /** The elements among the first n of row r whose lambda is true. */
  ghost function Kept<T, V>(args: FilterArgs<T, V>, r: nat, n: nat): seq<T>
    requires args.Valid() && n <= args.Len(r)
  {
    if n == 0 then []
    else Kept(args, r, n - 1) + if args.Eval(r, n - 1) == Some(true) then [args.Elem(r, n - 1)] else []
  }

  ghost function KeptRow<T, V>(args: FilterArgs<T, V>, r: nat): seq<T>
    requires args.Valid()
  {
    Kept(args, r, args.Len(r))
  }

  ghost function KeptRows<T, V>(args: FilterArgs<T, V>, n: nat): seq<T>
    requires args.Valid()
  {
    if n == 0 then [] else KeptRows(args, n - 1) + KeptRow(args, n - 1)
  }

  ghost function Mapped<T, V, R>(args: Args<T, V, R>, r: nat, n: nat): seq<R>
    requires args.Valid() && n <= args.Len(r)
  {
    seq(n, c requires 0 <= c < n => args.Eval(r, c))
  }

  ghost function MappedRows<T, V, R>(args: Args<T, V, R>, n: nat): (s: seq<R>)
    requires args.Valid()
    ensures |s| == args.Start(n)
  {
    if n == 0 then [] else MappedRows(args, n - 1) + Mapped(args, n - 1, args.Len(n - 1))
  }

  /** The list of a row is a stretch of the child vector. */
  lemma ListOfRow<T, V, R>(args: Args<T, V, R>, r: nat)
    requires args.Valid() && r < |args.sel| && !args.IsNull(r)
    ensures var entry := args.entries[args.sel[r]];
      && args.valid[args.sel[r]] && entry.offset + entry.length <= |args.child| && args.Len(r) == entry.length
      && forall c | 0 <= c < entry.length :: args.Elem(r, c) == args.child[entry.offset..entry.offset + entry.length][c]
  {}

  /** What the lambda is called with: the element, its number in the list counted from 1 if it wants that, and for each
      captured column the value of the row, or the only value of a constant. */
  lemma LambdaArguments<T, V, R>(args: Args<T, V, R>, r: nat, c: nat)
    requires args.Valid() && r < |args.sel| && c < args.Len(r)
    ensures exists columns: seq<V> ::
      && |columns| == |args.columns|
      && (forall k | 0 <= k < |columns| ::
            match args.columns[k]
            case Constant(value) => columns[k] == value
            case Flat(values) => r < |values| && columns[k] == values[r])
      && args.Eval(r, c) == args.lambda(args.Elem(r, c), if args.hasIndex then Some(1 + c) else None, columns)
  {
    var columns := args.Captured(r);
    assert |columns| == |args.columns|;
  }

  /** Exactly the elements whose lambda is true are kept, in their order: for each of them, as many are kept before it
      as there are such elements before it. A lambda that is NULL keeps nothing. */
  lemma {:induction false} KeptAreTrue<T, V>(args: FilterArgs<T, V>, r: nat, n: nat)
    requires args.Valid() && n <= args.Len(r)
    ensures |Kept(args, r, n)| == |set c: nat | c < n && args.Eval(r, c) == Some(true)|
    ensures forall c: nat | c < n && args.Eval(r, c) == Some(true) ::
      |Kept(args, r, c)| < |Kept(args, r, n)| && Kept(args, r, n)[|Kept(args, r, c)|] == args.Elem(r, c)
    decreases n
  {
    hide Args.Valid, Args.Len, Args.Elem, Args.Eval;
    if n > 0 {
      KeptAreTrue(args, r, n - 1);
      OneMore(args, r, n - 1);
    }
  }

  lemma OneMore<T, V>(args: FilterArgs<T, V>, r: nat, n: nat)
    requires args.Valid() && n < args.Len(r)
    ensures |set c: nat | c < n + 1 && args.Eval(r, c) == Some(true)| ==
      |set c: nat | c < n && args.Eval(r, c) == Some(true)| + if args.Eval(r, n) == Some(true) then 1 else 0
  {
    hide Args.Valid, Args.Len, Args.Elem, Args.Eval;
    var before := set c: nat | c < n && args.Eval(r, c) == Some(true);
    var all := set c: nat | c < n + 1 && args.Eval(r, c) == Some(true);
    assert all == before + if args.Eval(r, n) == Some(true) then {n} else {};
  }

  // ---- Numbering the elements of all rows ----

  lemma {:induction false} StartGrows<T, V, R>(args: Args<T, V, R>, r: nat, q: nat)
    requires args.Valid() && r < q
    ensures args.Start(r) + args.Len(r) <= args.Start(q)
    decreases q
  {
    if r < q - 1 {
      StartGrows(args, r, q - 1);
    }
  }

  /** An element's number in the flat order determines its row. */
  lemma SameSlot<T, V, R>(args: Args<T, V, R>, r: nat, c: nat, q: nat, d: nat)
    requires args.Valid() && c < args.Len(r) && d < args.Len(q) && args.Start(r) + c == args.Start(q) + d
    ensures r == q && c == d
  {
    if r < q {
      StartGrows(args, r, q);
    } else if q < r {
      StartGrows(args, q, r);
    }
  }

  // ---- One batch ----

  /** The selection vectors of a batch: element i is number first + i in the flat order. */
  ghost predicate IsBatch<T, V, R>(args: Args<T, V, R>, first: nat, childSel: seq<nat>, rowSel: seq<nat>,
                                   index: seq<int>)
  {
    && args.Valid() && |childSel| == |rowSel| == |index|
    && forall i | 0 <= i < |rowSel| :: IsSlot(args, first + i, childSel[i], rowSel[i], index[i])
  }

  ghost predicate IsSlot<T, V, R>(args: Args<T, V, R>, k: nat, child: nat, row: nat, index: int)
    requires args.Valid()
  {
    && row < |args.sel| && args.Start(row) <= k < args.Start(row) + args.Len(row)
    && child == args.entries[args.sel[row]].offset + k - args.Start(row)
    && index == k - args.Start(row) + 1
  }

  /** Slices the columns by the selection vectors and executes the lambda on each element. */
  method ExecuteExpression<T, V, R>(args: Args<T, V, R>, elemCnt: nat, childSel: array<nat>, rowSel: array<nat>,
                                    index: array<int>, ghost first: nat)
    returns (values: seq<R>)
    requires elemCnt <= childSel.Length == rowSel.Length == index.Length
    requires IsBatch(args, first, childSel[..elemCnt], rowSel[..elemCnt], index[..elemCnt])
    ensures |values| == elemCnt
    ensures forall i | 0 <= i < elemCnt ::
      rowSel[i] < |args.sel| && args.Start(rowSel[i]) <= first + i < args.Start(rowSel[i]) + args.Len(rowSel[i])
      && values[i] == args.Eval(rowSel[i], first + i - args.Start(rowSel[i]))
  {
    values := [];
    for i := 0 to elemCnt
      invariant |values| == i
      invariant forall j | 0 <= j < i ::
        rowSel[j] < |args.sel| && args.Start(rowSel[j]) <= first + j < args.Start(rowSel[j]) + args.Len(rowSel[j])
        && values[j] == args.Eval(rowSel[j], first + j - args.Start(rowSel[j]))
    {
      assert IsSlot(args, first + i, childSel[..elemCnt][i], rowSel[..elemCnt][i], index[..elemCnt][i]);
      values := values + [args.lambda(args.child[childSel[i]], if args.hasIndex then Some(index[i]) else None,
                                      args.Captured(rowSel[i]))];
    }
  }

  // ---- list_filter ----

  class ListVector<T> {
    const entries: array<ListEntry>
    const valid: array<bool>
    var child: seq<T>

    constructor (size: nat)
      ensures fresh(entries) && fresh(valid) && entries.Length == valid.Length == size && child == []
      ensures forall r | 0 <= r < size :: valid[r]
    {
      entries := new ListEntry[size](_ => ListEntry(0, 0));
      valid := new bool[size](_ => true);
      child := [];
    }
  }

  class ListFilterInfo {
    var entryLengths: seq<nat>
    var length: nat
    var offset: nat
    var rowIdx: nat
    var srcLength: nat

    constructor ()
      ensures entryLengths == [] && length == offset == rowIdx == srcLength == 0
    {
      entryLengths, length, offset, rowIdx, srcLength := [], 0, 0, 0, 0;
    }
  }

  /** The result entries of the first n rows. */
  ghost predicate EntriesDone<T, V>(args: FilterArgs<T, V>, entries: seq<ListEntry>, n: nat)
    requires args.Valid()
  {
    n <= |entries| && forall r | 0 <= r < n :: entries[r] == ListEntry(|KeptRows(args, r)|, |KeptRow(args, r)|)
  }

  /** The counters after the first k elements of the flat order. */
  ghost predicate Progress<T, V>(args: FilterArgs<T, V>, info: ListFilterInfo, entries: array<ListEntry>, k: nat)
    reads info, entries
  {
    && args.Valid() && |info.entryLengths| <= |args.sel| == entries.Length
    && (forall r | 0 <= r < |info.entryLengths| :: info.entryLengths[r] == args.Len(r))
    && info.rowIdx <= |info.entryLengths| && args.Start(info.rowIdx) + info.srcLength == k
    && (info.srcLength == 0 || (info.rowIdx < |info.entryLengths| && info.srcLength < args.Len(info.rowIdx)))
    && info.length == |Kept(args, info.rowIdx, info.srcLength)|
    && info.offset == |KeptRows(args, info.rowIdx)|
    && EntriesDone(args, entries[..], info.rowIdx)
  }

  /** The elements kept among those counted. */
  ghost function KeptSoFar<T, V>(args: FilterArgs<T, V>, info: ListFilterInfo): seq<T>
    requires args.Valid()
    reads info
  {
    KeptRows(args, info.rowIdx) +
      if info.srcLength <= args.Len(info.rowIdx) then Kept(args, info.rowIdx, info.srcLength) else []
  }

  /** The result holds what was kept of the first k elements. */
  ghost predicate Filtered<T, V>(args: FilterArgs<T, V>, info: ListFilterInfo, result: ListVector<T>, k: nat)
    reads info, result, result.entries
  {
    Progress(args, info, result.entries, k) && result.child == KeptSoFar(args, info)
  }

  lemma EmptyRow<T, V>(args: FilterArgs<T, V>, r: nat)
    requires args.Valid() && args.Len(r) == 0
    ensures args.Start(r + 1) == args.Start(r) && KeptRow(args, r) == [] && KeptRows(args, r + 1) == KeptRows(args, r)
  {}

  lemma OneMoreEntry<T, V>(args: FilterArgs<T, V>, entries: seq<ListEntry>, n: nat)
    requires args.Valid() && n < |entries| && EntriesDone(args, entries, n)
    ensures EntriesDone(args, entries[n := ListEntry(|KeptRows(args, n)|, |KeptRow(args, n)|)], n + 1)
  {
    hide KeptRows, KeptRow;
  }

  lemma NextKept<T, V>(args: FilterArgs<T, V>, r: nat, n: nat)
    requires args.Valid() && n < args.Len(r)
    ensures Kept(args, r, n + 1) == Kept(args, r, n) + if args.Eval(r, n) == Some(true) then [args.Elem(r, n)] else []
  {}

  lemma CompleteRow<T, V>(args: FilterArgs<T, V>, r: nat)
    requires args.Valid()
    ensures args.Start(r + 1) == args.Start(r) + args.Len(r)
    ensures KeptRows(args, r + 1) == KeptRows(args, r) + Kept(args, r, args.Len(r))
    ensures Kept(args, r + 1, 0) == [] && KeptRow(args, r) == Kept(args, r, args.Len(r))
  {}

  /** Sets length and offset of empty lists. */
  method SkipEmptyLists<T, V>(ghost args: FilterArgs<T, V>, info: ListFilterInfo, entries: array<ListEntry>,
                              ghost k: nat)
    requires Progress(args, info, entries, k)
    modifies info`rowIdx, entries
    ensures Progress(args, info, entries, k) && KeptSoFar(args, info) == old(KeptSoFar(args, info))
    ensures info.rowIdx < |info.entryLengths| ==> args.Len(info.rowIdx) > 0
  {
    hide Kept, KeptRows, KeptRow, EntriesDone;
    while info.rowIdx < |info.entryLengths| && info.entryLengths[info.rowIdx] == 0
      invariant Progress(args, info, entries, k) && KeptSoFar(args, info) == old(KeptSoFar(args, info))
    {
      CompleteRow(args, info.rowIdx);
      EmptyRow(args, info.rowIdx);
      OneMoreEntry(args, entries[..], info.rowIdx);
      entries[info.rowIdx] := ListEntry(info.offset, 0);
      info.rowIdx := info.rowIdx + 1;
    }
  }

  /** Counts the next element, and completes its list if it is the last one. */
  method CountElement<T, V>(ghost args: FilterArgs<T, V>, info: ListFilterInfo, entries: array<ListEntry>, keep: bool,
                            ghost k: nat)
    requires Progress(args, info, entries, k) && info.rowIdx < |info.entryLengths| && args.Len(info.rowIdx) > 0
    requires keep == (args.Eval(info.rowIdx, info.srcLength) == Some(true))
    modifies info`length, info`srcLength, info`offset, info`rowIdx, entries
    ensures Progress(args, info, entries, k + 1)
    ensures KeptSoFar(args, info)
         == old(KeptSoFar(args, info)) + if keep then [args.Elem(old(info.rowIdx), old(info.srcLength))] else []
  {
    hide Kept, KeptRows, KeptRow, EntriesDone, Args.Valid, Args.Start, Args.Len, Args.Elem, Args.Eval;
    ghost var r := info.rowIdx;
    CompleteRow(args, r);
    NextKept(args, r, info.srcLength);
    OneMoreEntry(args, entries[..], r);
    if keep {
      info.length := info.length + 1;
    }
    info.srcLength := info.srcLength + 1;
    if info.entryLengths[info.rowIdx] == info.srcLength {
      entries[info.rowIdx] := ListEntry(info.offset, info.length);
      info.offset := info.offset + info.length;
      info.rowIdx := info.rowIdx + 1;
      info.length := 0;
      info.srcLength := 0;
    }
  }

  /** Slicing `child` by `children` and then by `sel` gives `picked`. */
  ghost predicate Selects<T>(child: seq<T>, children: seq<nat>, sel: seq<nat>, picked: seq<T>) {
    |sel| == |picked|
    && forall j | 0 <= j < |sel| ::
         sel[j] < |children| && children[sel[j]] < |child| && child[children[sel[j]]] == picked[j]
  }

  /** Filters one batch: `first` elements have been counted before. */
  method AppendResult<T, V>(args: FilterArgs<T, V>, values: seq<Option<bool>>, childSel: array<nat>,
                            ghost rowSel: seq<nat>, ghost index: seq<int>, result: ListVector<T>, info: ListFilterInfo,
                            ghost first: nat)
    requires args.Valid() && Progress(args, info, result.entries, first) && |rowSel| == |values| <= childSel.Length
    requires IsBatch(args, first, childSel[..|values|], rowSel, index)
    requires first + |values| <= args.Start(|info.entryLengths|)
    requires forall i | 0 <= i < |values| :: values[i] == args.Eval(rowSel[i], first + i - args.Start(rowSel[i]))
    requires result.child == KeptSoFar(args, info)
    modifies info, result.entries, result`child
    ensures Progress(args, info, result.entries, first + |values|) && info.entryLengths == old(info.entryLengths)
    ensures result.child == KeptSoFar(args, info)
    ensures info.rowIdx < |info.entryLengths| ==> args.Len(info.rowIdx) > 0
  {
    hide Kept, KeptRows, KeptRow, EntriesDone, IsBatch, Progress, KeptSoFar;
    var children := childSel[..|values|];
    var sel: seq<nat> := [];
    ghost var picked: seq<T> := [];
    for i := 0 to |values|
      invariant Progress(args, info, result.entries, first + i) && info.entryLengths == old(info.entryLengths)
      invariant Selects(args.child, children[..i], sel, picked)
      invariant KeptSoFar(args, info) == result.child + picked
    {
      SkipEmptyLists(args, info, result.entries, first + i);
      SlotIsCurrent(args, info, result.entries, first, i, children, rowSel, index);
      var keep := values[i] == Some(true);
      if keep {
        sel := sel + [i];
        picked := picked + [args.child[children[i]]];
      }
      CountElement(args, info, result.entries, keep, first + i);
    }
    SkipEmptyLists(args, info, result.entries, first + |values|);
    assert children[..|values|] == children;
    var resultLists := seq(|sel|, j requires 0 <= j < |sel| => args.child[children[sel[j]]]);
    assert resultLists == picked;
    result.child := result.child + resultLists;
  }

  /** The next element of the batch is the one the counters wait for. */
  lemma SlotIsCurrent<T, V>(args: FilterArgs<T, V>, info: ListFilterInfo, entries: array<ListEntry>, first: nat, i: nat,
                            childSel: seq<nat>, rowSel: seq<nat>, index: seq<int>)
    requires Progress(args, info, entries, first + i) && IsBatch(args, first, childSel, rowSel, index) && i < |rowSel|
    requires first + |rowSel| <= args.Start(|info.entryLengths|)
    requires info.rowIdx < |info.entryLengths| ==> args.Len(info.rowIdx) > 0
    ensures info.rowIdx < |info.entryLengths| && rowSel[i] == info.rowIdx && info.srcLength < args.Len(info.rowIdx)
    ensures first + i - args.Start(rowSel[i]) == info.srcLength && childSel[i] < |args.child|
    ensures args.child[childSel[i]] == args.Elem(info.rowIdx, info.srcLength)
  {
    hide Kept, KeptRows, KeptRow, EntriesDone;
    assert IsSlot(args, first + i, childSel[i], rowSel[i], index[i]);
    SameSlot(args, rowSel[i], first + i - args.Start(rowSel[i]), info.rowIdx, info.srcLength);
  }

  // ---- The loop over the rows ----

  /** The batch built so far holds the elements from number `first` up to element c of row r. */
  ghost predicate Building<T, V, R>(args: Args<T, V, R>, first: nat, elemCnt: nat, r: nat, c: nat,
                                    childSel: array<nat>, rowSel: array<nat>, index: array<int>)
    reads childSel, rowSel, index
  {
    && args.Valid() && elemCnt <= childSel.Length == rowSel.Length == index.Length
    && first + elemCnt == args.Start(r) + c
    && IsBatch(args, first, childSel[..elemCnt], rowSel[..elemCnt], index[..elemCnt])
  }

  lemma EmptyBatch<T, V, R>(args: Args<T, V, R>, r: nat, c: nat, childSel: array<nat>, rowSel: array<nat>,
                            index: array<int>)
    requires args.Valid() && childSel.Length == rowSel.Length == index.Length
    ensures Building(args, args.Start(r) + c, 0, r, c, childSel, rowSel, index)
  {}

  lemma NextRow<T, V, R>(args: Args<T, V, R>, first: nat, elemCnt: nat, r: nat,
                         childSel: array<nat>, rowSel: array<nat>, index: array<int>)
    requires args.Valid() && Building(args, first, elemCnt, r, args.Len(r), childSel, rowSel, index)
    ensures Building(args, first, elemCnt, r + 1, 0, childSel, rowSel, index)
    ensures first + elemCnt == args.Start(r + 1)
  {}

  lemma BatchEnd<T, V, R>(args: Args<T, V, R>, first: nat, elemCnt: nat, r: nat, c: nat,
                          childSel: array<nat>, rowSel: array<nat>, index: array<int>)
    requires Building(args, first, elemCnt, r, c, childSel, rowSel, index)
    ensures args.Valid() && first + elemCnt == args.Start(r) + c
    ensures elemCnt <= childSel.Length == rowSel.Length == index.Length
  {}

  /** Puts element c of row r into the batch. */
  method AddElement<T, V, R>(args: Args<T, V, R>, ghost first: nat, elemCnt: nat, r: nat, c: nat, entry: ListEntry,
                             childSel: array<nat>, rowSel: array<nat>, index: array<int>)
    requires Building(args, first, elemCnt, r, c, childSel, rowSel, index) && elemCnt < childSel.Length
    requires r < |args.sel| && c < args.Len(r) && entry == args.entries[args.sel[r]]
    requires childSel != rowSel
    modifies childSel, rowSel, index
    ensures Building(args, first, elemCnt + 1, r, c + 1, childSel, rowSel, index)
  {
    ghost var a, b, d := childSel[..elemCnt], rowSel[..elemCnt], index[..elemCnt];
    childSel[elemCnt] := entry.offset + c;
    rowSel[elemCnt] := r;
    index[elemCnt] := c + 1;
    assert childSel[..elemCnt + 1] == a + [entry.offset + c];
    assert rowSel[..elemCnt + 1] == b + [r];
    assert index[..elemCnt + 1] == d + [c + 1];
  }

  /** PushEmptyList and SetResultEntry: the length of the next row. */
  method PushLength<T, V>(ghost args: FilterArgs<T, V>, info: ListFilterInfo, ghost result: ListVector<T>, length: nat,
                          ghost k: nat)
    requires Filtered(args, info, result, k) && |info.entryLengths| < |args.sel|
    requires length == args.Len(|info.entryLengths|)
    modifies info`entryLengths
    ensures Filtered(args, info, result, k) && info.entryLengths == old(info.entryLengths) + [length]
  {
    hide Kept, KeptRows, KeptRow, EntriesDone;
    info.entryLengths := info.entryLengths + [length];
  }

  /** Executes the lambda on the batch and filters it. */
  method Flush<T, V>(args: FilterArgs<T, V>, elemCnt: nat, childSel: array<nat>, rowSel: array<nat>, index: array<int>,
                     result: ListVector<T>, info: ListFilterInfo, ghost first: nat, ghost r: nat, ghost c: nat)
    requires Building(args, first, elemCnt, r, c, childSel, rowSel, index) && Filtered(args, info, result, first)
    requires args.Start(r) + c <= args.Start(|info.entryLengths|)
    modifies info, result.entries, result`child
    ensures Filtered(args, info, result, first + elemCnt) && info.entryLengths == old(info.entryLengths)
    ensures info.rowIdx < |info.entryLengths| ==> args.Len(info.rowIdx) > 0
  {
    hide Kept, KeptRows, KeptRow, EntriesDone, IsBatch, Progress, KeptSoFar;
    var values := ExecuteExpression(args, elemCnt, childSel, rowSel, index, first);
    AppendResult(args, values, childSel, rowSel[..elemCnt], index[..elemCnt], result, info, first);
  }

  lemma NothingCounted<T, V>(args: FilterArgs<T, V>, info: ListFilterInfo, result: ListVector<T>)
    requires args.Valid() && result.entries.Length == |args.sel| && info.entryLengths == [] && result.child == []
    requires info.length == info.offset == info.rowIdx == info.srcLength == 0
    ensures Filtered(args, info, result, 0) && args.Start(0) == 0
  {}

  /** Iterates the elements of row r; whenever the batch is full, it is executed first. */
  method AddRow<T, V>(args: FilterArgs<T, V>, r: nat, entry: ListEntry, elemCnt0: nat, childSel: array<nat>,
                      rowSel: array<nat>, index: array<int>, result: ListVector<T>, info: ListFilterInfo,
                      ghost first0: nat)
    returns (elemCnt: nat, ghost first: nat)
    requires Building(args, first0, elemCnt0, r, 0, childSel, rowSel, index) && Filtered(args, info, result, first0)
    requires 0 < childSel.Length && childSel != rowSel
    requires r < |args.sel| && |info.entryLengths| == r + 1 && entry == args.entries[args.sel[r]]
    requires entry.length == args.Len(r)
    modifies info, result.entries, result`child, childSel, rowSel, index
    ensures Building(args, first, elemCnt, r, entry.length, childSel, rowSel, index)
    ensures Filtered(args, info, result, first)
    ensures info.entryLengths == old(info.entryLengths)
  {
    hide Kept, KeptRows, KeptRow, EntriesDone, IsBatch, KeptSoFar, Progress, Filtered, Building;
    elemCnt, first := elemCnt0, first0;
    for c := 0 to entry.length
      invariant info.entryLengths == old(info.entryLengths) && Filtered(args, info, result, first)
      invariant Building(args, first, elemCnt, r, c, childSel, rowSel, index)
    {
      BatchEnd(args, first, elemCnt, r, c, childSel, rowSel, index);
      if elemCnt == childSel.Length {
        Flush(args, elemCnt, childSel, rowSel, index, result, info, first, r, c);
        first := first + elemCnt;
        elemCnt := 0;
        EmptyBatch(args, r, c, childSel, rowSel, index);
      }
      AddElement(args, first, elemCnt, r, c, entry, childSel, rowSel, index);
      elemCnt := elemCnt + 1;
    }
  }

  /** list_filter: for every batch size, row r of the result is the elements of list r whose lambda is true, NULL lists
      stay NULL, and the offsets are the running sums of the lengths. */
  method ListFilter<T, V>(args: FilterArgs<T, V>, vectorSize: nat) returns (result: ListVector<T>)
    requires args.Valid() && vectorSize > 0
    ensures result.entries.Length == result.valid.Length == |args.sel|
    ensures forall r | 0 <= r < |args.sel| :: result.valid[r] == !args.IsNull(r)
    ensures EntriesDone(args, result.entries[..], |args.sel|) && result.child == KeptRows(args, |args.sel|)
  {
    hide Kept, KeptRows, KeptRow, EntriesDone, IsBatch, KeptSoFar, Progress, Filtered, Building;
    result := new ListVector<T>(|args.sel|);
    var info := new ListFilterInfo();
    var childSel, rowSel, index := new nat[vectorSize], new nat[vectorSize], new int[vectorSize];
    var elemCnt: nat := 0;
    ghost var first: nat := 0;
    NothingCounted(args, info, result);
    EmptyBatch(args, 0, 0, childSel, rowSel, index);
    elemCnt, first := FilterRows(args, childSel, rowSel, index, result, info);
    BatchEnd(args, first, elemCnt, |args.sel|, 0, childSel, rowSel, index);
    Flush(args, elemCnt, childSel, rowSel, index, result, info, first, |args.sel|, 0);
    AllCounted(args, info, result);
  }

  /** The loop over the rows. */
  method FilterRows<T, V>(args: FilterArgs<T, V>, childSel: array<nat>, rowSel: array<nat>, index: array<int>,
                          result: ListVector<T>, info: ListFilterInfo)
    returns (elemCnt: nat, ghost first: nat)
    requires Building(args, 0, 0, 0, 0, childSel, rowSel, index) && Filtered(args, info, result, 0)
    requires 0 < childSel.Length && childSel != rowSel && info.entryLengths == []
    requires args.Valid() && result.valid.Length == |args.sel| && forall q | 0 <= q < |args.sel| :: result.valid[q]
    modifies info, result.entries, result.valid, result`child, childSel, rowSel, index
    ensures Building(args, first, elemCnt, |args.sel|, 0, childSel, rowSel, index)
    ensures Filtered(args, info, result, first)
    ensures |info.entryLengths| == |args.sel|
    ensures forall r | 0 <= r < |args.sel| :: result.valid[r] == !args.IsNull(r)
  {
    hide Kept, KeptRows, KeptRow, EntriesDone, IsBatch, KeptSoFar, Progress, Filtered, Building;
    elemCnt, first := 0, 0;
    for r := 0 to |args.sel|
      invariant |info.entryLengths| == r
      invariant Filtered(args, info, result, first)
      invariant Building(args, first, elemCnt, r, 0, childSel, rowSel, index)
      invariant forall q | 0 <= q < |args.sel| :: result.valid[q] == (q < r ==> !args.IsNull(q))
    {
      if !args.valid[args.sel[r]] {
        result.valid[r] := false;
        PushLength(args, info, result, 0, first);
        NextRow(args, first, elemCnt, r, childSel, rowSel, index);
        continue;
      }
      var entry := args.entries[args.sel[r]];
      PushLength(args, info, result, entry.length, first);
      elemCnt, first := AddRow(args, r, entry, elemCnt, childSel, rowSel, index, result, info, first);
      NextRow(args, first, elemCnt, r, childSel, rowSel, index);
    }
  }

  lemma AllCounted<T, V>(args: FilterArgs<T, V>, info: ListFilterInfo, result: ListVector<T>)
    requires args.Valid() && Filtered(args, info, result, args.Start(|args.sel|)) && |info.entryLengths| == |args.sel|
    requires info.rowIdx < |info.entryLengths| ==> args.Len(info.rowIdx) > 0
    ensures result.entries.Length == |args.sel|
    ensures EntriesDone(args, result.entries[..], |args.sel|) && result.child == KeptRows(args, |args.sel|)
  {
    hide KeptRows, KeptRow, EntriesDone;
    if info.rowIdx < |args.sel| {
      StartGrows(args, info.rowIdx, |args.sel|);
    }
  }

  lemma {:induction false} KeptStretch<T, V>(args: FilterArgs<T, V>, r: nat, n: nat)
    requires args.Valid() && r < n
    ensures |KeptRows(args, r)| + |KeptRow(args, r)| <= |KeptRows(args, n)|
    ensures KeptRows(args, n)[|KeptRows(args, r)|..|KeptRows(args, r)| + |KeptRow(args, r)|] == KeptRow(args, r)
    decreases n
  {
    hide KeptRow;
    if r < n - 1 {
      KeptStretch(args, r, n - 1);
    }
  }

  /** A result entry of list_filter cuts exactly the filtered list of its row out of the child vector. */
  lemma FilteredRow<T, V>(args: FilterArgs<T, V>, entries: seq<ListEntry>, child: seq<T>, r: nat)
    requires args.Valid() && r < |args.sel|
    requires EntriesDone(args, entries, |args.sel|) && child == KeptRows(args, |args.sel|)
    ensures r < |entries| && entries[r].offset + entries[r].length <= |child|
    ensures child[entries[r].offset..entries[r].offset + entries[r].length] == KeptRow(args, r)
  {
    hide KeptRow, KeptRows;
    KeptStretch(args, r, |args.sel|);
  }

  // ---- list_transform ----

  /** The values of the first k elements are those of the rows they belong to. */
  lemma {:induction false} MappedAt<T, V, R>(args: Args<T, V, R>, n: nat, r: nat, c: nat)
    requires args.Valid() && r < n && c < args.Len(r)
    ensures args.Start(r) + c < args.Start(n) && MappedRows(args, n)[args.Start(r) + c] == args.Eval(r, c)
    decreases n
  {
    StartGrows(args, r, n);
    if r < n - 1 {
      MappedAt(args, n - 1, r, c);
    }
  }

  lemma NextValues<T, V, R>(args: Args<T, V, R>, values: seq<R>, rowSel: seq<nat>, first: nat)
    requires args.Valid() && |values| == |rowSel| && first + |values| <= args.Start(|args.sel|)
    requires forall i | 0 <= i < |values| ::
      rowSel[i] < |args.sel| && args.Start(rowSel[i]) <= first + i < args.Start(rowSel[i]) + args.Len(rowSel[i])
      && values[i] == args.Eval(rowSel[i], first + i - args.Start(rowSel[i]))
    ensures MappedRows(args, |args.sel|)[..first] + values == MappedRows(args, |args.sel|)[..first + |values|]
  {
    hide MappedRows, Mapped, Args.Valid, Args.Start, Args.Len, Args.Eval;
    var all := MappedRows(args, |args.sel|);
    forall i | 0 <= i < |values| ensures values[i] == all[first + i] {
      MappedAt(args, |args.sel|, rowSel[i], first + i - args.Start(rowSel[i]));
    }
    assert all[..first + |values|] == all[..first] + all[first..first + |values|];
  }

  /** Executes the lambda on the batch and appends the values to the result. */
  method FlushValues<T, V, R>(args: Args<T, V, R>, elemCnt: nat, childSel: array<nat>, rowSel: array<nat>,
                              index: array<int>, result: ListVector<R>, ghost first: nat, ghost r: nat, ghost c: nat)
    requires Building(args, first, elemCnt, r, c, childSel, rowSel, index)
    requires args.Start(r) + c <= args.Start(|args.sel|)
    requires result.child == MappedRows(args, |args.sel|)[..first]
    modifies result`child
    ensures result.child == MappedRows(args, |args.sel|)[..first + elemCnt]
  {
    var values := ExecuteExpression(args, elemCnt, childSel, rowSel, index, first);
    NextValues(args, values, rowSel[..elemCnt], first);
    result.child := result.child + values;
  }

  method TransformRow<T, V, R>(args: Args<T, V, R>, r: nat, entry: ListEntry, elemCnt0: nat, childSel: array<nat>,
                               rowSel: array<nat>, index: array<int>, result: ListVector<R>, ghost first0: nat)
    returns (elemCnt: nat, ghost first: nat)
    requires Building(args, first0, elemCnt0, r, 0, childSel, rowSel, index) && first0 <= args.Start(|args.sel|)
    requires result.child == MappedRows(args, |args.sel|)[..first0] && 0 < childSel.Length && childSel != rowSel
    requires r < |args.sel| && entry == args.entries[args.sel[r]] && entry.length == args.Len(r)
    modifies result`child, childSel, rowSel, index
    ensures Building(args, first, elemCnt, r, entry.length, childSel, rowSel, index)
    ensures first <= args.Start(|args.sel|) && result.child == MappedRows(args, |args.sel|)[..first]
  {
    BatchEnd(args, first0, elemCnt0, r, 0, childSel, rowSel, index);
    hide IsBatch, Building, MappedRows;
    StartGrows(args, r, |args.sel|);
    elemCnt, first := elemCnt0, first0;
    for c := 0 to entry.length
      invariant first <= args.Start(|args.sel|) && result.child == MappedRows(args, |args.sel|)[..first]
      invariant Building(args, first, elemCnt, r, c, childSel, rowSel, index)
    {
      BatchEnd(args, first, elemCnt, r, c, childSel, rowSel, index);
      if elemCnt == childSel.Length {
        FlushValues(args, elemCnt, childSel, rowSel, index, result, first, r, c);
        first := first + elemCnt;
        elemCnt := 0;
        EmptyBatch(args, r, c, childSel, rowSel, index);
      }
      AddElement(args, first, elemCnt, r, c, entry, childSel, rowSel, index);
      elemCnt := elemCnt + 1;
    }
  }

  /** The result entries of the first n rows: NULL, or offset and length of the row's elements. */
  ghost predicate Transformed<T, V, R>(args: Args<T, V, R>, result: ListVector<R>, n: nat)
    reads result.entries, result.valid
  {
    && args.Valid() && n <= |args.sel| == result.entries.Length == result.valid.Length
    && (forall r | 0 <= r < |args.sel| :: result.valid[r] == (r < n ==> !args.IsNull(r)))
    && (forall r | 0 <= r < n && !args.IsNull(r) :: result.entries[r] == ListEntry(args.Start(r), args.Len(r)))
  }

  lemma NothingTransformed<T, V, R>(args: Args<T, V, R>, result: ListVector<R>)
    requires args.Valid() && result.entries.Length == result.valid.Length == |args.sel|
    requires forall r | 0 <= r < |args.sel| :: result.valid[r]
    ensures Transformed(args, result, 0)
  {}

  /** SetInvalid or SetResultEntry. */
  method SetResultEntry<T, V, R>(args: Args<T, V, R>, result: ListVector<R>, r: nat, offset: nat)
    requires r < |args.sel| && Transformed(args, result, r) && offset == args.Start(r)
    modifies result.entries, result.valid
    ensures Transformed(args, result, r + 1)
  {
    if !args.valid[args.sel[r]] {
      result.valid[r] := false;
    } else {
      result.entries[r] := ListEntry(offset, args.entries[args.sel[r]].length);
    }
  }

  /** list_transform: for every batch size, row r of the result has the value of the lambda for every element of list
      r; NULL lists stay NULL, and the offsets are the running sums of the lengths. */
  method ListTransform<T, V, R>(args: Args<T, V, R>, vectorSize: nat) returns (result: ListVector<R>)
    requires args.Valid() && vectorSize > 0
    ensures Transformed(args, result, |args.sel|) && result.child == MappedRows(args, |args.sel|)
  {
    hide IsBatch, Building, MappedRows, Transformed;
    result := new ListVector<R>(|args.sel|);
    var childSel, rowSel, index := new nat[vectorSize], new nat[vectorSize], new int[vectorSize];
    var elemCnt: nat, offset: nat := 0, 0;
    ghost var first: nat := 0;
    EmptyBatch(args, 0, 0, childSel, rowSel, index);
    NothingTransformed(args, result);
    for r := 0 to |args.sel|
      invariant first <= args.Start(|args.sel|) && result.child == MappedRows(args, |args.sel|)[..first]
      invariant Building(args, first, elemCnt, r, 0, childSel, rowSel, index) && offset == args.Start(r)
      invariant Transformed(args, result, r)
    {
      SetResultEntry(args, result, r, offset);
      if args.valid[args.sel[r]] {
        var entry := args.entries[args.sel[r]];
        offset := offset + entry.length;
        elemCnt, first := TransformRow(args, r, entry, elemCnt, childSel, rowSel, index, result, first);
      }
      NextRow(args, first, elemCnt, r, childSel, rowSel, index);
    }
    BatchEnd(args, first, elemCnt, |args.sel|, 0, childSel, rowSel, index);
    FlushValues(args, elemCnt, childSel, rowSel, index, result, first, |args.sel|, 0);
  }

  lemma {:induction false} MappedStretch<T, V, R>(args: Args<T, V, R>, r: nat, n: nat)
    requires args.Valid() && r < n
    ensures args.Start(r) + args.Len(r) <= args.Start(n)
    ensures MappedRows(args, n)[args.Start(r)..args.Start(r) + args.Len(r)] == Mapped(args, r, args.Len(r))
    decreases n
  {
    hide Mapped;
    if r < n - 1 {
      MappedStretch(args, r, n - 1);
    }
  }

  /** A result entry of list_transform cuts exactly the mapped list of its row out of the child vector. */
  lemma TransformedRow<T, V, R>(args: Args<T, V, R>, result: ListVector<R>, r: nat)
    requires Transformed(args, result, |args.sel|) && result.child == MappedRows(args, |args.sel|) && r < |args.sel|
    ensures result.valid[r] <==> !args.IsNull(r)
    ensures !args.IsNull(r) ==>
      var entry := result.entries[r];
      && entry.offset + entry.length <= |result.child|
      && result.child[entry.offset..entry.offset + entry.length] == Mapped(args, r, args.Len(r))
  {
    hide Mapped, MappedRows;
    MappedStretch(args, r, |args.sel|);
  }
}
