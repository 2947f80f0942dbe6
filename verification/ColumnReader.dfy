/** Reading a non-repeated Parquet column page by page: reads, selections and skips that are only carried out before the
    next read. Decoders are cursors over the values of a page; all columns share one transport. */
module ColumnReader {
  import opened Wrappers

  const STANDARD_VECTOR_SIZE: nat := 2048

  datatype Encoding = Plain | Encoded

  /** A data page has a definition level per row, if the column has them, and the values of the rows that are not NULL;
      dictionary and index pages have no rows. */
  datatype Page<V> = DataPage(encoding: Encoding, defines: seq<nat>, values: seq<V>) | OtherPage

  /** The rows that definition levels and values stand for; without levels every row has a value. */
  ghost function Rows<V>(max: nat, defines: seq<nat>, values: seq<V>): seq<Option<V>>
    decreases |defines|, |values|
  {
    if max == 0 then seq(|values|, i requires 0 <= i < |values| => Some(values[i]))
    else if defines == [] then []
    else if defines[0] == max && values != [] then [Some(values[0])] + Rows(max, defines[1..], values[1..])
    else [None] + Rows(max, defines[1..], values)
  }

  ghost function Defined(max: nat, defines: seq<nat>): nat {
    if defines == [] then 0 else (if defines[0] == max then 1 else 0) + Defined(max, defines[1..])
  }

  ghost predicate Matches<V>(max: nat, defines: seq<nat>, values: seq<V>) {
    if max == 0 then defines == [] else |values| == Defined(max, defines)
  }

  /** The flat column from page p on. */
  ghost function Flat<V>(max: nat, pages: seq<Page<V>>, p: nat): seq<Option<V>>
    decreases |pages| - p
  {
    if p >= |pages| then []
    else (if pages[p].DataPage? then Rows(max, pages[p].defines, pages[p].values) else []) + Flat(max, pages, p + 1)
  }

  ghost predicate WellFormed<V>(max: nat, pages: seq<Page<V>>) {
    forall p <- pages :: p.DataPage? ==> Matches(max, p.defines, p.values)
  }

  /** Another column may have moved the location between two calls. */
  class Transport {
    var location: nat

    constructor ()
    {
      location := 0;
    }
  }

  class ColumnReader<V> {
    const pages: seq<Page<V>>
    const maxDefine: nat
    const supportsDirectSelect: bool
    const trans: Transport
    var chunkReadOffset: nat
    var pageRowsAvailable: nat
    var groupRowsAvailable: nat
    var pendingSkips: nat
    var encoding: Encoding
    var defines: seq<nat>
    var values: seq<V>

    /** What is left of the current page and of the pages from `at` on. */
    ghost function Left(at: nat): seq<Option<V>>
      reads this
    {
      Rows(maxDefine, defines, values) + Flat(maxDefine, pages, at)
    }

    ghost predicate PageValid()
      reads this
    {
      && WellFormed(maxDefine, pages) && Matches(maxDefine, defines, values)
      && pageRowsAvailable == |Rows(maxDefine, defines, values)|
    }

    ghost predicate Valid()
      reads this
    {
      PageValid() && groupRowsAvailable == |Left(chunkReadOffset)|
    }

    /** The rows still to come, with the pending skips taken into account. */
    ghost function Rest(): seq<Option<V>>
      reads this
    {
      var left := Left(chunkReadOffset);
      if pendingSkips <= |left| then left[pendingSkips..] else []
    }

    /** InitializeRead; the file says how many rows the column has. */
    constructor (pages: seq<Page<V>>, maxDefine: nat, supportsDirectSelect: bool, trans: Transport, numValues: nat)
      requires WellFormed(maxDefine, pages) && numValues == |Flat(maxDefine, pages, 0)|
      ensures Valid() && Rest() == Flat(maxDefine, pages, 0) && pendingSkips == 0
      ensures this.trans == trans && this.pages == pages && this.maxDefine == maxDefine
    {
      this.pages, this.maxDefine, this.supportsDirectSelect, this.trans :=
        pages, maxDefine, supportsDirectSelect, trans;
      chunkReadOffset, pageRowsAvailable, groupRowsAvailable, pendingSkips := 0, 0, numValues, 0;
      encoding, defines, values := Encoded, [], [];
    }

    /** Loads pages until there is one with rows left. */
    method ReadPageHeaders(maxRead: nat) returns (n: nat)
      requires PageValid() && Left(trans.location) != []
      modifies this`pageRowsAvailable, this`encoding, this`defines, this`values, trans
      ensures PageValid() && Left(trans.location) == old(Left(trans.location)) && pageRowsAvailable > 0
      ensures n <= maxRead && n <= pageRowsAvailable && n <= STANDARD_VECTOR_SIZE
      ensures n == maxRead || n == pageRowsAvailable || n == STANDARD_VECTOR_SIZE
    {
      while pageRowsAvailable == 0
        invariant PageValid() && Left(trans.location) == old(Left(trans.location))
        decreases |pages| - trans.location
      {
        hide Matches, WellFormed;
        assert trans.location < |pages|;
        var page := pages[trans.location];
        assert WellFormed(maxDefine, pages);
        PageIsWellFormed(maxDefine, pages, trans.location);
        trans.location := trans.location + 1;
        if page.DataPage? {
          encoding, defines, values := page.encoding, page.defines, page.values;
          RowCount(maxDefine, defines, values);
          pageRowsAvailable := if maxDefine == 0 then |values| else |defines|;
        }
      }
      n := Min(Min(maxRead, pageRowsAvailable), STANDARD_VECTOR_SIZE);
    }

    /** True only if the next n levels are all the maximum; how they are encoded decides when it is noticed. */
    method HasRepeatedBatch(n: nat) returns (all: bool)
      requires n <= |defines|
      ensures all ==> forall i | 0 <= i < n :: defines[i] == maxDefine
    {
      var sameRun: bool := *;
      all := sameRun && forall i | 0 <= i < n :: defines[i] == maxDefine;
    }

    /** Takes n levels from the level decoder, into `defineOut` unless all rows turn out to be valid. */
    method PrepareRead(n: nat, defineOut: array<nat>, offset: nat) returns (allValid: bool, ghost batch: seq<nat>)
      requires PageValid() && n <= pageRowsAvailable && offset + n <= defineOut.Length
      modifies this`defines, defineOut
      ensures old(defines) == batch + defines && (maxDefine > 0 ==> |batch| == n)
      ensures Batched(maxDefine, n, allValid, defineOut[offset..offset + n], batch)
    {
      RowCount(maxDefine, defines, values);
      if maxDefine > 0 {
        allValid := HasRepeatedBatch(n);
        batch := defines[..n];
        if !allValid {
          forall i | 0 <= i < n {
            defineOut[offset + i] := defines[i];
          }
          assert defineOut[offset..offset + n] == defines[..n];
        }
        defines := defines[n..];
        return;
      }
      return true, [];
    }

    /** One row: NULL, or the next value of the decoder. `todo` are the levels of the rows not taken yet. */
    method TakeRow(isNull: bool, ghost todo: seq<nat>) returns (row: Option<V>)
      requires Matches(maxDefine, todo, values) && Rows(maxDefine, todo, values) != []
      requires isNull <==> maxDefine > 0 && todo[0] != maxDefine
      modifies this`values
      ensures Matches(maxDefine, Next(maxDefine, todo), values)
      ensures old(Rows(maxDefine, todo, values)) == [row] + Rows(maxDefine, Next(maxDefine, todo), values)
    {
      RowCount(maxDefine, todo, values);
      if isNull {
        return None;
      }
      row := Some(values[0]);
      values := values[1..];
    }

    /** Decoder.Read and Plain: n rows into the result at `offset`. */
    method ReadValues(allValid: bool, n: nat, defineOut: array<nat>, offset: nat, result: array<Option<V>>,
                      ghost batch: seq<nat>)
      requires offset + n <= defineOut.Length && offset + n <= result.Length
      requires Batched(maxDefine, n, allValid, defineOut[offset..offset + n], batch)
      requires maxDefine == 0 ==> defines == []
      requires Matches(maxDefine, batch + defines, values) && n <= |Rows(maxDefine, batch + defines, values)|
      modifies this`values, result
      ensures Matches(maxDefine, defines, values)
      ensures exists rows: seq<Option<V>> ::
        old(Rows(maxDefine, batch + defines, values)) == rows + Rows(maxDefine, defines, values)
                && |rows| == n && result[..offset + n] == old(result[..offset]) + rows
    {
      hide Matches, Rows, Batched, Todo;
      ghost var rows, out := Rows(maxDefine, batch + defines, values), defineOut[offset..offset + n];
      TodoAt(maxDefine, batch, defines, n, allValid, defineOut[offset..offset + n]);
      ghost var prefix, done := result[..offset], [];
      for i := 0 to n
        invariant Matches(maxDefine, Todo(maxDefine, batch, i, defines), values) && |done| == i
        invariant rows == done + Rows(maxDefine, Todo(maxDefine, batch, i, defines), values)
        invariant result[..offset + i] == prefix + done
      {
        TodoNext(maxDefine, batch, i, defines, n, allValid, out);
        assert out[i] == defineOut[offset + i];
        var isNull := !allValid && defineOut[offset + i] != maxDefine;
        var row := TakeRow(isNull, Todo(maxDefine, batch, i, defines));
        result[offset + i] := row;
        assert result[..offset + i + 1] == result[..offset + i] + [row];
        assert prefix + done + [row] == prefix + (done + [row]);
        done := done + [row];
      }
    }

    /** Decoder.Skip and PlainSkip: rows `from` to `to` of the batch are passed over. */
    method SkipValues(allValid: bool, from: nat, to: nat, n: nat, defineOut: array<nat>, ghost batch: seq<nat>)
      requires maxDefine == 0 ==> defines == []
      requires from <= to <= n <= defineOut.Length && Batched(maxDefine, n, allValid, defineOut[..n], batch)
      requires Matches(maxDefine, Todo(maxDefine, batch, from, defines), values)
      requires to - from <= |Rows(maxDefine, Todo(maxDefine, batch, from, defines), values)|
      modifies this`values
      ensures Matches(maxDefine, Todo(maxDefine, batch, to, defines), values)
      ensures Rows(maxDefine, Todo(maxDefine, batch, to, defines), values)
           == old(Rows(maxDefine, Todo(maxDefine, batch, from, defines), values))[to - from..]
    {
      hide Matches, Rows;
      ghost var rows := Rows(maxDefine, Todo(maxDefine, batch, from, defines), values);
      for i := from to to
        invariant Matches(maxDefine, Todo(maxDefine, batch, i, defines), values)
        invariant Rows(maxDefine, Todo(maxDefine, batch, i, defines), values) == rows[i - from..]
      {
        TodoNext(maxDefine, batch, i, defines, n, allValid, defineOut[..n]);
        var isNull := !allValid && defineOut[i] != maxDefine;
        var row := TakeRow(isNull, Todo(maxDefine, batch, i, defines));
      }
    }

    /** Passes over the rows from `current` on and reads row `next`. */
    method ReadAt(allValid: bool, current: nat, next: nat, n: nat, defineOut: array<nat>, ghost batch: seq<nat>)
      returns (row: Option<V>)
      requires maxDefine == 0 ==> defines == []
      requires current <= next < n <= defineOut.Length && Batched(maxDefine, n, allValid, defineOut[..n], batch)
      requires Matches(maxDefine, Todo(maxDefine, batch, current, defines), values)
      requires next - current < |Rows(maxDefine, Todo(maxDefine, batch, current, defines), values)|
      modifies this`values
      ensures Matches(maxDefine, Todo(maxDefine, batch, next + 1, defines), values)
      ensures var rows := old(Rows(maxDefine, Todo(maxDefine, batch, current, defines), values));
        row == rows[next - current] &&
          Rows(maxDefine, Todo(maxDefine, batch, next + 1, defines), values) == rows[next + 1 - current..]
    {
      hide Matches, Rows;
      SkipValues(allValid, current, next, n, defineOut, batch);
      TodoNext(maxDefine, batch, next, defines, n, allValid, defineOut[..n]);
      var isNull := !allValid && defineOut[next] != maxDefine;
      row := TakeRow(isNull, Todo(maxDefine, batch, next, defines));
    }

    /** Reads the selected rows of a batch straight to their places in the result, and passes over the others. */
    method PlainSelect(allValid: bool, n: nat, defineOut: array<nat>, result: array<Option<V>>, sel: seq<nat>,
                       ghost batch: seq<nat>)
      requires n <= defineOut.Length && n <= result.Length && Increasing(sel, n)
      requires Batched(maxDefine, n, allValid, defineOut[..n], batch) && (maxDefine == 0 ==> defines == [])
      requires Matches(maxDefine, batch + defines, values) && n <= |Rows(maxDefine, batch + defines, values)|
      modifies this`values, result
      ensures Matches(maxDefine, defines, values)
      ensures Rows(maxDefine, defines, values) == old(Rows(maxDefine, batch + defines, values))[n..]
      ensures Selected(result[..], sel, old(Rows(maxDefine, batch + defines, values)))
    {
      hide Matches, Rows, Selected, Batched, Todo;
      ghost var rows := Rows(maxDefine, batch + defines, values);
      var current := 0;
      SelectNone(result[..], rows, sel);
      TodoAt(maxDefine, batch, defines, n, allValid, defineOut[..n]);
      for i := 0 to |sel|
        invariant current <= n && (i < |sel| ==> current <= sel[i])
        invariant Matches(maxDefine, Todo(maxDefine, batch, current, defines), values)
        invariant Rows(maxDefine, Todo(maxDefine, batch, current, defines), values) == rows[current..]
        invariant Selected(result[..], sel[..i], rows)
      {
        SelectNext(result[..], sel, i, rows, n);
        var next := sel[i];
        var row := ReadAt(allValid, current, next, n, defineOut, batch);
        result[next] := row;
        current := next + 1;
      }
      assert sel[..|sel|] == sel;
      if current < n {
        SkipValues(allValid, current, n, n, defineOut, batch);
      }
    }

    /** ReadData: n rows of the current page. */
    method ReadData(n: nat, defineOut: array<nat>, result: array<Option<V>>, offset: nat)
      requires PageValid() && n <= pageRowsAvailable && offset + n <= defineOut.Length && offset + n <= result.Length
      modifies this`pageRowsAvailable, this`defines, this`values, defineOut, result
      ensures PageValid() && pageRowsAvailable == old(pageRowsAvailable) - n
      ensures exists rows: seq<Option<V>> ::
        old(Rows(maxDefine, defines, values)) == rows + Rows(maxDefine, defines, values)
                && |rows| == n && result[..offset + n] == old(result[..offset]) + rows
    {
      hide Matches, Rows;
      NoLevels(maxDefine, defines, values);
      var allValid, batch := PrepareRead(n, defineOut, offset);
      ReadValues(allValid, n, defineOut, offset, result, batch);
      pageRowsAvailable := pageRowsAvailable - n;
    }

    method FinishRead(readCount: nat)
      requires readCount <= groupRowsAvailable
      modifies this`chunkReadOffset, this`groupRowsAvailable
      ensures chunkReadOffset == trans.location && groupRowsAvailable == old(groupRowsAvailable) - readCount
    {
      chunkReadOffset := trans.location;
      groupRowsAvailable := groupRowsAvailable - readCount;
    }

    /** Reads numValues rows from where the transport stands, over as many pages as it takes. */
    method ReadInternal(numValues: nat, defineOut: array<nat>, result: array<Option<V>>)
      requires PageValid() && numValues <= |Left(trans.location)| == groupRowsAvailable
      requires numValues <= STANDARD_VECTOR_SIZE <= defineOut.Length == result.Length
      modifies this`pageRowsAvailable, this`encoding, this`defines, this`values, this`chunkReadOffset,
        this`groupRowsAvailable, trans, defineOut, result
      ensures Valid() && old(Left(trans.location)) == result[..numValues] + Left(chunkReadOffset)
    {
      hide Matches, Rows, Flat, WellFormed;
      var offset := 0;
      ghost var all := Left(trans.location);
      while offset < numValues
        invariant groupRowsAvailable == old(groupRowsAvailable)
        invariant offset <= numValues && PageValid() && all == result[..offset] + Left(trans.location)
        decreases numValues - offset
      {
        var n := ReadPageHeaders(numValues - offset);
        ghost var before, rows := result[..offset], Rows(maxDefine, defines, values);
        ghost var tail := Flat(maxDefine, pages, trans.location);
        ReadData(n, defineOut, result, offset);
        ghost var read :|
          rows == read + Rows(maxDefine, defines, values) && |read| == n && result[..offset + n] == before + read;
        Regroup(before, read, Rows(maxDefine, defines, values), tail);
        offset := offset + n;
      }
      FinishRead(numValues);
    }

    /** Carried out by the next read. */
    method Skip(numValues: nat)
      requires Valid() && numValues <= |Rest()|
      modifies this`pendingSkips
      ensures Valid() && Rest() == old(Rest())[numValues..] && pendingSkips == old(pendingSkips) + numValues
    {
      pendingSkips := pendingSkips + numValues;
    }

    method ApplyPendingSkips(defineOut: array<nat>)
      requires Valid() && pendingSkips <= |Left(chunkReadOffset)| && STANDARD_VECTOR_SIZE <= defineOut.Length
      modifies this, trans, defineOut
      ensures Valid() && pendingSkips == 0 && Left(chunkReadOffset) == old(Rest())
      ensures old(pendingSkips) > 0 ==> trans.location == chunkReadOffset
      ensures old(pendingSkips) == 0 ==>
        trans.location == old(trans.location) && chunkReadOffset == old(chunkReadOffset)
    {
      hide Matches, Rows, Flat, WellFormed;
      if pendingSkips == 0 {
        return;
      }
      var numValues := pendingSkips;
      pendingSkips := 0;
      trans.location := chunkReadOffset;
      var toSkip := numValues;
      ghost var all := Left(trans.location);
      while toSkip > 0
        invariant pendingSkips == 0 && groupRowsAvailable == old(groupRowsAvailable)
        invariant toSkip <= numValues && PageValid() && Left(trans.location) == all[numValues - toSkip..]
      {
        var n := ReadPageHeaders(toSkip);
        ghost var rows, tail := Rows(maxDefine, defines, values), Flat(maxDefine, pages, trans.location);
        SkipData(n, defineOut);
        assert (rows + tail)[n..] == rows[n..] + tail;
        toSkip := toSkip - n;
      }
      FinishRead(numValues);
    }

    method SkipData(n: nat, defineOut: array<nat>)
      requires PageValid() && n <= pageRowsAvailable && n <= defineOut.Length
      modifies this`pageRowsAvailable, this`defines, this`values, defineOut
      ensures PageValid() && pageRowsAvailable == old(pageRowsAvailable) - n
      ensures Rows(maxDefine, defines, values) == old(Rows(maxDefine, defines, values))[n..]
    {
      hide Matches, Rows;
      NoLevels(maxDefine, defines, values);
      var allValid, batch := PrepareRead(n, defineOut, 0);
      TodoAt(maxDefine, batch, defines, n, allValid, defineOut[..n]);
      SkipValues(allValid, 0, n, n, defineOut, batch);
      pageRowsAvailable := pageRowsAvailable - n;
    }

    method BeginRead(defineOut: array<nat>)
      requires Valid() && pendingSkips <= |Left(chunkReadOffset)| && STANDARD_VECTOR_SIZE <= defineOut.Length
      modifies this, trans, defineOut
      ensures Valid() && pendingSkips == 0 && Left(chunkReadOffset) == old(Rest()) && trans.location == chunkReadOffset
    {
      trans.location := chunkReadOffset;
      ApplyPendingSkips(defineOut);
    }

    /** The next rows of the flat column, wherever other columns have left the transport. */
    method Read(numValues: nat, defineOut: array<nat>, result: array<Option<V>>)
      requires Valid() && pendingSkips <= |Left(chunkReadOffset)| && numValues <= |Rest()|
      requires numValues <= STANDARD_VECTOR_SIZE <= defineOut.Length == result.Length
      modifies this, trans, defineOut, result
      ensures Valid() && pendingSkips == 0
      ensures old(Rest()) == result[..numValues] + Rest()
    {
      BeginRead(defineOut);
      ReadInternal(numValues, defineOut, result);
      assert old(Rest()) == result[..numValues] + Left(chunkReadOffset);
    }

    /** Like Read, but only the selected rows of the result are certain to be there. */
    method Select(numValues: nat, defineOut: array<nat>, result: array<Option<V>>, sel: seq<nat>)
      requires Valid() && pendingSkips <= |Left(chunkReadOffset)| && numValues <= |Rest()| && Increasing(sel, numValues)
      requires numValues <= STANDARD_VECTOR_SIZE <= defineOut.Length == result.Length
      modifies this, trans, defineOut, result
      ensures Valid() && pendingSkips == 0
      ensures Selected(result[..], sel, old(Rest())) && Rest() == old(Rest())[numValues..]
    {
      if supportsDirectSelect && |sel| < numValues {
        DirectSelect(numValues, defineOut, result, sel);
        return;
      }
      Read(numValues, defineOut, result);
      ReadSelects(result[..], sel, old(Rest()), numValues);
    }

    method SelectInPage(n: nat, defineOut: array<nat>, result: array<Option<V>>, sel: seq<nat>)
      requires PageValid() && n <= pageRowsAvailable && n <= defineOut.Length && n <= result.Length
      requires Increasing(sel, n)
      modifies this`pageRowsAvailable, this`defines, this`values, defineOut, result
      ensures PageValid() && Left(trans.location) == old(Left(trans.location))[n..]
      ensures Selected(result[..], sel, old(Left(trans.location)))
    {
      hide Matches, Rows, Flat, WellFormed, Selected;
      ghost var rows, tail := Rows(maxDefine, defines, values), Flat(maxDefine, pages, trans.location);
      NoLevels(maxDefine, defines, values);
      var allValid, batch := PrepareRead(n, defineOut, 0);
      PlainSelect(allValid, n, defineOut, result, sel, batch);
      pageRowsAvailable := pageRowsAvailable - n;
      assert (rows + tail)[n..] == rows[n..] + tail;
      SelectedInFront(result[..], sel, rows, tail);
    }

    method DirectSelect(numValues: nat, defineOut: array<nat>, result: array<Option<V>>, sel: seq<nat>)
      requires Valid() && pendingSkips <= |Left(chunkReadOffset)| && 0 < numValues <= |Rest()|
      requires Increasing(sel, numValues)
      requires numValues <= STANDARD_VECTOR_SIZE <= defineOut.Length == result.Length
      modifies this, trans, defineOut, result
      ensures Valid() && pendingSkips == 0
      ensures Selected(result[..], sel, old(Rest())) && Rest() == old(Rest())[numValues..]
    {
      hide Matches, Rows, Flat, WellFormed, Selected;
      BeginRead(defineOut);
      var n := ReadPageHeaders(numValues);
      ghost var rest := Left(trans.location);
      if n == numValues && encoding == Plain {
        SelectInPage(n, defineOut, result, sel);
        FinishRead(numValues);
        return;
      }
      ReadInternal(numValues, defineOut, result);
      ReadSelects(result[..], sel, rest, numValues);
    }
  }

  /** The levels of the n rows read next: in `out`, or known to be the maximum, or not there. */
  ghost predicate Batched(max: nat, n: nat, allValid: bool, out: seq<nat>, batch: seq<nat>) {
    && |out| == n
    && if max == 0 then allValid && batch == []
       else |batch| == n && if allValid then forall i | 0 <= i < n :: batch[i] == max else out == batch
  }

  function Min(a: nat, b: nat): nat { if a < b then a else b }

  /** The values of the rows that are not NULL. */
  ghost function Present<V>(rows: seq<Option<V>>): seq<V> {
    if rows == [] then [] else (if rows[0].Some? then [rows[0].value] else []) + Present(rows[1..])
  }

  /** Rows are the only ones with these levels and values: the highest level marks those that are not NULL. */
  lemma {:induction false} RowsOfLevels<V>(max: nat, rows: seq<Option<V>>, defines: seq<nat>)
    requires max > 0 && |defines| == |rows| && forall i | 0 <= i < |rows| :: defines[i] == max <==> rows[i].Some?
    ensures Matches(max, defines, Present(rows)) && Rows(max, defines, Present(rows)) == rows
    decreases |rows|
  {
    if rows != [] {
      RowsOfLevels(max, rows[1..], defines[1..]);
      if rows[0].Some? {
        assert Present(rows)[1..] == Present(rows[1..]);
      } else {
        assert Present(rows) == Present(rows[1..]);
      }
    }
  }

  /** Without levels every row has a value. */
  lemma {:induction false} RowsWithoutLevels<V>(rows: seq<Option<V>>)
    requires forall i | 0 <= i < |rows| :: rows[i].Some?
    ensures Rows(0, [], Present(rows)) == rows
    decreases |rows|
  {
    if rows != [] {
      RowsWithoutLevels(rows[1..]);
      assert Present(rows)[1..] == Present(rows[1..]);
      assert Rows(0, [], Present(rows)) == [rows[0]] + Rows(0, [], Present(rows[1..]));
    }
  }

  /** The flat column is that of its pages, one after the other. */
  lemma {:induction false} FlatSnoc<V>(max: nat, pages: seq<Page<V>>, page: Page<V>, p: nat)
    requires p <= |pages|
    ensures Flat(max, pages + [page], p) ==
      Flat(max, pages, p) + if page.DataPage? then Rows(max, page.defines, page.values) else []
    decreases |pages| - p
  {
    hide Rows;
    if p < |pages| {
      FlatSnoc(max, pages, page, p + 1);
      assert (pages + [page])[p] == pages[p];
    } else {
      assert Flat(max, pages + [page], p + 1) == [];
    }
  }

  lemma PageIsWellFormed<V>(max: nat, pages: seq<Page<V>>, p: nat)
    requires WellFormed(max, pages) && p < |pages|
    ensures pages[p].DataPage? ==> Matches(max, pages[p].defines, pages[p].values)
  {
    assert pages[p] in pages;
  }

  lemma {:induction false} RowCount<V>(max: nat, defines: seq<nat>, values: seq<V>)
    ensures |Rows(max, defines, values)| == if max == 0 then |values| else |defines|
    decreases |defines|
  {
    if max > 0 && defines != [] {
      RowCount(max, defines[1..], values);
      if values != [] {
        RowCount(max, defines[1..], values[1..]);
      }
    }
  }

  /** The result has the rows at the selected places. */
  ghost predicate Selected<V>(result: seq<Option<V>>, sel: seq<nat>, rows: seq<Option<V>>) {
    forall i | 0 <= i < |sel| :: sel[i] < |result| && sel[i] < |rows| && result[sel[i]] == rows[sel[i]]
  }

  lemma SelectNone<V>(result: seq<Option<V>>, rows: seq<Option<V>>, sel: seq<nat>)
    ensures Selected(result, sel[..0], rows)
  {}

  lemma SelectNext<V>(result: seq<Option<V>>, sel: seq<nat>, i: nat, rows: seq<Option<V>>, n: nat)
    requires Increasing(sel, n) && i < |sel| && n <= |result| && n <= |rows| && Selected(result, sel[..i], rows)
    ensures Selected(result[sel[i] := rows[sel[i]]], sel[..i + 1], rows)
    ensures i + 1 < |sel| ==> sel[i] < sel[i + 1]
  {
    forall j | 0 <= j < i ensures sel[j] == sel[..i][j] != sel[i] {}
  }

  ghost predicate Increasing(sel: seq<nat>, n: nat) {
    (forall i | 0 <= i < |sel| :: sel[i] < n) && forall i, j | 0 <= i < j < |sel| :: sel[i] < sel[j]
  }

  ghost function Next(max: nat, todo: seq<nat>): seq<nat> { if max == 0 || todo == [] then [] else todo[1..] }

  /** The levels not used yet after i rows of a batch. */
  ghost function Todo(max: nat, batch: seq<nat>, i: nat, defines: seq<nat>): seq<nat> {
    if max == 0 then defines else if i <= |batch| then batch[i..] + defines else defines
  }

  lemma TodoNext(max: nat, batch: seq<nat>, i: nat, defines: seq<nat>, n: nat, allValid: bool, out: seq<nat>)
    requires i < n && Batched(max, n, allValid, out, batch) && (max == 0 ==> defines == [])
    ensures Next(max, Todo(max, batch, i, defines)) == Todo(max, batch, i + 1, defines)
    ensures max > 0 ==> Todo(max, batch, i, defines) != []
    ensures (!allValid && out[i] != max) <==> max > 0 && Todo(max, batch, i, defines)[0] != max
  {}

  lemma TodoAt(max: nat, batch: seq<nat>, defines: seq<nat>, n: nat, allValid: bool, out: seq<nat>)
    requires Batched(max, n, allValid, out, batch) && (max == 0 ==> defines == [])
    ensures Todo(max, batch, 0, defines) == batch + defines && Todo(max, batch, n, defines) == defines
  {}

  lemma NoLevels<V>(max: nat, defines: seq<nat>, values: seq<V>)
    requires Matches(max, defines, values)
    ensures max == 0 ==> defines == []
  {}

  lemma Regroup<T>(a: seq<T>, b: seq<T>, c: seq<T>, d: seq<T>)
    ensures a + ((b + c) + d) == (a + b) + (c + d)
  {}

  lemma ReadSelects<V>(result: seq<Option<V>>, sel: seq<nat>, rows: seq<Option<V>>, n: nat)
    requires Increasing(sel, n) && n <= |result| && n <= |rows| && rows[..n] == result[..n]
    ensures Selected(result, sel, rows)
  {
    forall i | 0 <= i < |sel| ensures result[sel[i]] == rows[sel[i]] {
      assert result[..n][sel[i]] == rows[..n][sel[i]];
    }
  }

  lemma SelectedInFront<V>(result: seq<Option<V>>, sel: seq<nat>, rows: seq<Option<V>>, tail: seq<Option<V>>)
    requires Selected(result, sel, rows)
    ensures Selected(result, sel, rows + tail)
  {}

  // ---- Any sequence of calls ----

  datatype Call = SkipRows(n: nat) | ReadRows(n: nat) | SelectRows(n: nat, sel: seq<nat>)

  /** The calls stay within the column, and reads within a vector. */
  ghost predicate Fit(calls: seq<Call>, rows: nat) {
    calls != [] ==>
      && calls[0].n <= rows && (calls[0].SkipRows? || calls[0].n <= STANDARD_VECTOR_SIZE)
      && (calls[0].SelectRows? ==> Increasing(calls[0].sel, calls[0].n))
      && Fit(calls[1..], rows - calls[0].n)
  }

  /** What the calls return on the flat column, where a skip just moves the cursor. */
  ghost function Expected<V>(flat: seq<Option<V>>, calls: seq<Call>): seq<seq<Option<V>>>
    requires Fit(calls, |flat|)
  {
    if calls == [] then []
    else
      var n, rest := calls[0].n, Expected(flat[calls[0].n..], calls[1..]);
      match calls[0]
      case SkipRows(_) => rest
      case ReadRows(_) => [flat[..n]] + rest
      case SelectRows(_, sel) => [Pick(flat, sel)] + rest
  }

  ghost function Pick<T>(rows: seq<T>, sel: seq<nat>): seq<T>
    requires forall i | 0 <= i < |sel| :: sel[i] < |rows|
  {
    seq(|sel|, i requires 0 <= i < |sel| => rows[sel[i]])
  }

  /** Every call sees the flat column at the cursor, for any paging, encoding, and moves of the transport in between. */
  method Replay<V>(reader: ColumnReader<V>, calls: seq<Call>, elsewhere: nat -> nat)
    returns (results: seq<seq<Option<V>>>)
    requires reader.Valid() && reader.pendingSkips <= |reader.Left(reader.chunkReadOffset)|
    requires Fit(calls, |reader.Rest()|)
    modifies reader, reader.trans
    ensures results == Expected(old(reader.Rest()), calls)
  {
    hide Fit, Expected, Rows, Flat, Matches, Outcome, WellFormed;
    results := [];
    ghost var flat := reader.Rest();
    assert calls[0..] == calls;
    for k := 0 to |calls|
      invariant reader.Valid() && reader.pendingSkips <= |reader.Left(reader.chunkReadOffset)|
      invariant Fit(calls[k..], |reader.Rest()|)
      invariant results + Expected(reader.Rest(), calls[k..]) == Expected(flat, calls)
    {
      ghost var before := reader.Rest();
      ExpectedStep(before, calls, k);
      reader.trans.location := elsewhere(k);
      var more := Perform(reader, calls[k]);
      assert results + (more + Expected(reader.Rest(), calls[k + 1..])) ==
        results + more + Expected(reader.Rest(), calls[k + 1..]);
      results := results + more;
    }
    ExpectedEnd(reader.Rest(), calls);
  }

  ghost function Outcome<V>(flat: seq<Option<V>>, call: Call): seq<seq<Option<V>>>
    requires call.n <= |flat| && (call.SelectRows? ==> Increasing(call.sel, call.n))
  {
    match call
    case SkipRows(_) => []
    case ReadRows(n) => [flat[..n]]
    case SelectRows(_, sel) => [Pick(flat, sel)]
  }

  lemma ExpectedStep<V>(flat: seq<Option<V>>, calls: seq<Call>, k: nat)
    requires k < |calls| && Fit(calls[k..], |flat|)
    ensures var c := calls[k];
      && c.n <= |flat| && (c.SkipRows? || c.n <= STANDARD_VECTOR_SIZE) && (c.SelectRows? ==> Increasing(c.sel, c.n))
      && Fit(calls[k + 1..], |flat| - c.n)
      && Expected(flat, calls[k..]) == Outcome(flat, c) + Expected(flat[c.n..], calls[k + 1..])
  {
    hide Increasing, Pick;
    assert calls[k..][0] == calls[k] && calls[k..][1..] == calls[k + 1..];
  }

  lemma ExpectedEnd<V>(flat: seq<Option<V>>, calls: seq<Call>)
    ensures Fit(calls[|calls|..], |flat|) && Expected(flat, calls[|calls|..]) == []
  {}

  method Perform<V>(reader: ColumnReader<V>, call: Call) returns (results: seq<seq<Option<V>>>)
    requires reader.Valid() && reader.pendingSkips <= |reader.Left(reader.chunkReadOffset)| && call.n <= |reader.Rest()|
    requires (call.SkipRows? || call.n <= STANDARD_VECTOR_SIZE) && (call.SelectRows? ==> Increasing(call.sel, call.n))
    modifies reader, reader.trans
    ensures reader.Valid() && reader.pendingSkips <= |reader.Left(reader.chunkReadOffset)|
    ensures reader.Rest() == old(reader.Rest())[call.n..] && results == Outcome(old(reader.Rest()), call)
  {
    ghost var rest := reader.Rest();
    match call
    case SkipRows(n) =>
      reader.Skip(n);
      return [];
    case ReadRows(n) =>
      var defineOut := new nat[STANDARD_VECTOR_SIZE];
      var result := new Option<V>[STANDARD_VECTOR_SIZE](_ => None);
      reader.Read(n, defineOut, result);
      assert rest[..n] == result[..n];
      return [result[..n]];
    case SelectRows(n, sel) =>
      var defineOut := new nat[STANDARD_VECTOR_SIZE];
      var result := new Option<V>[STANDARD_VECTOR_SIZE](_ => None);
      reader.Select(n, defineOut, result, sel);
      var rows := result[..];
      var picked := seq(|sel|, i requires 0 <= i < |sel| => rows[sel[i]]);
      assert picked == Pick(rest, sel);
      return [picked];
  }

  /** A deferred skip followed by a read is a longer read with its first rows dropped. */
  lemma SkipThenRead<V>(flat: seq<Option<V>>, k: nat, n: nat)
    requires k + n <= |flat| && k + n <= STANDARD_VECTOR_SIZE
    ensures var skip, read, all := SkipRows(k), ReadRows(n), ReadRows(k + n);
      Fit([skip, read], |flat|) && Fit([all], |flat|) && |Expected(flat, [all])| == 1
      && Expected(flat, [skip, read]) == [Expected(flat, [all])[0][k..]]
  {
    var calls := [SkipRows(k), ReadRows(n)];
    assert calls[1..] == [ReadRows(n)] && calls[1..][1..] == [] && [ReadRows(k + n)][1..] == [];
    assert flat[..k + n][k..] == flat[k..][..n];
  }
}
