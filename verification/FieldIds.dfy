/** Generating Parquet field ids for nested columns, depth first, into maps that ignore the case of names. */
module FieldIds {
  import opened Names

  datatype Type = Primitive | List(element: Type) | Map(key: Type, value: Type) | Struct(fields: seq<Column>)

  datatype Column = Column(name: string, ctype: Type)

  datatype FieldID = FieldID(id: int, children: map<string, FieldID>)

  /** GetChildNamesAndTypes; a type without children is not descended into. */
  function Children(t: Type): seq<Column> {
    match t
    case Primitive => []
    case List(element) => [Column("element", element)]
    case Map(key, value) => [Column("key", key), Column("value", value)]
    case Struct(fields) => fields
  }

  ghost function Size(t: Type): nat {
    match t
    case Primitive => 1
    case List(element) => 1 + Size(element)
    case Map(key, value) => 1 + Size(key) + Size(value)
    case Struct(fields) => 1 + SizeAll(fields)
  }

  /** The number of nodes in the trees of some columns. */
  ghost function SizeAll(columns: seq<Column>): nat {
    if columns == [] then 0 else Size(columns[0].ctype) + SizeAll(columns[1..])
  }

  lemma SizeOfChildren(t: Type)
    ensures Size(t) == 1 + SizeAll(Children(t))
  {
    match t
    case List(element) => SizeOfFirst(Column("element", element), []);
    case Map(key, value) =>
      SizeOfFirst(Column("key", key), [Column("value", value)]);
      SizeOfFirst(Column("value", value), []);
      assert [Column("key", key)] + [Column("value", value)] == Children(t) &&
        [Column("value", value)] + [] == [Column("value", value)];
    case _ =>
  }

  lemma SizeOfFirst(column: Column, rest: seq<Column>)
    ensures SizeAll([column] + rest) == Size(column.ctype) + SizeAll(rest)
  {
    assert ([column] + rest)[1..] == rest;
  }

  function AsInt32(x: nat): int {
    var low := x % 0x1_0000_0000;
    if low > 0x7FFF_FFFF then low - 0x1_0000_0000 else low
  }

  /** The cast to 32 bits keeps the low bits. */
  lemma AsInt32Wraps(x: nat)
    ensures -0x8000_0000 <= AsInt32(x) <= 0x7FFF_FFFF && (AsInt32(x) - x) % 0x1_0000_0000 == 0
  {
    var q := x / 0x1_0000_0000;
    assert x == q * 0x1_0000_0000 + x % 0x1_0000_0000;
    assert AsInt32(x) - x == -q * 0x1_0000_0000 || AsInt32(x) - x == (-q - 1) * 0x1_0000_0000;
  }

  datatype Generated = Generated(ids: map<string, FieldID>, next: nat, inserted: nat)

  /** What the loop does: a name that is taken is not inserted again, but its children go to the existing entry. */
  ghost function Generate(ids: map<string, FieldID>, id: nat, columns: seq<Column>): Generated
    decreases SizeAll(columns)
  {
    if columns == [] then Generated(ids, id, 0)
    else
      var key, t := Fold(columns[0].name), columns[0].ctype;
      var isNew := key !in ids;
      var entry := if isNew then FieldID(AsInt32(id), map[]) else ids[key];
      SizeOfChildren(t);
      var sub := Generate(entry.children, id + 1, Children(t));
      var rest := Generate(ids[key := FieldID(entry.id, sub.ids)], sub.next, columns[1..]);
      Generated(rest.ids, rest.next, (if isNew then 1 else 0) + sub.inserted + rest.inserted)
  }

  lemma GenerateStep(ids: map<string, FieldID>, id: nat, column: Column, rest: seq<Column>)
    ensures var key, t := Fold(column.name), column.ctype;
      var entry := if key !in ids then FieldID(AsInt32(id), map[]) else ids[key];
      var sub := Generate(entry.children, id + 1, Children(t));
      var more := Generate(ids[key := FieldID(entry.id, sub.ids)], sub.next, rest);
      Generate(ids, id, [column] + rest) ==
        Generated(more.ids, more.next, (if key !in ids then 1 else 0) + sub.inserted + more.inserted)
  {
    assert ([column] + rest)[1..] == rest;
  }

  lemma GenerateNone(ids: map<string, FieldID>, id: nat)
    ensures Generate(ids, id, []) == Generated(ids, id, 0)
  {}

  /** GenerateFieldIDs; `ids` and `id` are references there. */
  method GenerateFieldIDs(ids0: map<string, FieldID>, id0: nat, columns: seq<Column>)
    returns (ids: map<string, FieldID>, id: nat)
    ensures ids == Generate(ids0, id0, columns).ids && id == Generate(ids0, id0, columns).next
    decreases SizeAll(columns)
  {
    hide Generate, Fold, AsInt32;
    ids, id := ids0, id0;
    assert columns[0..] == columns;
    for i := 0 to |columns|
      invariant SizeAll(columns[i..]) <= SizeAll(columns)
      invariant var rest, all := Generate(ids, id, columns[i..]), Generate(ids0, id0, columns);
                rest.ids == all.ids && rest.next == all.next
    {
      var column := columns[i];
      assert columns[i..] == [column] + columns[i + 1..] && columns[i..][1..] == columns[i + 1..];
      GenerateStep(ids, id, column, columns[i + 1..]);
      var key := Fold(column.name);
      ghost var before := ids;
      if key !in ids {
        ids := ids[key := FieldID(AsInt32(id), map[])];
      }
      id := id + 1;
      SizeOfChildren(column.ctype);
      if column.ctype.Primitive? {
        GenerateNone(ids[key].children, id);
        SameEntry(ids, key);
        continue;
      }
      var children, next := GenerateFieldIDs(ids[key].children, id, Children(column.ctype));
      UpdateTwice(before, key, ids[key], FieldID(ids[key].id, children));
      ids := ids[key := FieldID(ids[key].id, children)];
      id := next;
    }
    GenerateNone(ids, id);
  }

  lemma UpdateTwice(ids: map<string, FieldID>, key: string, a: FieldID, b: FieldID)
    ensures ids[key := a][key := b] == ids[key := b]
    ensures key in ids ==> ids[key := ids[key]] == ids
  {}

  lemma SameEntry(ids: map<string, FieldID>, key: string)
    requires key in ids
    ensures ids[key := FieldID(ids[key].id, ids[key].children)] == ids
  {}

  // ---- The numbering that is meant ----

  /** Every node gets the next number, then its children, then the columns after it. */
  ghost function Numbered(id: nat, columns: seq<Column>): map<string, FieldID>
    decreases SizeAll(columns)
  {
    if columns == [] then map[]
    else
      SizeOfChildren(columns[0].ctype);
      Numbered(id + Size(columns[0].ctype), columns[1..])
        [Fold(columns[0].name) := FieldID(id, Numbered(id + 1, Children(columns[0].ctype)))]
  }

  ghost predicate HasName(columns: seq<Column>, key: string) {
    exists i :: 0 <= i < |columns| && Fold(columns[i].name) == key
  }

  /** At every level the names are distinct ignoring case. */
  ghost predicate AllDistinct(columns: seq<Column>)
    decreases SizeAll(columns)
  {
    columns == [] ||
    ( SizeOfChildren(columns[0].ctype);
      !HasName(columns[1..], Fold(columns[0].name)) && AllDistinct(Children(columns[0].ctype)) &&
        AllDistinct(columns[1..]))
  }

  lemma NamesOfRest(columns: seq<Column>, key: string)
    requires columns != []
    ensures HasName(columns, key) <==> Fold(columns[0].name) == key || HasName(columns[1..], key)
  {
    if i :| 0 <= i < |columns[1..]| && Fold(columns[1..][i].name) == key {
      assert Fold(columns[i + 1].name) == key;
    }
    if i :| 0 <= i < |columns| && Fold(columns[i].name) == key {
      assert i > 0 ==> Fold(columns[1..][i - 1].name) == key;
    }
  }

  lemma {:induction false} NumberedKeys(id: nat, columns: seq<Column>, key: string)
    ensures key in Numbered(id, columns) <==> HasName(columns, key)
    decreases SizeAll(columns)
  {
    if columns != [] {
      SizeOfChildren(columns[0].ctype);
      NumberedKeys(id + Size(columns[0].ctype), columns[1..], key);
      NamesOfRest(columns, key);
    }
  }

  /** With distinct names the ids are numbered in pre-order, and every node has an entry of its own. */
  lemma {:induction false} GeneratesPreOrder(ids: map<string, FieldID>, id: nat, columns: seq<Column>)
    requires AllDistinct(columns) && (forall key <- ids :: !HasName(columns, key))
    requires id + SizeAll(columns) <= 0x8000_0000
    ensures Generate(ids, id, columns) ==
      Generated(ids + Numbered(id, columns), id + SizeAll(columns), SizeAll(columns))
    decreases SizeAll(columns)
  {
    hide Fold, Generate, HasName, Numbered, Children, Size;
    if columns == [] {
      GenerateNone(ids, id);
      NumberedNone(id);
      assert ids + map[] == ids;
    } else {
      var column, rest := columns[0], columns[1..];
      assert columns == [column] + rest;
      var key, t := Fold(column.name), column.ctype;
      SizeOfChildren(t);
      NamesOfRest(columns, key);
      GeneratesPreOrder(map[], id + 1, Children(t));
      assert map[] + Numbered(id + 1, Children(t)) == Numbered(id + 1, Children(t));
      var entry := FieldID(id, Numbered(id + 1, Children(t)));
      var ids', tail := ids[key := entry], Numbered(id + Size(t), rest);
      forall k <- ids' ensures !HasName(rest, k) {
        NamesOfRest(columns, k);
      }
      GeneratesPreOrder(ids', id + Size(t), rest);
      GenerateStep(ids, id, column, rest);
      NumberedKeys(id + Size(t), rest, key);
      NumberedStep(id, columns);
      MergeUpdate(ids, tail, key, entry);
    }
  }

  lemma MergeUpdate(ids: map<string, FieldID>, tail: map<string, FieldID>, key: string, entry: FieldID)
    requires key !in tail
    ensures ids[key := entry] + tail == ids + tail[key := entry]
  {}

  lemma NumberedNone(id: nat)
    ensures Numbered(id, []) == map[]
  {}

  lemma NumberedStep(id: nat, columns: seq<Column>)
    requires columns != []
    ensures Numbered(id, columns) == Numbered(id + Size(columns[0].ctype), columns[1..])
              [Fold(columns[0].name) := FieldID(id, Numbered(id + 1, Children(columns[0].ctype)))]
  {}

  lemma {:induction false} InsertsAtMostAll(ids: map<string, FieldID>, id: nat, columns: seq<Column>)
    ensures Generate(ids, id, columns).inserted <= SizeAll(columns)
    decreases SizeAll(columns)
  {
    if columns != [] {
      var key, t := Fold(columns[0].name), columns[0].ctype;
      SizeOfChildren(t);
      var entry := if key !in ids then FieldID(AsInt32(id), map[]) else ids[key];
      var sub := Generate(entry.children, id + 1, Children(t));
      InsertsAtMostAll(entry.children, id + 1, Children(t));
      InsertsAtMostAll(ids[key := FieldID(entry.id, sub.ids)], sub.next, columns[1..]);
    }
  }

  /** A name used twice costs an entry. */
  lemma {:induction false} InsertsAllOnlyIfDistinct(ids: map<string, FieldID>, id: nat, columns: seq<Column>)
    requires Generate(ids, id, columns).inserted == SizeAll(columns)
    ensures AllDistinct(columns) && forall key <- ids :: !HasName(columns, key)
    decreases SizeAll(columns)
  {
    if columns != [] {
      var key, t := Fold(columns[0].name), columns[0].ctype;
      SizeOfChildren(t);
      var entry := if key !in ids then FieldID(AsInt32(id), map[]) else ids[key];
      var sub := Generate(entry.children, id + 1, Children(t));
      var ids' := ids[key := FieldID(entry.id, sub.ids)];
      InsertsAtMostAll(entry.children, id + 1, Children(t));
      InsertsAtMostAll(ids', sub.next, columns[1..]);
      InsertsAllOnlyIfDistinct(entry.children, id + 1, Children(t));
      InsertsAllOnlyIfDistinct(ids', sub.next, columns[1..]);
      assert key in ids';
      forall k <- ids ensures !HasName(columns, k) {
        assert k in ids';
        NamesOfRest(columns, k);
      }
    }
  }

  /** Every node gets an id of its own if and only if names are distinct at every level. */
  lemma AllInsertedExactlyIfDistinct(id: nat, columns: seq<Column>)
    requires id + SizeAll(columns) <= 0x8000_0000
    ensures Generate(map[], id, columns).inserted == SizeAll(columns) <==> AllDistinct(columns)
  {
    if AllDistinct(columns) {
      GeneratesPreOrder(map[], id, columns);
    }
    if Generate(map[], id, columns).inserted == SizeAll(columns) {
      InsertsAllOnlyIfDistinct(map[], id, columns);
    }
  }

  /** The ids found in the maps, walking the columns depth first. */
  ghost function Listing(ids: map<string, FieldID>, columns: seq<Column>): seq<int>
    decreases SizeAll(columns)
  {
    if columns == [] then []
    else
      var key := Fold(columns[0].name);
      SizeOfChildren(columns[0].ctype);
      (if key in ids then [ids[key].id] + Listing(ids[key].children, Children(columns[0].ctype)) else [])
      + Listing(ids, columns[1..])
  }

  ghost function Range(from: int, n: nat): seq<int> { seq(n, i => from + i) }

  lemma {:induction false} ListsRange(ids: map<string, FieldID>, id: nat, columns: seq<Column>)
    requires AllDistinct(columns)
    requires forall key <- Numbered(id, columns) :: key in ids && ids[key] == Numbered(id, columns)[key]
    ensures Listing(ids, columns) == Range(id, SizeAll(columns))
    decreases SizeAll(columns)
  {
    hide Fold, Numbered, HasName, Children, Size;
    if columns != [] {
      var key, t := Fold(columns[0].name), columns[0].ctype;
      SizeOfChildren(t);
      NumberedStep(id, columns);
      ListsRange(Numbered(id + 1, Children(t)), id + 1, Children(t));
      var tail := Numbered(id + Size(t), columns[1..]);
      NumberedKeys(id + Size(t), columns[1..], key);
      assert key in Numbered(id, columns);
      forall k <- tail ensures k in ids && ids[k] == tail[k] {
        assert k in Numbered(id, columns);
      }
      ListsRange(ids, id + Size(t), columns[1..]);
      assert Range(id, SizeAll(columns)) ==
        [id] + Range(id + 1, SizeAll(Children(t))) + Range(id + Size(t), SizeAll(columns[1..]));
    }
  }

  /** Depth first the generated ids are start, start + 1, and so on, so the descendants of a node come right after
      it. */
  lemma GeneratedIdsAreConsecutive(start: nat, columns: seq<Column>)
    requires AllDistinct(columns) && start + SizeAll(columns) <= 0x8000_0000
    ensures var g := Generate(map[], start, columns);
      && Listing(g.ids, columns) == Range(start, SizeAll(columns)) && g.next == start + SizeAll(columns)
      && forall i | 0 <= i < |columns| :: var key := Fold(columns[i].name);
           key in g.ids && Listing(g.ids[key].children, Children(columns[i].ctype))
                           == Range(g.ids[key].id + 1, SizeAll(Children(columns[i].ctype)))
  {
    hide Fold, Numbered, Generate, Listing, Range, AllDistinct, Children, Size, SizeAll;
    GeneratesPreOrder(map[], start, columns);
    assert map[] + Numbered(start, columns) == Numbered(start, columns);
    ListsRange(Numbered(start, columns), start, columns);
    forall i | 0 <= i < |columns|
      ensures var key, m := Fold(columns[i].name), Numbered(start, columns);
        key in m && Listing(m[key].children, Children(columns[i].ctype)) ==
          Range(m[key].id + 1, SizeAll(Children(columns[i].ctype)))
    {
      DescendantsFollow(Numbered(start, columns), start, columns, i);
    }
  }

  lemma {:induction false} DescendantsFollow(ids: map<string, FieldID>, id: nat, columns: seq<Column>, i: nat)
    requires AllDistinct(columns) && i < |columns|
    requires forall key <- Numbered(id, columns) :: key in ids && ids[key] == Numbered(id, columns)[key]
    ensures var key := Fold(columns[i].name);
      key in ids && Listing(ids[key].children, Children(columns[i].ctype)) ==
        Range(ids[key].id + 1, SizeAll(Children(columns[i].ctype)))
    decreases i
  {
    hide Fold, Listing, HasName, Children, Size, Range, Numbered;
    NumberedStep(id, columns);
    assert Fold(columns[0].name) in Numbered(id, columns);
    var key, t := Fold(columns[0].name), columns[0].ctype;
    SizeOfChildren(t);
    if i == 0 {
      ListsRange(Numbered(id + 1, Children(t)), id + 1, Children(t));
    } else {
      var tail := Numbered(id + Size(t), columns[1..]);
      NumberedKeys(id + Size(t), columns[1..], key);
      forall k <- tail ensures k in ids && ids[k] == tail[k] {
        assert k in Numbered(id, columns);
      }
      DescendantsFollow(ids, id + Size(t), columns[1..], i - 1);
    }
  }

  /** Within its column, the element of a list is numbered first, and of a map the key and then, behind everything in
      it, the value. */
  lemma ElementsComeFirst(start: nat, column: Column)
    requires AllDistinct([column]) && start + Size(column.ctype) <= 0x8000_0000
    ensures var ids, key := Generate(map[], start, [column]).ids, Fold(column.name);
      && key in ids && ids[key].id == start
      && var inner := ids[key].children;
         match column.ctype
         case Primitive => inner == map[]
         case List(_) => inner.Keys == {"element"} && inner["element"].id == start + 1
         case Map(k, _) =>
           && inner.Keys == {"key", "value"}
           && inner["key"].id == start + 1 && inner["value"].id == start + 1 + Size(k)
         case Struct(_) => inner == Numbered(start + 1, Children(column.ctype))
  {
    hide Generate, AllDistinct, Numbered, Fold, SizeAll, Size;
    var t := column.ctype;
    assert Fold("element") == "element" by { FoldElement(); }
    assert [column][1..] == [] && [column] + [] == [column];
    SizeOfFirst(column, []);
    assert SizeAll([]) == 0 by { SizeOfNone(); }
    GeneratesPreOrder(map[], start, [column]);
    NumberedStep(start, [column]);
    NumberedNone(start + Size(t));
    match t
    case Primitive => NumberedNone(start + 1);
    case List(element) => NumbersOne(start + 1, "element", element);
    case Map(k, v) => NumbersTwo(start + 1, k, v);
    case Struct(_) =>
  }

  lemma FoldElement()
    ensures Fold("element") == "element"
  {}

  lemma SizeOfNone()
    ensures SizeAll([]) == 0
  {}

  lemma NumbersOne(id: nat, name: string, t: Type)
    requires Fold(name) == name
    ensures Numbered(id, [Column(name, t)]) == map[name := FieldID(id, Numbered(id + 1, Children(t)))]
  {
    hide Numbered, Fold, Children;
    var column := Column(name, t);
    assert [column][1..] == [];
    NumberedStep(id, [column]);
    NumberedNone(id + Size(t));
  }

  lemma NumbersTwo(id: nat, k: Type, v: Type)
    ensures var ids := Numbered(id, [Column("key", k), Column("value", v)]);
      ids.Keys == {"key", "value"} && ids["key"].id == id && ids["value"].id == id + Size(k)
  {
    var columns := [Column("key", k), Column("value", v)];
    assert Fold("key") == "key" && Fold("value") == "value";
    hide Numbered, Fold, Children, Size;
    assert columns[1..] == [Column("value", v)];
    NumberedStep(id, columns);
    NumbersOne(id + Size(k), "value", v);
  }

  /** The two fields of an unnamed struct, as row(1, 2) makes one, have the same name, the empty one. They get one
      entry, and the second id is lost. */
  lemma UnnamedFieldsLoseId(start: nat, name: string)
    requires start < 0x7FFF_FFFE
    ensures var columns := [Column(name, Struct([Column("", Primitive), Column("", Primitive)]))];
      var g := Generate(map[], start, columns);
      g.inserted == 2 && g.next == start + 3 && Listing(g.ids, columns) == [start, start + 1, start + 1]
  {
    var field := Column("", Primitive);
    var fields := [field, field];
    var column := Column(name, Struct(fields));
    SameNameLosesId(start + 1);
    var sub := Generate(map[], start + 1, fields);
    var entry := FieldID(start, sub.ids);
    assert [column] == [column] + [] && [column][1..] == [];
    GenerateStep(map[], start, column, []);
    GenerateNone(map[Fold(name) := entry], sub.next);
    assert Listing(map[], []) == [];
  }

  lemma SameNameLosesId(start: nat)
    requires start < 0x7FFF_FFFF
    ensures var fields := [Column("", Primitive), Column("", Primitive)]; var g := Generate(map[], start, fields);
      g.inserted == 1 && g.next == start + 2 && Listing(g.ids, fields) == [start, start]
  {
    var field := Column("", Primitive);
    assert [field, field] == [field] + [field] && [field] == [field] + [] && [field, field][1..] == [field] &&
      [field][1..] == [];
    GenerateStep(map[], start, field, [field]);
    GenerateNone(map[], start + 1);
    var ids := map["" := FieldID(start, map[])];
    GenerateStep(ids, start + 1, field, []);
    GenerateNone(map[], start + 2);
    assert ids["" := FieldID(start, map[])] == ids;
    GenerateNone(ids, start + 2);
    assert Listing(map[], []) == [];
  }
}
