/** Parsed JSON documents, their nodes, and the order in which recursive descent visits them. */
module JsonTree {
  import opened Wrappers

  datatype Json = Scalar(text: string) | Arr(items: seq<Json>) | Obj(members: seq<Member>)

  datatype Member = Member(key: string, value: Json)

  /** A pointer to a node: the value and how it is reached from the root, which tells equal values apart. */
  datatype Node = Node(address: seq<nat>, value: Json)

  function Count(value: Json): nat {
    match value
    case Scalar(_) => 0
    case Arr(items) => |items|
    case Obj(members) => |members|
  }

  function ChildValue(value: Json, k: nat): (c: Json)
    requires k < Count(value)
    ensures c < value
  {
    if value.Arr? then value.items[k] else value.members[k].value
  }

  function Child(node: Node, k: nat): (c: Node)
    requires k < Count(node.value)
    ensures c.value < node.value && |c.address| == |node.address| + 1
  {
    Node(node.address + [k], ChildValue(node.value, k))
  }

  function Children(node: Node): (c: seq<Node>)
    ensures |c| == Count(node.value) && forall k | 0 <= k < |c| :: c[k] == Child(node, k)
  {
    seq(Count(node.value), k requires 0 <= k < Count(node.value) => Child(node, k))
  }

  /** yyjson_obj_getn: the first member with the key. */
  function Lookup(members: seq<Member>, key: string): (r: Option<nat>)
    ensures r.Some? ==> r.value < |members| && members[r.value].key == key
                        && forall k | 0 <= k < r.value :: members[k].key != key
    ensures r.None? ==> forall k | 0 <= k < |members| :: members[k].key != key
  {
    LookupFrom(members, key, 0)
  }

  function LookupFrom(members: seq<Member>, key: string, k: nat): (r: Option<nat>)
    requires k <= |members|
    ensures r.Some? ==> k <= r.value < |members| && members[r.value].key == key
                        && forall j | k <= j < r.value :: members[j].key != key
    ensures r.None? ==> forall j | k <= j < |members| :: members[j].key != key
    decreases |members| - k
  {
    if k == |members| then None else if members[k].key == key then Some(k) else LookupFrom(members, key, k + 1)
  }

  // ---- The worklist ----

  ghost function Size(value: Json): nat
    decreases value, 1, 0
  {
    1 + SizeOf(value, Count(value))
  }

  ghost function SizeOf(value: Json, n: nat): nat
    requires n <= Count(value)
    decreases value, 0, n
  {
    if n == 0 then 0 else SizeOf(value, n - 1) + Size(ChildValue(value, n - 1))
  }

  ghost function Work(nodes: seq<Node>): nat {
    if nodes == [] then 0 else Size(nodes[0].value) + Work(nodes[1..])
  }

  lemma {:induction false} WorkConcat(a: seq<Node>, b: seq<Node>)
    ensures Work(a + b) == Work(a) + Work(b)
    decreases |a|
  {
    if a == [] {
      assert a + b == b;
    } else {
      assert (a + b)[1..] == a[1..] + b;
      WorkConcat(a[1..], b);
    }
  }

  lemma {:induction false} WorkOfChildren(node: Node, n: nat)
    requires n <= Count(node.value)
    ensures Work(Children(node)[..n]) == SizeOf(node.value, n)
    decreases n
  {
    if n > 0 {
      var c := Children(node);
      assert c[..n] == c[..n - 1] + [c[n - 1]];
      WorkOfChildren(node, n - 1);
      WorkConcat(c[..n - 1], [c[n - 1]]);
      assert [c[n - 1]][1..] == [];
    }
  }

  lemma WorkShrinks(nodes: seq<Node>)
    requires nodes != []
    ensures Work(nodes[1..] + Children(nodes[0])) == Work(nodes) - 1
  {
    WorkOfChildren(nodes[0], Count(nodes[0].value));
    assert Children(nodes[0])[..Count(nodes[0].value)] == Children(nodes[0]);
    WorkConcat(nodes[1..], Children(nodes[0]));
  }

  /** The nodes visited when the worklist holds `nodes` and every visit appends the node's children to it. */
  ghost function Visited(nodes: seq<Node>): seq<Node>
    decreases Work(nodes)
  {
    if nodes == [] then []
    else
      WorkShrinks(nodes);
      [nodes[0]] + Visited(nodes[1..] + Children(nodes[0]))
  }

  // ---- Level by level ----

  /** All children of the nodes, in order. */
  ghost function Below(nodes: seq<Node>): seq<Node> {
    if nodes == [] then [] else Children(nodes[0]) + Below(nodes[1..])
  }

  /** The nodes at depth d under `node`, from left to right. */
  ghost function Level(node: Node, d: nat): seq<Node> {
    if d == 0 then [node] else Below(Level(node, d - 1))
  }

  ghost function Levels(node: Node, d: nat): seq<Node> {
    if d == 0 then [] else Levels(node, d - 1) + Level(node, d - 1)
  }

  lemma {:induction false} BelowConcat(a: seq<Node>, b: seq<Node>)
    ensures Below(a + b) == Below(a) + Below(b)
    decreases |a|
  {
    if a == [] {
      assert a + b == b;
    } else {
      assert (a + b)[1..] == a[1..] + b;
      BelowConcat(a[1..], b);
    }
  }

  /** The worklist visits what it holds, then all their children. */
  lemma {:induction false} VisitedByLevel(nodes: seq<Node>, more: seq<Node>)
    ensures Visited(nodes + more) == nodes + Visited(more + Below(nodes))
    decreases |nodes|
  {
    if nodes == [] {
      assert nodes + more == more && more + Below(nodes) == more;
    } else {
      hide Below;
      var all, rest := nodes + more, nodes[1..];
      assert all[1..] + Children(all[0]) == rest + (more + Children(nodes[0]));
      VisitedByLevel(rest, more + Children(nodes[0]));
      BelowStep(nodes);
      assert more + Below(nodes) == more + Children(nodes[0]) + Below(rest);
      VisitedStep(all);
    }
  }

  lemma BelowStep(nodes: seq<Node>)
    requires nodes != []
    ensures Below(nodes) == Children(nodes[0]) + Below(nodes[1..])
  {}

  lemma VisitedStep(nodes: seq<Node>)
    requires nodes != []
    ensures Visited(nodes) == [nodes[0]] + Visited(nodes[1..] + Children(nodes[0]))
  {}

  lemma {:induction false} VisitedLevels(node: Node, d: nat)
    ensures Visited([node]) == Levels(node, d) + Visited(Level(node, d))
    decreases d
  {
    if d == 0 {
      assert Levels(node, 0) + Visited([node]) == Visited([node]);
    } else {
      hide Visited;
      VisitedLevels(node, d - 1);
      var level := Level(node, d - 1);
      VisitedByLevel(level, []);
      assert level + [] == level && [] + Below(level) == Below(level);
      assert Levels(node, d - 1) + (level + Visited(Below(level))) == Levels(node, d) + Visited(Level(node, d));
    }
  }

  ghost function Height(value: Json): nat
    decreases value, 1, 0
  {
    1 + HeightOf(value, Count(value))
  }

  ghost function HeightOf(value: Json, n: nat): nat
    requires n <= Count(value)
    decreases value, 0, n
  {
    if n == 0 then 0
    else if HeightOf(value, n - 1) < Height(ChildValue(value, n - 1)) then Height(ChildValue(value, n - 1))
    else HeightOf(value, n - 1)
  }

  lemma {:induction false} HeightBounds(value: Json, n: nat, k: nat)
    requires k < n <= Count(value)
    ensures Height(ChildValue(value, k)) <= HeightOf(value, n)
    decreases n
  {
    if k < n - 1 {
      HeightBounds(value, n - 1, k);
    }
  }

  lemma {:induction false} BelowMember(nodes: seq<Node>, x: Node)
    ensures x in Below(nodes) <==>
      exists i, k :: 0 <= i < |nodes| && 0 <= k < Count(nodes[i].value) && x == Child(nodes[i], k)
    decreases |nodes|
  {
    if nodes != [] {
      BelowMember(nodes[1..], x);
      if x in Below(nodes) {
        if x in Children(nodes[0]) {
          var k :| 0 <= k < |Children(nodes[0])| && x == Children(nodes[0])[k];
          assert x == Child(nodes[0], k);
        } else {
          var i, k :| 0 <= i < |nodes[1..]| && 0 <= k < Count(nodes[1..][i].value) && x == Child(nodes[1..][i], k);
          assert x == Child(nodes[i + 1], k);
        }
      }
      if i, k :| 0 <= i < |nodes| && 0 <= k < Count(nodes[i].value) && x == Child(nodes[i], k) {
        if i == 0 {
          assert x == Children(nodes[0])[k];
        } else {
          assert x == Child(nodes[1..][i - 1], k);
        }
      }
    }
  }

  lemma {:induction false} LevelHeight(node: Node, d: nat, x: Node)
    requires x in Level(node, d)
    ensures Height(x.value) + d <= Height(node.value) && |x.address| == |node.address| + d
    decreases d
  {
    if d > 0 {
      BelowMember(Level(node, d - 1), x);
      var i, k :| 0 <= i < |Level(node, d - 1)| && 0 <= k < Count(Level(node, d - 1)[i].value) &&
        x == Child(Level(node, d - 1)[i], k);
      var parent := Level(node, d - 1)[i];
      LevelHeight(node, d - 1, parent);
      HeightBounds(parent.value, Count(parent.value), k);
    }
  }

  /** Breadth first: the nodes are visited level by level, each level from left to right. */
  lemma VisitsLevelByLevel(node: Node)
    ensures Visited([node]) == Levels(node, Height(node.value))
  {
    var h := Height(node.value);
    VisitedLevels(node, h);
    if Level(node, h) != [] {
      LevelHeight(node, h, Level(node, h)[0]);
      assert false;
    }
  }

  // ---- Every node exactly once ----

  /** The node at an address relative to `node`. */
  ghost function At(node: Node, path: seq<nat>): Option<Node>
    decreases |path|
  {
    if path == [] then Some(node)
    else
      var parent := At(node, path[..|path| - 1]);
      if parent.Some? && path[|path| - 1] < Count(parent.value.value) then Some(Child(parent.value, path[|path| - 1]))
        else None
  }

  lemma {:induction false} AddressAt(node: Node, path: seq<nat>)
    requires At(node, path).Some?
    ensures At(node, path).value.address == node.address + path
    decreases |path|
  {
    if path != [] {
      AddressAt(node, path[..|path| - 1]);
      assert path == path[..|path| - 1] + [path[|path| - 1]];
    }
  }

  lemma {:induction false} LevelIsComplete(node: Node, path: seq<nat>)
    requires At(node, path).Some?
    ensures At(node, path).value in Level(node, |path|)
    decreases |path|
  {
    if path != [] {
      var n := |path| - 1;
      LevelIsComplete(node, path[..n]);
      var level, parent := Level(node, n), At(node, path[..n]).value;
      var i :| 0 <= i < |level| && level[i] == parent;
      BelowMember(level, Child(level[i], path[n]));
    }
  }

  lemma {:induction false} LevelIsSound(node: Node, d: nat, x: Node)
    requires x in Level(node, d)
    ensures exists path: seq<nat> :: |path| == d && At(node, path) == Some(x)
    decreases d
  {
    hide Below;
    if d == 0 {
      assert At(node, []) == Some(x);
    } else {
      var level := Level(node, d - 1);
      BelowMember(level, x);
      var i, k :| 0 <= i < |level| && 0 <= k < Count(level[i].value) && x == Child(level[i], k);
      LevelIsSound(node, d - 1, level[i]);
      var path: seq<nat> :| |path| == d - 1 && At(node, path) == Some(level[i]);
      assert (path + [k])[..d - 1] == path;
      assert At(node, path + [k]) == Some(x);
    }
  }

  ghost predicate Distinct(nodes: seq<Node>) {
    forall i, j | 0 <= i < j < |nodes| :: nodes[i].address != nodes[j].address
  }

  lemma SiblingsDiffer(a: seq<nat>, i: nat, b: seq<nat>, j: nat)
    ensures a + [i] == b + [j] ==> a == b && i == j
  {
    if a + [i] == b + [j] {
      assert a == (a + [i])[..|a|] == (b + [j])[..|b|] == b;
      assert (a + [i])[|a|] == i;
    }
  }

  lemma {:induction false} DistinctBelow(nodes: seq<Node>)
    requires Distinct(nodes)
    ensures Distinct(Below(nodes))
    decreases |nodes|
  {
    if nodes != [] {
      var first, rest := Children(nodes[0]), Below(nodes[1..]);
      DistinctBelow(nodes[1..]);
      var all: seq<Node> := first + rest;
      forall i, j | 0 <= i < j < |all| ensures all[i].address != all[j].address {
        if j < |first| {
          SiblingsDiffer(nodes[0].address, i, nodes[0].address, j);
        } else if i < |first| {
          var x := rest[j - |first|];
          assert x in rest;
          BelowMember(nodes[1..], x);
          var p, k :| 0 <= p < |nodes[1..]| && 0 <= k < Count(nodes[1..][p].value) && x == Child(nodes[1..][p], k);
          SiblingsDiffer(nodes[0].address, i, nodes[p + 1].address, k);
        }
      }
    }
  }

  lemma {:induction false} DistinctLevels(node: Node, d: nat)
    ensures Distinct(Levels(node, d)) && Distinct(Level(node, d))
    ensures forall x <- Levels(node, d) :: |x.address| < |node.address| + d
    decreases d
  {
    if d > 0 {
      DistinctLevels(node, d - 1);
      var level := Level(node, d - 1);
      DistinctBelow(level);
      forall x | x in level ensures |x.address| == |node.address| + d - 1 {
        LevelHeight(node, d - 1, x);
      }
      var before := Levels(node, d - 1);
      var all: seq<Node> := before + level;
      forall i, j | 0 <= i < j < |all| ensures all[i].address != all[j].address {
        if i < |before| <= j {
          assert before[i] in before && level[j - |before|] in level;
        }
      }
    }
  }

  lemma {:induction false} InLevels(node: Node, d: nat, e: nat, x: Node)
    requires e < d && x in Level(node, e)
    ensures x in Levels(node, d)
    decreases d
  {
    hide Level;
    if e < d - 1 {
      InLevels(node, d - 1, e, x);
    }
  }

  lemma {:induction false} LevelOf(node: Node, d: nat, x: Node)
    requires x in Levels(node, d)
    ensures exists e: nat :: e < d && x in Level(node, e)
    decreases d
  {
    if x in Level(node, d - 1) {
    } else {
      LevelOf(node, d - 1, x);
    }
  }

  ghost predicate Under(node: Node, x: Node) { exists path: seq<nat> :: At(node, path) == Some(x) }

  lemma UnderIsInLevels(node: Node, x: Node)
    ensures x in Levels(node, Height(node.value)) <==> Under(node, x)
  {
    hide Level, Levels;
    var h := Height(node.value);
    if x in Levels(node, h) {
      LevelOf(node, h, x);
      var e: nat :| e < h && x in Level(node, e);
      LevelIsSound(node, e, x);
    }
    if Under(node, x) {
      var path: seq<nat> :| At(node, path) == Some(x);
      LevelIsComplete(node, path);
      LevelHeight(node, |path|, x);
      InLevels(node, h, |path|, x);
    }
  }

  /** The worklist visits every node of the subtree, none twice, and nothing else. */
  lemma VisitsEachNodeOnce(node: Node)
    ensures Distinct(Visited([node]))
    ensures forall x :: x in Visited([node]) <==> Under(node, x)
  {
    hide Levels, Visited, Under;
    VisitsLevelByLevel(node);
    DistinctLevels(node, Height(node.value));
    forall x ensures x in Visited([node]) <==> Under(node, x) {
      UnderIsInLevels(node, x);
    }
  }
}
