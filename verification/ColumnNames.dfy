/** Renaming of detected JSON columns whose names differ only in case. */
module ColumnNames {
  import opened Names

  /** The taken names at least as long as a candidate. */
  ghost function AtLeastAsLong(taken: set<string>, n: nat): set<string> { set k | k in taken && |k| >= n }

  lemma FewerAreAsLong(taken: set<string>, name: string, longer: nat)
    requires name in taken && longer > |name|
    ensures |AtLeastAsLong(taken, longer)| < |AtLeastAsLong(taken, |name|)|
  {
    var a, b := AtLeastAsLong(taken, longer), AtLeastAsLong(taken, |name|);
    assert a <= b - {name};
    Smaller(a, b - {name});
  }

  lemma Smaller<T>(a: set<T>, b: set<T>)
    requires a <= b
    ensures |a| <= |b|
  {
    if a != {} {
      var x :| x in a;
      Smaller(a - {x}, b - {x});
    }
  }

  /** The name that is taken in the end, and the counters behind it: as long as a name is taken, its counter goes up and
      is added to the name. */
  ghost function Chosen(name: string, collisions: map<string, nat>): (string, map<string, nat>)
    decreases |AtLeastAsLong(collisions.Keys, |name|)|
  {
    var key := Fold(name);
    if key !in collisions then (name, collisions)
    else
      var counted := collisions[key := collisions[key] + 1];
      var longer := name + "_" + ToString(counted[key]);
      assert counted.Keys == collisions.Keys;
      FewerAreAsLong(collisions.Keys, key, |longer|);
      Chosen(longer, counted)
  }

  /** The first n names and the counters after them. */
  ghost function Chooses(names: seq<string>, n: nat): (r: (seq<string>, map<string, nat>))
    requires n <= |names|
    ensures |r.0| == n
  {
    if n == 0 then ([], map[])
    else
      var before := Chooses(names, n - 1);
      var chosen := Chosen(names[n - 1], before.1);
      (before.0 + [chosen.0], chosen.1[Fold(chosen.0) := 0])
  }

  /** The keys taken by the names already dealt with. */
  ghost function Taken(names: seq<string>): set<string> { set i | 0 <= i < |names| :: Fold(names[i]) }

  /** The final names are distinct ignoring case; a name stays as it is exactly if it is free when it is reached, and a
      renamed one keeps the original as its beginning. */
  method RenameColumns(names: seq<string>) returns (renamed: seq<string>)
    ensures |renamed| == |names| && DistinctIgnoringCase(renamed) && renamed == Chooses(names, |names|).0
    ensures forall i | 0 <= i < |names| :: Renamed(names, renamed, i)
  {
    hide Fold, DistinctIgnoringCase, Taken, Chosen;
    var collisions: map<string, nat> := map[];
    renamed := [];
    NothingTaken();
    for i := 0 to |names|
      invariant |renamed| == i && DistinctIgnoringCase(renamed) && collisions.Keys == Taken(renamed)
      invariant (renamed, collisions) == Chooses(names, i)
      invariant forall k | 0 <= k < i :: Renamed(names, renamed, k)
    {
      var name;
      name, collisions := FreeName(names[i], collisions);
      collisions := collisions[Fold(name) := 0];
      TakeOne(renamed, name);
      ghost var before := renamed;
      renamed := renamed + [name];
      assert forall k | 0 <= k < i :: renamed[..k] == before[..k];
      assert renamed[..i] == before;
      forall k | 0 <= k < i ensures Renamed(names, renamed, k) {
        assert Renamed(names, before, k);
      }
    }
  }

  /** Name i, when it is reached: it keeps its text exactly if that is free, and gets an addition otherwise. */
  ghost predicate Renamed(names: seq<string>, renamed: seq<string>, i: nat)
    requires i < |names| && i < |renamed|
  {
    names[i] <= renamed[i] && (renamed[i] == names[i] <==> Fold(names[i]) !in Taken(renamed[..i]))
  }

  /** The inner loop; the counters change, not the names that are taken. */
  method FreeName(name0: string, collisions0: map<string, nat>) returns (name: string, collisions: map<string, nat>)
    ensures Fold(name) !in collisions0 && collisions.Keys == collisions0.Keys
    ensures name0 <= name && (name == name0 <==> Fold(name0) !in collisions0)
    ensures (name, collisions) == Chosen(name0, collisions0)
  {
    hide Fold;
    name, collisions := name0, collisions0;
    while Fold(name) in collisions
      invariant collisions.Keys == collisions0.Keys && name0 <= name
      invariant name != name0 ==> Fold(name0) in collisions
      invariant Chosen(name, collisions) == Chosen(name0, collisions0)
      decreases |AtLeastAsLong(collisions.Keys, |name|)|
    {
      var key := Fold(name);
      ghost var keys := collisions.Keys;
      collisions := collisions[key := collisions[key] + 1];
      assert collisions.Keys == keys;
      var longer := name + "_" + ToString(collisions[key]);
      FewerAreAsLong(keys, key, |longer|);
      name := longer;
    }
  }

  lemma NothingTaken()
    ensures Taken([]) == {} && DistinctIgnoringCase([])
  {}

  lemma TakeOne(names: seq<string>, name: string)
    ensures Taken(names + [name]) == Taken(names) + {Fold(name)}
    ensures DistinctIgnoringCase(names) && Fold(name) !in Taken(names) ==> DistinctIgnoringCase(names + [name])
  {
    var all := names + [name];
    forall k | k in Taken(names) + {Fold(name)} ensures k in Taken(all) {
      if k in Taken(names) {
        var i :| 0 <= i < |names| && Fold(names[i]) == k;
        assert all[i] == names[i];
      } else {
        assert all[|names|] == name;
      }
    }
  }

  /** Names that are distinct ignoring case are left alone. */
  lemma {:induction false} DistinctNamesStay(names: seq<string>, renamed: seq<string>, n: nat)
    requires n <= |names| == |renamed| && DistinctIgnoringCase(names)
    requires forall i | 0 <= i < |names| :: Renamed(names, renamed, i)
    ensures renamed[..n] == names[..n]
    decreases n
  {
    if n > 0 {
      hide Fold;
      DistinctNamesStay(names, renamed, n - 1);
      assert Renamed(names, renamed, n - 1);
      assert renamed[..n] == renamed[..n - 1] + [renamed[n - 1]];
    }
  }

  lemma FoldConcat(a: string, b: string)
    ensures Fold(a + b) == Fold(a) + Fold(b)
  {}

  lemma FoldDigits(n: nat)
    ensures Fold("_" + ToString(n)) == "_" + ToString(n)
  {
    ToStringReads(n);
    var s := "_" + ToString(n);
    forall i | 0 <= i < |s| ensures FoldChar(s[i]) == s[i] {
      assert i > 0 ==> IsDigit(s[i]) by {
        if i > 0 {
          assert s[i] == ToString(n)[i - 1];
        }
      }
    }
  }

  /** The name that the n-th repetition of a name gets. */
  function Repetition(name: string, n: nat): string { if n == 0 then name else name + "_" + ToString(n) }

  lemma RepetitionsDiffer(a: string, b: string, m: nat, n: nat)
    requires Fold(a) == Fold(b) && m != n
    ensures Fold(Repetition(a, m)) != Fold(Repetition(b, n))
  {
    FoldConcat(a, "_" + ToString(m));
    FoldConcat(b, "_" + ToString(n));
    FoldDigits(m);
    FoldDigits(n);
    hide Fold, ToString;
    assert a + ("_" + ToString(m)) == a + "_" + ToString(m) && b + ("_" + ToString(n)) == b + "_" + ToString(n);
    var key, s, t := Fold(a), "_" + ToString(m), "_" + ToString(n);
    if m > 0 && n > 0 && key + s == key + t {
      assert (key + s)[|key|..] == s && (key + t)[|key|..] == t;
      assert s[1..] == ToString(m) && t[1..] == ToString(n);
      ToStringDiffers(m, n);
    }
  }

  /** Names that differ only in case get the numbers 1, 2, and so on, after an underscore; the first one stays. */
  lemma {:induction false} RepeatedNamesCount(names: seq<string>, n: nat)
    requires 0 < n <= |names| && forall i | 0 <= i < n :: Fold(names[i]) == Fold(names[0])
    ensures forall i | 0 <= i < n :: Chooses(names, n).0[i] == Repetition(names[i], i)
    ensures var collisions := Chooses(names, n).1;
      && Fold(names[0]) in collisions && collisions[Fold(names[0])] == n - 1
      && forall key <- collisions :: exists i | 0 <= i < n :: key == Fold(Repetition(names[i], i))
    decreases n
  {
    hide Fold, ToString, Chosen, Repetition;
    FirstRepetition(names[0]);
    if n == 1 {
      assert Chooses(names, 0).1 == map[];
      ChosenFree(names[0], map[]);
    } else {
      RepeatedNamesCount(names, n - 1);
      var key, name, before := Fold(names[0]), names[n - 1], Chooses(names, n - 1).1;
      var longer, counted := Repetition(name, n - 1), before[key := n - 1];
      RepetitionsDiffer(name, names[0], n - 1, 0);
      forall k <- counted ensures k != Fold(longer) {
        if k != key {
          var i :| 0 <= i < n - 1 && k == Fold(Repetition(names[i], i));
          RepetitionsDiffer(name, names[i], n - 1, i);
        }
      }
      ChosenFree(longer, counted);
      ChosenTaken(name, before, n - 1);
      RepetitionsInclude(names, n, Chooses(names, n).1, counted, longer);
    }
  }

  lemma FirstRepetition(name: string)
    ensures Repetition(name, 0) == name
  {}

  lemma RepetitionsInclude(names: seq<string>, n: nat, after: map<string, nat>, before: map<string, nat>,
                           longer: string)
    requires 1 < n <= |names| && after == before[Fold(longer) := 0] && longer == Repetition(names[n - 1], n - 1)
    requires forall key <- before :: exists i | 0 <= i < n - 1 :: key == Fold(Repetition(names[i], i))
    ensures forall key <- after :: exists i | 0 <= i < n :: key == Fold(Repetition(names[i], i))
  {
    hide Fold, Repetition;
    forall key <- after ensures exists i | 0 <= i < n :: key == Fold(Repetition(names[i], i)) {
      if key == Fold(longer) {
        assert key == Fold(Repetition(names[n - 1], n - 1));
      } else {
        var i :| 0 <= i < n - 1 && key == Fold(Repetition(names[i], i));
      }
    }
  }

  lemma ChosenFree(name: string, collisions: map<string, nat>)
    requires Fold(name) !in collisions
    ensures Chosen(name, collisions) == (name, collisions)
  {}

  lemma ChosenTaken(name: string, collisions: map<string, nat>, n: nat)
    requires Fold(name) in collisions && n == collisions[Fold(name)] + 1
    ensures Chosen(name, collisions) == Chosen(Repetition(name, n), collisions[Fold(name) := n])
  {}
}
