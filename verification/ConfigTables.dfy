/** The tables of the configuration database: keys, parents and values, and why they form a forest whose leaves
    are a `Config` (`ggconfigd/src/sql`). */
module ConfigTables {
  import opened Buffer
  import opened ConfigMap

  type Id = int

  /** The key, relation and value tables, and the next key id. */
  datatype Tables = Tables(keys: map<Id, Name>, parent: map<Id, Id>, values: map<Id, Leaf>, next: Id)

  predicate HasChild(t: Tables, k: Id) { exists c | c in t.parent.Keys :: t.parent[c] == k }

  ghost predicate Domains(t: Tables, paths: map<Id, Path>) {
    && paths.Keys == t.keys.Keys && t.parent.Keys <= t.keys.Keys && t.values.Keys <= t.keys.Keys
    && forall k | k in t.keys :: k < t.next
  }

  /** A path leads to each key: its own name after the path of its parent. */
  ghost predicate Reached(t: Tables, paths: map<Id, Path>, k: Id)
    requires Domains(t, paths) && k in t.keys
  {
    if k in t.parent then t.parent[k] in t.keys && paths[t.parent[k]] != [] && paths[k] == paths[t.parent[k]] + [t.keys[k]]
    else paths[k] == [t.keys[k]]
  }

  ghost predicate Injective(paths: map<Id, Path>) {
    forall j, k | j in paths && k in paths && paths[j] == paths[k] :: j == k
  }

  ghost predicate ValuesAreLeaves(t: Tables) { forall k | k in t.values :: !HasChild(t, k) }

  /** The keys form a forest with distinct sibling names, witnessed by the path of each key, and no key with a
      value has children. */
  ghost predicate Forest(t: Tables, paths: map<Id, Path>) {
    && Domains(t, paths) && (forall k | k in t.keys :: Reached(t, paths, k))
    && Injective(paths) && ValuesAreLeaves(t)
  }

  /** Every key except perhaps `k0` has a value or a child. */
  ghost predicate CompleteBut(t: Tables, k0: Option<Id>) {
    forall k | k in t.keys && k0 != Some(k) :: k in t.values || HasChild(t, k)
  }

  /** The configuration is the values at their paths. */
  ghost predicate Shows(t: Tables, paths: map<Id, Path>, m: Config)
    requires Forest(t, paths)
  {
    && (forall k | k in t.values :: paths[k] in m && m[paths[k]] == t.values[k])
    && (forall p | p in m :: exists k :: k in t.values && paths[k] == p)
  }

  ghost predicate Exists(paths: map<Id, Path>, p: Path) { exists k :: k in paths && paths[k] == p }

  // ---- Inserting ----

  function AddRoot(t: Tables, name: Name): Tables { t.(keys := t.keys[t.next := name], next := t.next + 1) }

  function AddChild(t: Tables, name: Name, p: Id): Tables {
    t.(keys := t.keys[t.next := name], parent := t.parent[t.next := p], next := t.next + 1)
  }

  function SetValue(t: Tables, k: Id, leaf: Leaf): Tables { t.(values := t.values[k := leaf]) }

  /** A new key with a new path keeps paths distinct. */
  lemma NewPath(paths: map<Id, Path>, k: Id, p: Path)
    requires Injective(paths) && k !in paths && !Exists(paths, p)
    ensures Injective(paths[k := p])
  {
  }

  /** New keys do not change what is shown. */
  lemma ShowsStill(t: Tables, paths: map<Id, Path>, t1: Tables, paths1: map<Id, Path>, m: Config)
    requires Forest(t, paths) && Shows(t, paths, m) && Forest(t1, paths1) && t1.values == t.values
    requires forall k | k in paths :: k in paths1 && paths1[k] == paths[k]
    ensures Shows(t1, paths1, m)
  {
    forall p | p in m ensures exists k :: k in t1.values && paths1[k] == p {
      var k :| k in t.values && paths[k] == p;
      assert paths1[k] == p;
    }
  }

  /** A key is new: it is not in the tables and nothing refers to it. */
  lemma NextIsNew(t: Tables, paths: map<Id, Path>)
    requires Forest(t, paths)
    ensures t.next !in t.keys && t.next !in t.parent && t.next !in t.values && !HasChild(t, t.next) && t.next !in paths
  {
    forall c | c in t.parent.Keys ensures t.parent[c] != t.next { assert Reached(t, paths, c); }
  }

  lemma AddRootHas(t: Tables, name: Name, k: Id)
    ensures HasChild(AddRoot(t, name), k) <==> HasChild(t, k)
  {
  }

  lemma AddRootReached(t: Tables, paths: map<Id, Path>, name: Name)
    requires Forest(t, paths)
    ensures var t1, paths1 := AddRoot(t, name), paths[t.next := [name]];
            Domains(t1, paths1) && forall k | k in t1.keys :: Reached(t1, paths1, k)
  {
    hide Injective, ValuesAreLeaves;
    var t1, paths1 := AddRoot(t, name), paths[t.next := [name]];
    NextIsNew(t, paths);
    forall k | k in t1.keys ensures Reached(t1, paths1, k) {
      if k != t.next { assert Reached(t, paths, k); }
    }
  }

  lemma AddRootKeeps(t: Tables, paths: map<Id, Path>, m: Config, name: Name)
    requires Forest(t, paths) && Shows(t, paths, m) && !Exists(paths, [name]) && CompleteBut(t, None)
    ensures var t1, paths1 := AddRoot(t, name), paths[t.next := [name]];
            && Forest(t1, paths1) && Shows(t1, paths1, m) && CompleteBut(t1, Some(t.next))
            && !HasChild(t1, t.next) && t.next !in t1.values
  {
    hide Exists, Shows, Injective, HasChild, Reached;
    var t1, paths1 := AddRoot(t, name), paths[t.next := [name]];
    NextIsNew(t, paths);
    NewPath(paths, t.next, [name]);
    AddRootReached(t, paths, name);
    forall k ensures HasChild(t1, k) <==> HasChild(t, k) { AddRootHas(t, name, k); }
    ShowsStill(t, paths, t1, paths1, m);
  }

  lemma AddChildHas(t: Tables, name: Name, p: Id, k: Id)
    requires t.next !in t.parent
    ensures HasChild(AddChild(t, name, p), k) <==> HasChild(t, k) || k == p
  {
    var t1 := AddChild(t, name, p);
    assert t1.parent[t.next] == p;
    if HasChild(t, k) {
      var c :| c in t.parent.Keys && t.parent[c] == k;
      assert t1.parent[c] == k;
    }
  }

  lemma AddChildReached(t: Tables, paths: map<Id, Path>, name: Name, p: Id)
    requires Forest(t, paths) && p in t.keys
    ensures var t1, paths1 := AddChild(t, name, p), paths[t.next := paths[p] + [name]];
            Domains(t1, paths1) && forall k | k in t1.keys :: Reached(t1, paths1, k)
  {
    hide Injective, ValuesAreLeaves;
    var t1, paths1 := AddChild(t, name, p), paths[t.next := paths[p] + [name]];
    NextIsNew(t, paths);
    assert Reached(t, paths, p) && paths[p] != [];
    forall k | k in t1.keys ensures Reached(t1, paths1, k) {
      if k != t.next { assert Reached(t, paths, k); }
    }
  }

  lemma AddChildKeeps(t: Tables, paths: map<Id, Path>, m: Config, name: Name, p: Id)
    requires Forest(t, paths) && Shows(t, paths, m) && p in t.keys && p !in t.values
    requires !Exists(paths, paths[p] + [name]) && CompleteBut(t, Some(p))
    ensures var t1, paths1 := AddChild(t, name, p), paths[t.next := paths[p] + [name]];
            && Forest(t1, paths1) && Shows(t1, paths1, m) && CompleteBut(t1, Some(t.next))
            && !HasChild(t1, t.next) && t.next !in t1.values
  {
    hide Exists, Shows, Injective, HasChild, Reached;
    var t1, paths1 := AddChild(t, name, p), paths[t.next := paths[p] + [name]];
    NextIsNew(t, paths);
    NewPath(paths, t.next, paths[p] + [name]);
    AddChildReached(t, paths, name, p);
    forall k ensures HasChild(t1, k) <==> HasChild(t, k) || k == p { AddChildHas(t, name, p, k); }
    ShowsStill(t, paths, t1, paths1, m);
  }

  lemma SetValueKeeps(t: Tables, paths: map<Id, Path>, m: Config, k: Id, leaf: Leaf)
    requires Forest(t, paths) && Shows(t, paths, m) && k in t.keys && !HasChild(t, k) && CompleteBut(t, Some(k))
    ensures var t1, m1 := SetValue(t, k, leaf), m[paths[k] := leaf];
            Forest(t1, paths) && Shows(t1, paths, m1) && CompleteBut(t1, None)
  {
    var t1, m1 := SetValue(t, k, leaf), m[paths[k] := leaf];
    assert forall j :: HasChild(t1, j) <==> HasChild(t, j);
    forall p | p in m1 ensures exists j :: j in t1.values && paths[j] == p {
      if p == paths[k] {
        assert k in t1.values;
      } else {
        var j :| j in t.values && paths[j] == p;
        assert j in t1.values;
      }
    }
  }

  // ---- Searching ----

  /** A key has the path of `p` extended by `name` exactly when it is a child of `p` with that name. */
  lemma ChildPath(t: Tables, paths: map<Id, Path>, p: Id, name: Name, k: Id)
    requires Forest(t, paths) && p in t.keys && k in t.keys
    ensures paths[k] == paths[p] + [name] <==> k in t.parent && t.parent[k] == p && t.keys[k] == name
  {
    assert Reached(t, paths, k) && Reached(t, paths, p);
    if k in t.parent {
      var q := t.parent[k];
      if paths[k] == paths[p] + [name] {
        assert paths[q] == paths[k][..|paths[k]| - 1] == paths[p];
        assert t.keys[k] == paths[k][|paths[k]| - 1] == name;
      }
    } else {
      assert |paths[k]| == 1 && |paths[p]| >= 1;
    }
  }

  lemma RootPath(t: Tables, paths: map<Id, Path>, name: Name, k: Id)
    requires Forest(t, paths) && k in t.keys
    ensures paths[k] == [name] <==> k !in t.parent && t.keys[k] == name
  {
    assert Reached(t, paths, k);
  }

  /** Every key on the way to a key exists. */
  lemma {:induction false} PrefixExists(t: Tables, paths: map<Id, Path>, k: Id, n: nat) returns (j: Id)
    requires Forest(t, paths) && k in t.keys && 0 < n <= |paths[k]|
    ensures j in t.keys && paths[j] == paths[k][..n]
    decreases |paths[k]|
  {
    if n == |paths[k]| {
      assert paths[k][..n] == paths[k];
      return k;
    }
    assert Reached(t, paths, k);
    var p := t.parent[k];
    j := PrefixExists(t, paths, p, n);
    assert paths[k][..n] == paths[p][..n];
  }

  /** A key above another has children. */
  lemma AboveHasChild(t: Tables, paths: map<Id, Path>, j: Id, k: Id)
    requires Forest(t, paths) && j in t.keys && k in t.keys && paths[j] < paths[k]
    ensures HasChild(t, j)
  {
    var n := |paths[j]|;
    var c := PrefixExists(t, paths, k, n + 1);
    assert paths[c] == paths[j] + [paths[k][n]];
    ChildPath(t, paths, j, paths[k][n], c);
    assert t.parent[c] == j;
  }

  lemma ShownIsPrefixFree(t: Tables, paths: map<Id, Path>, m: Config)
    requires Forest(t, paths) && Shows(t, paths, m)
    ensures PrefixFree(m.Keys)
  {
    forall p, q | p in m.Keys && q in m.Keys
      ensures !(p < q)
    {
      var j :| j in t.values && paths[j] == p;
      var k :| k in t.values && paths[k] == q;
      if p < q { AboveHasChild(t, paths, j, k); }
    }
  }

  /** Below every key without a value there is a value. */
  lemma {:induction false} SomeValueBelow(t: Tables, paths: map<Id, Path>, m: Config, k: Id, up: set<Id>) returns (p: Path)
    requires Forest(t, paths) && Shows(t, paths, m) && CompleteBut(t, None) && k in t.keys
    requires up == set j | j in paths && !(paths[k] <= paths[j])
    ensures p in m && paths[k] <= p && (k !in t.values ==> paths[k] < p)
    decreases paths.Keys - up
  {
    if k in t.values {
      p := paths[k];
    } else {
      assert HasChild(t, k);
      var c :| c in t.parent.Keys && t.parent[c] == k;
      assert Reached(t, paths, c);
      assert paths[k] < paths[c];
      var up1 := set j | j in paths && !(paths[c] <= paths[j]);
      assert k in up1 && k !in up;
      p := SomeValueBelow(t, paths, m, c, up1);
    }
  }

  /** A key whose path exists blocks or holds what is written there. */
  lemma ExistingAccepts(t: Tables, paths: map<Id, Path>, m: Config, k: Id)
    requires Forest(t, paths) && Shows(t, paths, m) && CompleteBut(t, None) && k in t.keys
    ensures paths[k] in m <==> k in t.values
    ensures k in t.values <==> !HasChild(t, k)
    ensures Accepts(m, paths[k]) <==> k in t.values
  {
    if paths[k] in m {
      var j :| j in t.values && paths[j] == paths[k];
      assert j == k;
    }
    if k !in t.values {
      var p := SomeValueBelow(t, paths, m, k, set j | j in paths && !(paths[k] <= paths[j]));
      assert p in m.Keys && paths[k] < p;
      assert Blocked(m, paths[k]);
    }
  }

  /** A path that does not exist is blocked exactly by a value on the way to it. */
  lemma MissingAccepts(t: Tables, paths: map<Id, Path>, m: Config, p: Path)
    requires Forest(t, paths) && Shows(t, paths, m) && p != [] && !Exists(paths, p)
    ensures p !in m
    ensures Accepts(m, p) <==> forall k | k in t.values :: !(paths[k] < p)
  {
    forall q | q in m ensures !(p < q) && q != p {
      var k :| k in t.values && paths[k] == q;
      if p <= q { var j := PrefixExists(t, paths, k, |p|); assert Exists(paths, p); }
    }
    if exists k :: k in t.values && paths[k] < p {
      var k :| k in t.values && paths[k] < p;
      assert paths[k] in m.Keys;
      assert Blocked(m, p);
    }
    if Blocked(m, p) {
      var q :| q in m.Keys && (q < p || p < q);
      var k :| k in t.values && paths[k] == q;
    }
  }
}
