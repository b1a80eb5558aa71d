/** Writing objects into the configuration (`ggconfigd/src/db_corebus.c`): a map is merged key by key, anything else
    is stored as its JSON text. */
module ConfigMerge {
  import opened Buffer
  import opened ConfigMap
  import S = ConfigStore
  import opened Objects
  import E = JsonEncode
  import W = JsonWriter

  const VALUE_SIZE: nat := 1024

  /** Capacity of the key path. */
  const MAX_DEPTH: nat := 15

  datatype Status = Ok | Failure | NoMemory

  /** The JSON text stored for an object; nothing when it is too long. */
  function StoredText(o: Obj, printf: E.Printf): Option<bytes> {
    if |E.Encoded(o, printf)| <= VALUE_SIZE then Some(W.Shown(o, VALUE_SIZE, printf)) else None
  }

  /** A value to be stored at a path. */
  datatype Item = Item(path: Path, text: Option<bytes>)

  predicate IsMap(o: Obj) { o.Collection? && o.isMap }

  /** The values of a map merged at a path, in order. */
  function Items(path: Path, o: Obj, printf: E.Printf): seq<Item>
    decreases o, 0
  {
    if IsMap(o) then EntryItems(path, o.entries, printf) else [Item(path, StoredText(o, printf))]
  }

  function EntryItems(path: Path, es: seq<KV>, printf: E.Printf): seq<Item>
    decreases es, 1
  {
    if es == [] then [] else Items(path + [es[0].key], es[0].val, printf) + EntryItems(path, es[1..], printf)
  }

  // ---- The key path as the code keeps it ----

  /** A push onto a full path fails, unnoticed. */
  function Push(path: Path, key: Name): Path { if |path| < MAX_DEPTH then path + [key] else path }

  function Pop(path: Path): Path { if path == [] then [] else path[..|path| - 1] }

  /** The values with the paths they are stored at, and the path that is left behind. */
  datatype Laid = Laid(items: seq<Item>, path: Path)

  function LaidOut(path: Path, o: Obj, printf: E.Printf): Laid
    decreases o, 0
  {
    if IsMap(o) then LaidOutEntries(path, o.entries, printf) else Laid([Item(path, StoredText(o, printf))], path)
  }

  function LaidOutEntries(path: Path, es: seq<KV>, printf: E.Printf): Laid
    decreases es, 1
  {
    if es == [] then Laid([], path)
    else
      var first := LaidOut(Push(path, es[0].key), es[0].val, printf);
      var rest := LaidOutEntries(Pop(first.path), es[1..], printf);
      Laid(first.items + rest.items, rest.path)
  }

  /** How many keys lie on top of each other. */
  function Depth(o: Obj): nat
    decreases o, 0
  {
    if IsMap(o) then EntryDepth(o.entries) else 0
  }

  function EntryDepth(es: seq<KV>): nat
    decreases es, 1
  {
    if es == [] then 0
    else
      var first, rest := 1 + Depth(es[0].val), EntryDepth(es[1..]);
      if first > rest then first else rest
  }

  lemma {:induction false} LeavesPrefix(path: Path, o: Obj, printf: E.Printf)
    requires |path| <= MAX_DEPTH
    ensures LaidOut(path, o, printf).path <= path
    decreases o, 0
  {
    if IsMap(o) { EntriesLeavePrefix(path, o.entries, printf); }
  }

  lemma {:induction false} EntriesLeavePrefix(path: Path, es: seq<KV>, printf: E.Printf)
    requires |path| <= MAX_DEPTH
    ensures LaidOutEntries(path, es, printf).path <= path
    decreases es, 1
  {
    hide LaidOut;
    if es != [] {
      var first := LaidOut(Push(path, es[0].key), es[0].val, printf);
      LeavesPrefix(Push(path, es[0].key), es[0].val, printf);
      PopIsPrefix(path, es[0].key, first.path);
      EntriesLeavePrefix(Pop(first.path), es[1..], printf);
    }
  }

  /** After a push and a pop at most the path is left; less if the push failed or something below lost an element. */
  lemma PopIsPrefix(path: Path, key: Name, left: Path)
    requires |path| <= MAX_DEPTH && left <= Push(path, key)
    ensures Pop(left) <= path
    ensures path != [] && (|path| == MAX_DEPTH || left != Push(path, key)) ==> Pop(left) < path
    ensures |path| < MAX_DEPTH && left == Push(path, key) ==> Pop(left) == path
  {
    if |path| < MAX_DEPTH && left == path + [key] { assert left[..|left| - 1] == path; }
  }

  /** The values are stored at their paths and the path is as it was, exactly when no key lies deeper than the
      capacity. */
  lemma {:induction false} LaidOutExactly(path: Path, o: Obj, printf: E.Printf)
    requires path != [] && |path| <= MAX_DEPTH
    ensures LaidOut(path, o, printf) == Laid(Items(path, o, printf), path) <==> |path| + Depth(o) <= MAX_DEPTH
    ensures |path| + Depth(o) > MAX_DEPTH ==> LaidOut(path, o, printf).path < path
    decreases o, 0
  {
    if IsMap(o) { EntriesLaidOutExactly(path, o.entries, printf); }
  }

  lemma {:induction false} EntriesLaidOutExactly(path: Path, es: seq<KV>, printf: E.Printf)
    requires path != [] && |path| <= MAX_DEPTH
    ensures LaidOutEntries(path, es, printf) == Laid(EntryItems(path, es, printf), path) <==> |path| + EntryDepth(es) <= MAX_DEPTH
    ensures |path| + EntryDepth(es) > MAX_DEPTH ==> LaidOutEntries(path, es, printf).path < path
    decreases es, 1
  {
    hide LaidOut, Items, Depth;
    if es != [] {
      var key, v := es[0].key, es[0].val;
      var first := LaidOut(Push(path, key), v, printf);
      LeavesPrefix(Push(path, key), v, printf);
      PopIsPrefix(path, key, first.path);
      if |path| < MAX_DEPTH { LaidOutExactly(path + [key], v, printf); }
      EntriesLeavePrefix(Pop(first.path), es[1..], printf);
      if Pop(first.path) == path { EntriesLaidOutExactly(path, es[1..], printf); }
    }
  }

  /** A merge at the root: a value that is too deep does not disturb the others, and each begins with a path of one
      key, so the law above says which of them are stored right. */
  lemma {:induction false} RootEntries(es: seq<KV>, printf: E.Printf)
    ensures LaidOutEntries([], es, printf).path == []
    ensures es != [] ==>
              LaidOutEntries([], es, printf).items ==
              LaidOut([es[0].key], es[0].val, printf).items + LaidOutEntries([], es[1..], printf).items
    decreases |es|
  {
    hide LaidOut;
    if es != [] {
      assert Push([], es[0].key) == [es[0].key];
      var first := LaidOut([es[0].key], es[0].val, printf);
      LeavesPrefix([es[0].key], es[0].val, printf);
      PopIsPrefix([], es[0].key, first.path);
      RootEntries(es[1..], printf);
    }
  }

  /** Two keys under a path of 15 elements: the first value is stored at that path itself, the second in the place of
      its last element. */
  lemma TooDeep(path: Path, a: KV, b: KV, printf: E.Printf)
    requires |path| == MAX_DEPTH && !IsMap(a.val) && !IsMap(b.val)
    ensures LaidOutEntries(path, [a, b], printf).items ==
            [Item(path, StoredText(a.val, printf)), Item(path[..14] + [b.key], StoredText(b.val, printf))]
    ensures EntryItems(path, [a, b], printf) ==
            [Item(path + [a.key], StoredText(a.val, printf)), Item(path + [b.key], StoredText(b.val, printf))]
  {
    hide StoredText;
    assert [a, b][1..] == [b] && [b][1..] == [];
    var x, y := LaidOut(path, a.val, printf), LaidOut(path[..14] + [b.key], b.val, printf);
    assert LaidOutEntries(path, [a, b], printf).items == x.items + LaidOutEntries(path[..14], [b], printf).items;
    assert LaidOutEntries(path[..14], [b], printf).items == y.items + [];
    assert EntryItems(path, [b], printf) == Items(path + [b.key], b.val, printf) + [];
  }

  // ---- Storing the values ----

  datatype Outcome = Outcome(status: Status, config: Config)

  /** The items stored one after the other, up to the first that cannot be. */
  function Apply(m: Config, items: seq<Item>, timestamp: int): Outcome
    decreases |items|
  {
    if items == [] then Outcome(Ok, m)
    else if items[0].text.None? then Outcome(NoMemory, m)
    else if !Accepts(m, items[0].path) then Outcome(Failure, m)
    else Apply(Written(m, Update(items[0].path, Leaf(items[0].text.value, timestamp))), items[1..], timestamp)
  }

  lemma {:induction false} ApplyConcat(m: Config, a: seq<Item>, b: seq<Item>, timestamp: int)
    ensures var r := Apply(m, a, timestamp);
            Apply(m, a + b, timestamp) == if r.status == Ok then Apply(r.config, b, timestamp) else r
    decreases |a|
  {
    if a == [] {
      assert a + b == b;
    } else {
      assert (a + b)[1..] == a[1..] + b && (a + b)[0] == a[0];
      if a[0].text.Some? && Accepts(m, a[0].path) {
        ApplyConcat(Written(m, Update(a[0].path, Leaf(a[0].text.value, timestamp))), a[1..], b, timestamp);
      }
    }
  }

  /** Stores an object that is not a map at a path. */
  method ProcessNonmap(store: S.Store, path: Path, o: Obj, timestamp: int, printf: E.Printf) returns (status: Status)
    requires store.Valid() && path != []
    modifies store
    ensures store.Valid()
    ensures Outcome(status, store.config) == Apply(old(store.config), [Item(path, StoredText(o, printf))], timestamp)
  {
    hide Accepts, Written;
    var buf := new byte[VALUE_SIZE](_ => 0);
    var ok, len := W.Encode(o, buf, printf);
    if !ok { return NoMemory; }
    var text := buf[..len];
    var s := store.WriteValue(path, text, timestamp);
    return if s == S.Ok then Ok else Failure;
  }

  /** Merges a map at the key path, which is extended by each key and taken back again; `left` is the path that is
      left behind. */
  method ProcessMap(store: S.Store, path: Path, es: seq<KV>, timestamp: int, printf: E.Printf)
    returns (status: Status, left: Path)
    requires store.Valid() && |path| <= MAX_DEPTH
    modifies store
    ensures store.Valid()
    ensures Outcome(status, store.config) == Apply(old(store.config), LaidOutEntries(path, es, printf).items, timestamp)
    ensures status == Ok ==> left == LaidOutEntries(path, es, printf).path
    ensures |path| + EntryDepth(es) <= MAX_DEPTH ==>
              Outcome(status, store.config) == Apply(old(store.config), EntryItems(path, es, printf), timestamp)
    decreases es, 1
  {
    hide Apply, LaidOut, StoredText, Items;
    ghost var m0 := store.config;
    var i := 0;
    status, left := Ok, path;
    assert es[0..] == es;
    if |path| + EntryDepth(es) <= MAX_DEPTH { IntendedItems(path, es, printf); }
    while i < |es|
      invariant 0 <= i <= |es| && store.Valid() && |left| <= MAX_DEPTH
      invariant Apply(m0, LaidOutEntries(path, es, printf).items, timestamp) ==
                Apply(store.config, LaidOutEntries(left, es[i..], printf).items, timestamp)
      invariant LaidOutEntries(path, es, printf).path == LaidOutEntries(left, es[i..], printf).path
    {
      ghost var m := store.config;
      assert es[i..][1..] == es[i + 1..] && es[i..][0] == es[i];
      var keyPath := Push(left, es[i].key);
      ghost var first := LaidOut(keyPath, es[i].val, printf);
      LeavesPrefix(keyPath, es[i].val, printf);
      ApplyConcat(m, first.items, LaidOutEntries(Pop(first.path), es[i + 1..], printf).items, timestamp);
      OneValue(keyPath, es[i].val, printf);
      if es[i].val.Collection? && es[i].val.isMap {
        status, keyPath := ProcessMap(store, keyPath, es[i].val.entries, timestamp, printf);
      } else {
        status := ProcessNonmap(store, keyPath, es[i].val, timestamp, printf);
      }
      if status != Ok { return; }
      left := Pop(keyPath);
      i := i + 1;
    }
    Nothing(store.config, left, printf, timestamp);
    return Ok, left;
  }

  /** When nothing lies too deep, the paths are those intended. */
  lemma IntendedItems(path: Path, es: seq<KV>, printf: E.Printf)
    requires |path| <= MAX_DEPTH && |path| + EntryDepth(es) <= MAX_DEPTH
    ensures LaidOutEntries(path, es, printf).items == EntryItems(path, es, printf)
  {
    if path == [] { IntendedRoot(es, printf); } else { EntriesLaidOutExactly(path, es, printf); }
  }

  lemma {:induction false} IntendedRoot(es: seq<KV>, printf: E.Printf)
    requires EntryDepth(es) <= MAX_DEPTH
    ensures LaidOutEntries([], es, printf).items == EntryItems([], es, printf)
    decreases |es|
  {
    hide LaidOut, Items, Depth;
    if es != [] {
      RootEntries(es, printf);
      LaidOutExactly([es[0].key], es[0].val, printf);
      IntendedRoot(es[1..], printf);
      assert [] + [es[0].key] == [es[0].key];
    }
  }

  lemma OneValue(path: Path, o: Obj, printf: E.Printf)
    ensures LaidOut(path, o, printf) ==
            if IsMap(o) then LaidOutEntries(path, o.entries, printf) else Laid([Item(path, StoredText(o, printf))], path)
  {
  }

  lemma Nothing(m: Config, path: Path, printf: E.Printf, timestamp: int)
    ensures Apply(m, LaidOutEntries(path, [], printf).items, timestamp) == Outcome(Ok, m)
  {
  }

  // ---- Merges that fit ----

  function Updates(items: seq<Item>, timestamp: int): seq<Update>
    requires forall i | 0 <= i < |items| :: items[i].text.Some?
  {
    seq(|items|, i requires 0 <= i < |items| => Update(items[i].path, Leaf(items[i].text.value, timestamp)))
  }

  lemma {:induction false} RunFromFront(m: Config, us: seq<Update>)
    requires us != []
    ensures Run(m, us) == Run(Written(m, us[0]), us[1..])
    decreases |us|
  {
    hide Written;
    if |us| == 1 {
      assert us[..0] == [] && us[1..] == [];
      assert Run(m, us[..0]) == m;
    } else {
      RunFromFront(m, us[..|us| - 1]);
      assert us[..|us| - 1][1..] == us[1..][..|us[1..]| - 1];
    }
  }

  /** A merge whose texts fit and whose shape is compatible succeeds and is the run of its updates. */
  lemma {:induction false} MergeIsRun(m: Config, items: seq<Item>, timestamp: int)
    requires forall i | 0 <= i < |items| :: items[i].text.Some?
    requires Compatible(m, Updates(items, timestamp))
    ensures Apply(m, items, timestamp) == Outcome(Ok, Run(m, Updates(items, timestamp)))
    decreases |items|
  {
    hide Written, Accepts;
    if items != [] {
      var us := Updates(items, timestamp);
      FirstFits(m, us);
      RunFromFront(m, us);
      assert us[1..] == Updates(items[1..], timestamp);
      MergeIsRun(Written(m, us[0]), items[1..], timestamp);
    }
  }

  lemma FirstFits(m: Config, us: seq<Update>)
    requires us != [] && Compatible(m, us)
    ensures Accepts(m, us[0].path) && Compatible(Written(m, us[0]), us[1..])
  {
    assert us[0].path in Paths(us);
    assert !Blocked(m, us[0].path) by {
      forall q | q in m.Keys ensures !(q < us[0].path || us[0].path < q) { assert q in m.Keys + Paths(us); }
    }
    assert Written(m, us[0]).Keys + Paths(us[1..]) <= m.Keys + Paths(us) by {
      forall q | q in Paths(us[1..]) ensures q in Paths(us) {
        var i :| 0 <= i < |us[1..]| && us[1..][i].path == q;
        assert us[i + 1].path == q;
      }
    }
  }

  /** Two merges that fit together, made at different times, give the same configuration in either order. */
  lemma ObjectMergesCommute(m: Config, p: Path, a: Obj, s: int, q: Path, b: Obj, t: int, printf: E.Printf)
    requires s != t
    requires forall i | 0 <= i < |Items(p, a, printf)| :: Items(p, a, printf)[i].text.Some?
    requires forall i | 0 <= i < |Items(q, b, printf)| :: Items(q, b, printf)[i].text.Some?
    requires Compatible(m, Updates(Items(p, a, printf), s) + Updates(Items(q, b, printf), t))
    ensures var x, y := Items(p, a, printf), Items(q, b, printf);
            var ab := Apply(Apply(m, x, s).config, y, t);
            ab == Apply(Apply(m, y, t).config, x, s) && ab.status == Ok
  {
    hide Items, Apply;
    var x, y := Items(p, a, printf), Items(q, b, printf);
    var us, vs := Updates(x, s), Updates(y, t);
    BothOrders(m, us, vs);
    CompatibleSwaps(m, us, vs);
    BothOrders(m, vs, us);
    MergeIsRun(m, x, s);
    MergeIsRun(m, y, t);
    MergeIsRun(Run(m, us), y, t);
    MergeIsRun(Run(m, vs), x, s);
    MergesCommute(m, us, vs);
  }

  lemma {:induction false} RunConcat(m: Config, a: seq<Update>, b: seq<Update>)
    ensures Run(m, a + b) == Run(Run(m, a), b)
    decreases |b|
  {
    if b == [] {
      assert a + b == a;
    } else {
      assert (a + b)[..|a + b| - 1] == a + b[..|b| - 1];
      RunConcat(m, a, b[..|b| - 1]);
    }
  }

  lemma PathsOfBoth(us: seq<Update>, vs: seq<Update>)
    ensures Paths(us + vs) == Paths(us) + Paths(vs)
  {
    var all := us + vs;
    forall q | q in Paths(us) ensures q in Paths(all) {
      var i :| 0 <= i < |us| && us[i].path == q;
      assert all[i].path == q;
    }
    forall q | q in Paths(vs) ensures q in Paths(all) {
      var i :| 0 <= i < |vs| && vs[i].path == q;
      assert all[|us| + i].path == q;
    }
    forall q | q in Paths(all) ensures q in Paths(us) + Paths(vs) {
      var i :| 0 <= i < |all| && all[i].path == q;
      if i < |us| { assert us[i].path == q; } else { assert vs[i - |us|].path == q; }
    }
  }

  lemma BothOrders(m: Config, us: seq<Update>, vs: seq<Update>)
    requires Compatible(m, us + vs)
    ensures Compatible(m, us) && Compatible(Run(m, us), vs) && Run(m, us + vs) == Run(Run(m, us), vs)
  {
    hide Paths, Run;
    RunConcat(m, us, vs);
    PathsOfBoth(us, vs);
    CompatibleRun(m, us, []);
  }
}
