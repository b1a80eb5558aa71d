/** The configuration store (`ggconfigd/src/db_interface.c`): writes inside a transaction, notification of the
    keys on the path, and reading a key with everything below it. */
module ConfigStore {
  import opened Buffer
  import opened ConfigMap
  import opened ConfigTables

  type Handle = nat

  datatype Status = Ok | Failure | NoEntry | NoMemory

  /** A subscription to a key. */
  datatype Subscription = Subscription(key: Id, handle: Handle)

  datatype Notice = Notice(handle: Handle, changed: Path)

  // ---- Searching ----

  method FindRoot(t: Tables, name: Name, ghost paths: map<Id, Path>) returns (r: Option<Id>)
    requires Forest(t, paths)
    ensures r.Some? ==> r.value in t.keys && paths[r.value] == [name]
    ensures r.None? ==> !Exists(paths, [name])
  {
    hide Forest;
    SameKeys(t, paths);
    forall k | k in t.keys ensures paths[k] == [name] <==> k !in t.parent && t.keys[k] == name {
      RootPath(t, paths, name, k);
    }
    if k :| k in t.keys && k !in t.parent && t.keys[k] == name { return Some(k); }
    return None;
  }

  method FindChild(t: Tables, p: Id, name: Name, ghost paths: map<Id, Path>) returns (r: Option<Id>)
    requires Forest(t, paths) && p in t.keys
    ensures r.Some? ==> r.value in t.keys && paths[r.value] == paths[p] + [name] && HasChild(t, p)
    ensures r.None? ==> !Exists(paths, paths[p] + [name])
  {
    hide Forest;
    SameKeys(t, paths);
    forall k | k in t.keys
      ensures paths[k] == paths[p] + [name] <==> k in t.parent && t.parent[k] == p && t.keys[k] == name
    {
      ChildPath(t, paths, p, name, k);
    }
    if k :| k in t.keys && k in t.parent && t.parent[k] == p && t.keys[k] == name { return Some(k); }
    return None;
  }

  /** The ids of the keys on a path, from the root down. */
  ghost predicate OnPath(paths: map<Id, Path>, path: Path, ids: seq<Id>) {
    |ids| <= |path| && forall i | 0 <= i < |ids| :: ids[i] in paths && paths[ids[i]] == path[..i + 1]
  }

  lemma SplitLast(path: Path, n: nat)
    requires n < |path|
    ensures path[..n + 1] == path[..n] + [path[n]]
  {
  }

  method GetKeyIds(t: Tables, path: Path, ghost paths: map<Id, Path>) returns (found: bool, ids: seq<Id>)
    requires Forest(t, paths) && path != []
    ensures found <==> Exists(paths, path)
    ensures found ==> |ids| == |path| && OnPath(paths, path, ids)
  {
    hide Forest;
    SameKeys(t, paths);
    ids := [];
    while |ids| < |path|
      invariant |ids| <= |path| && OnPath(paths, path, ids)
    {
      var n := |ids|;
      SplitLast(path, n);
      var r;
      if n == 0 {
        assert path[..1] == [path[0]];
        r := FindRoot(t, path[0], paths);
      } else {
        r := FindChild(t, ids[n - 1], path[n], paths);
      }
      if r.None? {
        NoPrefixNoPath(t, paths, path, n + 1);
        return false, ids;
      }
      ids := ids + [r.value];
    }
    var last := ids[|ids| - 1];
    assert last in paths && paths[last] == path[..|path|] == path;
    return true, ids;
  }

  lemma SameKeys(t: Tables, paths: map<Id, Path>)
    requires Forest(t, paths)
    ensures paths.Keys == t.keys.Keys && t.values.Keys <= paths.Keys
  {
  }

  lemma NoPrefixNoPath(t: Tables, paths: map<Id, Path>, path: Path, n: nat)
    requires Forest(t, paths) && 0 < n <= |path| && !Exists(paths, path[..n])
    ensures !Exists(paths, path)
  {
    hide Forest;
    SameKeys(t, paths);
    if Exists(paths, path) {
      var k :| k in paths && paths[k] == path;
      var j := PrefixExists(t, paths, k, n);
      assert false;
    }
  }

  // ---- Notices ----

  /** The notices for the subscribers of one key. */
  function NoticesFor(subs: seq<Subscription>, k: Id, path: Path): seq<Notice> {
    if subs == [] then []
    else NoticesFor(subs[..|subs| - 1], k, path) +
         if subs[|subs| - 1].key == k then [Notice(subs[|subs| - 1].handle, path)] else []
  }

  function NoticesOn(subs: seq<Subscription>, ids: seq<Id>, path: Path): seq<Notice> {
    if ids == [] then [] else NoticesOn(subs, ids[..|ids| - 1], path) + NoticesFor(subs, ids[|ids| - 1], path)
  }

  /** One notice for each subscription to a key on the path. */
  ghost function Interested(subs: seq<Subscription>, paths: map<Id, Path>, path: Path): multiset<Notice> {
    if subs == [] then multiset{}
    else
      var s := subs[|subs| - 1];
      Interested(subs[..|subs| - 1], paths, path) +
      if s.key in paths && paths[s.key] <= path then multiset{Notice(s.handle, path)} else multiset{}
  }

  /** The notices of the keys in a set, one for each subscription. */
  ghost function NoticesIn(subs: seq<Subscription>, ks: set<Id>, path: Path): multiset<Notice> {
    if subs == [] then multiset{}
    else
      var s := subs[|subs| - 1];
      NoticesIn(subs[..|subs| - 1], ks, path) + if s.key in ks then multiset{Notice(s.handle, path)} else multiset{}
  }

  lemma {:induction false} NoticesInAdds(subs: seq<Subscription>, ks: set<Id>, k: Id, path: Path)
    requires k !in ks
    ensures NoticesIn(subs, ks + {k}, path) == NoticesIn(subs, ks, path) + multiset(NoticesFor(subs, k, path))
    decreases |subs|
  {
    if subs != [] { NoticesInAdds(subs[..|subs| - 1], ks, k, path); }
  }

  lemma {:induction false} NoneToNobody(subs: seq<Subscription>, path: Path)
    ensures NoticesIn(subs, {}, path) == multiset{}
    decreases |subs|
  {
    if subs != [] { NoneToNobody(subs[..|subs| - 1], path); }
  }

  lemma {:induction false} NoticesOnIsIn(subs: seq<Subscription>, ids: seq<Id>, path: Path)
    requires forall i, j | 0 <= i < j < |ids| :: ids[i] != ids[j]
    ensures multiset(NoticesOn(subs, ids, path)) == NoticesIn(subs, (set k | k in ids), path)
    decreases |ids|
  {
    hide NoticesIn, NoticesFor;
    if ids == [] {
      NoneToNobody(subs, path);
      assert (set k | k in ids) == {};
    } else {
      var n := |ids| - 1;
      NoticesOnIsIn(subs, ids[..n], path);
      var ks := set k | k in ids[..n];
      assert ids == ids[..n] + [ids[n]];
      assert (set k | k in ids) == ks + {ids[n]};
      NoticesInAdds(subs, ks, ids[n], path);
    }
  }

  lemma {:induction false} InterestedIsIn(subs: seq<Subscription>, paths: map<Id, Path>, ks: set<Id>, path: Path)
    requires forall s | s in subs :: s.key in ks <==> s.key in paths && paths[s.key] <= path
    ensures Interested(subs, paths, path) == NoticesIn(subs, ks, path)
    decreases |subs|
  {
    if subs != [] {
      assert subs[|subs| - 1] in subs;
      InterestedIsIn(subs[..|subs| - 1], paths, ks, path);
    }
  }

  /** Telling the keys on a path tells exactly the subscribers of the keys on it, once per subscription. */
  lemma NoticesAreExact(t: Tables, paths: map<Id, Path>, subs: seq<Subscription>, ids: seq<Id>, path: Path)
    requires Forest(t, paths) && OnPath(paths, path, ids) && |ids| == |path|
    ensures multiset(NoticesOn(subs, ids, path)) == Interested(subs, paths, path)
  {
    hide Forest, NoticesOn, Interested, NoticesIn;
    forall i, j | 0 <= i < j < |ids| ensures ids[i] != ids[j] {
      assert |paths[ids[i]]| == i + 1 && |paths[ids[j]]| == j + 1;
    }
    NoticesOnIsIn(subs, ids, path);
    var ks := set k | k in ids;
    forall s | s in subs
      ensures s.key in ks <==> s.key in paths && paths[s.key] <= path
    {
      if s.key in paths && paths[s.key] <= path {
        var n := |paths[s.key]|;
        NoEmptyPath(t, paths, s.key);
        assert paths[ids[n - 1]] == path[..n] == paths[s.key];
        OnePerPath(t, paths, ids[n - 1], s.key);
      }
    }
    InterestedIsIn(subs, paths, ks, path);
  }

  lemma NoEmptyPath(t: Tables, paths: map<Id, Path>, k: Id)
    requires Forest(t, paths) && k in paths
    ensures paths[k] != []
  {
    assert Reached(t, paths, k);
  }

  lemma OnePerPath(t: Tables, paths: map<Id, Path>, j: Id, k: Id)
    requires Forest(t, paths) && j in paths && k in paths && paths[j] == paths[k]
    ensures j == k
  {
  }

  // ---- Reading ----

  /** What is read: a value, a map, or nothing where memory ran out below a map. */
  datatype Value = Text(s: bytes) | Map(pairs: seq<Pair>) | Missing

  datatype Pair = Pair(name: Name, val: Value)

  /** The value found by following names. */
  function Lookup(v: Value, q: Path): Option<bytes>
    decreases v
  {
    match v
    case Text(s) => if q == [] then Some(s) else None
    case Map(pairs) => if q == [] then None else LookupIn(pairs, q)
    case Missing => None
  }

  function LookupIn(pairs: seq<Pair>, q: Path): Option<bytes>
    requires q != []
    decreases pairs
  {
    if pairs == [] then None
    else if pairs[0].name == q[0] then Lookup(pairs[0].val, q[1..])
    else LookupIn(pairs[1..], q)
  }

  /** The value shows exactly the part of the configuration at and below a path. */
  ghost predicate Depicts(m: Config, p: Path, v: Value)
    decreases v
  {
    match v
    case Text(s) => p in m && m[p].value == s
    case Map(pairs) =>
      && DistinctNames(pairs) && PairsDepict(m, p, pairs)
      && p !in m && (forall q | q in m && p < q :: q[|p|] in Names(pairs))
    case Missing => false
  }

  ghost predicate PairsDepict(m: Config, p: Path, pairs: seq<Pair>)
    decreases pairs
  {
    pairs != [] ==> Depicts(m, p + [pairs[0].name], pairs[0].val) && PairsDepict(m, p, pairs[1..])
  }

  /** What an incomplete read may give: each value is right or missing, and no name is missing. */
  ghost predicate Partly(m: Config, p: Path, v: Value)
    decreases v
  {
    match v
    case Text(b) => p in m && m[p].value == b
    case Map(pairs) =>
      && DistinctNames(pairs) && PairsPartly(m, p, pairs)
      && p !in m && (forall q | q in m && p < q :: q[|p|] in Names(pairs))
    case Missing => true
  }

  ghost predicate PairsPartly(m: Config, p: Path, pairs: seq<Pair>)
    decreases pairs
  {
    pairs != [] ==> Partly(m, p + [pairs[0].name], pairs[0].val) && PairsPartly(m, p, pairs[1..])
  }

  ghost function Names(pairs: seq<Pair>): set<Name> { set i | 0 <= i < |pairs| :: pairs[i].name }

  ghost predicate DistinctNames(pairs: seq<Pair>) {
    forall i, j | 0 <= i < j < |pairs| :: pairs[i].name != pairs[j].name
  }

  function ValueAt(m: Config, p: Path): Option<bytes> { if p in m then Some(m[p].value) else None }

  /** Looking something up in what was read is looking it up in the configuration. */
  lemma {:induction false} ReadsBack(m: Config, p: Path, v: Value, q: Path)
    requires PrefixFree(m.Keys) && Depicts(m, p, v)
    ensures Lookup(v, q) == ValueAt(m, p + q)
    decreases v
  {
    if q == [] {
      assert p + q == p;
    } else {
      assert p < p + q && (p + q)[|p|] == q[0];
      if v.Map? { ReadsBackIn(m, p, v.pairs, q); }
    }
  }

  lemma {:induction false} ReadsBackIn(m: Config, p: Path, pairs: seq<Pair>, q: Path)
    requires PrefixFree(m.Keys) && DistinctNames(pairs) && PairsDepict(m, p, pairs) && q != []
    requires p + q in m ==> q[0] in Names(pairs)
    ensures LookupIn(pairs, q) == ValueAt(m, p + q)
    decreases pairs
  {
    if pairs != [] {
      if pairs[0].name == q[0] {
        assert p + [q[0]] + q[1..] == p + q;
        ReadsBack(m, p + [q[0]], pairs[0].val, q[1..]);
      } else {
        var rest := pairs[1..];
        if p + q in m {
          var i :| 0 <= i < |pairs| && pairs[i].name == q[0];
          assert rest[i - 1].name == q[0];
        }
        ReadsBackIn(m, p, rest, q);
      }
    }
  }

  /** Nothing found in what was read, even incompletely, is wrong. */
  lemma {:induction false} PartlyReadsBack(m: Config, p: Path, v: Value, q: Path)
    requires PrefixFree(m.Keys) && Partly(m, p, v) && Lookup(v, q).Some?
    ensures Lookup(v, q) == ValueAt(m, p + q)
    decreases v
  {
    if q == [] {
      assert p + q == p;
    } else if v.Map? {
      PartlyReadsBackIn(m, p, v.pairs, q);
    }
  }

  lemma {:induction false} PartlyReadsBackIn(m: Config, p: Path, pairs: seq<Pair>, q: Path)
    requires PrefixFree(m.Keys) && PairsPartly(m, p, pairs) && q != [] && LookupIn(pairs, q).Some?
    ensures LookupIn(pairs, q) == ValueAt(m, p + q)
    decreases pairs
  {
    if pairs[0].name == q[0] {
      assert p + [q[0]] + q[1..] == p + q;
      PartlyReadsBack(m, p + [q[0]], pairs[0].val, q[1..]);
    } else {
      PartlyReadsBackIn(m, p, pairs[1..], q);
    }
  }

  lemma {:induction false} AppendPartly(m: Config, p: Path, pairs: seq<Pair>, e: Pair)
    ensures PairsPartly(m, p, pairs + [e]) <==> PairsPartly(m, p, pairs) && Partly(m, p + [e.name], e.val)
    decreases |pairs|
  {
    hide Partly;
    if pairs == [] {
      assert [e][1..] == [] && pairs + [e] == [e];
    } else {
      assert (pairs + [e])[1..] == pairs[1..] + [e];
      AppendPartly(m, p, pairs[1..], e);
    }
  }

  lemma {:induction false} AppendDepicts(m: Config, p: Path, pairs: seq<Pair>, e: Pair)
    ensures PairsDepict(m, p, pairs + [e]) <==> PairsDepict(m, p, pairs) && Depicts(m, p + [e.name], e.val)
    decreases |pairs|
  {
    hide Depicts;
    if pairs == [] {
      assert [e][1..] == [] && pairs + [e] == [e];
    } else {
      assert (pairs + [e])[1..] == pairs[1..] + [e];
      AppendDepicts(m, p, pairs[1..], e);
    }
  }

  /** The keys below a key. */
  ghost function Below(paths: map<Id, Path>, k: Id): set<Id>
    requires k in paths
  {
    set j | j in paths && paths[k] < paths[j]
  }

  function Children(t: Tables, k: Id): set<Id> { set c | c in t.parent.Keys && t.parent[c] == k }

  lemma ChildIsBelow(t: Tables, paths: map<Id, Path>, k: Id, c: Id)
    requires Forest(t, paths) && k in t.keys && c in Children(t, k)
    ensures c in t.keys && paths[c] == paths[k] + [t.keys[c]] && Below(paths, c) < Below(paths, k)
  {
    hide Injective, ValuesAreLeaves;
    assert Reached(t, paths, c);
    assert c in Below(paths, k) && c !in Below(paths, c);
    forall j | j in Below(paths, c) ensures j in Below(paths, k) { assert paths[k] < paths[j]; }
  }

  lemma ShownAt(t: Tables, paths: map<Id, Path>, m: Config, q: Path) returns (j: Id)
    requires Forest(t, paths) && Shows(t, paths, m) && q in m
    ensures j in t.keys && paths[j] == q
  {
    j :| j in t.values && paths[j] == q;
  }

  /** The children of a key carry exactly the names that continue the paths below it. */
  lemma ChildrenCover(t: Tables, paths: map<Id, Path>, m: Config, k: Id, q: Path) returns (c: Id)
    requires Forest(t, paths) && Shows(t, paths, m) && k in t.keys && q in m && paths[k] < q
    ensures c in Children(t, k) && c in t.keys && t.keys[c] == q[|paths[k]|]
  {
    hide Forest, Shows;
    SameKeys(t, paths);
    var j := ShownAt(t, paths, m, q);
    c := PrefixExists(t, paths, j, |paths[k]| + 1);
    assert paths[c] == paths[k] + [q[|paths[k]|]];
    ChildPath(t, paths, k, q[|paths[k]|], c);
  }

  lemma SiblingsDiffer(t: Tables, paths: map<Id, Path>, k: Id, c: Id, d: Id)
    requires Forest(t, paths) && k in t.keys && c in Children(t, k) && d in Children(t, k) && c != d
    ensures c in t.keys && d in t.keys && t.keys[c] != t.keys[d]
  {
    hide Below;
    ChildIsBelow(t, paths, k, c);
    ChildIsBelow(t, paths, k, d);
  }

  /** All allocations from `a` up to `b` succeed. */
  ghost predicate Granted(answers: nat -> bool, a: nat, b: nat) { forall i: nat | a <= i < b :: answers(i) }

  ghost function KeyNames(t: Tables, ks: set<Id>): set<Name>
    requires ks <= t.keys.Keys
  {
    set c | c in ks :: t.keys[c]
  }

  /** The children read so far. */
  ghost predicate ReadSoFar(t: Tables, k: Id, todo: set<Id>, pairs: seq<Pair>)
    requires Children(t, k) <= t.keys.Keys && todo <= Children(t, k)
  {
    && DistinctNames(pairs)
    && (forall c | c in todo :: t.keys[c] !in Names(pairs))
    && Names(pairs) == KeyNames(t, Children(t, k) - todo)
  }

  lemma OneMoreRead(t: Tables, paths: map<Id, Path>, k: Id, todo: set<Id>, pairs: seq<Pair>, c: Id, v: Value)
    requires Forest(t, paths) && k in t.keys && Children(t, k) <= t.keys.Keys && todo <= Children(t, k)
    requires ReadSoFar(t, k, todo, pairs) && c in todo
    ensures ReadSoFar(t, k, todo - {c}, pairs + [Pair(t.keys[c], v)])
  {
    hide Forest;
    var more := pairs + [Pair(t.keys[c], v)];
    assert Names(more) == Names(pairs) + {t.keys[c]} by {
      forall x | x in Names(pairs) ensures x in Names(more) {
        var i :| 0 <= i < |pairs| && pairs[i].name == x;
        assert more[i].name == x;
      }
      assert more[|pairs|].name == t.keys[c];
    }
    assert Children(t, k) - (todo - {c}) == Children(t, k) - todo + {c};
    forall d | d in todo - {c} ensures t.keys[d] !in Names(more) { SiblingsDiffer(t, paths, k, c, d); }
    forall i, j | 0 <= i < j < |more| ensures more[i].name != more[j].name {
      if j == |pairs| { assert pairs[i].name in Names(pairs); }
    }
  }

  /** The rows of a query come in no particular order. */
  method NextRow<T>(rows: set<T>) returns (row: T)
    requires rows != {}
    ensures row in rows
  {
    row :| row in rows;
  }

  /** How a read of `key` went: the allocations from number `first` up to `last` are its own, and `rows` are the
      reads of the children whose names were copied, in the order of the rows. */
  datatype ReadTrace = ReadTrace(key: Id, first: nat, last: nat, rows: seq<ReadTrace>)

  ghost function RowKeys(rows: seq<ReadTrace>): set<Id> { set i | 0 <= i < |rows| :: rows[i].key }

  /** The number of the next allocation after some rows of a read that begins with number `first`. */
  ghost function RowsEnd(first: nat, rows: seq<ReadTrace>): nat {
    if rows == [] then first + 1 else rows[|rows| - 1].last
  }

  /** Each row's name is copied into the allocation that follows the previous row, which succeeds, and the row is read
      from the one after that. */
  ghost predicate Rows(t: Tables, answers: nat -> bool, k: Id, first: nat, rows: seq<ReadTrace>)
    decreases rows, 1
  {
    rows != [] ==>
      var front, row := rows[..|rows| - 1], rows[|rows| - 1];
      && Rows(t, answers, k, first, front)
      && row.key in Children(t, k) && row.key !in RowKeys(front)
      && answers(RowsEnd(first, front)) && row.first == RowsEnd(first, front) + 1 && Traced(t, answers, row)
  }

  /** The read stops at its first own allocation that fails, that of the key or that of a child's name; a failure
      below a child does not stop it. */
  ghost predicate Traced(t: Tables, answers: nat -> bool, tr: ReadTrace)
    decreases tr
  {
    if !answers(tr.first) || tr.key in t.values then tr.rows == [] && tr.last == tr.first + 1
    else
      && Rows(t, answers, tr.key, tr.first, tr.rows)
      && var end := RowsEnd(tr.first, tr.rows);
         if RowKeys(tr.rows) == Children(t, tr.key) then tr.last == end else tr.last == end + 1 && !answers(end)
  }

  /** The allocation of the key itself succeeds, and those of the names of all its children. */
  ghost predicate OwnGranted(t: Tables, answers: nat -> bool, tr: ReadTrace) {
    answers(tr.first) && (tr.key in t.values || RowKeys(tr.rows) == Children(t, tr.key))
  }

  /** Reads a key with everything below it; `answers` are those of the allocator, from number `n` on. A failed
      read of a child is ignored. What is read is exact exactly when every allocation succeeds; but the read
      succeeds as soon as the key's own allocation and those of its children's names do. */
  method ReadKey(t: Tables, k: Id, answers: nat -> bool, n: nat, ghost paths: map<Id, Path>, ghost m: Config)
    returns (ok: bool, v: Value, n1: nat, ghost tr: ReadTrace)
    requires Forest(t, paths) && Shows(t, paths, m) && CompleteBut(t, None) && k in t.keys
    ensures n < n1 && tr.key == k && tr.first == n && tr.last == n1 && Traced(t, answers, tr)
    ensures ok <==> OwnGranted(t, answers, tr)
    ensures ok && Depicts(m, paths[k], v) <==> Granted(answers, n, n1)
    ensures !ok ==> v == Missing
    ensures ok ==> v != Missing && Partly(m, paths[k], v)
    ensures ok && k !in t.values ==> Children(t, k) <= t.keys.Keys && v.Map? && Names(v.pairs) == KeyNames(t, Children(t, k))
    decreases Below(paths, k)
  {
    hide Forest, Shows, CompleteBut, HasChild, Children, Below, PairsDepict, PairsPartly, ReadSoFar, Rows, RowKeys, RowsEnd,
         Accepts, Traced;
    SameKeys(t, paths);
    ExistingAccepts(t, paths, m, k);
    NoRows(t, answers, k, n);
    if !answers(n) { return false, Missing, n + 1, ReadTrace(k, n, n + 1, []); }
    if k in t.values {
      LeafValue(t, paths, m, k);
      return true, Text(t.values[k].value), n + 1, ReadTrace(k, n, n + 1, []);
    }
    n1 := n + 1;
    var todo: set<Id>, pairs: seq<Pair> := Children(t, k), [];
    ghost var rows: seq<ReadTrace> := [];
    NothingRead(t, paths, m, k);
    while todo != {}
      invariant n < n1 && todo <= Children(t, k) <= t.keys.Keys
      invariant ReadSoFar(t, k, todo, pairs)
      invariant PairsDepict(m, paths[k], pairs) <==> Granted(answers, n, n1)
      invariant PairsPartly(m, paths[k], pairs)
      invariant Rows(t, answers, k, n, rows) && RowKeys(rows) == Children(t, k) - todo && RowsEnd(n, rows) == n1
      decreases todo
    {
      var c := NextRow(todo);
      ChildIsBelow(t, paths, k, c);
      if !answers(n1) {
        NameDenied(t, answers, k, n, rows, c);
        return false, Missing, n1 + 1, ReadTrace(k, n, n1 + 1, rows);
      }
      var okc, vc, n2, row := ReadKey(t, c, answers, n1 + 1, paths, m);
      NextRowTraced(t, answers, k, n, rows, row);
      var p := Pair(t.keys[c], if okc then vc else Missing);
      AppendDepicts(m, paths[k], pairs, p);
      AppendPartly(m, paths[k], pairs, p);
      OneMoreRead(t, paths, k, todo, pairs, c, p.val);
      assert Granted(answers, n, n2) <==> Granted(answers, n, n1) && Granted(answers, n1 + 1, n2);
      assert Children(t, k) - (todo - {c}) == Children(t, k) - todo + {c};
      rows, pairs, todo, n1 := rows + [row], pairs + [p], todo - {c}, n2;
    }
    AllRead(t, paths, m, k, pairs);
    AllNamed(t, answers, k, n, rows);
    return true, Map(pairs), n1, ReadTrace(k, n, n1, rows);
  }

  lemma NoRows(t: Tables, answers: nat -> bool, k: Id, n: nat)
    ensures Rows(t, answers, k, n, []) && RowKeys([]) == {} && RowsEnd(n, []) == n + 1
    ensures !answers(n) || k in t.values ==> Traced(t, answers, ReadTrace(k, n, n + 1, []))
  {
  }

  lemma NameDenied(t: Tables, answers: nat -> bool, k: Id, n: nat, rows: seq<ReadTrace>, c: Id)
    requires answers(n) && k !in t.values && Rows(t, answers, k, n, rows) && c in Children(t, k) && c !in RowKeys(rows)
    requires !answers(RowsEnd(n, rows))
    ensures var tr := ReadTrace(k, n, RowsEnd(n, rows) + 1, rows); Traced(t, answers, tr) && !OwnGranted(t, answers, tr)
  {
    hide Rows, RowKeys, RowsEnd, Children;
  }

  lemma AllNamed(t: Tables, answers: nat -> bool, k: Id, n: nat, rows: seq<ReadTrace>)
    requires answers(n) && k !in t.values && Rows(t, answers, k, n, rows) && RowKeys(rows) == Children(t, k)
    ensures var tr := ReadTrace(k, n, RowsEnd(n, rows), rows); Traced(t, answers, tr) && OwnGranted(t, answers, tr)
  {
    hide Rows, RowKeys, RowsEnd, Children;
  }

  lemma NextRowTraced(t: Tables, answers: nat -> bool, k: Id, n: nat, rows: seq<ReadTrace>, row: ReadTrace)
    requires Rows(t, answers, k, n, rows) && row.key in Children(t, k) && row.key !in RowKeys(rows)
    requires row.first == RowsEnd(n, rows) + 1 && answers(row.first - 1) && Traced(t, answers, row)
    ensures Rows(t, answers, k, n, rows + [row]) && RowsEnd(n, rows + [row]) == row.last
    ensures RowKeys(rows + [row]) == RowKeys(rows) + {row.key}
  {
    hide Children, Traced, RowKeys;
    var more := rows + [row];
    MoreKeys(rows, row);
    assert more[..|rows|] == rows;
  }

  lemma MoreKeys(rows: seq<ReadTrace>, row: ReadTrace)
    ensures RowKeys(rows + [row]) == RowKeys(rows) + {row.key}
    ensures forall i | 0 <= i < |rows| :: rows[i].key in RowKeys(rows)
  {
    var more := rows + [row];
    forall x | x in RowKeys(rows) + {row.key} ensures x in RowKeys(more) {
      if x in RowKeys(rows) {
        var i :| 0 <= i < |rows| && rows[i].key == x;
        assert more[i].key == x;
      } else {
        assert more[|rows|].key == x;
      }
    }
  }

  lemma LeafValue(t: Tables, paths: map<Id, Path>, m: Config, k: Id)
    requires Forest(t, paths) && Shows(t, paths, m) && k in t.values
    ensures paths[k] in m && m[paths[k]] == t.values[k]
  {
  }

  lemma NothingRead(t: Tables, paths: map<Id, Path>, m: Config, k: Id)
    requires Forest(t, paths) && k in t.keys
    ensures Children(t, k) <= t.keys.Keys && ReadSoFar(t, k, Children(t, k), [])
    ensures PairsDepict(m, paths[k], []) && PairsPartly(m, paths[k], [])
  {
    hide Below;
    forall c | c in Children(t, k) ensures c in t.keys { ChildIsBelow(t, paths, k, c); }
  }

  lemma AllRead(t: Tables, paths: map<Id, Path>, m: Config, k: Id, pairs: seq<Pair>)
    requires Forest(t, paths) && Shows(t, paths, m) && k in t.keys && paths[k] !in m
    requires Children(t, k) <= t.keys.Keys && ReadSoFar(t, k, {}, pairs)
    ensures Depicts(m, paths[k], Map(pairs)) <==> PairsDepict(m, paths[k], pairs)
    ensures Partly(m, paths[k], Map(pairs)) <==> PairsPartly(m, paths[k], pairs)
    ensures Names(pairs) == KeyNames(t, Children(t, k))
  {
    hide Forest, Shows;
    SameKeys(t, paths);
    forall q | q in m && paths[k] < q
      ensures q[|paths[k]|] in Names(pairs)
    {
      var c := ChildrenCover(t, paths, m, k, q);
      assert c in Children(t, k) - {};
    }
  }

  /** A key 1 named "a" with the one child 2 named "b", which has a value. */
  ghost predicate OneLeaf(t: Tables, paths: map<Id, Path>, m: Config, leaf: Leaf) {
    && t == Tables(map[1 := [97], 2 := [98]], map[2 := 1], map[2 := leaf], 3)
    && paths == map[1 := [[97]], 2 := [[97], [98]]] && m == map[[[97], [98]] := leaf]
  }

  lemma OneLeafIsForest(t: Tables, paths: map<Id, Path>, m: Config, leaf: Leaf)
    requires OneLeaf(t, paths, m, leaf)
    ensures Forest(t, paths) && Shows(t, paths, m) && CompleteBut(t, None) && Children(t, 1) == {2}
  {
    assert t.parent[2] == 1;
    assert HasChild(t, 1) && !HasChild(t, 2);
    assert paths[2] == paths[1] + [t.keys[2]];
  }

  lemma NameOf(pairs: seq<Pair>, x: Name, i: nat)
    requires Names(pairs) == {x} && i < |pairs|
    ensures pairs[i].name == x
  {
    assert pairs[i].name in Names(pairs);
  }

  lemma OneName(pairs: seq<Pair>, x: Name)
    requires Names(pairs) == {x} && DistinctNames(pairs)
    ensures |pairs| == 1 && pairs[0].name == x
  {
    assert x in Names(pairs);
    NameOf(pairs, x, 0);
    if |pairs| > 1 { NameOf(pairs, x, 1); }
  }

  lemma OneLost(m: Config, leaf: Leaf, v: Value)
    requires m == map[[[97], [98]] := leaf] && v.Map? && Names(v.pairs) == {[98]}
    requires Partly(m, [[97]], v) && !Depicts(m, [[97]], v)
    ensures v == Map([Pair([98], Missing)])
  {
    var pairs := v.pairs;
    OneName(pairs, [98]);
    assert pairs == [pairs[0]] && pairs[1..] == [];
    assert [[97]] + [[98]] == [[97], [98]];
    assert Partly(m, [[97], [98]], pairs[0].val);
    if pairs[0].val.Text? {
      assert Depicts(m, [[97], [98]], pairs[0].val);
      assert PairsDepict(m, [[97]], pairs);
    }
  }

  /** With only allocation 2 failing, the name of the one child is copied and its value is not. */
  lemma OneDenied(t: Tables, answers: nat -> bool, tr: ReadTrace)
    requires Traced(t, answers, tr) && tr.first == 0 && tr.key !in t.values && Children(t, tr.key) == {2}
    requires forall i: nat :: answers(i) <==> i != 2
    ensures OwnGranted(t, answers, tr) && tr.last == 3
  {
    var rows := tr.rows;
    assert answers(0) && answers(1);
    assert RowKeys([]) == {};
    OneRow(t, answers, tr.key, rows);
    assert rows[..0] == [];
    assert rows[0].key in RowKeys(rows);
    assert RowKeys(rows) == {2};
    assert Traced(t, answers, rows[0]);
  }

  lemma OneRow(t: Tables, answers: nat -> bool, k: Id, rows: seq<ReadTrace>)
    requires Rows(t, answers, k, 0, rows) && Children(t, k) == {2}
    ensures |rows| <= 1
  {
    hide Traced, RowsEnd;
    if |rows| > 1 {
      KeyListed(rows[..|rows| - 1]);
    }
  }

  lemma KeyListed(rows: seq<ReadTrace>)
    requires rows != []
    ensures rows[|rows| - 1].key in RowKeys(rows)
  {
  }

  /** If the third allocation fails, the value itself, reading "a" succeeds and "a/b" is missing. */
  method ReadLosesValue(leaf: Leaf) returns (ok: bool, v: Value, t: Tables, ghost paths: map<Id, Path>, ghost m: Config)
    ensures OneLeaf(t, paths, m, leaf) && 1 in paths
    ensures ok && v == Map([Pair([98], Missing)]) && !Depicts(m, paths[1], v)
    ensures Lookup(v, [[98]]) == None && ValueAt(m, [[97], [98]]) == Some(leaf.value)
  {
    t := Tables(map[1 := [97], 2 := [98]], map[2 := 1], map[2 := leaf], 3);
    paths, m := map[1 := [[97]], 2 := [[97], [98]]], map[[[97], [98]] := leaf];
    OneLeafIsForest(t, paths, m, leaf);
    hide Forest, Shows, CompleteBut, Depicts, Partly, Names, Children, Traced;
    var n1;
    ghost var tr;
    var answers: nat -> bool := i => i != 2;
    ok, v, n1, tr := ReadKey(t, 1, answers, 0, paths, m);
    OneDenied(t, answers, tr);
    assert Names(v.pairs) == {[98]};
    assert !answers(2) && !Granted(answers, 0, n1);
    OneLost(m, leaf, v);
  }

  // ---- Creating a path ----

  /** The tables while the first `|ids|` keys of a path have been found or created. */
  ghost predicate Extended(t0: Tables, paths0: map<Id, Path>, t: Tables, paths: map<Id, Path>, m: Config, path: Path,
                           ids: seq<Id>) {
    && Forest(t, paths) && Shows(t, paths, m) && t.values == t0.values && t0.values.Keys <= paths0.Keys
    && OnPath(paths, path, ids)
    && (forall k | k in paths0 :: k in paths && paths[k] == paths0[k])
    && (forall k | k in paths && |paths[k]| > |ids| :: k in paths0)
    && CompleteBut(t, if ids == [] then None else Some(ids[|ids| - 1]))
    && (forall k | k in t.values && paths[k] < path :: |paths[k]| > |ids|)
  }

  lemma AtStart(t: Tables, paths: map<Id, Path>, m: Config, path: Path)
    requires Forest(t, paths) && Shows(t, paths, m) && CompleteBut(t, None)
    ensures Extended(t, paths, t, paths, m, path, [])
  {
    hide HasChild, Shows;
    forall k | k in paths ensures paths[k] != [] { NoEmptyPath(t, paths, k); }
  }

  /** The next key exists: go down to it. */
  lemma Descend(t0: Tables, paths0: map<Id, Path>, t: Tables, paths: map<Id, Path>, m: Config, path: Path,
                ids: seq<Id>, r: Id)
    requires Extended(t0, paths0, t, paths, m, path, ids) && |ids| < |path|
    requires r in t.keys && r in paths && paths[r] == path[..|ids| + 1] && r !in t.values
    requires ids != [] ==> HasChild(t, ids[|ids| - 1])
    ensures Extended(t0, paths0, t, paths, m, path, ids + [r])
  {
    hide HasChild, Shows, Forest;
    SameKeys(t, paths);
    forall k | k in t.values && paths[k] < path ensures |paths[k]| > |ids| + 1 {
      if |paths[k]| == |ids| + 1 {
        assert paths[k] == path[..|ids| + 1];
        OnePerPath(t, paths, k, r);
      }
    }
  }

  /** The next key has been created. */
  lemma Grown(t0: Tables, paths0: map<Id, Path>, t: Tables, paths: map<Id, Path>, m: Config, path: Path,
              ids: seq<Id>, t1: Tables, paths1: map<Id, Path>, r: Id)
    requires Extended(t0, paths0, t, paths, m, path, ids) && |ids| < |path|
    requires r !in paths && paths1 == paths[r := path[..|ids| + 1]] && t1.values == t.values
    requires Forest(t1, paths1) && Shows(t1, paths1, m) && CompleteBut(t1, Some(r))
    requires !Exists(paths, path[..|ids| + 1])
    ensures Extended(t0, paths0, t1, paths1, m, path, ids + [r])
  {
    hide HasChild, Shows, Forest;
    SameKeys(t, paths);
    forall k | k in t1.values && paths1[k] < path ensures |paths1[k]| > |ids| + 1 {
      assert k in paths && paths1[k] == paths[k];
      assert paths[k] != path[..|ids| + 1];
    }
  }

  /** The tables as they are when the whole path is there. */
  lemma Finished(t0: Tables, paths0: map<Id, Path>, t: Tables, paths: map<Id, Path>, m: Config, path: Path, ids: seq<Id>)
    requires Extended(t0, paths0, t, paths, m, path, ids) && |ids| == |path|
    ensures forall k | k in t0.values :: !(paths0[k] < path)
  {
  }

  // ---- The store ----

  class Store {
    var t: Tables
    var subs: seq<Subscription>
    ghost var paths: map<Id, Path>
    ghost var config: Config
    ghost var sent: seq<Notice>

    ghost predicate Valid()
      reads this
    {
      Forest(t, paths) && Shows(t, paths, config) && CompleteBut(t, None)
    }

    constructor ()
      ensures Valid() && config == map[] && subs == [] && sent == []
    {
      t := Tables(map[], map[], map[], 1);
      subs, sent := [], [];
      paths, config := map[], map[];
    }

    /** Finds the next key of a path, or creates it. */
    method NextKey(path: Path, ids: seq<Id>, ghost t0: Tables, ghost paths0: map<Id, Path>) returns (r: Id, isNew: bool)
      requires Extended(t0, paths0, t, paths, config, path, ids) && |ids| < |path| && !Exists(paths0, path)
      requires ids != [] ==> ids[|ids| - 1] !in t.values
      modifies this`t, this`paths
      ensures !isNew ==> t == old(t) && paths == old(paths) && |ids| + 1 < |path|
      ensures !isNew ==> r in t.keys && r in paths && paths[r] == path[..|ids| + 1]
      ensures !isNew && ids != [] ==> HasChild(t, ids[|ids| - 1])
      ensures isNew ==> Extended(t0, paths0, t, paths, config, path, ids + [r])
      ensures isNew ==> !HasChild(t, r) && r !in t.values
    {
      hide Forest, Shows, CompleteBut, HasChild;
      var n := |ids|;
      SameKeys(t, paths);
      SplitLast(path, n);
      assert n + 1 == |path| ==> path[..n + 1] == path;
      var found;
      if n == 0 {
        assert path[..1] == [path[0]];
        found := FindRoot(t, path[0], paths);
      } else {
        found := FindChild(t, ids[n - 1], path[n], paths);
      }
      if found.Some? {
        StillMissing(paths0, paths, path, n);
        return found.value, false;
      }
      ghost var t1, paths1 := t, paths;
      NextIsNew(t, paths);
      r, isNew := t.next, true;
      if n == 0 {
        AddRootKeeps(t, paths, config, path[0]);
        t := AddRoot(t, path[0]);
      } else {
        AddChildKeeps(t, paths, config, path[n], ids[n - 1]);
        t := AddChild(t, path[n], ids[n - 1]);
      }
      paths := paths[r := path[..n + 1]];
      Grown(t0, paths0, t1, paths1, config, path, ids, t, paths, r);
    }

    /** Creates the missing keys of a path. Refused when a key on the way has a value. */
    method CreateKeyPath(path: Path) returns (ok: bool, ids: seq<Id>)
      requires Valid() && path != [] && !Exists(paths, path)
      modifies this`t, this`paths
      ensures ok <==> forall k | k in old(t).values :: !(old(paths)[k] < path)
      ensures ok ==> |ids| == |path| && Extended(old(t), old(paths), t, paths, config, path, ids)
      ensures ok ==> !HasChild(t, ids[|ids| - 1]) && ids[|ids| - 1] !in t.values
    {
      ghost var t0, paths0 := t, paths;
      ids := [];
      AtStart(t, paths, config, path);
      while |ids| < |path|
        invariant |ids| <= |path| && Extended(t0, paths0, t, paths, config, path, ids)
        invariant ids != [] ==> ids[|ids| - 1] !in t.values
        invariant |ids| == |path| ==> !HasChild(t, ids[|ids| - 1])
      {
        hide Extended, Forest, Shows, CompleteBut, HasChild, Exists;
        var r, isNew := NextKey(path, ids, t0, paths0);
        if !isNew {
          if r in t.values {
            InTheWay(t0, paths0, t, paths, config, path, ids, r);
            return false, ids;
          }
          Descend(t0, paths0, t, paths, config, path, ids, r);
        }
        ids := ids + [r];
      }
      Finished(t0, paths0, t, paths, config, path, ids);
      return true, ids;
    }

    /** Tells the subscribers of the keys on the path, from the root down. */
    method NotifyNestedKey(path: Path, ids: seq<Id>)
      modifies this`sent
      ensures sent == old(sent) + NoticesOn(subs, ids, path)
    {
      var i := 0;
      assert ids[..0] == [];
      while i < |ids|
        invariant 0 <= i <= |ids|
        invariant sent == old(sent) + NoticesOn(subs, ids[..i], path)
      {
        var j := 0;
        ghost var before := sent;
        assert subs[..0] == [];
        while j < |subs|
          invariant 0 <= j <= |subs|
          invariant sent == before + NoticesFor(subs[..j], ids[i], path)
        {
          assert subs[..j + 1][..j] == subs[..j];
          if subs[j].key == ids[i] { sent := sent + [Notice(subs[j].handle, path)]; }
          j := j + 1;
        }
        assert subs[..j] == subs;
        assert ids[..i + 1][..i] == ids[..i];
        i := i + 1;
      }
      assert ids[..i] == ids;
    }

    /** Writes a value at a path, inside a transaction that is rolled back when the write is refused. */
    method WriteValue(path: Path, value: bytes, timestamp: int) returns (status: Status)
      requires Valid() && path != []
      modifies this
      ensures Valid() && subs == old(subs)
      ensures status == if Accepts(old(config), path) then Ok else Failure
      ensures config == Written(old(config), Update(path, Leaf(value, timestamp)))
      ensures !Applies(old(config), Update(path, Leaf(value, timestamp))) ==>
                t == old(t) && paths == old(paths) && sent == old(sent)
      ensures Applies(old(config), Update(path, Leaf(value, timestamp))) ==>
                && old(sent) <= sent
                && multiset(sent[|old(sent)|..]) == Interested(subs, paths, path)
    {
      hide Forest, Shows, CompleteBut, HasChild, Exists, Extended, Blocked, Interested, NoticesOn;
      var saved := t;
      ghost var savedPaths := paths;
      var found, ids := GetKeyIds(t, path, paths);
      if !found {
        MissingAccepts(t, paths, config, path);
        var created;
        created, ids := CreateKeyPath(path);
        if !created {
          t := saved;
          paths := savedPaths;
          return Failure;
        }
        Insert(saved, savedPaths, path, ids, Leaf(value, timestamp));
        return Ok;
      }
      var last := ids[|ids| - 1];
      assert path[..|path|] == path;
      SameKeys(t, paths);
      ExistingAccepts(t, paths, config, last);
      var hasChild := HasChild(t, last);
      if hasChild { return Failure; }
      LeafValue(t, paths, config, last);
      if t.values[last].timestamp > timestamp { return Ok; }
      CompleteAnyway(t, last);
      Replace(path, ids, Leaf(value, timestamp));
      return Ok;
    }

    /** Stores the value at a path just created and tells the subscribers. */
    method Insert(ghost t0: Tables, ghost paths0: map<Id, Path>, path: Path, ids: seq<Id>, leaf: Leaf)
      requires path != [] && |ids| == |path| && Extended(t0, paths0, t, paths, config, path, ids)
      requires !HasChild(t, ids[|ids| - 1])
      modifies this
      ensures Valid() && subs == old(subs) && paths == old(paths) && config == old(config)[path := leaf]
      ensures old(sent) <= sent && multiset(sent[|old(sent)|..]) == Interested(subs, paths, path)
    {
      hide Forest, Shows, CompleteBut, HasChild, Interested, NoticesOn;
      Replace(path, ids, leaf);
    }

    method Replace(path: Path, ids: seq<Id>, leaf: Leaf)
      requires path != [] && |ids| == |path| && Forest(t, paths) && Shows(t, paths, config) && OnPath(paths, path, ids)
      requires !HasChild(t, ids[|ids| - 1]) && CompleteBut(t, Some(ids[|ids| - 1]))
      modifies this
      ensures Valid() && subs == old(subs) && paths == old(paths) && config == old(config)[path := leaf]
      ensures old(sent) <= sent && multiset(sent[|old(sent)|..]) == Interested(subs, paths, path)
    {
      hide Forest, Shows, CompleteBut, HasChild, Interested, NoticesOn;
      var last := ids[|ids| - 1];
      assert path[..|path|] == path;
      SameKeys(t, paths);
      SetValueKeeps(t, paths, config, last, leaf);
      t := SetValue(t, last, leaf);
      config := config[path := leaf];
      NotifyNestedKey(path, ids);
      NoticesAreExact(t, paths, subs, ids, path);
      assert sent[|old(sent)|..] == NoticesOn(subs, ids, path);
    }

    /** Subscribes a handle to an existing key. */
    method Subscribe(path: Path, handle: Handle) returns (status: Status)
      requires Valid() && path != []
      modifies this`subs
      ensures Valid()
      ensures status == NoEntry <==> forall q | q in config :: !(path <= q)
      ensures status == Ok || status == NoEntry
      ensures status != Ok ==> subs == old(subs)
      ensures status == Ok ==> exists k :: k in paths && paths[k] == path && subs == old(subs) + [Subscription(k, handle)]
    {
      hide Forest, Shows, CompleteBut;
      KeyExists(t, paths, config, path);
      var found, ids := GetKeyIds(t, path, paths);
      if !found { return NoEntry; }
      var last := ids[|ids| - 1];
      assert path[..|path|] == path;
      assert last in paths && paths[last] == path;
      subs := subs + [Subscription(last, handle)];
      return Ok;
    }

    /** Reads what is at and below a path. */
    method GetValue(path: Path, answers: nat -> bool)
      returns (status: Status, v: Value, used: nat, ghost tr: ReadTrace)
      requires Valid() && path != []
      ensures status == NoEntry <==> forall q | q in config :: !(path <= q)
      ensures status != NoEntry ==> (status == Ok && Depicts(config, path, v) <==> Granted(answers, 0, used))
      ensures status != NoEntry ==>
                && tr.key in t.keys && tr.key in paths && paths[tr.key] == path
                && tr.first == 0 && tr.last == used && Traced(t, answers, tr)
                && (status == Ok <==> OwnGranted(t, answers, tr))
                && (status != Ok ==> status == NoMemory && v == Missing)
      ensures status == Ok ==> v != Missing && Partly(config, path, v)
    {
      hide Forest, Shows, CompleteBut, Depicts, Partly, Exists, Traced, OwnGranted;
      KeyExists(t, paths, config, path);
      var found, ids := GetKeyIds(t, path, paths);
      if !found { return NoEntry, Missing, 0, ReadTrace(0, 0, 0, []); }
      var last := ids[|ids| - 1];
      assert path[..|path|] == path;
      SameKeys(t, paths);
      var ok;
      ok, v, used, tr := ReadKey(t, last, answers, 0, paths, config);
      status := if ok then Ok else NoMemory;
    }
  }

  /** A key exists exactly when there is a value at or below its path. */
  lemma KeyExists(t: Tables, paths: map<Id, Path>, m: Config, p: Path)
    requires Forest(t, paths) && Shows(t, paths, m) && CompleteBut(t, None) && p != []
    ensures Exists(paths, p) <==> exists q :: q in m && p <= q
  {
    hide Forest, Shows, CompleteBut;
    SameKeys(t, paths);
    if Exists(paths, p) {
      var k :| k in paths && paths[k] == p;
      var q := SomeValueBelow(t, paths, m, k, set j | j in paths && !(paths[k] <= paths[j]));
      assert q in m && p <= q;
    }
    if exists q :: q in m && p <= q {
      var q :| q in m && p <= q;
      var j := ShownAt(t, paths, m, q);
      var k := PrefixExists(t, paths, j, |p|);
      assert paths[k] == p;
    }
  }

  lemma CompleteAnyway(t: Tables, k: Id)
    requires CompleteBut(t, None)
    ensures CompleteBut(t, Some(k))
  {
  }

  lemma StillMissing(paths0: map<Id, Path>, paths: map<Id, Path>, path: Path, n: nat)
    requires !Exists(paths0, path) && n < |path|
    requires forall k | k in paths0 :: k in paths && paths[k] == paths0[k]
    requires forall k | k in paths && |paths[k]| > n :: k in paths0
    ensures !Exists(paths, path)
  {
  }

  /** A key on the way that has a value had it from the start. */
  lemma InTheWay(t0: Tables, paths0: map<Id, Path>, t: Tables, paths: map<Id, Path>, m: Config, path: Path,
                 ids: seq<Id>, r: Id)
    requires Extended(t0, paths0, t, paths, m, path, ids) && |ids| + 1 < |path|
    requires r in t.values && r in paths && paths[r] == path[..|ids| + 1]
    ensures r in t0.values && r in paths0 && paths0[r] < path
  {
  }
}
