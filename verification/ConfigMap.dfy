/** The configuration as a map from key paths to values with timestamps: what writes and merges mean
    (`ggconfigd/src/db_interface.c`, `ggconfigd/src/db_corebus.c`). */
module ConfigMap {
  import opened Buffer

  type Name = bytes
  type Path = seq<Name>

  datatype Leaf = Leaf(value: bytes, timestamp: int)

  type Config = map<Path, Leaf>

  datatype Update = Update(path: Path, leaf: Leaf)

  /** No value has another value below it. */
  ghost predicate PrefixFree(paths: set<Path>) {
    forall p, q | p in paths && q in paths :: !(p < q)
  }

  /** A value above or below stands in the way. */
  predicate Blocked(m: Config, p: Path) { exists q | q in m.Keys :: q < p || p < q }

  predicate Accepts(m: Config, p: Path) { p in m || !Blocked(m, p) }

  /** A write takes effect when it is accepted and not older than the value it replaces. */
  predicate Applies(m: Config, u: Update) {
    Accepts(m, u.path) && (u.path in m ==> m[u.path].timestamp <= u.leaf.timestamp)
  }

  function Written(m: Config, u: Update): Config { if Applies(m, u) then m[u.path := u.leaf] else m }

  function Run(m: Config, us: seq<Update>): Config {
    if us == [] then m else Written(Run(m, us[..|us| - 1]), us[|us| - 1])
  }

  lemma WrittenIsPrefixFree(m: Config, u: Update)
    requires PrefixFree(m.Keys)
    ensures PrefixFree(Written(m, u).Keys)
  {
    var m1 := Written(m, u);
    forall p, q | p in m1.Keys && q in m1.Keys
      ensures !(p < q)
    {
      if p == u.path || q == u.path { assert p in m.Keys || q in m.Keys || p == q; }
    }
  }

  lemma {:induction false} RunIsPrefixFree(m: Config, us: seq<Update>)
    requires PrefixFree(m.Keys)
    ensures PrefixFree(Run(m, us).Keys)
    decreases |us|
  {
    if us != [] {
      RunIsPrefixFree(m, us[..|us| - 1]);
      WrittenIsPrefixFree(Run(m, us[..|us| - 1]), us[|us| - 1]);
    }
  }

  // ---- Last writer wins ----

  /** The write at position `i` was accepted when it was made. */
  ghost predicate WasAccepted(us: seq<Update>, i: nat)
    requires i < |us|
  {
    Accepts(Run(map[], us[..i]), us[i].path)
  }

  /** The accepted writes to a path that are beaten by write `i`: older ones, and earlier ones of the same age. */
  ghost predicate Beats(us: seq<Update>, i: nat, j: nat)
    requires i < |us| && j < |us|
  {
    || us[j].leaf.timestamp < us[i].leaf.timestamp
    || (us[j].leaf.timestamp == us[i].leaf.timestamp && j <= i)
  }

  ghost predicate Winner(us: seq<Update>, p: Path, i: nat) {
    && i < |us| && us[i].path == p && WasAccepted(us, i)
    && forall j: nat | j < |us| && us[j].path == p && WasAccepted(us, j) :: Beats(us, i, j)
  }

  lemma EarlierAccepted(us: seq<Update>, i: nat)
    requires i < |us| - 1
    ensures WasAccepted(us, i) <==> WasAccepted(us[..|us| - 1], i)
  {
    assert us[..|us| - 1][..i] == us[..i];
  }

  /** Some write to the path was accepted. */
  ghost predicate EverAccepted(us: seq<Update>, p: Path) {
    exists j: nat :: j < |us| && us[j].path == p && WasAccepted(us, j)
  }

  /** What a run says about a path: whether it has a value, and which write the value is from. */
  ghost predicate Settled(us: seq<Update>, p: Path, i: nat) {
    && (p in Run(map[], us) <==> EverAccepted(us, p))
    && (p in Run(map[], us) ==> Winner(us, p, i) && Run(map[], us)[p] == us[i].leaf)
  }

  lemma SettledByLast(us: seq<Update>, p: Path, i: nat)
    requires us != [] && us[|us| - 1].path == p && Applies(Run(map[], us[..|us| - 1]), us[|us| - 1])
    requires Settled(us[..|us| - 1], p, i)
    ensures Settled(us, p, |us| - 1)
  {
    hide Accepts, Blocked;
    var n := |us| - 1;
    var before := us[..n];
    assert WasAccepted(us, n);
    forall j: nat | j < |us| && us[j].path == p && WasAccepted(us, j)
      ensures Beats(us, n, j)
    {
      if j < n {
        EarlierAccepted(us, j);
        assert before[j].path == p && EverAccepted(before, p);
        assert Beats(before, i, j);
      }
    }
  }

  lemma SettledBefore(us: seq<Update>, p: Path, i: nat)
    requires us != [] && !(us[|us| - 1].path == p && Applies(Run(map[], us[..|us| - 1]), us[|us| - 1]))
    requires Settled(us[..|us| - 1], p, i)
    ensures Settled(us, p, i)
  {
    hide Blocked;
    var n := |us| - 1;
    var before, m := us[..n], Run(map[], us[..n]);
    assert At(Run(map[], us), p) == At(m, p);
    if p in m {
      EarlierAccepted(us, i);
      assert Winner(before, p, i) && us[i].path == p && WasAccepted(us, i);
      forall j: nat | j < |us| && us[j].path == p && WasAccepted(us, j)
        ensures Beats(us, i, j)
      {
        if j < n { EarlierAccepted(us, j); assert before[j].path == p && Beats(before, i, j); }
      }
    } else {
      forall j: nat | j < |us| && us[j].path == p
        ensures !WasAccepted(us, j)
      {
        if j < n { EarlierAccepted(us, j); assert before[j].path == p; }
      }
    }
  }

  /** After any run from the empty configuration, a path has a value exactly when a write to it was accepted, and
      the value is that of the latest among the accepted writes with the greatest timestamp. */
  lemma {:induction false} LastWriterWins(us: seq<Update>, p: Path) returns (i: nat)
    ensures Settled(us, p, i)
    decreases |us|
  {
    hide Applies;
    i := 0;
    if us != [] {
      i := LastWriterWins(us[..|us| - 1], p);
      if us[|us| - 1].path == p && Applies(Run(map[], us[..|us| - 1]), us[|us| - 1]) {
        SettledByLast(us, p, i);
        i := |us| - 1;
      } else {
        SettledBefore(us, p, i);
      }
    }
  }

  // ---- Merges ----

  /** The paths of some writes. */
  ghost function Paths(us: seq<Update>): set<Path> { set i | 0 <= i < |us| :: us[i].path }

  /** Together with what is there, the paths of the writes are free of conflicts. */
  ghost predicate Compatible(m: Config, us: seq<Update>) { PrefixFree(m.Keys + Paths(us)) }

  function At(m: Config, p: Path): Option<Leaf> { if p in m then Some(m[p]) else None }

  /** The value that prevails when `y` is written after `x`. */
  function Later(x: Option<Leaf>, y: Option<Leaf>): Option<Leaf> {
    if y.None? || (x.Some? && x.value.timestamp > y.value.timestamp) then x else y
  }

  /** What the writes to one path leave there. */
  function Fold(x: Option<Leaf>, us: seq<Update>, p: Path): Option<Leaf> {
    if us == [] then x
    else
      var y := Fold(x, us[..|us| - 1], p);
      if us[|us| - 1].path == p then Later(y, Some(us[|us| - 1].leaf)) else y
  }

  lemma LaterAssociates(x: Option<Leaf>, y: Option<Leaf>, z: Option<Leaf>)
    ensures Later(Later(x, y), z) == Later(x, Later(y, z))
  {
  }

  lemma {:induction false} FoldFrom(x: Option<Leaf>, us: seq<Update>, p: Path)
    ensures Fold(x, us, p) == Later(x, Fold(None, us, p))
    decreases |us|
  {
    if us != [] {
      FoldFrom(x, us[..|us| - 1], p);
      if us[|us| - 1].path == p {
        LaterAssociates(x, Fold(None, us[..|us| - 1], p), Some(us[|us| - 1].leaf));
      }
    }
  }

  lemma {:induction false} FoldConcat(x: Option<Leaf>, a: seq<Update>, b: seq<Update>, p: Path)
    ensures Fold(x, a + b, p) == Fold(Fold(x, a, p), b, p)
    decreases |b|
  {
    if b == [] {
      assert a + b == a;
    } else {
      assert (a + b)[..|a + b| - 1] == a + b[..|b| - 1];
      FoldConcat(x, a, b[..|b| - 1], p);
    }
  }

  /** Compatible writes are all accepted, and each path goes its own way. */
  lemma {:induction false} CompatibleRun(m: Config, us: seq<Update>, p: Path)
    requires Compatible(m, us)
    ensures At(Run(m, us), p) == Fold(At(m, p), us, p)
    ensures Run(m, us).Keys <= m.Keys + Paths(us)
    ensures us != [] ==> Accepts(Run(m, us[..|us| - 1]), us[|us| - 1].path)
    decreases |us|
  {
    if us != [] {
      var before, u := us[..|us| - 1], us[|us| - 1];
      assert us[|us| - 1].path in Paths(us);
      assert Paths(before) <= Paths(us) by {
        forall q | q in Paths(before) ensures q in Paths(us) {
          var i :| 0 <= i < |before| && before[i].path == q;
          assert us[i].path == q;
        }
      }
      CompatibleRun(m, before, p);
      CompatibleRun(m, before, u.path);
      var r := Run(m, before);
      assert !Blocked(r, u.path) by {
        forall q | q in r.Keys ensures !(q < u.path || u.path < q) { assert q in m.Keys + Paths(us); }
      }
    }
  }

  /** The timestamps of two groups of writes are all different. */
  ghost predicate Apart(a: seq<Update>, b: seq<Update>) {
    forall i, j | 0 <= i < |a| && 0 <= j < |b| :: a[i].leaf.timestamp != b[j].leaf.timestamp
  }

  lemma {:induction false} FoldIsOneOf(us: seq<Update>, p: Path)
    ensures Fold(None, us, p).Some? ==> exists i :: 0 <= i < |us| && us[i].leaf == Fold(None, us, p).value
    decreases |us|
  {
    if us != [] {
      FoldIsOneOf(us[..|us| - 1], p);
      var f := Fold(None, us[..|us| - 1], p);
      if f.Some? {
        var i :| 0 <= i < |us| - 1 && us[..|us| - 1][i].leaf == f.value;
        assert us[i].leaf == f.value;
      }
      assert us[|us| - 1].leaf == us[|us| - 1].leaf;
    }
  }

  lemma LaterCommutes(x: Option<Leaf>, y: Option<Leaf>, z: Option<Leaf>)
    requires y.Some? && z.Some? ==> y.value.timestamp != z.value.timestamp
    ensures Later(Later(x, y), z) == Later(Later(x, z), y)
  {
  }

  lemma FoldsCommute(x: Option<Leaf>, a: seq<Update>, b: seq<Update>, p: Path)
    requires Apart(a, b)
    ensures Fold(x, a + b, p) == Fold(x, b + a, p)
  {
    FoldConcat(x, a, b, p);
    FoldConcat(x, b, a, p);
    FoldFrom(x, a, p);
    FoldFrom(x, b, p);
    FoldFrom(Fold(x, a, p), b, p);
    FoldFrom(Fold(x, b, p), a, p);
    FoldIsOneOf(a, p);
    FoldIsOneOf(b, p);
    LaterCommutes(x, Fold(None, a, p), Fold(None, b, p));
  }

  lemma CompatibleSwaps(m: Config, a: seq<Update>, b: seq<Update>)
    requires Compatible(m, a + b)
    ensures Compatible(m, b + a)
  {
    forall q | q in Paths(b + a) ensures q in Paths(a + b) {
      var i :| 0 <= i < |b + a| && (b + a)[i].path == q;
      if i < |b| { assert (a + b)[|a| + i].path == q; } else { assert (a + b)[i - |b|].path == q; }
    }
  }

  /** Compatible merges with different timestamps commute. */
  lemma MergesCommute(m: Config, a: seq<Update>, b: seq<Update>)
    requires Compatible(m, a + b) && Apart(a, b)
    ensures Run(m, a + b) == Run(m, b + a)
  {
    CompatibleSwaps(m, a, b);
    var x, y := Run(m, a + b), Run(m, b + a);
    forall p: Path
      ensures At(x, p) == At(y, p)
    {
      CompatibleRun(m, a + b, p);
      CompatibleRun(m, b + a, p);
      FoldsCommute(At(m, p), a, b, p);
    }
    forall p: Path
      ensures p in x <==> p in y
      ensures p in x ==> x[p] == y[p]
    {
      assert At(x, p) == At(y, p);
    }
  }
}
