/** What resolving a deployment's components means (`ggdeploymentd/src/deployment_handler.c`): which version is
    preferred for a requirement, how requirements gather on a growing worklist, and the one outcome a resolution
    has. */
module Resolution {
  import opened Buffer
  import Semver

  type Name = bytes
  type Version = bytes
  type Req = bytes

  /** Capacity of the worklist and of the caller's list of resolved components. */
  const CAPACITY: nat := 64
  /** Bytes available for requirement strings made during one resolution. */
  const REQUIREMENTS_MEM: nat := 2048
  /** Longest joined requirement string. */
  const PATH_MAX: nat := 4096

  const INACTIVE: Version := [105, 110, 97, 99, 116, 105, 118, 101]

  datatype CloudAnswer = CloudError | NoCandidate | Candidate(version: Version)

  datatype Dependency = NotAMap | NoRequirement | Needs(name: Name, req: Req)

  datatype Recipe = Unreadable | BadRecipe | Recipe(deps: seq<Dependency>)

  datatype Entry = Entry(name: Name, req: Req)

  datatype Resolved = Resolved(name: Name, version: Version)

  /** What the resolver can ask: the running versions, the recipe directory, the cloud and the recipes.
      `beyond` is the byte a version check may read after a requirement that ends in a space. */
  datatype World = World(
    cmp: Semver.Compare,
    beyond: byte,
    active: Name -> Option<Version>,
    store: seq<Resolved>,
    cloud: (Name, Req) -> CloudAnswer,
    recipe: (Name, Version) -> Recipe)

  predicate InRange(w: World, v: Version, q: Req) {
    Semver.InRange(w.cmp, v, q, w.beyond)
  }

  /** The one assumption: a version named by the cloud satisfies the requirement it was asked for. */
  ghost predicate CloudIsSound(w: World) {
    forall n, q | w.cloud(n, q).Candidate? :: InRange(w, w.cloud(n, q).version, q)
  }

  // ---- The version for a requirement ----

  /** The running version of `n`, when there is one, meets `q`. */
  ghost predicate RunningFits(w: World, n: Name, q: Req) {
    w.active(n).Some? && w.active(n).value != INACTIVE && InRange(w, w.active(n).value, q)
  }

  /** Entry `i` of the recipe directory is a version of `n` that meets `q`. */
  ghost predicate StoredFits(w: World, n: Name, q: Req, i: int) {
    0 <= i < |w.store| && w.store[i].name == n && InRange(w, w.store[i].version, q)
  }

  ghost predicate FirstStored(w: World, n: Name, q: Req, i: int) {
    StoredFits(w, n, q, i) && forall j | 0 <= j < i :: !StoredFits(w, n, q, j)
  }

  /** `v` is the local choice for `n`: the running version if it fits, else the first fitting recipe. */
  ghost predicate LocalChoice(w: World, n: Name, q: Req, v: Version) {
    if RunningFits(w, n, q) then v == w.active(n).value
    else exists i :: FirstStored(w, n, q, i) && v == w.store[i].version
  }

  ghost predicate NothingLocal(w: World, n: Name, q: Req) {
    !RunningFits(w, n, q) && forall i :: !StoredFits(w, n, q, i)
  }

  /** The cloud decides only when the device has no version in range. */
  ghost predicate Preferred(w: World, n: Name, q: Req, v: Version) {
    LocalChoice(w, n, q, v) || (NothingLocal(w, n, q) && w.cloud(n, q) == Candidate(v))
  }

  /** The device and the cloud's answer determine the version: the same requirement always gets the same one. */
  lemma PreferredIsUnique(w: World, n: Name, q: Req, v: Version, v': Version)
    requires Preferred(w, n, q, v) && Preferred(w, n, q, v')
    ensures v == v'
  {
    if !RunningFits(w, n, q) && (LocalChoice(w, n, q, v) || LocalChoice(w, n, q, v')) {
      assert !NothingLocal(w, n, q);
      var i :| FirstStored(w, n, q, i) && v == w.store[i].version;
      var i' :| FirstStored(w, n, q, i') && v' == w.store[i'].version;
      assert i == i';
    }
  }

  // ---- The worklist ----

  function Joined(q1: Req, q2: Req): Req { q1 + [Semver.SPACE] + q2 }

  /** The worklist after placing requirement `q` on the unresolved component `n`. */
  function Queued(work: seq<Entry>, n: Name, q: Req): seq<Entry> {
    if work == [] then [Entry(n, q)]
    else if work[0].name == n then [Entry(n, Joined(work[0].req, q))] + work[1..]
    else [work[0]] + Queued(work[1..], n, q)
  }

  /** Bytes of requirement memory taken by that step. */
  function QueuedBytes(work: seq<Entry>, n: Name, q: Req): nat {
    if work == [] then |q| else if work[0].name == n then |Joined(work[0].req, q)| else QueuedBytes(work[1..], n, q)
  }

  ghost predicate DistinctEntries(work: seq<Entry>) {
    forall i, j | 0 <= i < j < |work| :: work[i].name != work[j].name
  }

  lemma {:induction false} QueuedAt(work: seq<Entry>, n: Name, q: Req, j: nat)
    requires j < |work| && work[j].name == n && forall i | 0 <= i < j :: work[i].name != n
    ensures Queued(work, n, q) == work[j := Entry(n, Joined(work[j].req, q))]
    decreases j
  {
    hide Joined;
    if j > 0 {
      var rest := work[1..];
      assert rest[j - 1] == work[j];
      QueuedAt(rest, n, q, j - 1);
      assert work == [work[0]] + rest;
    }
  }

  lemma {:induction false} QueuedNew(work: seq<Entry>, n: Name, q: Req)
    requires forall e | e in work :: e.name != n
    ensures Queued(work, n, q) == work + [Entry(n, q)]
    decreases |work|
  {
    hide Joined;
    if work != [] {
      var rest := work[1..];
      assert work[0] in work && forall e | e in rest :: e in work;
      QueuedNew(rest, n, q);
      assert work == [work[0]] + rest;
    }
  }

  lemma QueuedIs(work: seq<Entry>, n: Name, q: Req)
    requires DistinctEntries(work)
    ensures forall j | 0 <= j < |work| && work[j].name == n ::
              Queued(work, n, q) == work[j := Entry(n, Joined(work[j].req, q))]
    ensures (forall e | e in work :: e.name != n) ==> Queued(work, n, q) == work + [Entry(n, q)]
  {
    hide Queued, Joined;
    forall j | 0 <= j < |work| && work[j].name == n
      ensures Queued(work, n, q) == work[j := Entry(n, Joined(work[j].req, q))]
    {
      QueuedAt(work, n, q, j);
    }
    if forall e | e in work :: e.name != n { QueuedNew(work, n, q); }
  }

  lemma {:induction false} QueuedBytesIs(work: seq<Entry>, n: Name, q: Req)
    requires DistinctEntries(work)
    ensures forall j | 0 <= j < |work| && work[j].name == n :: QueuedBytes(work, n, q) == |Joined(work[j].req, q)|
    ensures (forall e | e in work :: e.name != n) ==> QueuedBytes(work, n, q) == |q|
  {
    if work != [] {
      QueuedBytesIs(work[1..], n, q);
      if forall e | e in work :: e.name != n {
        assert forall e | e in work[1..] :: e in work;
        assert work[0] in work;
      }
      forall j | 0 <= j < |work| && work[j].name == n
        ensures QueuedBytes(work, n, q) == |Joined(work[j].req, q)|
      {
        if j > 0 { assert work[1..][j - 1] == work[j] && work[0].name != n; }
      }
    }
  }

  // ---- Outcomes ----

  datatype Status =
    | Ok
    | Rejected                                       // a malformed input or a failed request
    | NoMemory                                       // a list or the requirement memory is full
    | RootConflict(name: Name, first: Req, second: Req)
    | NoVersion(name: Name, req: Req)                // neither the device nor the cloud has a version
    | BadRecipeOf(name: Name, version: Version)
    | Unsatisfied(dependent: Resolved, dependency: Resolved, req: Req)  // a resolved version fails a later requirement

  ghost predicate IsResolved(s: seq<Resolved>, n: Name) { exists r :: r in s && r.name == n }

  /** The worklist after the first `i` dependencies of the component resolved last. */
  ghost function Absorb(work: seq<Entry>, s: seq<Resolved>, deps: seq<Dependency>, i: nat): seq<Entry>
    requires i <= |deps|
  {
    if i == 0 then work
    else
      var before, d := Absorb(work, s, deps, i - 1), deps[i - 1];
      if !d.Needs? || IsResolved(s, d.name) then before else Queued(before, d.name, d.req)
  }

  ghost function AbsorbBytes(work: seq<Entry>, s: seq<Resolved>, deps: seq<Dependency>, i: nat): nat
    requires i <= |deps|
  {
    if i == 0 then 0
    else
      var d := deps[i - 1];
      AbsorbBytes(work, s, deps, i - 1) +
      if !d.Needs? || IsResolved(s, d.name) then 0 else QueuedBytes(Absorb(work, s, deps, i - 1), d.name, d.req)
  }

  /** Requirement `q` on the unresolved `n` fits into what is left of the memory and the worklist. */
  ghost predicate Room(work: seq<Entry>, mem: int, n: Name, q: Req) {
    && QueuedBytes(work, n, q) <= mem
    && (|Queued(work, n, q)| == |work| ==> QueuedBytes(work, n, q) <= PATH_MAX)
    && |Queued(work, n, q)| <= CAPACITY
  }

  /** One dependency is taken in: its component is resolved at a version in range, or there is room for it. */
  ghost predicate Takes(w: World, work: seq<Entry>, s: seq<Resolved>, mem: int, d: Dependency) {
    && d.Needs?
    && if IsResolved(s, d.name) then forall r | r in s && r.name == d.name :: InRange(w, r.version, d.req)
       else Room(work, mem, d.name, d.req)
  }

  ghost predicate TakesUpTo(w: World, work: seq<Entry>, s: seq<Resolved>, mem: int, deps: seq<Dependency>, n: nat)
    requires n <= |deps|
  {
    forall i | 0 <= i < n :: Takes(w, Absorb(work, s, deps, i), s, mem - AbsorbBytes(work, s, deps, i), deps[i])
  }

  /** Dependency `i` is the first that is not taken in, for the reason that `status` names. */
  ghost predicate FailsAt(w: World, work: seq<Entry>, s: seq<Resolved>, mem: int, deps: seq<Dependency>, i: nat,
                          status: Status)
    requires s != []
  {
    && i < |deps| && TakesUpTo(w, work, s, mem, deps, i)
    && match status
       case BadRecipeOf(n, v) => s[|s| - 1] == Resolved(n, v) && !deps[i].Needs?
       case Unsatisfied(r, x, q) =>
         r == s[|s| - 1] && x in s && deps[i] == Needs(x.name, q) && !InRange(w, x.version, q)
       case NoMemory =>
         && deps[i].Needs? && !IsResolved(s, deps[i].name)
         && !Room(Absorb(work, s, deps, i), mem - AbsorbBytes(work, s, deps, i), deps[i].name, deps[i].req)
       case _ => false
  }

  ghost function DepsOf(w: World, r: Resolved): seq<Dependency> {
    var recipe := w.recipe(r.name, r.version);
    if recipe.Recipe? then recipe.deps else []
  }

  /** The worklist once `s` are resolved and their dependencies taken in, and the memory spent on it. */
  ghost function WorkAfter(w: World, roots: seq<Entry>, s: seq<Resolved>): seq<Entry>
    decreases |s|
  {
    if s == [] then roots
    else
      var deps := DepsOf(w, s[|s| - 1]);
      Absorb(WorkAfter(w, roots, s[..|s| - 1]), s, deps, |deps|)
  }

  ghost function BytesAfter(w: World, roots: seq<Entry>, s: seq<Resolved>): nat
    decreases |s|
  {
    if s == [] then 0
    else
      var deps := DepsOf(w, s[|s| - 1]);
      BytesAfter(w, roots, s[..|s| - 1]) + AbsorbBytes(WorkAfter(w, roots, s[..|s| - 1]), s, deps, |deps|)
  }

  /** Each component of `s` has the version preferred for the requirement gathered on it so far. */
  ghost predicate Picked(w: World, roots: seq<Entry>, mem: int, s: seq<Resolved>)
    decreases |s|, 0
  {
    s != [] ==>
      var k, before := |s| - 1, s[..|s| - 1];
      && Done(w, roots, mem, before) && k < |WorkAfter(w, roots, before)|
      && var e := WorkAfter(w, roots, before)[k];
         s[k].name == e.name && Preferred(w, e.name, e.req, s[k].version)
  }

  /** The same, and the dependencies of the last one have been taken in, too. */
  ghost predicate Done(w: World, roots: seq<Entry>, mem: int, s: seq<Resolved>)
    decreases |s|, 1
  {
    && Picked(w, roots, mem, s)
    && (s != [] ==> w.recipe(s[|s| - 1].name, s[|s| - 1].version).Recipe? && LastTaken(w, roots, mem, s))
  }

  ghost predicate LastTaken(w: World, roots: seq<Entry>, mem: int, s: seq<Resolved>)
    requires s != []
  {
    var before, deps := s[..|s| - 1], DepsOf(w, s[|s| - 1]);
    TakesUpTo(w, WorkAfter(w, roots, before), s, mem - BytesAfter(w, roots, before), deps, |deps|)
  }

  ghost predicate LastFails(w: World, roots: seq<Entry>, mem: int, s: seq<Resolved>, i: nat, status: Status)
    requires s != []
  {
    var before := s[..|s| - 1];
    FailsAt(w, WorkAfter(w, roots, before), s, mem - BytesAfter(w, roots, before), DepsOf(w, s[|s| - 1]), i, status)
  }

  /** The components resolved and how a resolution of `roots` with `mem` bytes of memory ends. */
  ghost predicate Outcome(w: World, roots: seq<Entry>, mem: int, s: seq<Resolved>, status: Status) {
    match status
    case Ok => Done(w, roots, mem, s) && |WorkAfter(w, roots, s)| <= |s|
    case NoVersion(n, q) =>
      && Done(w, roots, mem, s) && |s| < |WorkAfter(w, roots, s)| && WorkAfter(w, roots, s)[|s|] == Entry(n, q)
      && NothingLocal(w, n, q) && !w.cloud(n, q).Candidate?
    case BadRecipeOf(n, v) =>
      && Picked(w, roots, mem, s) && s != [] && s[|s| - 1] == Resolved(n, v)
      && (w.recipe(n, v).Recipe? ==> exists i :: LastFails(w, roots, mem, s, i, status))
    case Unsatisfied(_, _, _) =>
      && Picked(w, roots, mem, s) && s != [] && w.recipe(s[|s| - 1].name, s[|s| - 1].version).Recipe?
      && exists i :: LastFails(w, roots, mem, s, i, status)
    case NoMemory =>
      && Picked(w, roots, mem, s) && s != [] && w.recipe(s[|s| - 1].name, s[|s| - 1].version).Recipe?
      && exists i :: LastFails(w, roots, mem, s, i, status)
    case _ => false
  }

  // ---- There is one outcome ----

  lemma {:induction false} PrefixDone(w: World, roots: seq<Entry>, mem: int, s: seq<Resolved>, k: nat)
    requires Picked(w, roots, mem, s) && k < |s|
    ensures Done(w, roots, mem, s[..k]) && Picked(w, roots, mem, s[..k + 1])
    decreases |s|
  {
    hide WorkAfter, BytesAfter, LastTaken, Preferred;
    var before := s[..|s| - 1];
    if k == |s| - 1 {
      assert s[..k + 1] == s;
    } else {
      PrefixDone(w, roots, mem, before, k);
      assert before[..k] == s[..k] && before[..k + 1] == s[..k + 1];
    }
  }

  /** Of two resolutions one is the beginning of the other. */
  lemma {:induction false} SameVersions(w: World, roots: seq<Entry>, mem: int, s: seq<Resolved>, s': seq<Resolved>)
    requires Picked(w, roots, mem, s) && Picked(w, roots, mem, s') && |s| <= |s'|
    ensures s == s'[..|s|]
    decreases |s|
  {
    hide WorkAfter, BytesAfter, LastTaken, Preferred;
    if s != [] {
      var k := |s| - 1;
      PrefixDone(w, roots, mem, s', k);
      SameVersions(w, roots, mem, s[..k], s'[..k]);
      var t := s'[..k + 1];
      assert t[..k] == s[..k];
      var e := WorkAfter(w, roots, s[..k])[k];
      PreferredIsUnique(w, e.name, e.req, s[k].version, t[k].version);
      assert s == s[..k] + [s[k]] && t == t[..k] + [t[k]];
    }
  }

  lemma FirstFailure(w: World, roots: seq<Entry>, mem: int, s: seq<Resolved>, i: nat, status: Status)
    requires s != [] && LastFails(w, roots, mem, s, i, status)
    ensures !LastTaken(w, roots, mem, s)
    ensures var before := s[..|s| - 1];
            var work, left, deps := WorkAfter(w, roots, before), mem - BytesAfter(w, roots, before), DepsOf(w, s[|s| - 1]);
            !Takes(w, Absorb(work, s, deps, i), s, left - AbsorbBytes(work, s, deps, i), deps[i])
  {
    hide WorkAfter, BytesAfter, Absorb, AbsorbBytes, Room;
  }

  lemma OneFailure(w: World, roots: seq<Entry>, mem: int, s: seq<Resolved>, i: nat, status: Status, i': nat, status': Status)
    requires s != [] && LastFails(w, roots, mem, s, i, status) && LastFails(w, roots, mem, s, i', status')
    requires forall j, k | 0 <= j < k < |s| :: s[j].name != s[k].name
    ensures i == i' && status == status'
  {
    hide WorkAfter, BytesAfter, Absorb, AbsorbBytes, Room, InRange;
    FirstFailure(w, roots, mem, s, i, status);
    FirstFailure(w, roots, mem, s, i', status');
  }

  ghost predicate SameNames(work: seq<Entry>, work2: seq<Entry>) {
    |work| <= |work2| && forall j | 0 <= j < |work| :: work2[j].name == work[j].name
  }

  lemma QueuedKeepsNames(work: seq<Entry>, n: Name, q: Req)
    requires DistinctEntries(work)
    ensures DistinctEntries(Queued(work, n, q)) && SameNames(work, Queued(work, n, q))
  {
    hide Queued, Joined;
    QueuedIs(work, n, q);
    if exists j :: 0 <= j < |work| && work[j].name == n {
      var j :| 0 <= j < |work| && work[j].name == n;
      assert Queued(work, n, q) == work[j := Entry(n, Joined(work[j].req, q))];
    } else {
      assert forall e | e in work :: e.name != n;
    }
  }

  lemma {:induction false} AbsorbKeepsNames(work: seq<Entry>, s: seq<Resolved>, deps: seq<Dependency>, i: nat)
    requires DistinctEntries(work) && i <= |deps|
    ensures DistinctEntries(Absorb(work, s, deps, i)) && SameNames(work, Absorb(work, s, deps, i))
  {
    hide Queued, IsResolved;
    if i > 0 {
      AbsorbKeepsNames(work, s, deps, i - 1);
      if deps[i - 1].Needs? {
        QueuedKeepsNames(Absorb(work, s, deps, i - 1), deps[i - 1].name, deps[i - 1].req);
      }
    }
  }

  /** Components are resolved in the order of the worklist, each once. */
  lemma {:induction false} PickedNames(w: World, roots: seq<Entry>, mem: int, s: seq<Resolved>)
    requires Picked(w, roots, mem, s) && DistinctEntries(roots)
    ensures var work := WorkAfter(w, roots, s);
            DistinctEntries(work) && |s| <= |work| && forall j | 0 <= j < |s| :: s[j].name == work[j].name
    decreases |s|
  {
    hide Absorb, DepsOf, Preferred, LastTaken;
    if s != [] {
      var k, before, deps := |s| - 1, s[..|s| - 1], DepsOf(w, s[|s| - 1]);
      PickedNames(w, roots, mem, before);
      AbsorbKeepsNames(WorkAfter(w, roots, before), s, deps, |deps|);
      assert forall j | 0 <= j < k :: before[j] == s[j];
    }
  }

  lemma NamesDiffer(w: World, roots: seq<Entry>, mem: int, s: seq<Resolved>)
    requires Picked(w, roots, mem, s) && DistinctEntries(roots)
    ensures forall j, k | 0 <= j < k < |s| :: s[j].name != s[k].name
  {
    hide WorkAfter, Picked;
    PickedNames(w, roots, mem, s);
  }

  /** A resolution that could go on has not ended. */
  lemma NotOver(w: World, roots: seq<Entry>, mem: int, s: seq<Resolved>, status: Status, v: Version)
    requires Done(w, roots, mem, s) && |s| < |WorkAfter(w, roots, s)|
    requires var e := WorkAfter(w, roots, s)[|s|]; Preferred(w, e.name, e.req, v)
    ensures !Outcome(w, roots, mem, s, status)
  {
    hide WorkAfter, Picked, LastTaken, LastFails, InRange;
    if s != [] && exists i :: LastFails(w, roots, mem, s, i, status) {
      var i :| LastFails(w, roots, mem, s, i, status);
      FirstFailure(w, roots, mem, s, i, status);
    }
  }

  lemma OutcomeIsPicked(w: World, roots: seq<Entry>, mem: int, s: seq<Resolved>, status: Status)
    requires Outcome(w, roots, mem, s, status)
    ensures Picked(w, roots, mem, s)
  {
    hide WorkAfter, LastTaken, LastFails, Picked;
  }

  lemma NotShorter(w: World, roots: seq<Entry>, mem: int, s: seq<Resolved>, status: Status, s': seq<Resolved>, status': Status)
    requires Outcome(w, roots, mem, s, status) && Outcome(w, roots, mem, s', status')
    ensures |s| >= |s'|
  {
    hide Outcome, WorkAfter, LastTaken, Preferred;
    OutcomeIsPicked(w, roots, mem, s, status);
    OutcomeIsPicked(w, roots, mem, s', status');
    if |s| < |s'| {
      SameVersions(w, roots, mem, s, s');
      PrefixDone(w, roots, mem, s', |s|);
      var t := s'[..|s| + 1];
      assert t[..|s|] == s;
      NotOver(w, roots, mem, s, status, t[|s|].version);
    }
  }

  /** The roots, the memory and the world determine which components are resolved and how the resolution ends:
      whenever one of the conditions in `Outcome` holds, no other does. */
  lemma OutcomeIsUnique(w: World, roots: seq<Entry>, mem: int, s: seq<Resolved>, status: Status, s': seq<Resolved>,
                        status': Status)
    requires DistinctEntries(roots) && Outcome(w, roots, mem, s, status) && Outcome(w, roots, mem, s', status')
    ensures s == s' && status == status'
  {
    hide Outcome, WorkAfter, LastTaken, Preferred, Picked;
    OutcomeIsPicked(w, roots, mem, s, status);
    OutcomeIsPicked(w, roots, mem, s', status');
    NotShorter(w, roots, mem, s, status, s', status');
    NotShorter(w, roots, mem, s', status', s, status);
    SameVersions(w, roots, mem, s, s');
    assert s'[..|s|] == s';
    SameEnd(w, roots, mem, s, status, status');
  }

  lemma SameEnd(w: World, roots: seq<Entry>, mem: int, s: seq<Resolved>, status: Status, status': Status)
    requires DistinctEntries(roots) && Outcome(w, roots, mem, s, status) && Outcome(w, roots, mem, s, status')
    ensures status == status'
  {
    hide WorkAfter, LastTaken, LastFails, Picked, NothingLocal;
    OutcomeIsPicked(w, roots, mem, s, status);
    NamesDiffer(w, roots, mem, s);
    if exists i :: s != [] && LastFails(w, roots, mem, s, i, status) {
      var i :| LastFails(w, roots, mem, s, i, status);
      FirstFailure(w, roots, mem, s, i, status);
      if exists i' :: LastFails(w, roots, mem, s, i', status') {
        var i' :| LastFails(w, roots, mem, s, i', status');
        OneFailure(w, roots, mem, s, i, status, i', status');
      }
    } else if exists i' :: s != [] && LastFails(w, roots, mem, s, i', status') {
      var i' :| LastFails(w, roots, mem, s, i', status');
      FirstFailure(w, roots, mem, s, i', status');
    }
  }

  // ---- A root without a version that something else needs, too ----

  predicate StartsWithSpace(q: Req) { q != [] && q[0] == Semver.SPACE }

  lemma NoneInRange(w: World, n: Name, q: Req)
    requires CloudIsSound(w) && StartsWithSpace(q)
    ensures forall v :: !InRange(w, v, q) && !Preferred(w, n, q, v)
    ensures NothingLocal(w, n, q) && !w.cloud(n, q).Candidate?
  {
    assert forall v :: !Semver.Meets(w.cmp, v, []);
    assert forall v :: !InRange(w, v, q);
  }

  lemma QueuedOnto(work: seq<Entry>, n: Name, q: Req, k: nat)
    requires DistinctEntries(work) && k < |work|
    ensures k < |Queued(work, n, q)|
    ensures Queued(work, n, q)[k] == if work[k].name == n then Entry(n, Joined(work[k].req, q)) else work[k]
  {
    hide Queued, Joined;
    QueuedIs(work, n, q);
    if exists j :: 0 <= j < |work| && work[j].name == n {
      var j :| 0 <= j < |work| && work[j].name == n;
      assert Queued(work, n, q) == work[j := Entry(n, Joined(work[j].req, q))];
    } else {
      assert forall e | e in work :: e.name != n;
    }
  }

  lemma {:induction false} AbsorbOnto(work: seq<Entry>, s: seq<Resolved>, deps: seq<Dependency>, i: nat, k: nat)
    requires DistinctEntries(work) && i <= |deps| && k < |work| && !IsResolved(s, work[k].name)
    requires work[k].req == [] || StartsWithSpace(work[k].req)
    ensures k < |Absorb(work, s, deps, i)|
    ensures var e := Absorb(work, s, deps, i)[k];
            && e.name == work[k].name && (e.req == work[k].req || StartsWithSpace(e.req))
            && ((exists j :: 0 <= j < i && deps[j].Needs? && deps[j].name == e.name) ==> StartsWithSpace(e.req))
  {
    hide Queued, IsResolved;
    if i > 0 {
      var before, d := Absorb(work, s, deps, i - 1), deps[i - 1];
      AbsorbOnto(work, s, deps, i - 1, k);
      AbsorbKeepsNames(work, s, deps, i - 1);
      if d.Needs? { QueuedOnto(before, d.name, d.req, k); }
    }
  }

  /** A requirement joined onto an empty one starts with a space, and stays so. */
  lemma {:induction false} GathersSpace(w: World, roots: seq<Entry>, mem: int, s: seq<Resolved>, k: nat)
    requires Picked(w, roots, mem, s) && DistinctEntries(roots) && |s| <= k < |roots| && roots[k].req == []
    ensures k < |WorkAfter(w, roots, s)|
    ensures var e := WorkAfter(w, roots, s)[k];
            && e.name == roots[k].name && (e.req == [] || StartsWithSpace(e.req))
            && ((exists j, q :: 0 <= j < |s| && Needs(e.name, q) in DepsOf(w, s[j])) ==> StartsWithSpace(e.req))
    decreases |s|
  {
    hide Absorb, Preferred, LastTaken, DepsOf, StartsWithSpace;
    if s != [] {
      var before, deps := s[..|s| - 1], DepsOf(w, s[|s| - 1]);
      var work := WorkAfter(w, roots, before);
      GathersSpace(w, roots, mem, before, k);
      PickedNames(w, roots, mem, before);
      assert !IsResolved(s, work[k].name) by { NotYet(work, s, k); }
      AbsorbOnto(work, s, deps, |deps|, k);
      forall j, q | 0 <= j < |s| && Needs(roots[k].name, q) in DepsOf(w, s[j])
        ensures StartsWithSpace(WorkAfter(w, roots, s)[k].req)
      {
        if j < |s| - 1 { assert before[j] == s[j]; }
      }
    }
  }

  lemma NotYet(work: seq<Entry>, s: seq<Resolved>, k: nat)
    requires DistinctEntries(work) && |s| <= k < |work| && forall j | 0 <= j < |s| :: s[j].name == work[j].name
    ensures !IsResolved(s, work[k].name)
  {
  }

  /** A root without a version has the empty requirement. If a component resolved before it needs it, too, no
      version is in range of the joined requirement: the root is never resolved, and a resolution that gets as
      far as this root ends there with that error. */
  lemma VersionlessRootBlocks(w: World, roots: seq<Entry>, mem: int, s: seq<Resolved>, status: Status, k: nat, j: nat, q: Req)
    requires CloudIsSound(w) && DistinctEntries(roots) && Outcome(w, roots, mem, s, status)
    requires k < |roots| && roots[k].req == []
    requires j < |s| && j < k && Needs(roots[k].name, q) in DepsOf(w, s[j])
    ensures |s| <= k && status != Ok
    ensures |s| == k && Done(w, roots, mem, s) ==> status.NoVersion? && status.name == roots[k].name
  {
    hide Outcome, WorkAfter, Preferred, LastTaken;
    OutcomeIsPicked(w, roots, mem, s, status);
    if |s| > k {
      PrefixDone(w, roots, mem, s, k);
      var before, t := s[..k], s[..k + 1];
      assert t[..k] == before && before[j] == s[j];
      GathersSpace(w, roots, mem, before, k);
      NoneInRange(w, roots[k].name, WorkAfter(w, roots, before)[k].req);
      assert false;
    }
    GathersSpaceAtEnd(w, roots, mem, s, status, k, j, q);
  }

  lemma GathersSpaceAtEnd(w: World, roots: seq<Entry>, mem: int, s: seq<Resolved>, status: Status, k: nat, j: nat, q: Req)
    requires CloudIsSound(w) && DistinctEntries(roots) && Outcome(w, roots, mem, s, status)
    requires |s| <= k < |roots| && roots[k].req == [] && j < |s| && Needs(roots[k].name, q) in DepsOf(w, s[j])
    ensures status != Ok
    ensures |s| == k && Done(w, roots, mem, s) ==> status.NoVersion? && status.name == roots[k].name
  {
    hide WorkAfter, Preferred, LastTaken, Picked, LastFails;
    OutcomeIsPicked(w, roots, mem, s, status);
    GathersSpace(w, roots, mem, s, k);
    var e := WorkAfter(w, roots, s)[k];
    NoneInRange(w, e.name, e.req);
    if |s| == k && Done(w, roots, mem, s) {
      OutcomeIsUnique(w, roots, mem, s, status, s, NoVersion(e.name, e.req));
    }
  }
}
