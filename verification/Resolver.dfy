/** Dependency resolution of `ggdeploymentd/src/deployment_handler.c`: a worklist of components that grows
    while it is being iterated, with requirements on queued components joined by a space and requirements on
    resolved components checked at once. */
module Resolver {
  import opened Buffer
  import opened Resolution
  import Semver

  // ---- What a successful resolution means ----

  ghost predicate DistinctNames(s: seq<Resolved>) {
    forall i, j | 0 <= i < j < |s| :: s[i].name != s[j].name
  }

  /** `n` is resolved, at a version that meets `q`. */
  ghost predicate Provides(w: World, s: seq<Resolved>, n: Name, q: Req) {
    exists j | 0 <= j < |s| :: s[j].name == n && InRange(w, s[j].version, q)
  }

  /** Every dependency of every resolved component is itself resolved, at a version it accepts. */
  ghost predicate Closed(w: World, s: seq<Resolved>) {
    forall k | 0 <= k < |s| ::
      var recipe := w.recipe(s[k].name, s[k].version);
      recipe.Recipe? && forall d | d in recipe.deps :: d.Needs? && Provides(w, s, d.name, d.req)
  }

  /** The recipe of component `r` names `n` as a dependency. */
  ghost predicate Depends(w: World, r: Resolved, n: Name) {
    var recipe := w.recipe(r.name, r.version);
    recipe.Recipe? && exists q :: Needs(n, q) in recipe.deps
  }

  /** Nothing is resolved without a reason: each component is a root or a dependency of an earlier one. */
  ghost predicate Justified(w: World, roots: set<Name>, s: seq<Resolved>) {
    forall k | 0 <= k < |s| ::
      s[k].name in roots || exists j | 0 <= j < k :: Depends(w, s[j], s[k].name)
  }

  ghost function Names(es: seq<Entry>): set<Name> { set e | e in es :: e.name }

  // ---- The loop invariant ----

  /** Every version in range of `strong` is in range of `q`. */
  ghost predicate Covers(w: World, strong: Req, q: Req) {
    forall v | InRange(w, v, strong) :: InRange(w, v, q)
  }

  /** Requirement `q` on `n` is accounted for: met if `n` is resolved, part of its entry if it is queued. */
  ghost predicate Accounted(w: World, work: seq<Entry>, s: seq<Resolved>, n: Name, q: Req) {
    exists j | 0 <= j < |work| ::
      work[j].name == n && if j < |s| then InRange(w, s[j].version, q) else Covers(w, work[j].req, q)
  }

  ghost predicate AccountedDeps(w: World, work: seq<Entry>, s: seq<Resolved>, deps: seq<Dependency>) {
    forall d | d in deps :: d.Needs? && Accounted(w, work, s, d.name, d.req)
  }

  ghost predicate Tracked(w: World, roots: set<Name>, work: seq<Entry>, s: seq<Resolved>) {
    && DistinctEntries(work)
    && |s| <= |work| <= CAPACITY
    && (forall j | 0 <= j < |s| :: s[j].name == work[j].name)
    && (forall k | 0 <= k < |work| ::
          work[k].name in roots || exists j | 0 <= j < k && j < |s| :: Depends(w, s[j], work[k].name))
  }

  ghost predicate DepsTracked(w: World, work: seq<Entry>, s: seq<Resolved>, upTo: nat)
    requires upTo <= |s|
  {
    forall k | 0 <= k < upTo ::
      var recipe := w.recipe(s[k].name, s[k].version);
      recipe.Recipe? && AccountedDeps(w, work, s, recipe.deps)
  }

  /** `work2` and `s2` account for everything that `work` and `s` account for. */
  ghost predicate Keeps(w: World, work: seq<Entry>, s: seq<Resolved>, work2: seq<Entry>, s2: seq<Resolved>) {
    forall n, q | Accounted(w, work, s, n, q) :: Accounted(w, work2, s2, n, q)
  }

  lemma KeepsDeps(w: World, work: seq<Entry>, s: seq<Resolved>, work2: seq<Entry>, s2: seq<Resolved>, upTo: nat)
    requires upTo <= |s| && s <= s2
    requires Keeps(w, work, s, work2, s2) && DepsTracked(w, work, s, upTo)
    ensures DepsTracked(w, work2, s2, upTo)
  {
    forall k | 0 <= k < upTo
      ensures var recipe := w.recipe(s2[k].name, s2[k].version);
              recipe.Recipe? && AccountedDeps(w, work2, s2, recipe.deps)
    {
      assert s2[k] == s[k];
    }
  }

  /** Resolving the next entry at a version in its range keeps every requirement on it met. */
  lemma ResolveKeeps(w: World, work: seq<Entry>, s: seq<Resolved>, r: Resolved)
    requires |s| < |work| && r.name == work[|s|].name && InRange(w, r.version, work[|s|].req)
    ensures Keeps(w, work, s, work, s + [r])
  {
    forall n, q | Accounted(w, work, s, n, q)
      ensures Accounted(w, work, s + [r], n, q)
    {
      var j :| 0 <= j < |work| && work[j].name == n &&
               if j < |s| then InRange(w, s[j].version, q) else Covers(w, work[j].req, q);
    }
  }

  /** Queueing a new entry keeps everything and accounts for its own requirement. */
  lemma PushKeeps(w: World, work: seq<Entry>, s: seq<Resolved>, n: Name, q: Req)
    requires |s| <= |work|
    ensures Keeps(w, work, s, work + [Entry(n, q)], s)
    ensures Accounted(w, work + [Entry(n, q)], s, n, q)
  {
    var work2 := work + [Entry(n, q)];
    assert work2[|work|] == Entry(n, q);
    forall n', q' | Accounted(w, work, s, n', q')
      ensures Accounted(w, work2, s, n', q')
    {
      var j :| 0 <= j < |work| && work[j].name == n' &&
               if j < |s| then InRange(w, s[j].version, q') else Covers(w, work[j].req, q');
      assert work2[j] == work[j];
    }
  }

  /** Joining a requirement onto a queued entry keeps everything and accounts for the new requirement. */
  lemma JoinKeeps(w: World, work: seq<Entry>, s: seq<Resolved>, at: nat, q: Req)
    requires |s| <= at < |work|
    ensures var work2 := work[at := Entry(work[at].name, Joined(work[at].req, q))];
            Keeps(w, work, s, work2, s) && Accounted(w, work2, s, work[at].name, q)
  {
    var strong := Joined(work[at].req, q);
    var work2 := work[at := Entry(work[at].name, strong)];
    forall v | InRange(w, v, strong)
      ensures InRange(w, v, work[at].req) && InRange(w, v, q)
    {
      Semver.JoinImpliesBoth(w.cmp, v, work[at].req, q, w.beyond);
    }
    assert work2[at].name == work[at].name && Covers(w, work2[at].req, q);
    forall n', q' | Accounted(w, work, s, n', q')
      ensures Accounted(w, work2, s, n', q')
    {
      var j :| 0 <= j < |work| && work[j].name == n' &&
               if j < |s| then InRange(w, s[j].version, q') else Covers(w, work[j].req, q');
      assert work2[j].name == n';
    }
  }

  // ---- The code ----

  /** `resolve_component_version`: the running version if it is in range, else the first recipe in range. */
  method ResolveLocally(w: World, n: Name, q: Req) returns (v: Option<Version>)
    ensures v.Some? ==> InRange(w, v.value, q) && LocalChoice(w, n, q, v.value)
    ensures v.None? ==> NothingLocal(w, n, q)
  {
    if w.active(n).Some? && w.active(n).value != INACTIVE {
      var ok := Semver.IsInRange(w.cmp, w.active(n).value, q, w.beyond);
      if ok { return w.active(n); }
    }
    for i := 0 to |w.store|
      invariant forall j | 0 <= j < i && w.store[j].name == n :: !InRange(w, w.store[j].version, q)
    {
      if w.store[i].name == n {
        var ok := Semver.IsInRange(w.cmp, w.store[i].version, q, w.beyond);
        if ok {
          assert FirstStored(w, n, q, i);
          return Some(w.store[i].version);
        }
      }
    }
    return None;
  }

  method FindEntry(work: seq<Entry>, n: Name) returns (at: Option<nat>)
    ensures at.Some? ==> at.value < |work| && work[at.value].name == n
    ensures at.None? ==> forall e | e in work :: e.name != n
  {
    for i := 0 to |work|
      invariant forall j | 0 <= j < i :: work[j].name != n
    {
      if work[i].name == n { return Some(i); }
    }
    return None;
  }

  method FindResolved(s: seq<Resolved>, n: Name) returns (at: Option<nat>)
    ensures at.Some? ==> at.value < |s| && s[at.value].name == n
    ensures at.None? ==> forall r | r in s :: r.name != n
  {
    for i := 0 to |s|
      invariant forall j | 0 <= j < i :: s[j].name != n
    {
      if s[i].name == n { return Some(i); }
    }
    return None;
  }

  /** Places requirement `q` on a component that is not resolved yet: joins it onto a queued entry or queues it. */
  method QueueRequirement(w: World, ghost roots: set<Name>, work: seq<Entry>, s: seq<Resolved>, mem: nat, n: Name, q: Req)
    returns (ok: bool, work2: seq<Entry>, mem2: nat)
    requires s != [] && Tracked(w, roots, work, s) && !IsResolved(s, n) && Depends(w, s[|s| - 1], n)
    ensures ok <==> Room(work, mem, n, q)
    ensures ok ==> Tracked(w, roots, work2, s) && |work| <= |work2|
    ensures ok ==> Keeps(w, work, s, work2, s) && Accounted(w, work2, s, n, q)
    ensures ok ==> work2 == Queued(work, n, q) && mem2 == mem - QueuedBytes(work, n, q)
  {
    hide Queued, QueuedBytes, Joined, InRange, Depends, Keeps, Accounted;
    QueuedIs(work, n, q);
    QueuedBytesIs(work, n, q);
    work2, mem2 := work, mem;
    var queuedAt := FindEntry(work, n);
    if queuedAt.Some? {
      var joined := Joined(work[queuedAt.value].req, q);
      if |joined| > PATH_MAX || |joined| > mem { return false, work2, mem2; }
      NotResolvedYet(work, s, n, queuedAt.value);
      JoinKeeps(w, work, s, queuedAt.value, q);
      work2 := work[queuedAt.value := Entry(work[queuedAt.value].name, joined)];
      return true, work2, mem - |joined|;
    }
    if |q| > mem || |work| >= CAPACITY { return false, work2, mem2; }
    PushKeeps(w, work, s, n, q);
    work2 := work + [Entry(n, q)];
    return true, work2, mem - |q|;
  }

  lemma NotResolvedYet(work: seq<Entry>, s: seq<Resolved>, n: Name, at: nat)
    requires at < |work| && work[at].name == n && !IsResolved(s, n) && |s| <= |work|
    requires forall j | 0 <= j < |s| :: s[j].name == work[j].name
    ensures |s| <= at
  {
    assert forall i | 0 <= i < |s| :: s[i] in s;
  }

  /** One dependency of the component resolved last: check it, join it or queue it. */
  method AddDependency(w: World, ghost roots: set<Name>, work: seq<Entry>, s: seq<Resolved>, mem: nat,
                       n: Name, q: Req)
    returns (status: Status, work2: seq<Entry>, mem2: nat)
    requires s != [] && Tracked(w, roots, work, s)
    requires w.recipe(s[|s| - 1].name, s[|s| - 1].version).Recipe?
    requires Needs(n, q) in w.recipe(s[|s| - 1].name, s[|s| - 1].version).deps
    ensures status == Ok ==> Tracked(w, roots, work2, s) && |work| <= |work2|
    ensures status == Ok ==> Keeps(w, work, s, work2, s) && Accounted(w, work2, s, n, q)
    ensures status == Ok ==> work2 == if IsResolved(s, n) then work else Queued(work, n, q)
    ensures status == Ok ==> mem2 == if IsResolved(s, n) then mem else mem - QueuedBytes(work, n, q)
    ensures status == Ok <==> Takes(w, work, s, mem, Needs(n, q))
    ensures status == NoMemory <==> !IsResolved(s, n) && !Room(work, mem, n, q)
    ensures status != Ok && status != NoMemory ==>
              && status.Unsatisfied? && status.dependent == s[|s| - 1] && status.dependency in s
              && status.dependency.name == n && status.req == q && !InRange(w, status.dependency.version, q)
  {
    hide Queued, QueuedBytes, InRange, Room;
    work2, mem2 := work, mem;
    var resolvedAt := FindResolved(s, n);
    if resolvedAt.Some? {
      var r := s[resolvedAt.value];
      OnlyOneResolved(work, s, resolvedAt.value);
      var ok := Semver.IsInRange(w.cmp, r.version, q, w.beyond);
      RangeIs(w, r.version, q);
      if !ok { return Unsatisfied(s[|s| - 1], r, q), work2, mem2; }
      assert work[resolvedAt.value].name == n;
      return Ok, work2, mem2;
    }
    assert Depends(w, s[|s| - 1], n);
    var ok;
    ok, work2, mem2 := QueueRequirement(w, roots, work, s, mem, n, q);
    status := if ok then Ok else NoMemory;
  }

  lemma RangeIs(w: World, v: Version, q: Req)
    ensures InRange(w, v, q) <==> Semver.InRange(w.cmp, v, q, w.beyond)
  {
  }

  lemma OnlyOneResolved(work: seq<Entry>, s: seq<Resolved>, at: nat)
    requires at < |s| <= |work| && DistinctEntries(work) && forall j | 0 <= j < |s| :: s[j].name == work[j].name
    ensures IsResolved(s, s[at].name) && forall r | r in s && r.name == s[at].name :: r == s[at]
  {
    assert s[at] in s;
  }

  lemma AddedOne(w: World, work0: seq<Entry>, work1: seq<Entry>, work2: seq<Entry>, s: seq<Resolved>,
                 deps: seq<Dependency>, i: nat)
    requires i < |deps| && deps[i].Needs?
    requires Keeps(w, work0, s, work1, s) && AccountedDeps(w, work1, s, deps[..i])
    requires Keeps(w, work1, s, work2, s) && Accounted(w, work2, s, deps[i].name, deps[i].req)
    ensures Keeps(w, work0, s, work2, s) && AccountedDeps(w, work2, s, deps[..i + 1])
  {
    assert deps[..i + 1] == deps[..i] + [deps[i]];
    forall d | d in deps[..i + 1] ensures d.Needs? && Accounted(w, work2, s, d.name, d.req) {
      if d != deps[i] { assert d in deps[..i]; }
    }
  }

  lemma NoneTaken(w: World, work: seq<Entry>, s: seq<Resolved>, mem: nat, deps: seq<Dependency>)
    ensures Absorb(work, s, deps, 0) == work && AbsorbBytes(work, s, deps, 0) == 0 && TakesUpTo(w, work, s, mem, deps, 0)
    ensures Keeps(w, work, s, work, s)
  {
  }

  lemma BadDependency(w: World, work: seq<Entry>, s: seq<Resolved>, mem: nat, deps: seq<Dependency>, i: nat)
    requires s != [] && i < |deps| && !deps[i].Needs? && TakesUpTo(w, work, s, mem, deps, i)
    ensures FailsAt(w, work, s, mem, deps, i, BadRecipeOf(s[|s| - 1].name, s[|s| - 1].version))
  {
    hide TakesUpTo;
  }

  lemma DependencyNext(w: World, work: seq<Entry>, s: seq<Resolved>, mem: nat, deps: seq<Dependency>, i: nat, status: Status)
    requires s != [] && i < |deps| && deps[i].Needs? && TakesUpTo(w, work, s, mem, deps, i)
    ensures var before, left, n, q := Absorb(work, s, deps, i), mem - AbsorbBytes(work, s, deps, i), deps[i].name, deps[i].req;
            && Absorb(work, s, deps, i + 1) == (if IsResolved(s, n) then before else Queued(before, n, q))
            && AbsorbBytes(work, s, deps, i + 1) == mem - left + (if IsResolved(s, n) then 0 else QueuedBytes(before, n, q))
            && (Takes(w, before, s, left, deps[i]) ==> TakesUpTo(w, work, s, mem, deps, i + 1))
            && (status == NoMemory && !IsResolved(s, n) && !Room(before, left, n, q) ==>
                  FailsAt(w, work, s, mem, deps, i, status))
            && (status.Unsatisfied? && status.dependent == s[|s| - 1] && status.dependency in s &&
                status.dependency.name == n && status.req == q && !InRange(w, status.dependency.version, q) ==>
                  FailsAt(w, work, s, mem, deps, i, status))
  {
    hide Room, Takes, Queued, QueuedBytes, IsResolved, InRange;
  }

  /** All dependencies of the component resolved last. */
  method AddDependencies(w: World, ghost roots: set<Name>, work: seq<Entry>, s: seq<Resolved>, mem: nat,
                         deps: seq<Dependency>)
    returns (status: Status, work2: seq<Entry>, mem2: nat)
    requires s != [] && Tracked(w, roots, work, s)
    requires w.recipe(s[|s| - 1].name, s[|s| - 1].version) == Recipe(deps)
    requires DepsTracked(w, work, s, |s| - 1)
    ensures status == Ok ==> Tracked(w, roots, work2, s) && DepsTracked(w, work2, s, |s|)
    ensures status == Ok ==> Keeps(w, work, s, work2, s)
    ensures status == Ok ==> TakesUpTo(w, work, s, mem, deps, |deps|)
    ensures status == Ok ==> work2 == Absorb(work, s, deps, |deps|) && mem2 == mem - AbsorbBytes(work, s, deps, |deps|)
    ensures status != Ok ==> exists i :: FailsAt(w, work, s, mem, deps, i, status)
  {
    hide Takes, Room, Queued, QueuedBytes, IsResolved, Absorb, AbsorbBytes, TakesUpTo, FailsAt, Keeps, Tracked, Accounted;
    NoneTaken(w, work, s, mem, deps);
    work2, mem2 := work, mem;
    for i := 0 to |deps|
      invariant Tracked(w, roots, work2, s)
      invariant Keeps(w, work, s, work2, s)
      invariant AccountedDeps(w, work2, s, deps[..i])
      invariant TakesUpTo(w, work, s, mem, deps, i)
      invariant work2 == Absorb(work, s, deps, i) && mem2 == mem - AbsorbBytes(work, s, deps, i)
    {
      if !deps[i].Needs? {
        BadDependency(w, work, s, mem, deps, i);
        return BadRecipeOf(s[|s| - 1].name, s[|s| - 1].version), work2, mem2;
      }
      assert deps[i] == Needs(deps[i].name, deps[i].req);
      ghost var before := work2;
      status, work2, mem2 := AddDependency(w, roots, work2, s, mem2, deps[i].name, deps[i].req);
      DependencyNext(w, work, s, mem, deps, i, status);
      if status != Ok { return status, work2, mem2; }
      AddedOne(w, work, before, work2, s, deps, i);
    }
    assert deps[..|deps|] == deps;
    KeepsDeps(w, work, s, work2, s, |s| - 1);
    return Ok, work2, mem2;
  }

  /** The version chosen for one component: a local one, else the cloud's. */
  method ChooseVersion(w: World, n: Name, q: Req) returns (v: Option<Version>)
    requires CloudIsSound(w)
    ensures v.Some? ==> InRange(w, v.value, q) && Preferred(w, n, q, v.value)
    ensures v.None? ==> NothingLocal(w, n, q) && !w.cloud(n, q).Candidate?
  {
    v := ResolveLocally(w, n, q);
    if v.None? {
      var answer := w.cloud(n, q);
      if answer.Candidate? { v := Some(answer.version); }
    }
  }

  /** The state between two rounds: what the components resolved so far have made of the roots. */
  ghost predicate Between(w: World, roots: seq<Entry>, startMem: nat, work: seq<Entry>, s: seq<Resolved>, mem: nat) {
    Done(w, roots, startMem, s) && work == WorkAfter(w, roots, s) && mem == startMem - BytesAfter(w, roots, s)
  }

  /** One round of the loop: resolve the next entry and take in its dependencies. */
  method ResolveNext(w: World, ghost roots: seq<Entry>, ghost startMem: nat, work: seq<Entry>, s: seq<Resolved>, mem: nat)
    returns (status: Status, work2: seq<Entry>, s2: seq<Resolved>, mem2: nat)
    requires CloudIsSound(w) && Between(w, roots, startMem, work, s, mem)
    requires |s| < |work| && Tracked(w, Names(roots), work, s) && DepsTracked(w, work, s, |s|)
    ensures status == Ok ==> Tracked(w, Names(roots), work2, s2) && DepsTracked(w, work2, s2, |s2|)
    ensures status == Ok ==> |s2| == |s| + 1 && Keeps(w, work, s, work2, s2)
    ensures status == Ok ==> Between(w, roots, startMem, work2, s2, mem2)
    ensures status != Ok ==> Outcome(w, roots, startMem, s2, status)
    ensures StartsWithSpace(work[|s|].req) ==> status == NoVersion(work[|s|].name, work[|s|].req)
  {
    hide InRange, Preferred, NothingLocal, Done, Absorb, AbsorbBytes, WorkAfter, BytesAfter, TakesUpTo, FailsAt,
         StartsWithSpace, Keeps, Tracked, DepsTracked;
    work2, s2, mem2 := work, s, mem;
    var n, q := work[|s|].name, work[|s|].req;
    var version := ChooseVersion(w, n, q);
    if StartsWithSpace(q) { NoneInRange(w, n, q); }
    if version.None? { return NoVersion(n, q), work2, s2, mem2; }
    var r := Resolved(n, version.value);
    ResolveKeeps(w, work, s, r);
    s2 := s + [r];
    TrackedResolve(w, Names(roots), work, s, r);
    KeepsDeps(w, work, s, work, s2, |s|);
    PickedNext(w, roots, startMem, s, r);
    var recipe := w.recipe(n, version.value);
    if !recipe.Recipe? { return BadRecipeOf(n, version.value), work2, s2, mem2; }
    status, work2, mem2 := AddDependencies(w, Names(roots), work, s2, mem, recipe.deps);
    RoundEnds(w, roots, startMem, s, r, status);
    KeepsTwice(w, work, s, s2, work2);
  }

  lemma KeepsTwice(w: World, work: seq<Entry>, s: seq<Resolved>, s2: seq<Resolved>, work2: seq<Entry>)
    requires Keeps(w, work, s, work, s2)
    ensures Keeps(w, work, s2, work2, s2) ==> Keeps(w, work, s, work2, s2)
  {
  }

  lemma PickedNext(w: World, roots: seq<Entry>, mem: nat, s: seq<Resolved>, r: Resolved)
    requires Done(w, roots, mem, s) && |s| < |WorkAfter(w, roots, s)|
    requires var e := WorkAfter(w, roots, s)[|s|]; r.name == e.name && Preferred(w, e.name, e.req, r.version)
    ensures Picked(w, roots, mem, s + [r])
  {
    hide Done, Preferred, WorkAfter;
    assert (s + [r])[..|s|] == s;
  }

  lemma RoundEnds(w: World, roots: seq<Entry>, mem: nat, s: seq<Resolved>, r: Resolved, status: Status)
    requires Picked(w, roots, mem, s + [r]) && w.recipe(r.name, r.version).Recipe?
    ensures var deps := w.recipe(r.name, r.version).deps;
            var work, left := WorkAfter(w, roots, s), mem - BytesAfter(w, roots, s);
            && WorkAfter(w, roots, s + [r]) == Absorb(work, s + [r], deps, |deps|)
            && BytesAfter(w, roots, s + [r]) == BytesAfter(w, roots, s) + AbsorbBytes(work, s + [r], deps, |deps|)
            && (TakesUpTo(w, work, s + [r], left, deps, |deps|) ==> Done(w, roots, mem, s + [r]))
            && ((exists i :: FailsAt(w, work, s + [r], left, deps, i, status)) ==> Outcome(w, roots, mem, s + [r], status))
  {
    hide Absorb, AbsorbBytes, TakesUpTo, Picked;
    var s2 := s + [r];
    assert s2[..|s|] == s && s2[|s|] == r;
    var deps := DepsOf(w, r);
    var work, left := WorkAfter(w, roots, s), mem - BytesAfter(w, roots, s);
    if exists i :: FailsAt(w, work, s2, left, deps, i, status) {
      var i :| FailsAt(w, work, s2, left, deps, i, status);
      assert LastFails(w, roots, mem, s2, i, status);
    }
  }

  lemma TrackedResolve(w: World, roots: set<Name>, work: seq<Entry>, s: seq<Resolved>, r: Resolved)
    requires |s| < |work| && Tracked(w, roots, work, s) && r.name == work[|s|].name
    ensures Tracked(w, roots, work, s + [r])
  {
    assert forall j | 0 <= j < |s| :: (s + [r])[j] == s[j];
  }

  /** The growing worklist loop. It ends because the list never exceeds its capacity, with the one outcome that
      the roots, the memory and the world determine. */
  method ResolveAll(w: World, roots: seq<Entry>, startMem: nat) returns (status: Status, s: seq<Resolved>)
    requires CloudIsSound(w)
    requires |roots| <= CAPACITY && DistinctEntries(roots)
    ensures Outcome(w, roots, startMem, s, status)
    ensures status == Ok ==> DistinctNames(s) && Closed(w, s) && |s| <= CAPACITY
    ensures status == Ok ==> Justified(w, Names(roots), s)
    ensures status == Ok ==> forall e | e in roots :: Provides(w, s, e.name, e.req)
  {
    var work, mem := roots, startMem;
    status, s := Ok, [];
    forall e | e in roots ensures Accounted(w, work, s, e.name, e.req) {
      var j :| 0 <= j < |roots| && roots[j] == e;
      assert Covers(w, work[j].req, e.req);
    }
    hide Picked, WorkAfter, BytesAfter, LastTaken, LastFails;
    Untouched(w, roots, startMem);
    while |s| < |work|
      invariant status == Ok && Between(w, roots, startMem, work, s, mem)
      invariant Tracked(w, Names(roots), work, s)
      invariant DepsTracked(w, work, s, |s|)
      invariant forall e | e in roots :: Accounted(w, work, s, e.name, e.req)
      decreases CAPACITY - |s|
    {
      status, work, s, mem := ResolveNext(w, roots, startMem, work, s, mem);
      if status != Ok { return; }
    }
    AllAccountedIsClosed(w, Names(roots), work, s);
    forall e | e in roots ensures Provides(w, s, e.name, e.req) {
      AccountedIsProvided(w, work, s, e.name, e.req);
    }
  }

  lemma Untouched(w: World, roots: seq<Entry>, mem: nat)
    ensures Between(w, roots, mem, roots, [], mem)
  {
  }

  lemma AccountedIsProvided(w: World, work: seq<Entry>, s: seq<Resolved>, n: Name, q: Req)
    requires |s| == |work| && (forall j | 0 <= j < |s| :: s[j].name == work[j].name)
    requires Accounted(w, work, s, n, q)
    ensures Provides(w, s, n, q)
  {
    var j :| 0 <= j < |work| && work[j].name == n &&
             if j < |s| then InRange(w, s[j].version, q) else Covers(w, work[j].req, q);
    assert s[j].name == n;
  }

  lemma AllAccountedIsClosed(w: World, roots: set<Name>, work: seq<Entry>, s: seq<Resolved>)
    requires |s| == |work| && Tracked(w, roots, work, s) && DepsTracked(w, work, s, |s|)
    ensures DistinctNames(s) && Closed(w, s) && Justified(w, roots, s)
  {
    forall k | 0 <= k < |s|
      ensures var recipe := w.recipe(s[k].name, s[k].version);
              recipe.Recipe? && forall d | d in recipe.deps :: d.Needs? && Provides(w, s, d.name, d.req)
    {
      forall d | d in w.recipe(s[k].name, s[k].version).deps
        ensures d.Needs? && Provides(w, s, d.name, d.req)
      {
        AccountedIsProvided(w, work, s, d.name, d.req);
      }
    }
  }

  // ---- Roots of the deployment and of the device's other thing groups ----

  datatype RootSpec = RootNotMap | BadVersion | Root(req: Req)

  datatype DeploymentRoot = DeploymentRoot(name: Name, spec: RootSpec)

  datatype GroupRoots = NoInfo | GroupNotMap | RootsOf(entries: seq<Entry>)

  datatype GroupItem = ItemNotMap | NoName | Group(name: Name, roots: GroupRoots)

  /** The answer to listing the device's thing groups; `NotListed` is a parsed answer without that list. */
  datatype Groups = QueryFailed | NotListed | Listed(items: seq<GroupItem>)

  function OwnRoots(roots: seq<DeploymentRoot>): (es: seq<Entry>)
    requires forall r | r in roots :: r.spec.Root?
    ensures |es| == |roots| && forall i | 0 <= i < |es| :: es[i] == Entry(roots[i].name, roots[i].spec.req)
  {
    seq(|roots|, i requires 0 <= i < |roots| => Entry(roots[i].name, roots[i].spec.req))
  }

  /** The roots recorded for the thing groups other than the one being deployed. */
  function OtherRoots(items: seq<GroupItem>, group: Name): seq<Entry> {
    if items == [] then [] else RootsIn(items[0], group) + OtherRoots(items[1..], group)
  }

  function RootsIn(item: GroupItem, group: Name): seq<Entry> {
    if item.Group? && item.name != group && item.roots.RootsOf? then item.roots.entries else []
  }

  lemma {:induction false} OtherRootsAppend(items: seq<GroupItem>, item: GroupItem, group: Name)
    ensures OtherRoots(items + [item], group) == OtherRoots(items, group) + RootsIn(item, group)
  {
    hide RootsIn;
    if items == [] {
      assert [] + [item] == [item] && [item][1..] == [];
    } else {
      OtherRootsAppend(items[1..], item, group);
      assert (items + [item])[1..] == items[1..] + [item];
      var head := RootsIn(items[0], group);
      assert head + (OtherRoots(items[1..], group) + RootsIn(item, group)) ==
             head + OtherRoots(items[1..], group) + RootsIn(item, group);
    }
  }

  /** How merging treats each root of another group: it is queued, or the list was full and it is lost. */
  ghost predicate QueuedOrLost(work: seq<Entry>, es: seq<Entry>) {
    forall e | e in es :: e in work || (|work| == CAPACITY && e.name !in Names(work))
  }

  ghost predicate Merged(own: seq<Entry>, es: seq<Entry>, work: seq<Entry>) {
    && DistinctEntries(work) && |work| <= CAPACITY && own <= work
    && Names(work) <= Names(own) + Names(es)
    && QueuedOrLost(work, es)
    && forall e | e in work :: e in own || e in es
  }

  /** The worklist after merging roots of other groups into the deployment's own, and the memory spent on them,
      which includes what was copied for roots that did not fit. */
  ghost function MergeWork(own: seq<Entry>, es: seq<Entry>): seq<Entry> {
    if es == [] then own
    else
      var work, e := MergeWork(own, es[..|es| - 1]), es[|es| - 1];
      if e.name in Names(work) || |work| >= CAPACITY then work else work + [e]
  }

  ghost function MergeBytes(own: seq<Entry>, es: seq<Entry>): nat {
    if es == [] then 0
    else
      var front, e := es[..|es| - 1], es[|es| - 1];
      MergeBytes(own, front) + if e.name in Names(MergeWork(own, front)) then 0 else |e.req|
  }

  /** Root `e` can be merged after `es`: it is not asked for in another version, and memory suffices for a copy. */
  ghost predicate Merges(own: seq<Entry>, es: seq<Entry>, e: Entry) {
    && (forall x | x in MergeWork(own, es) && x.name == e.name :: x.req == e.req)
    && (e.name !in Names(MergeWork(own, es)) ==> MergeBytes(own, es) + |e.req| <= REQUIREMENTS_MEM)
  }

  ghost predicate MergesAll(own: seq<Entry>, es: seq<Entry>) {
    es != [] ==> MergesAll(own, es[..|es| - 1]) && Merges(own, es[..|es| - 1], es[|es| - 1])
  }

  /** Root `e` is the first that cannot be merged, for the reason that `status` names. */
  ghost predicate MergeFails(own: seq<Entry>, es: seq<Entry>, e: Entry, status: Status) {
    && MergesAll(own, es)
    && match status
       case RootConflict(n, first, second) => e == Entry(n, second) && Entry(n, first) in MergeWork(own, es) && first != second
       case NoMemory => e.name !in Names(MergeWork(own, es)) && MergeBytes(own, es) + |e.req| > REQUIREMENTS_MEM
       case _ => false
  }

  /** The last root was copied, but the list was full; the failed push goes unnoticed. */
  ghost predicate Dropped(own: seq<Entry>, es: seq<Entry>) {
    && es != []
    && var work := MergeWork(own, es[..|es| - 1]);
       es[|es| - 1].name !in Names(work) && |work| >= CAPACITY
  }

  ghost predicate MergedSoFar(own: seq<Entry>, es: seq<Entry>, work: seq<Entry>, mem: nat) {
    && MergesAll(own, es) && work == MergeWork(own, es) && mem == REQUIREMENTS_MEM - MergeBytes(own, es)
    && Merged(own, es, work)
  }

  /** Adds one root of another group; `dropped` records the unchecked failure of the push. */
  method MergeRoot(ghost own: seq<Entry>, ghost es: seq<Entry>, work: seq<Entry>, mem: nat, e: Entry)
    returns (status: Status, dropped: bool, work2: seq<Entry>, mem2: nat)
    requires MergedSoFar(own, es, work, mem)
    ensures status == Ok ==> MergedSoFar(own, es + [e], work2, mem2) && (dropped <==> Dropped(own, es + [e]))
    ensures status != Ok ==> MergeFails(own, es, e, status)
  {
    work2, mem2 := work, mem;
    MergeNext(own, es, e);
    var at := FindEntry(work, e.name);
    if at.Some? {
      assert work[at.value] in work;
      if work[at.value].req != e.req { return RootConflict(e.name, work[at.value].req, e.req), false, work2, mem2; }
      assert work[at.value] == e;
      OnlyOne(work, at.value);
      return Ok, false, work2, mem2;
    }
    assert e.name !in Names(work);
    if |e.req| > mem { return NoMemory, false, work2, mem2; }
    mem2 := mem - |e.req|;
    if |work| >= CAPACITY { return Ok, true, work2, mem2; }
    work2 := work + [e];
    assert Names(work2) == Names(work) + {e.name};
    return Ok, false, work2, mem2;
  }

  lemma OnlyOne(work: seq<Entry>, i: nat)
    requires DistinctEntries(work) && i < |work|
    ensures forall x | x in work && x.name == work[i].name :: x == work[i]
  {
  }

  lemma MergeNext(own: seq<Entry>, es: seq<Entry>, e: Entry)
    ensures var work := MergeWork(own, es);
            && MergeWork(own, es + [e]) == (if e.name in Names(work) || |work| >= CAPACITY then work else work + [e])
            && MergeBytes(own, es + [e]) == MergeBytes(own, es) + (if e.name in Names(work) then 0 else |e.req|)
            && (MergesAll(own, es + [e]) <==> MergesAll(own, es) && Merges(own, es, e))
            && (Dropped(own, es + [e]) <==> e.name !in Names(work) && |work| >= CAPACITY)
    ensures Names(es + [e]) == Names(es) + {e.name}
  {
    hide Merges;
    assert (es + [e])[..|es|] == es;
  }

  /** All roots of one other group; `last` is what the last push left behind. */
  method MergeRoots(ghost own: seq<Entry>, ghost es: seq<Entry>, work: seq<Entry>, mem: nat, entries: seq<Entry>)
    returns (status: Status, last: Status, work2: seq<Entry>, mem2: nat)
    requires MergedSoFar(own, es, work, mem)
    ensures status == Ok ==> MergedSoFar(own, es + entries, work2, mem2) && last == PushLeaves(own, es, entries)
    ensures status != Ok ==> exists k :: 0 <= k < |entries| && MergeFails(own, es + entries[..k], entries[k], status)
  {
    hide MergedSoFar, MergeFails, Dropped;
    status, last, work2, mem2 := Ok, Ok, work, mem;
    assert es + entries[..0] == es;
    for k := 0 to |entries|
      invariant status == Ok && MergedSoFar(own, es + entries[..k], work2, mem2)
      invariant last == PushLeaves(own, es, entries[..k])
    {
      var dropped;
      status, dropped, work2, mem2 := MergeRoot(own, es + entries[..k], work2, mem2, entries[k]);
      if status != Ok { return; }
      last := if dropped then NoMemory else Ok;
      assert es + entries[..k] + [entries[k]] == es + entries[..k + 1];
    }
    assert entries[..|entries|] == entries;
  }

  ghost function PushLeaves(own: seq<Entry>, es: seq<Entry>, entries: seq<Entry>): Status {
    if entries != [] && Dropped(own, es + entries) then NoMemory else Ok
  }

  /** An item of the list of groups that does not stop the merge. */
  ghost predicate GoodItem(item: GroupItem, group: Name) {
    item.Group? && (item.name != group ==> !item.roots.GroupNotMap?)
  }

  ghost predicate GoodItems(items: seq<GroupItem>, group: Name) { forall i | 0 <= i < |items| :: GoodItem(items[i], group) }

  /** The result code that the last of `items` leaves behind. */
  ghost function LeftBehind(own: seq<Entry>, group: Name, items: seq<GroupItem>): Status
    requires GoodItems(items, group)
  {
    if items == [] then Ok
    else
      var item := items[|items| - 1];
      if item.name == group then Ok
      else if item.roots.NoInfo? then Rejected
      else PushLeaves(own, OtherRoots(items[..|items| - 1], group), item.roots.entries)
  }

  /** Item `j` is the one that stops the merge. One that is not a map stops it with the code left behind. */
  ghost predicate StopsAt(own: seq<Entry>, group: Name, items: seq<GroupItem>, j: nat, status: Status) {
    && j < |items| && GoodItems(items[..j], group)
    && var es := OtherRoots(items[..j], group);
       && MergesAll(own, es)
       && match items[j]
          case ItemNotMap => status == LeftBehind(own, group, items[..j])
          case NoName => status == Rejected
          case Group(name, roots) =>
            && name != group
            && match roots
               case NoInfo => false
               case GroupNotMap => status == Rejected
               case RootsOf(entries) =>
                 exists k :: 0 <= k < |entries| && MergeFails(own, es + entries[..k], entries[k], status)
  }

  /** The roots of all other groups. A list item that is not a map ends the whole resolution early
      (`finished` is false) with whatever error the last step left, which may be none. */
  method MergeGroups(own: seq<Entry>, group: Name, items: seq<GroupItem>)
    returns (status: Status, finished: bool, work: seq<Entry>, mem: nat)
    requires DistinctEntries(own) && |own| <= CAPACITY
    ensures finished ==> status == Ok && GoodItems(items, group) && MergedSoFar(own, OtherRoots(items, group), work, mem)
    ensures !finished ==> exists j :: StopsAt(own, group, items, j, status)
    ensures status == Ok ==> (finished <==> ItemNotMap !in items)
  {
    status, work, mem := Ok, own, REQUIREMENTS_MEM;
    var last := Ok;
    assert items[..0] == [];
    NothingMerged(own);
    hide MergedSoFar, OtherRoots, MergeFails, Dropped, MergesAll, RootsIn, LeftBehind, StopsAt, PushLeaves;
    LeftAtStart(own, group);
    for i := 0 to |items|
      invariant MergedSoFar(own, OtherRoots(items[..i], group), work, mem)
      invariant GoodItems(items[..i], group) && last == LeftBehind(own, group, items[..i])
    {
      var item := items[i];
      ItemNext(items, group, i);
      MergedMeans(own, OtherRoots(items[..i], group), work, mem);
      if item.ItemNotMap? {
        StopsNow(own, group, items, i, last);
        assert items[i] in items;
        return last, false, work, mem;
      }
      if item.NoName? || (item.name != group && item.roots.GroupNotMap?) {
        StopsNow(own, group, items, i, Rejected);
        return Rejected, false, work, mem;
      }
      LeftNext(own, group, items, i);
      if item.name == group || item.roots.NoInfo? {
        last := if item.name == group then Ok else Rejected;
      } else {
        ghost var before := OtherRoots(items[..i], group);
        status, last, work, mem := MergeRoots(own, before, work, mem, item.roots.entries);
        if status != Ok {
          StopsNow(own, group, items, i, status);
          return status, false, work, mem;
        }
      }
    }
    assert items[..|items|] == items;
    AllGood(items, group);
    return Ok, true, work, mem;
  }

  lemma AllGood(items: seq<GroupItem>, group: Name)
    requires GoodItems(items, group)
    ensures ItemNotMap !in items
  {
  }

  lemma LeftAtStart(own: seq<Entry>, group: Name)
    ensures GoodItems([], group) && LeftBehind(own, group, []) == Ok
  {
  }

  lemma LeftNext(own: seq<Entry>, group: Name, items: seq<GroupItem>, i: nat)
    requires i < |items| && GoodItems(items[..i], group) && GoodItem(items[i], group)
    ensures GoodItems(items[..i + 1], group)
    ensures LeftBehind(own, group, items[..i + 1]) ==
            if items[i].name == group then Ok
            else if items[i].roots.NoInfo? then Rejected
            else PushLeaves(own, OtherRoots(items[..i], group), items[i].roots.entries)
  {
    hide OtherRoots, PushLeaves;
    ItemNext(items, group, i);
  }

  /** What stops the merge at item `i`. */
  lemma StopsNow(own: seq<Entry>, group: Name, items: seq<GroupItem>, i: nat, status: Status)
    requires i < |items| && GoodItems(items[..i], group) && MergesAll(own, OtherRoots(items[..i], group))
    requires
      match items[i]
      case ItemNotMap => status == LeftBehind(own, group, items[..i])
      case NoName => status == Rejected
      case Group(name, roots) =>
        && name != group
        && match roots
           case NoInfo => false
           case GroupNotMap => status == Rejected
           case RootsOf(entries) =>
             exists k :: 0 <= k < |entries| &&
               MergeFails(own, OtherRoots(items[..i], group) + entries[..k], entries[k], status)
    ensures StopsAt(own, group, items, i, status)
    ensures status == Ok ==> items[i].ItemNotMap?
  {
    hide OtherRoots, MergesAll, LeftBehind;
  }

  lemma NothingMerged(own: seq<Entry>)
    requires DistinctEntries(own) && |own| <= CAPACITY
    ensures MergedSoFar(own, [], own, REQUIREMENTS_MEM)
  {
  }

  lemma MergedMeans(own: seq<Entry>, es: seq<Entry>, work: seq<Entry>, mem: nat)
    requires MergedSoFar(own, es, work, mem)
    ensures MergesAll(own, es)
  {
  }

  /** What item `i` adds. */
  lemma ItemNext(items: seq<GroupItem>, group: Name, i: nat)
    requires i < |items|
    ensures items[..i + 1][..i] == items[..i] && items[..i + 1] == items[..i] + [items[i]]
    ensures GoodItems(items[..i + 1], group) <==> GoodItems(items[..i], group) && GoodItem(items[i], group)
    ensures var es, item := OtherRoots(items[..i], group), items[i];
            OtherRoots(items[..i + 1], group) ==
            if item.Group? && item.name != group && item.roots.RootsOf? then es + item.roots.entries else es
  {
    assert items[..i + 1] == items[..i] + [items[i]];
    OtherRootsAppend(items[..i], items[i], group);
  }

  /** The answer does not have the documented shape: a list of maps. */
  predicate Malformed(groups: Groups) {
    groups.NotListed? || (groups.Listed? && ItemNotMap in groups.items)
  }

  ghost function AllRoots(roots: seq<DeploymentRoot>, group: Name, groups: Groups): seq<Entry>
    requires forall r | r in roots :: r.spec.Root?
    requires groups.Listed?
  {
    OwnRoots(roots) + OtherRoots(groups.items, group)
  }

  predicate Usable(roots: seq<DeploymentRoot>) { |roots| <= CAPACITY && forall r | r in roots :: r.spec.Root? }

  /** How `resolve_dependencies` ends, case by case in the order of the code: unusable roots, a failed request, an
      answer without the list of groups, a merge that stops, and else the outcome of resolving the merged roots. */
  ghost predicate Ends(w: World, roots: seq<DeploymentRoot>, group: Name, configWritten: bool, groups: Groups,
                       status: Status, s: seq<Resolved>) {
    if !Usable(roots) then
      s == [] && status == if exists i :: 0 <= i < |roots| && i <= CAPACITY && !roots[i].spec.Root? then Rejected else NoMemory
    else if !configWritten || groups.QueryFailed? then s == [] && status == Rejected
    else if groups.NotListed? then s == [] && status == Ok
    else
      var own, es := OwnRoots(roots), OtherRoots(groups.items, group);
      if GoodItems(groups.items, group) && MergesAll(own, es)
      then Outcome(w, MergeWork(own, es), REQUIREMENTS_MEM - MergeBytes(own, es), s, status)
      else s == [] && exists j :: StopsAt(own, group, groups.items, j, status)
  }

  /** `resolve_dependencies`. For a well-formed group list, success means a closed, consistent and justified
      set of versions that contains the deployment's own roots, and contains the roots of all groups exactly
      when there are at most 64 distinct root names. For a malformed list, success means nothing was
      resolved. `Ends` says how it ends for every input. */
  method ResolveDependencies(w: World, roots: seq<DeploymentRoot>, group: Name, configWritten: bool, groups: Groups)
    returns (status: Status, s: seq<Resolved>)
    requires CloudIsSound(w)
    requires roots != [] && forall i, j | 0 <= i < j < |roots| :: roots[i].name != roots[j].name
    ensures Ends(w, roots, group, configWritten, groups, status, s)
    ensures status == Ok ==> forall r | r in roots :: r.spec.Root?
    ensures status == Ok ==> !groups.QueryFailed? && (s == [] <==> Malformed(groups))
    ensures status == Ok && !Malformed(groups) ==>
              && DistinctNames(s) && Closed(w, s)
              && (forall r | r in roots :: Provides(w, s, r.name, r.spec.req))
              && var all := AllRoots(roots, group, groups);
                 && Justified(w, Names(all), s)
                 && ((forall e | e in all :: Provides(w, s, e.name, e.req)) <==> |Names(all)| <= CAPACITY)
  {
    hide Outcome, MergesAll, MergedSoFar, StopsAt, MergeWork, MergeBytes, Closed, Justified, Provides;
    s := [];
    for i := 0 to |roots|
      invariant i <= CAPACITY
      invariant forall j | 0 <= j < i :: roots[j].spec.Root?
    {
      if !roots[i].spec.Root? {
        assert roots[i] in roots;
        return Rejected, s;
      }
      if i >= CAPACITY { return NoMemory, s; }
    }
    if !configWritten || groups.QueryFailed? { return Rejected, s; }
    if groups.NotListed? { return Ok, s; }
    var own := OwnRoots(roots);
    var finished, work, mem;
    status, finished, work, mem := MergeGroups(own, group, groups.items);
    if !finished {
      ghost var j :| StopsAt(own, group, groups.items, j, status);
      NotAllGood(own, group, groups.items, j, status);
      return status, s;
    }
    ghost var es := OtherRoots(groups.items, group);
    MergedIs(own, es, work, mem);
    status, s := ResolveAll(w, work, mem);
    if status == Ok {
      RootsResolved(w, own, es, work, s);
      SomethingResolved(w, own, s);
    }
    assert status == Ok ==> forall r | r in roots :: Entry(r.name, r.spec.req) in own;
  }

  lemma MergedIs(own: seq<Entry>, es: seq<Entry>, work: seq<Entry>, mem: nat)
    requires MergedSoFar(own, es, work, mem)
    ensures MergesAll(own, es) && work == MergeWork(own, es) && mem == REQUIREMENTS_MEM - MergeBytes(own, es)
    ensures Merged(own, es, work)
  {
  }

  lemma SomethingResolved(w: World, own: seq<Entry>, s: seq<Resolved>)
    requires own != [] && forall e | e in own :: Provides(w, s, e.name, e.req)
    ensures s != []
  {
    assert own[0] in own;
  }

  lemma {:induction false} DistinctCount(work: seq<Entry>)
    requires DistinctEntries(work)
    ensures |Names(work)| == |work|
  {
    if work == [] {
      assert Names(work) == {};
    } else {
      var last := |work| - 1;
      DistinctCount(work[..last]);
      assert work == work[..last] + [work[last]];
      assert Names(work) == Names(work[..last]) + {work[last].name};
    }
  }

  lemma SubsetCount(a: set<Name>, b: set<Name>)
    requires a <= b
    ensures |a| <= |b|
    ensures |a| == |b| ==> a == b
  {
    assert |b| == |a| + |b - a| by { assert a + (b - a) == b; }
  }

  lemma {:induction false} ResolvedCount(s: seq<Resolved>)
    ensures |set r | r in s :: r.name| <= |s|
  {
    if s == [] {
      assert (set r | r in s :: r.name) == {};
    } else {
      var last := |s| - 1;
      ResolvedCount(s[..last]);
      assert s == s[..last] + [s[last]];
      assert (set r | r in s :: r.name) == (set r | r in s[..last] :: r.name) + {s[last].name};
    }
  }

  lemma RootsResolved(w: World, own: seq<Entry>, others: seq<Entry>, work: seq<Entry>, s: seq<Resolved>)
    requires Merged(own, others, work)
    requires |s| <= CAPACITY && Justified(w, Names(work), s)
    requires forall e | e in work :: Provides(w, s, e.name, e.req)
    ensures Justified(w, Names(own + others), s)
    ensures forall e | e in own :: Provides(w, s, e.name, e.req)
    ensures (forall e | e in own + others :: Provides(w, s, e.name, e.req)) <==> |Names(own + others)| <= CAPACITY
  {
    var all := own + others;
    assert Names(all) == Names(own) + Names(others);
    assert forall e | e in own :: e in work;
    if |Names(all)| <= CAPACITY {
      DistinctCount(work);
      SubsetCount(Names(work), Names(all));
      forall e | e in all ensures e in work {
        assert e.name in Names(all);
      }
    }
    if forall e | e in all :: Provides(w, s, e.name, e.req) {
      var resolved := set r | r in s :: r.name;
      forall n | n in Names(all) ensures n in resolved {
        var e :| e in all && e.name == n;
        var j :| 0 <= j < |s| && s[j].name == n;
        assert s[j] in s;
      }
      ResolvedCount(s);
      SubsetCount(Names(all), resolved);
    }
  }

  // ---- Where merging stops is determined ----

  lemma {:induction false} MergesPrefix(own: seq<Entry>, es: seq<Entry>, k: nat)
    requires MergesAll(own, es) && k < |es|
    ensures MergesAll(own, es[..k]) && Merges(own, es[..k], es[k])
    decreases |es|
  {
    hide Merges;
    var front := es[..|es| - 1];
    if k < |es| - 1 {
      MergesPrefix(own, front, k);
      assert front[..k] == es[..k] && front[k] == es[k];
    }
  }

  lemma FailsNotMerges(own: seq<Entry>, es: seq<Entry>, e: Entry, status: Status)
    requires MergeFails(own, es, e, status)
    ensures !Merges(own, es, e)
  {
  }

  lemma {:induction false} OtherRootsPrefix(items: seq<GroupItem>, group: Name, i: nat, j: nat)
    requires i <= j <= |items|
    ensures OtherRoots(items[..i], group) <= OtherRoots(items[..j], group)
    decreases j
  {
    hide OtherRoots;
    if i < j {
      OtherRootsPrefix(items, group, i, j - 1);
      ItemNext(items, group, j - 1);
    }
  }

  /** After a failing root nothing that contains it can have been merged. */
  lemma CannotPass(own: seq<Entry>, es: seq<Entry>, e: Entry, status: Status, all: seq<Entry>)
    requires MergeFails(own, es, e, status) && es + [e] <= all
    ensures !MergesAll(own, all)
  {
    hide MergesAll, Merges;
    FailsNotMerges(own, es, e, status);
    assert all[..|es|] == es;
    if MergesAll(own, all) { MergesPrefix(own, all, |es|); }
  }

  /** An item that stops the merge is not passed over. */
  lemma StopsHere(own: seq<Entry>, group: Name, items: seq<GroupItem>, j: nat, status: Status, n: nat)
    requires StopsAt(own, group, items, j, status) && j < n <= |items|
    ensures !(GoodItems(items[..n], group) && MergesAll(own, OtherRoots(items[..n], group)))
  {
    hide OtherRoots, MergeFails, MergesAll;
    if GoodItems(items[..n], group) {
      assert items[..n][j] == items[j];
      var es, entries := OtherRoots(items[..j], group), items[j].roots.entries;
      var k :| 0 <= k < |entries| && MergeFails(own, es + entries[..k], entries[k], status);
      ItemNext(items, group, j);
      OtherRootsPrefix(items, group, j + 1, n);
      assert entries[..k] + [entries[k]] <= entries;
      assert es + entries[..k] + [entries[k]] <= es + entries;
      CannotPass(own, es + entries[..k], entries[k], status, OtherRoots(items[..n], group));
    }
  }

  lemma NotAllGood(own: seq<Entry>, group: Name, items: seq<GroupItem>, j: nat, status: Status)
    requires StopsAt(own, group, items, j, status)
    ensures !(GoodItems(items, group) && MergesAll(own, OtherRoots(items, group)))
  {
    hide StopsAt, MergesAll, OtherRoots;
    assert j < |items| by { StopsInside(own, group, items, j, status); }
    StopsHere(own, group, items, j, status, |items|);
    assert items[..|items|] == items;
  }

  lemma StopsInside(own: seq<Entry>, group: Name, items: seq<GroupItem>, j: nat, status: Status)
    requires StopsAt(own, group, items, j, status)
    ensures j < |items| && GoodItems(items[..j], group) && MergesAll(own, OtherRoots(items[..j], group))
  {
  }

  lemma {:induction false} MergeWorkIsDistinct(own: seq<Entry>, es: seq<Entry>)
    requires DistinctEntries(own)
    ensures DistinctEntries(MergeWork(own, es)) && forall x | x in MergeWork(own, es) :: x in own || x in es
    decreases |es|
  {
    if es != [] {
      var front, e := es[..|es| - 1], es[|es| - 1];
      MergeWorkIsDistinct(own, front);
      var work := MergeWork(own, front);
      assert forall j | 0 <= j < |work| :: work[j] in work;
    }
  }

  /** A reported conflict is one: two roots of one name, in two versions. */
  lemma ConflictIsReal(own: seq<Entry>, es: seq<Entry>, e: Entry, status: Status)
    requires DistinctEntries(own) && MergeFails(own, es, e, status) && status.RootConflict?
    ensures e == Entry(status.name, status.second) && status.first != status.second
    ensures Entry(status.name, status.first) in own || Entry(status.name, status.first) in es
  {
    hide MergesAll, MergeWork;
    MergeWorkIsDistinct(own, es);
  }

  lemma OneReason(own: seq<Entry>, es: seq<Entry>, e: Entry, status: Status, status': Status)
    requires DistinctEntries(own) && MergeFails(own, es, e, status) && MergeFails(own, es, e, status')
    ensures status == status'
  {
    hide MergesAll, MergeWork;
    MergeWorkIsDistinct(own, es);
    if status.RootConflict? { assert e.name in Names(MergeWork(own, es)); }
    if status'.RootConflict? { assert e.name in Names(MergeWork(own, es)); }
  }

  lemma SameRoot(own: seq<Entry>, es: seq<Entry>, entries: seq<Entry>, k: nat, status: Status, k': nat, status': Status)
    requires DistinctEntries(own) && k < |entries| && k' < |entries|
    requires MergeFails(own, es + entries[..k], entries[k], status)
    requires MergeFails(own, es + entries[..k'], entries[k'], status')
    ensures k == k' && status == status'
  {
    NotEarlier(own, es, entries, k, status, k', status');
    NotEarlier(own, es, entries, k', status', k, status);
    OneReason(own, es + entries[..k], entries[k], status, status');
  }

  lemma NotEarlier(own: seq<Entry>, es: seq<Entry>, entries: seq<Entry>, k: nat, status: Status, k': nat, status': Status)
    requires k < |entries| && k' < |entries|
    requires MergeFails(own, es + entries[..k], entries[k], status)
    requires MergeFails(own, es + entries[..k'], entries[k'], status')
    ensures k >= k'
  {
    hide MergesAll;
    if k < k' {
      assert es + entries[..k] + [entries[k]] <= es + entries[..k'];
      CannotPass(own, es + entries[..k], entries[k], status, es + entries[..k']);
    }
  }

  /** One item stops the merge, with one status. */
  lemma StopsOnce(own: seq<Entry>, group: Name, items: seq<GroupItem>, j: nat, status: Status, j': nat, status': Status)
    requires DistinctEntries(own) && StopsAt(own, group, items, j, status) && StopsAt(own, group, items, j', status')
    ensures j == j' && status == status'
  {
    hide MergesAll, OtherRoots, MergeFails;
    if j < j' { StopsHere(own, group, items, j, status, j'); }
    if j' < j { StopsHere(own, group, items, j', status', j); }
    if items[j].Group? && items[j].roots.RootsOf? {
      var es, entries := OtherRoots(items[..j], group), items[j].roots.entries;
      var k :| 0 <= k < |entries| && MergeFails(own, es + entries[..k], entries[k], status);
      var k' :| 0 <= k' < |entries| && MergeFails(own, es + entries[..k'], entries[k'], status');
      SameRoot(own, es, entries, k, status, k', status');
    }
  }

  /** The inputs determine how the resolution ends and what is resolved. */
  lemma EndsOnce(w: World, roots: seq<DeploymentRoot>, group: Name, configWritten: bool, groups: Groups,
                 status: Status, s: seq<Resolved>, status': Status, s': seq<Resolved>)
    requires forall i, j | 0 <= i < j < |roots| :: roots[i].name != roots[j].name
    requires Ends(w, roots, group, configWritten, groups, status, s)
    requires Ends(w, roots, group, configWritten, groups, status', s')
    ensures status == status' && s == s'
  {
    hide Outcome, MergesAll, MergeWork, MergeBytes, StopsAt, GoodItems, OtherRoots;
    if Usable(roots) && groups.Listed? && configWritten {
      var own, es := OwnRoots(roots), OtherRoots(groups.items, group);
      if GoodItems(groups.items, group) && MergesAll(own, es) {
        MergeWorkIsDistinct(own, es);
        OutcomeIsUnique(w, MergeWork(own, es), REQUIREMENTS_MEM - MergeBytes(own, es), s, status, s', status');
      } else {
        var j :| StopsAt(own, group, groups.items, j, status);
        var j' :| StopsAt(own, group, groups.items, j', status');
        StopsOnce(own, group, groups.items, j, status, j', status');
      }
    }
  }

  /** Success with nothing resolved: the answer has no list of groups, or the first defect in the list is an item
      that is not a map and the item before it, if any, left no error behind. */
  lemma MalformedSucceeds(w: World, roots: seq<DeploymentRoot>, group: Name, groups: Groups, j: nat)
    requires Usable(roots) && forall i, k | 0 <= i < k < |roots| :: roots[i].name != roots[k].name
    requires groups.NotListed? || (groups.Listed? && j < |groups.items| && groups.items[j].ItemNotMap?)
    requires groups.Listed? ==>
               && GoodItems(groups.items[..j], group)
               && MergesAll(OwnRoots(roots), OtherRoots(groups.items[..j], group))
               && LeftBehind(OwnRoots(roots), group, groups.items[..j]) == Ok
    ensures Ends(w, roots, group, true, groups, Ok, [])
    ensures forall status, s | Ends(w, roots, group, true, groups, status, s) :: status == Ok && s == []
  {
    hide Outcome, MergesAll, MergeWork, MergeBytes, OtherRoots, LeftBehind;
    if groups.Listed? {
      assert StopsAt(OwnRoots(roots), group, groups.items, j, Ok);
      assert !GoodItem(groups.items[j], group);
    }
    forall status, s | Ends(w, roots, group, true, groups, status, s) ensures status == Ok && s == [] {
      EndsOnce(w, roots, group, true, groups, Ok, [], status, s);
    }
  }

  // ---- More than 64 roots ----

  ghost predicate NoRequirements(es: seq<Entry>) { forall e | e in es :: e.req == [] }

  lemma {:induction false} PlainMerge(own: seq<Entry>, es: seq<Entry>)
    requires NoRequirements(own) && NoRequirements(es)
    ensures MergesAll(own, es) && MergeBytes(own, es) == 0 && NoRequirements(MergeWork(own, es))
    decreases |es|
  {
    if es != [] {
      assert es[|es| - 1] in es;
      PlainMerge(own, es[..|es| - 1]);
    }
  }

  /** Every component runs, in version 1 and without dependencies. */
  ghost predicate AllRunning(w: World) {
    && (forall n :: w.active(n) == Some([49])) && (forall n, v :: w.recipe(n, v) == Recipe([]))
    && (forall n, q :: w.cloud(n, q) == NoCandidate)
  }

  lemma {:induction false} WorkStays(w: World, roots: seq<Entry>, s: seq<Resolved>)
    requires AllRunning(w)
    ensures WorkAfter(w, roots, s) == roots
    decreases |s|
  {
    if s != [] { WorkStays(w, roots, s[..|s| - 1]); }
  }

  lemma AlwaysFits(w: World, n: Name)
    requires AllRunning(w)
    ensures RunningFits(w, n, [])
  {
  }

  lemma AlwaysResolved(w: World, roots: seq<Entry>, mem: int, s: seq<Resolved>, status: Status)
    requires AllRunning(w) && NoRequirements(roots) && Outcome(w, roots, mem, s, status)
    ensures status == Ok
  {
    hide Picked, WorkAfter, LastTaken, TakesUpTo, RunningFits, StoredFits;
    WorkStays(w, roots, s);
    forall n ensures RunningFits(w, n, []) { AlwaysFits(w, n); }
    assert forall i | 0 <= i < |roots| :: roots[i] in roots;
  }

  /** The root of the deployment and 64 roots of another group, all different and without requirements. */
  method TooManyRoots() returns (roots: seq<DeploymentRoot>, groups: Groups)
    ensures |roots| == 1 && roots[0].spec == Root([]) && groups.Listed? && GoodItems(groups.items, [1])
    ensures DistinctEntries(AllRoots(roots, [1], groups)) && |AllRoots(roots, [1], groups)| == 65
    ensures NoRequirements(AllRoots(roots, [1], groups))
  {
    var entries := seq(64, i requires 0 <= i < 64 => Entry([i + 1], []));
    roots := [DeploymentRoot([0], Root([]))];
    groups := Listed([Group([2], RootsOf(entries))]);
    assert groups.items[1..] == [];
    assert OtherRoots(groups.items, [1]) == entries + [] == entries;
    assert OwnRoots(roots) == [Entry([0], [])];
    assert AllRoots(roots, [1], groups) == [Entry([0], [])] + entries;
  }

  lemma ManyRootsSucceed(w: World, roots: seq<DeploymentRoot>, groups: Groups, status: Status, s: seq<Resolved>)
    requires AllRunning(w) && Usable(roots) && groups.Listed? && GoodItems(groups.items, [1])
    requires NoRequirements(AllRoots(roots, [1], groups)) && Ends(w, roots, [1], true, groups, status, s)
    ensures status == Ok && !Malformed(groups)
  {
    hide Outcome, MergesAll, MergeWork, MergeBytes, OtherRoots, StopsAt;
    var own, es := OwnRoots(roots), OtherRoots(groups.items, [1]);
    assert own + es == AllRoots(roots, [1], groups);
    assert forall e | e in own || e in es :: e in own + es;
    PlainMerge(own, es);
    AlwaysResolved(w, MergeWork(own, es), REQUIREMENTS_MEM, s, status);
  }

  /** With these roots the resolution succeeds and leaves one of them out. */
  method LosesRoot() returns (w: World, roots: seq<DeploymentRoot>, groups: Groups, status: Status, s: seq<Resolved>)
    ensures AllRunning(w) && status == Ok && groups.Listed? && !Malformed(groups) && Usable(roots)
    ensures exists e :: e in AllRoots(roots, [1], groups) && !Provides(w, s, e.name, e.req)
  {
    hide Ends, GoodItems, AllRoots, Provides, Closed, Justified, InRange;
    w := World((a, b) => 0, 0, n => Some([49]), [], (n, q) => NoCandidate, (n, v) => Recipe([]));
    roots, groups := TooManyRoots();
    status, s := ResolveDependencies(w, roots, [1], true, groups);
    ManyRootsSucceed(w, roots, groups, status, s);
    DistinctCount(AllRoots(roots, [1], groups));
  }
}
