/** Subscribing in three steps, as `rpc_subscribe` does without holding the table's lock in between
    (`iotcored/src/bus_server.c`), while the receive thread reconnects (`iotcored/src/mqtt.c`): when the broker still
    ends up with exactly the active filters. Requests and closes are handled by one thread, so a connection closes only
    between requests. */
module SubscriptionRuns {
  import opened Buffer
  import opened Subscriptions

  /** A subscribe request that is being handled: its filters are in the table, or the broker has refused them. */
  datatype Pending = Idle | Registered(handle: nat, fs: seq<bytes>) | Refused(handle: nat)

  /** `requested` are the filters asked for in this session. `stale` is set from the start of a session until the
      table has been subscribed again. */
  datatype State = State(slots: seq<Slot>, requested: set<bytes>, pending: Pending, stale: bool)

  datatype Step =
    | Register(fs: seq<bytes>, handle: nat, qos: nat)
    | Request(ok: bool)
    | Rollback
    | Close(handle: nat)
    | Connect
    | Resubscribe(answers: seq<bool>)

  predicate Enabled(s: State, step: Step) {
    match step
    case Register(fs, handle, _) =>
      s.pending.Idle? && fs != [] && ValidFilters(fs) && |fs| <= FreeCount(s.slots) && IsFresh(s.slots, handle)
    case Request(_) => s.pending.Registered?
    case Rollback => s.pending.Refused?
    case Close(_) => s.pending.Idle?
    case Connect => !s.stale
    case Resubscribe(answers) => s.stale && |answers| == |s.slots|
  }

  /** Each step is what one call does while it holds the lock, or one request to the broker. */
  function Next(s: State, step: Step): State
    requires Enabled(s, step)
  {
    match step
    case Register(fs, handle, qos) => s.(slots := Filled(s.slots, fs, handle, qos), pending := Registered(handle, fs))
    case Request(ok) =>
      if ok then s.(requested := s.requested + (set f | f in s.pending.fs), pending := Idle)
      else s.(pending := Refused(s.pending.handle))
    case Rollback => s.(slots := DropHandle(s.slots, s.pending.handle), pending := Idle)
    case Close(handle) =>
      var slots := DropHandle(s.slots, handle);
      s.(slots := slots, requested := s.requested - (ActiveFilters(s.slots) - ActiveFilters(slots)))
    case Connect => s.(requested := {}, stale := true)
    case Resubscribe(answers) =>
      var slots := Kept(s.slots, answers);
      State(slots, s.requested + ActiveFilters(slots), s.pending, false)
  }

  function Unused(n: nat): seq<Slot> { seq(n, _ => Slot([], 0, 0)) }

  function Initial(): State { State(Unused(MAX_SUBSCRIPTIONS), {}, Idle, false) }

  ghost predicate IsRun(states: seq<State>, steps: seq<Step>) {
    && |states| == |steps| + 1 && states[0] == Initial()
    && forall i | 0 <= i < |steps| :: Enabled(states[i], steps[i]) && states[i + 1] == Next(states[i], steps[i])
  }

  predicate Quiescent(s: State) { s.pending.Idle? && !s.stale }

  predicate InStep(s: State) { s.requested == ActiveFilters(s.slots) }

  // ---- No subscriber is left without its subscription ----

  predicate IsPending(s: State, handle: nat) { !s.pending.Idle? && s.pending.handle == handle }

  ghost predicate Inv(s: State) {
    && (forall i | 0 <= i < |s.slots| && IsActive(s.slots[i]) && !s.stale ::
          IsPending(s, s.slots[i].handle) || s.slots[i].filter in s.requested)
    && (s.pending.Registered? ==>
          forall i | 0 <= i < |s.slots| && IsActive(s.slots[i]) && s.slots[i].handle == s.pending.handle ::
            s.slots[i].filter in s.pending.fs)
  }

  lemma {:induction false} FilledFilters(slots: seq<Slot>, fs: seq<bytes>, handle: nat, qos: nat, i: nat)
    requires i < |slots|
    ensures var s := Filled(slots, fs, handle, qos)[i]; s == slots[i] || (s.handle == handle && s.filter in fs)
    decreases |slots|
  {
    if fs != [] && i > 0 {
      FilledFilters(slots[1..], if IsActive(slots[0]) then fs else fs[1..], handle, qos, i - 1);
    }
  }

  lemma CloseLeaves(slots: seq<Slot>, handle: nat, i: nat)
    requires i < |slots| && slots[i].handle != handle
    ensures DropHandle(slots, handle)[i] == slots[i]
    ensures IsActive(slots[i]) ==> slots[i].filter in ActiveFilters(DropHandle(slots, handle))
  {
    assert DropHandle(slots, handle)[i] == slots[i];
  }

  lemma StepKeepsInv(s: State, step: Step)
    requires Inv(s) && Enabled(s, step)
    ensures Inv(Next(s, step))
  {
    hide Filled, FreeCount, ActiveFilters;
    var s1 := Next(s, step);
    match step
    case Register(fs, handle, qos) =>
      forall i | 0 <= i < |s.slots|
        ensures s1.slots[i] == s.slots[i] || (s1.slots[i].handle == handle && s1.slots[i].filter in fs)
      {
        FilledFilters(s.slots, fs, handle, qos, i);
      }
    case Request(ok) =>
    case Rollback =>
    case Close(handle) =>
      forall i | 0 <= i < |s.slots| && s.slots[i].handle != handle
        ensures s1.slots[i] == s.slots[i]
        ensures IsActive(s.slots[i]) ==> s.slots[i].filter in ActiveFilters(s1.slots)
      {
        CloseLeaves(s.slots, handle, i);
      }
    case Connect =>
    case Resubscribe(answers) =>
      forall i | 0 <= i < |s1.slots| && IsActive(s1.slots[i]) ensures s1.slots[i].filter in ActiveFilters(s1.slots) {
        OwnFilter(s1.slots, i);
      }
  }

  lemma {:induction false} RunKeepsInv(states: seq<State>, steps: seq<Step>, n: nat)
    requires IsRun(states, steps) && n < |states|
    ensures Inv(states[n])
    decreases n
  {
    if n > 0 {
      hide Inv, Next;
      RunKeepsInv(states, steps, n - 1);
      StepKeepsInv(states[n - 1], steps[n - 1]);
    }
  }

  /** Over every run, whatever comes in between: when nothing is going on, every active filter is requested. */
  lemma NoneForgotten(states: seq<State>, steps: seq<Step>, n: nat)
    requires IsRun(states, steps) && n < |states| && Quiescent(states[n])
    ensures ActiveFilters(states[n].slots) <= states[n].requested
  {
    hide IsRun;
    RunKeepsInv(states, steps, n);
  }

  // ---- Filters that nobody holds ----

  /** The broker sends messages for `f` although no slot holds it. */
  predicate Stray(s: State, f: bytes) { f in s.requested && f !in ActiveFilters(s.slots) }

  /** All slots that hold `f` belong to the handle. */
  ghost predicate HeldOnlyBy(slots: seq<Slot>, f: bytes, handle: nat) {
    && f in ActiveFilters(slots)
    && forall i | 0 <= i < |slots| && IsActive(slots[i]) && slots[i].filter == f :: slots[i].handle == handle
  }

  ghost predicate AllRefused(slots: seq<Slot>, answers: seq<bool>, f: bytes)
    requires |answers| == |slots|
  {
    && f in ActiveFilters(slots)
    && forall i | 0 <= i < |slots| && IsActive(slots[i]) && slots[i].filter == f :: !answers[i]
  }

  /** The step leaves `f` with the broker and with nobody else. Below, `RollbackStrands`, `RequestStrands` and
      `ResubscribeStrands` say which events lead there. */
  ghost predicate Strands(s: State, step: Step, f: bytes)
    requires Enabled(s, step)
  {
    match step
    case Rollback => f in s.requested && HeldOnlyBy(s.slots, f, s.pending.handle)
    case Request(ok) => ok && f in s.pending.fs && f !in ActiveFilters(s.slots)
    case Resubscribe(answers) => f in s.requested && AllRefused(s.slots, answers, f)
    case _ => false
  }

  /** The step ends it: somebody holds `f` again, or a new session begins. */
  predicate Recovers(step: Step, f: bytes) {
    step.Connect? || (step.Register? && f in step.fs)
  }

  lemma DropFilters(slots: seq<Slot>, handle: nat, f: bytes)
    ensures f in ActiveFilters(DropHandle(slots, handle)) <==> f in ActiveFilters(slots) && !HeldOnlyBy(slots, f, handle)
  {
    var after := DropHandle(slots, handle);
    if f in ActiveFilters(after) {
      var i :| 0 <= i < |after| && IsActive(after[i]) && after[i].filter == f;
      assert slots[i] == after[i];
    }
    if f in ActiveFilters(slots) && !HeldOnlyBy(slots, f, handle) {
      var i :| 0 <= i < |slots| && IsActive(slots[i]) && slots[i].filter == f && slots[i].handle != handle;
      assert after[i] == slots[i];
    }
  }

  lemma KeptFilters(slots: seq<Slot>, answers: seq<bool>, f: bytes)
    requires |answers| == |slots|
    ensures f in ActiveFilters(Kept(slots, answers)) <==> f in ActiveFilters(slots) && !AllRefused(slots, answers, f)
  {
    var after := Kept(slots, answers);
    if f in ActiveFilters(after) {
      var i :| 0 <= i < |after| && IsActive(after[i]) && after[i].filter == f;
      assert slots[i] == after[i];
    }
    if f in ActiveFilters(slots) && !AllRefused(slots, answers, f) {
      var i :| 0 <= i < |slots| && IsActive(slots[i]) && slots[i].filter == f && answers[i];
      assert after[i] == slots[i];
    }
  }

  /** Exactly which steps make or end a stray filter. */
  lemma StrayStep(s: State, step: Step, f: bytes)
    requires Enabled(s, step)
    ensures Stray(Next(s, step), f) <==> Strands(s, step, f) || (Stray(s, f) && !Recovers(step, f))
  {
    hide ActiveFilters, HeldOnlyBy, AllRefused, Filled, FreeCount, Kept, DropHandle;
    match step
    case Register(fs, handle, qos) => FilledAdds(s.slots, fs, handle, qos);
    case Request(ok) =>
    case Rollback => DropFilters(s.slots, s.pending.handle, f); OnlyByMeans(s.slots, f, s.pending.handle);
    case Close(handle) => DropFilters(s.slots, handle, f);
    case Connect =>
    case Resubscribe(answers) => KeptFilters(s.slots, answers, f); RefusedMeans(s.slots, answers, f);
  }

  lemma OnlyByMeans(slots: seq<Slot>, f: bytes, handle: nat)
    ensures HeldOnlyBy(slots, f, handle) ==> f in ActiveFilters(slots)
  {
  }

  lemma RefusedMeans(slots: seq<Slot>, answers: seq<bool>, f: bytes)
    requires |answers| == |slots|
    ensures AllRefused(slots, answers, f) ==> f in ActiveFilters(slots)
  {
  }

  /** Step `i` strands `f`, and no later step before `n` ends that. */
  ghost predicate StrandedSince(states: seq<State>, steps: seq<Step>, i: nat, n: nat, f: bytes)
    requires IsRun(states, steps) && i < n <= |steps|
  {
    Strands(states[i], steps[i], f) && forall k | i < k < n :: !Recovers(steps[k], f)
  }

  /** Over every run: the broker has a filter that nobody holds exactly when some step has stranded it and none
      since has ended that. */
  lemma {:induction false} StrayExactly(states: seq<State>, steps: seq<Step>, n: nat, f: bytes)
    requires IsRun(states, steps) && n <= |steps|
    ensures Stray(states[n], f) <==> exists i: nat :: i < n && StrandedSince(states, steps, i, n, f)
    decreases n
  {
    hide Next, Strands, Recovers;
    if n > 0 {
      StrayExactly(states, steps, n - 1, f);
      StrayStep(states[n - 1], steps[n - 1], f);
      if Stray(states[n], f) {
        if Strands(states[n - 1], steps[n - 1], f) {
          assert StrandedSince(states, steps, n - 1, n, f);
        } else {
          var i: nat :| i < n - 1 && StrandedSince(states, steps, i, n - 1, f);
          assert StrandedSince(states, steps, i, n, f);
        }
      }
      if exists i: nat :: i < n && StrandedSince(states, steps, i, n, f) {
        var i: nat :| i < n && StrandedSince(states, steps, i, n, f);
        if i < n - 1 { assert StrandedSince(states, steps, i, n - 1, f); }
      }
    }
  }

  lemma NoStrays(s: State)
    requires ActiveFilters(s.slots) <= s.requested
    ensures InStep(s) <==> forall f :: !Stray(s, f)
  {
    hide ActiveFilters;
    if forall f :: !Stray(s, f) {
      forall f | f in s.requested ensures f in ActiveFilters(s.slots) { assert !Stray(s, f); }
    }
  }

  /** When nothing is going on, the requested filters are exactly the active ones, unless some are stranded. */
  lemma InStepExactly(states: seq<State>, steps: seq<Step>, n: nat)
    requires IsRun(states, steps) && n <= |steps| && Quiescent(states[n])
    ensures InStep(states[n]) <==>
            forall f, i: nat | i < n :: !StrandedSince(states, steps, i, n, f)
  {
    hide Next, Enabled, StrandedSince, ActiveFilters;
    NoneForgotten(states, steps, n);
    forall f ensures Stray(states[n], f) <==> exists i: nat :: i < n && StrandedSince(states, steps, i, n, f) {
      StrayExactly(states, steps, n, f);
    }
    NoStrays(states[n]);
    if !InStep(states[n]) {
      var f :| Stray(states[n], f);
      var i: nat :| i < n && StrandedSince(states, steps, i, n, f);
      assert !forall f, i: nat | i < n :: !StrandedSince(states, steps, i, n, f);
    } else {
      forall f, i: nat | i < n ensures !StrandedSince(states, steps, i, n, f) { assert !Stray(states[n], f); }
    }
  }

  // ---- Undisturbed requests ----

  /** No reconnection comes in while a subscribe request is handled, and no request starts while the table has yet to
      be subscribed again. */
  ghost predicate Undisturbed(states: seq<State>, steps: seq<Step>)
    requires IsRun(states, steps)
  {
    forall i | 0 <= i < |steps| :: Calm(states[i], steps[i])
  }

  predicate Calm(s: State, step: Step) {
    && (step.Connect? || step.Resubscribe? ==> s.pending.Idle?)
    && (step.Register? ==> !s.stale)
  }

  ghost predicate CalmInv(s: State) {
    && (s.stale ==> s.pending.Idle? && s.requested == {})
    && match s.pending
       case Idle => s.requested <= ActiveFilters(s.slots)
       case Registered(h, fs) =>
         s.requested <= ActiveFilters(DropHandle(s.slots, h)) && (set f | f in fs) <= ActiveFilters(s.slots) &&
         ActiveFilters(DropHandle(s.slots, h)) <= ActiveFilters(s.slots)
       case Refused(h) => s.requested <= ActiveFilters(DropHandle(s.slots, h))
  }

  /** A fresh handle's registration can be taken back without losing a filter. */
  lemma FreshDrop(slots: seq<Slot>, fs: seq<bytes>, handle: nat, qos: nat)
    requires ValidFilters(fs) && IsFresh(slots, handle)
    ensures ActiveFilters(DropHandle(Filled(slots, fs, handle, qos), handle)) == ActiveFilters(slots)
  {
    hide ActiveFilters, Filled, SameView;
    var filled := Filled(slots, fs, handle, qos);
    DroppedIs(filled, DropHandle(filled, handle), handle);
    UndoRegister(slots, fs, handle, qos, DropHandle(filled, handle));
    SameViewSameFilters(slots, DropHandle(filled, handle));
  }

  lemma CalmStep(s: State, step: Step)
    requires CalmInv(s) && Enabled(s, step) && Calm(s, step)
    ensures CalmInv(Next(s, step))
  {
    hide ActiveFilters, Filled, FreeCount, Kept, DropHandle, HeldOnlyBy, AllRefused;
    match step
    case Register(fs, handle, qos) =>
      FilledAdds(s.slots, fs, handle, qos);
      FreshDrop(s.slots, fs, handle, qos);
    case Request(ok) =>
    case Rollback =>
    case Close(handle) =>
      forall f ensures f in ActiveFilters(DropHandle(s.slots, handle)) ==> f in ActiveFilters(s.slots) {
        DropFilters(s.slots, handle, f);
      }
    case Connect =>
    case Resubscribe(answers) =>
  }

  lemma {:induction false} CalmRun(states: seq<State>, steps: seq<Step>, n: nat)
    requires IsRun(states, steps) && Undisturbed(states, steps) && n < |states|
    ensures CalmInv(states[n])
    decreases n
  {
    if n > 0 {
      hide CalmInv, Next, Enabled;
      CalmRun(states, steps, n - 1);
      CalmStep(states[n - 1], steps[n - 1]);
    }
  }

  /** In every undisturbed run the broker has been asked for exactly the active filters whenever nothing is going
      on. */
  lemma UndisturbedIsInStep(states: seq<State>, steps: seq<Step>, n: nat)
    requires IsRun(states, steps) && Undisturbed(states, steps) && n <= |steps| && Quiescent(states[n])
    ensures InStep(states[n])
  {
    hide Next, Enabled, Undisturbed;
    CalmRun(states, steps, n);
    NoneForgotten(states, steps, n);
  }

  // ---- A run that strands a filter ----

  ghost predicate Reachable(s: State) { exists states, steps :: IsRun(states, steps) && states[|states| - 1] == s }

  lemma Onward(s: State, step: Step, s1: State)
    requires Reachable(s) && Enabled(s, step) && Next(s, step) == s1
    ensures Reachable(s1)
  {
    hide Enabled, Next;
    var states, steps :| IsRun(states, steps) && states[|states| - 1] == s;
    var states1, steps1 := states + [s1], steps + [step];
    forall i | 0 <= i < |steps1| ensures Enabled(states1[i], steps1[i]) && states1[i + 1] == Next(states1[i], steps1[i]) {
      if i < |steps| { assert states1[i] == states[i] && states1[i + 1] == states[i + 1] && steps1[i] == steps[i]; }
    }
    assert IsRun(states1, steps1);
  }

  lemma Begin()
    ensures Reachable(Initial())
  {
    assert IsRun([Initial()], []);
  }

  lemma {:induction false} UnusedIsFree(n: nat)
    ensures FreeCount(Unused(n)) == n && ActiveFilters(Unused(n)) == {}
    ensures n > 0 ==> Unused(n) == [Slot([], 0, 0)] + Unused(n - 1)
  {
    if n > 0 {
      UnusedIsFree(n - 1);
      assert Unused(n)[1..] == Unused(n - 1);
    }
  }

  /** The filter is registered, a reconnection subscribes to it, and then its own request is refused. */
  lemma ReconnectStrands(f: bytes) returns (s: State)
    requires 0 < |f| <= MAX_TOPIC_SIZE
    ensures Reachable(s) && Quiescent(s) && s.requested == {f} && ActiveFilters(s.slots) == {}
  {
    hide Reachable, Filled, FreeCount, ActiveFilters, Unused;
    var n := MAX_SUBSCRIPTIONS;
    Begin();
    UnusedIsFree(n);
    StartsUnused();
    FilledAdds(Unused(n), [f], 1, 0);
    FreshDrop(Unused(n), [f], 1, 0);
    assert (set x | x in [f]) == {f};
    var used := Filled(Unused(n), [f], 1, 0);
    var s1 := State(used, {}, Registered(1, [f]), false);
    Onward(Initial(), Register([f], 1, 0), s1);
    var s2 := s1.(stale := true);
    Onward(s1, Connect, s2);
    var answers := seq(n, _ => true);
    assert Kept(used, answers) == used;
    var s3 := s1.(requested := {f});
    Onward(s2, Resubscribe(answers), s3);
    var s4 := s3.(pending := Refused(1));
    Onward(s3, Request(false), s4);
    s := State(DropHandle(used, 1), {f}, Idle, false);
    Onward(s4, Rollback, s);
  }

  lemma StartsUnused()
    ensures |Unused(MAX_SUBSCRIPTIONS)| == MAX_SUBSCRIPTIONS
    ensures forall h :: IsFresh(Unused(MAX_SUBSCRIPTIONS), h)
  {
  }

  // ---- The events behind a stray filter ----

  /** Step `i` asks the broker for `f`. */
  ghost predicate Asks(states: seq<State>, steps: seq<Step>, i: nat, f: bytes)
    requires IsRun(states, steps) && i < |steps|
  {
    match steps[i]
    case Request(ok) => ok && f in states[i].pending.fs
    case Resubscribe(_) => f in ActiveFilters(states[i + 1].slots)
    case _ => false
  }

  /** Step `i` starts a session, or is the close of the last connection that holds `f`. */
  ghost predicate Forgets(states: seq<State>, steps: seq<Step>, i: nat, f: bytes)
    requires IsRun(states, steps) && i < |steps|
  {
    || steps[i].Connect?
    || (steps[i].Close? && f in ActiveFilters(states[i].slots) && f !in ActiveFilters(states[i + 1].slots))
  }

  ghost predicate AskedSince(states: seq<State>, steps: seq<Step>, i: nat, n: nat, f: bytes)
    requires IsRun(states, steps) && i < n <= |steps|
  {
    Asks(states, steps, i, f) && forall k | i < k < n :: !Forgets(states, steps, k, f)
  }

  lemma AskStep(states: seq<State>, steps: seq<Step>, n: nat, f: bytes)
    requires IsRun(states, steps) && n < |steps|
    ensures f in states[n + 1].requested <==>
            Asks(states, steps, n, f) || (f in states[n].requested && !Forgets(states, steps, n, f))
  {
    hide ActiveFilters, Filled, FreeCount, Kept, DropHandle;
  }

  /** Over every run: a filter counts as requested exactly when it was asked for and nothing since made the broker
      forget it. */
  lemma {:induction false} RequestedExactly(states: seq<State>, steps: seq<Step>, n: nat, f: bytes)
    requires IsRun(states, steps) && n <= |steps|
    ensures f in states[n].requested <==> exists i: nat :: i < n && AskedSince(states, steps, i, n, f)
    decreases n
  {
    hide Next, Enabled, Asks, Forgets;
    if n > 0 {
      RequestedExactly(states, steps, n - 1, f);
      AskStep(states, steps, n - 1, f);
      if f in states[n].requested {
        if Asks(states, steps, n - 1, f) {
          assert AskedSince(states, steps, n - 1, n, f);
        } else {
          var i: nat :| i < n - 1 && AskedSince(states, steps, i, n - 1, f);
          assert AskedSince(states, steps, i, n, f);
        }
      }
      if exists i: nat :: i < n && AskedSince(states, steps, i, n, f) {
        var i: nat :| i < n && AskedSince(states, steps, i, n, f);
        if i < n - 1 { assert AskedSince(states, steps, i, n - 1, f); }
      }
    }
  }

  /** The request that is being handled in state `n` was registered by step `g`. */
  ghost predicate RegisteredAt(states: seq<State>, steps: seq<Step>, g: nat, n: nat)
    requires IsRun(states, steps)
  {
    g < n <= |steps| && steps[g].Register? && forall k | g < k <= n :: !states[k].pending.Idle?
  }

  lemma {:induction false} Registration(states: seq<State>, steps: seq<Step>, n: nat) returns (g: nat)
    requires IsRun(states, steps) && n <= |steps| && !states[n].pending.Idle?
    ensures RegisteredAt(states, steps, g, n)
    decreases n
  {
    hide ActiveFilters, Filled, FreeCount, Kept, DropHandle;
    if states[n - 1].pending.Idle? {
      g := n - 1;
      assert steps[n - 1].Register?;
    } else {
      g := Registration(states, steps, n - 1);
    }
  }

  /** What can happen while a request is handled: the broker refuses it, a session starts, the table is subscribed
      again. */
  lemma WhileHandled(states: seq<State>, steps: seq<Step>, g: nat, n: nat, k: nat)
    requires IsRun(states, steps) && RegisteredAt(states, steps, g, n) && g < k < n
    ensures steps[k].Connect? || steps[k].Resubscribe? || steps[k] == Request(false)
    ensures steps[k].Resubscribe? || states[k + 1].slots == states[k].slots
  {
    hide ActiveFilters, Filled, FreeCount, Kept, DropHandle;
    assert !states[k].pending.Idle? && !states[k + 1].pending.Idle?;
  }

  /** Until then slots are only ever cleared, and by nothing but a reconnection. */
  lemma {:induction false} OnlyCleared(states: seq<State>, steps: seq<Step>, g: nat, n: nat, k: nat)
    requires IsRun(states, steps) && RegisteredAt(states, steps, g, n) && g < k <= n
    ensures |states[k].slots| == |states[n].slots|
    ensures forall i | 0 <= i < |states[n].slots| && IsActive(states[n].slots[i]) :: states[k].slots[i] == states[n].slots[i]
    ensures (forall j | k <= j < n :: !steps[j].Resubscribe?) ==> states[k].slots == states[n].slots
    decreases n - k
  {
    hide ActiveFilters, Filled, FreeCount, DropHandle;
    if k < n {
      OnlyCleared(states, steps, g, n, k + 1);
      WhileHandled(states, steps, g, n, k);
    }
  }

  lemma StillActive(states: seq<State>, steps: seq<Step>, g: nat, n: nat, k: nat, f: bytes)
    requires IsRun(states, steps) && RegisteredAt(states, steps, g, n) && g < k <= n && f in ActiveFilters(states[n].slots)
    ensures f in ActiveFilters(states[k].slots)
  {
    OnlyCleared(states, steps, g, n, k);
    var i :| 0 <= i < |states[n].slots| && IsActive(states[n].slots[i]) && states[n].slots[i].filter == f;
    assert states[k].slots[i].filter == f;
  }

  /** Since step `g` the table was subscribed again in the session that still lasts in state `n`. */
  ghost predicate SubscribedAgain(steps: seq<Step>, g: nat, n: nat)
    requires n <= |steps|
  {
    exists i :: g < i < n && steps[i].Resubscribe? && forall k | i < k < n :: !steps[k].Connect?
  }

  /** While a request is handled, an active filter of it counts as requested exactly when the table was subscribed
      again meanwhile, or when it was requested at the registration and the session has not ended. */
  lemma RequestedMeanwhile(states: seq<State>, steps: seq<Step>, g: nat, n: nat, f: bytes)
    requires IsRun(states, steps) && RegisteredAt(states, steps, g, n) && f in ActiveFilters(states[n].slots)
    ensures f in states[n].requested <==>
            || SubscribedAgain(steps, g, n)
            || (f in states[g].requested && forall k | g < k < n :: !steps[k].Connect?)
  {
    MeanwhileFrom(states, steps, g, n, g + 1, f);
    AskStep(states, steps, g, f);
  }

  lemma {:induction false} MeanwhileFrom(states: seq<State>, steps: seq<Step>, g: nat, n: nat, j: nat, f: bytes)
    requires IsRun(states, steps) && RegisteredAt(states, steps, g, n) && f in ActiveFilters(states[n].slots) && g < j <= n
    ensures f in states[n].requested <==>
            || SubscribedAgain(steps, j - 1, n)
            || (f in states[j].requested && forall k | j <= k < n :: !steps[k].Connect?)
    decreases n - j
  {
    hide ActiveFilters, Next, Enabled;
    if j < n {
      MeanwhileFrom(states, steps, g, n, j + 1, f);
      WhileHandled(states, steps, g, n, j);
      AskStep(states, steps, j, f);
      StillActive(states, steps, g, n, j + 1, f);
      if steps[j].Resubscribe? && forall k | j < k < n :: !steps[k].Connect? { assert SubscribedAgain(steps, j - 1, n); }
      if SubscribedAgain(steps, j, n) {
        var i :| j < i < n && steps[i].Resubscribe? && forall k | i < k < n :: !steps[k].Connect?;
        assert SubscribedAgain(steps, j - 1, n);
      }
    }
  }

  /** A filter that the refused handle alone holds, unless the table was subscribed again, was held by nobody when it
      was registered. */
  lemma HeldByNobody(states: seq<State>, steps: seq<Step>, g: nat, n: nat, f: bytes)
    requires IsRun(states, steps) && RegisteredAt(states, steps, g, n) && HeldOnlyBy(states[n].slots, f, states[n].pending.handle)
    requires forall k | g < k < n :: !steps[k].Resubscribe?
    ensures f !in ActiveFilters(states[g].slots)
  {
    OnlyCleared(states, steps, g, n, g + 1);
    SameHandle(states, steps, g, n);
    var handle := steps[g].handle;
    if f in ActiveFilters(states[g].slots) {
      var i :| 0 <= i < |states[g].slots| && IsActive(states[g].slots[i]) && states[g].slots[i].filter == f;
      FilledSlots(states[g].slots, steps[g].fs, handle, steps[g].qos, i);
    }
  }

  lemma {:induction false} SameHandle(states: seq<State>, steps: seq<Step>, g: nat, n: nat)
    requires IsRun(states, steps) && RegisteredAt(states, steps, g, n)
    ensures states[n].pending.handle == steps[g].handle
    ensures states[n].pending.Registered? ==> states[n].pending.fs == steps[g].fs
    decreases n
  {
    hide ActiveFilters, Filled, FreeCount, Kept, DropHandle;
    if g + 1 < n {
      assert RegisteredAt(states, steps, g, n - 1);
      SameHandle(states, steps, g, n - 1);
      WhileHandled(states, steps, g, n, n - 1);
    }
  }

  /** A rollback strands a filter exactly when its handle alone holds it, and since the registration the table was
      subscribed again, or the filter was stray at the registration already, in the session that still lasts. */
  lemma RollbackStrands(states: seq<State>, steps: seq<Step>, g: nat, n: nat, f: bytes)
    requires IsRun(states, steps) && RegisteredAt(states, steps, g, n) && n < |steps| && steps[n].Rollback?
    ensures Strands(states[n], steps[n], f) <==>
            && HeldOnlyBy(states[n].slots, f, steps[g].handle)
            && (|| SubscribedAgain(steps, g, n)
                || (Stray(states[g], f) && forall k | g < k < n :: !steps[k].Connect?))
  {
    hide ActiveFilters, Next;
    SameHandle(states, steps, g, n);
    if HeldOnlyBy(states[n].slots, f, steps[g].handle) {
      OnlyByMeans(states[n].slots, f, steps[g].handle);
      RequestedMeanwhile(states, steps, g, n, f);
      if !SubscribedAgain(steps, g, n) && forall k | g < k < n :: !steps[k].Connect? {
        NotSubscribedAgain(steps, g, n);
        HeldByNobody(states, steps, g, n, f);
      }
    }
  }

  lemma NotSubscribedAgain(steps: seq<Step>, g: nat, n: nat)
    requires n <= |steps| && !SubscribedAgain(steps, g, n) && forall k | g < k < n :: !steps[k].Connect?
    ensures forall k | g < k < n :: !steps[k].Resubscribe?
  {
  }

  /** Step `k` refuses the last slots that hold `f`. */
  ghost predicate Clears(states: seq<State>, steps: seq<Step>, k: nat, f: bytes)
    requires IsRun(states, steps) && k < |steps|
  {
    steps[k].Resubscribe? && AllRefused(states[k].slots, steps[k].answers, f)
  }

  /** A granted request strands a filter exactly when a reconnection has meanwhile cleared all slots that held it. */
  lemma RequestStrands(states: seq<State>, steps: seq<Step>, g: nat, n: nat, f: bytes)
    requires IsRun(states, steps) && RegisteredAt(states, steps, g, n) && n < |steps| && steps[n] == Request(true)
    ensures Strands(states[n], steps[n], f) <==>
            f in steps[g].fs && exists k :: g < k < n && Clears(states, steps, k, f)
  {
    hide Next, ActiveFilters, Clears;
    SameHandle(states, steps, g, n);
    if f in steps[g].fs {
      FilledAdds(states[g].slots, steps[g].fs, steps[g].handle, steps[g].qos);
      assert states[g + 1].slots == Filled(states[g].slots, steps[g].fs, steps[g].handle, steps[g].qos) by {
        RegisterNext(states[g], steps[g]);
      }
      ClearedMeanwhile(states, steps, g, n, g + 1, f);
    }
  }

  lemma RegisterNext(s: State, step: Step)
    requires Enabled(s, step) && step.Register?
    ensures Next(s, step).slots == Filled(s.slots, step.fs, step.handle, step.qos)
  {
  }

  lemma {:induction false} ClearedMeanwhile(states: seq<State>, steps: seq<Step>, g: nat, n: nat, j: nat, f: bytes)
    requires IsRun(states, steps) && RegisteredAt(states, steps, g, n) && g < j <= n && f in ActiveFilters(states[j].slots)
    ensures f !in ActiveFilters(states[n].slots) <==> exists k :: j <= k < n && Clears(states, steps, k, f)
    decreases n - j
  {
    hide ActiveFilters, Filled, FreeCount, Kept, DropHandle, AllRefused;
    if j < n {
      WhileHandled(states, steps, g, n, j);
      if steps[j].Resubscribe? {
        KeptFilters(states[j].slots, steps[j].answers, f);
      }
      if Clears(states, steps, j, f) {
        if f in ActiveFilters(states[n].slots) { StillActive(states, steps, g, n, j + 1, f); }
      } else {
        ClearedMeanwhile(states, steps, g, n, j + 1, f);
      }
    }
  }

  /** A reconnection strands a filter exactly when it refuses all slots that hold it after the filter was requested
      in the new session. */
  lemma ResubscribeStrands(states: seq<State>, steps: seq<Step>, n: nat, f: bytes)
    requires IsRun(states, steps) && n < |steps| && steps[n].Resubscribe?
    ensures Strands(states[n], steps[n], f) <==>
            && Clears(states, steps, n, f)
            && exists i: nat :: i < n && AskedSince(states, steps, i, n, f)
  {
    hide Next, ActiveFilters, AskedSince, AllRefused;
    RequestedExactly(states, steps, n, f);
  }
}
