/** The MQTT subscription table (`iotcored/src/subscription_dispatch.c`) and the requests that keep the broker in
    step with it (`iotcored/src/bus_server.c`). */
module Subscriptions {
  import opened Buffer

  const MAX_SUBSCRIPTIONS: nat := 128
  const MAX_TOPIC_SIZE: nat := 256

  /** A slot with an empty filter is inactive; its handle and quality of service may be left over. */
  datatype Slot = Slot(filter: bytes, handle: nat, qos: nat)

  datatype Status = Ok | Invalid | TooLong | NoMemory | BrokerFailed

  // ---- Tables as sequences ----

  predicate IsActive(s: Slot) { s.filter != [] }

  function ActiveFilters(slots: seq<Slot>): set<bytes> {
    set i | 0 <= i < |slots| && IsActive(slots[i]) :: slots[i].filter
  }

  function FreeCount(slots: seq<Slot>): (n: nat)
    ensures n <= |slots|
  {
    if slots == [] then 0 else (if IsActive(slots[0]) then 0 else 1) + FreeCount(slots[1..])
  }

  /** The filters put into the first free slots, in order. */
  function Filled(slots: seq<Slot>, fs: seq<bytes>, handle: nat, qos: nat): (r: seq<Slot>)
    ensures |r| == |slots|
    decreases |slots|
  {
    if slots == [] || fs == [] then slots
    else if IsActive(slots[0]) then [slots[0]] + Filled(slots[1..], fs, handle, qos)
    else [Slot(fs[0], handle, qos)] + Filled(slots[1..], fs[1..], handle, qos)
  }

  /** No active slot belongs to the handle. */
  predicate IsFresh(slots: seq<Slot>, handle: nat) {
    forall i | 0 <= i < |slots| && IsActive(slots[i]) :: slots[i].handle != handle
  }

  /** The same active slots with the same owners; inactive slots may differ in what is left over. */
  predicate SameView(a: seq<Slot>, b: seq<Slot>) {
    |a| == |b| && forall i | 0 <= i < |a| :: a[i].filter == b[i].filter && (IsActive(a[i]) ==> a[i] == b[i])
  }

  predicate ValidFilters(fs: seq<bytes>) { forall f | f in fs :: 0 < |f| <= MAX_TOPIC_SIZE }

  lemma ActiveSplits(s: Slot, rest: seq<Slot>)
    ensures ActiveFilters([s] + rest) == (if IsActive(s) then {s.filter} else {}) + ActiveFilters(rest)
  {
    var all := [s] + rest;
    assert forall i | 0 <= i < |rest| :: rest[i] == all[i + 1];
    forall f | f in ActiveFilters(rest) ensures f in ActiveFilters(all) {
      var i :| 0 <= i < |rest| && IsActive(rest[i]) && rest[i].filter == f;
      assert all[i + 1].filter == f;
    }
    if IsActive(s) { assert all[0].filter == s.filter; }
  }

  /** Registering adds the filters and nothing else. */
  lemma {:induction false} FilledAdds(slots: seq<Slot>, fs: seq<bytes>, handle: nat, qos: nat)
    requires ValidFilters(fs) && |fs| <= FreeCount(slots)
    ensures ActiveFilters(Filled(slots, fs, handle, qos)) == ActiveFilters(slots) + set f | f in fs
    decreases |slots|
  {
    hide ActiveFilters;
    if slots != [] && fs != [] {
      assert slots == [slots[0]] + slots[1..];
      ActiveSplits(slots[0], slots[1..]);
      if IsActive(slots[0]) {
        FilledAdds(slots[1..], fs, handle, qos);
        ActiveSplits(slots[0], Filled(slots[1..], fs, handle, qos));
      } else {
        assert fs[0] in fs && forall f | f in fs[1..] :: f in fs;
        FilledAdds(slots[1..], fs[1..], handle, qos);
        ActiveSplits(Slot(fs[0], handle, qos), Filled(slots[1..], fs[1..], handle, qos));
        assert (set f | f in fs) == {fs[0]} + set f | f in fs[1..] by { assert fs == [fs[0]] + fs[1..]; }
      }
    } else {
      assert (set f | f in fs) == {};
    }
  }

  lemma FillStep(slots: seq<Slot>, fs: seq<bytes>, handle: nat, qos: nat, i: nat, k: nat, done: seq<Slot>)
    requires i < |slots| && k < |fs|
    ensures var rest := Filled(slots[i..], fs[k..], handle, qos);
            if IsActive(slots[i]) then
              && done + rest == done + [slots[i]] + Filled(slots[i + 1..], fs[k..], handle, qos)
              && FreeCount(slots[i..]) == FreeCount(slots[i + 1..])
            else
              && done + rest == done + [Slot(fs[k], handle, qos)] + Filled(slots[i + 1..], fs[k + 1..], handle, qos)
              && FreeCount(slots[i..]) == FreeCount(slots[i + 1..]) + 1
  {
    assert slots[i..][1..] == slots[i + 1..] && fs[k..][1..] == fs[k + 1..];
  }

  lemma AllPlaced(slots: seq<Slot>, handle: nat, qos: nat)
    ensures Filled(slots, [], handle, qos) == slots && FreeCount(slots) >= 0
  {
  }

  lemma NoSlots(fs: seq<bytes>, handle: nat, qos: nat)
    ensures Filled([], fs, handle, qos) == [] && FreeCount([]) == 0
  {
  }

  /** Each slot is as before or was free and now belongs to the handle. */
  lemma {:induction false} FilledSlots(slots: seq<Slot>, fs: seq<bytes>, handle: nat, qos: nat, i: nat)
    requires ValidFilters(fs) && i < |slots|
    ensures var s := Filled(slots, fs, handle, qos)[i];
            s == slots[i] || (!IsActive(slots[i]) && IsActive(s) && s.handle == handle)
    decreases |slots|
  {
    if fs != [] {
      assert fs[0] in fs && forall f | f in fs[1..] :: f in fs;
      if i > 0 {
        FilledSlots(slots[1..], if IsActive(slots[0]) then fs else fs[1..], handle, qos, i - 1);
      }
    }
  }

  // ---- Closing ----

  function Cleared(slots: seq<Slot>, i: nat): seq<Slot>
    requires i < |slots|
  {
    slots[i := slots[i].(filter := [])]
  }

  /** Whether a slot other than `i` is active with the filter of `i`. */
  predicate HeldElsewhere(slots: seq<Slot>, i: nat)
    requires i < |slots|
  {
    exists j :: 0 <= j < |slots| && j != i && IsActive(slots[j]) && slots[j].filter == slots[i].filter
  }

  /** Clearing a slot takes its filter out of the active ones exactly when no other slot holds it. */
  lemma ClearedFilters(slots: seq<Slot>, i: nat)
    requires i < |slots|
    ensures ActiveFilters(Cleared(slots, i)) ==
            if HeldElsewhere(slots, i) then ActiveFilters(slots) else ActiveFilters(slots) - {slots[i].filter}
  {
    var a, b := ActiveFilters(slots), ActiveFilters(Cleared(slots, i));
    var c := Cleared(slots, i);
    forall f | f in b ensures f in a && (f == slots[i].filter ==> HeldElsewhere(slots, i)) {
      var j :| 0 <= j < |c| && IsActive(c[j]) && c[j].filter == f;
      assert j != i && slots[j] == c[j];
    }
    forall f | f in a && (f != slots[i].filter || HeldElsewhere(slots, i)) ensures f in b {
      if f == slots[i].filter {
        var j :| 0 <= j < |slots| && j != i && IsActive(slots[j]) && slots[j].filter == slots[i].filter;
        assert c[j] == slots[j];
      } else {
        var j :| 0 <= j < |slots| && IsActive(slots[j]) && slots[j].filter == f;
        assert c[j] == slots[j];
      }
    }
  }

  /** The table without the subscriptions of a handle. */
  predicate Dropped(before: seq<Slot>, after: seq<Slot>, handle: nat, n: nat) {
    && |before| == |after| && n <= |before|
    && forall i | 0 <= i < |before| ::
         after[i] == if i < n && before[i].handle == handle then before[i].(filter := []) else before[i]
  }

  function DropHandle(slots: seq<Slot>, handle: nat): seq<Slot> {
    seq(|slots|, i requires 0 <= i < |slots| =>
      if slots[i].handle == handle then slots[i].(filter := []) else slots[i])
  }

  lemma DroppedIs(before: seq<Slot>, after: seq<Slot>, handle: nat)
    ensures Dropped(before, after, handle, |before|) <==> after == DropHandle(before, handle)
  {
  }

  /** One of the first `n` slots is inactive but still carries the handle. */
  predicate HasInactive(slots: seq<Slot>, handle: nat, n: nat) {
    exists i :: 0 <= i < n && i < |slots| && slots[i].handle == handle && !IsActive(slots[i])
  }

  lemma MoreInactive(slots: seq<Slot>, handle: nat, n: nat)
    requires n < |slots|
    ensures HasInactive(slots, handle, n + 1) <==>
            HasInactive(slots, handle, n) || (slots[n].handle == handle && !IsActive(slots[n]))
  {
  }

  lemma NotEmptyElsewhere(slots: seq<Slot>, i: nat)
    requires i < |slots|
    ensures !IsActive(slots[i]) ==> !HeldElsewhere(slots, i)
  {
  }

  lemma UndoRegister(slots: seq<Slot>, fs: seq<bytes>, handle: nat, qos: nat, after: seq<Slot>)
    requires ValidFilters(fs) && IsFresh(slots, handle)
    requires Dropped(Filled(slots, fs, handle, qos), after, handle, |slots|)
    ensures SameView(slots, after)
  {
    forall i | 0 <= i < |slots|
      ensures slots[i].filter == after[i].filter && (IsActive(slots[i]) ==> slots[i] == after[i])
    {
      FilledSlots(slots, fs, handle, qos, i);
    }
  }

  lemma SameViewSameFilters(a: seq<Slot>, b: seq<Slot>)
    requires SameView(a, b)
    ensures ActiveFilters(a) == ActiveFilters(b)
  {
    forall f | f in ActiveFilters(a) ensures f in ActiveFilters(b) {
      var i :| 0 <= i < |a| && IsActive(a[i]) && a[i].filter == f;
      assert b[i].filter == f;
    }
    forall f | f in ActiveFilters(b) ensures f in ActiveFilters(a) {
      var i :| 0 <= i < |b| && IsActive(b[i]) && b[i].filter == f;
      assert a[i].filter == f;
    }
  }

  // ---- The table ----

  class Table {
    const slots: array<Slot>
    /** The filters requested from the broker: subscribed to and not unsubscribed from since. */
    ghost var requested: set<bytes>
    /** Every filter sent in an unsubscribe request. */
    ghost var dropped: seq<bytes>

    ghost predicate Valid()
      reads this, slots
    {
      slots.Length == MAX_SUBSCRIPTIONS && [] !in requested
    }

    /** Between calls the broker has been asked for exactly the active filters. */
    ghost predicate InStep()
      reads this, slots
    {
      Valid() && requested == ActiveFilters(slots[..])
    }

    constructor ()
      ensures InStep() && ActiveFilters(slots[..]) == {} && fresh(slots)
    {
      slots := new Slot[MAX_SUBSCRIPTIONS](_ => Slot([], 0, 0));
      requested, dropped := {}, [];
    }

    /** Puts all filters into the table, or none. */
    method Register(fs: seq<bytes>, handle: nat, qos: nat) returns (status: Status)
      requires Valid() && fs != [] && IsFresh(slots[..], handle)
      modifies slots
      ensures status == Invalid <==> [] in fs
      ensures status == TooLong <==> [] !in fs && !ValidFilters(fs)
      ensures status == NoMemory <==> ValidFilters(fs) && |fs| > FreeCount(old(slots[..]))
      ensures status != BrokerFailed
      ensures status == Ok ==> slots[..] == Filled(old(slots[..]), fs, handle, qos)
      ensures status != Ok ==> SameView(old(slots[..]), slots[..])
    {
      ghost var s0 := slots[..];
      var i := 0;
      while i < |fs|
        invariant 0 <= i <= |fs| && forall k | 0 <= k < i :: fs[k] != []
      {
        if |fs[i]| == 0 { return Invalid; }
        i := i + 1;
      }
      i := 0;
      while i < |fs|
        invariant 0 <= i <= |fs| && forall k | 0 <= k < i :: 0 < |fs[k]| <= MAX_TOPIC_SIZE
      {
        if |fs[i]| > MAX_TOPIC_SIZE { return TooLong; }
        i := i + 1;
      }
      var placed := Fill(fs, handle, qos);
      if placed { return Ok; }
      Rollback(fs, handle, qos, s0);
      return NoMemory;
    }

    method Fill(fs: seq<bytes>, handle: nat, qos: nat) returns (placed: bool)
      requires Valid() && fs != [] && ValidFilters(fs)
      modifies slots
      ensures placed <==> |fs| <= FreeCount(old(slots[..]))
      ensures slots[..] == Filled(old(slots[..]), fs, handle, qos)
    {
      hide Filled, FreeCount, ValidFilters;
      ghost var s0 := slots[..];
      var i, k := 0, 0;
      assert s0[0..] == s0 && fs[0..] == fs && slots[..0] == [];
      while i < slots.Length
        invariant 0 <= i <= slots.Length && 0 <= k < |fs|
        invariant forall j | i <= j < slots.Length :: slots[j] == s0[j]
        invariant Filled(s0, fs, handle, qos) == slots[..i] + Filled(s0[i..], fs[k..], handle, qos)
        invariant k + FreeCount(s0[i..]) == FreeCount(s0)
      {
        FillStep(s0, fs, handle, qos, i, k, slots[..i]);
        ghost var before := slots[..i];
        if slots[i].filter == [] {
          slots[i] := Slot(fs[k], handle, qos);
          k := k + 1;
        }
        assert slots[..i + 1] == before + [slots[i]];
        i := i + 1;
        if k == |fs| {
          AllPlaced(s0[i..], handle, qos);
          assert fs[k..] == [];
          assert slots[..] == slots[..i] + s0[i..];
          return true;
        }
      }
      assert s0[i..] == [];
      NoSlots(fs[k..], handle, qos);
      assert slots[..] == slots[..i] + [];
      return false;
    }

    /** Takes back what a registration that did not fit has put in. */
    method Rollback(fs: seq<bytes>, handle: nat, qos: nat, ghost s0: seq<Slot>)
      requires Valid() && ValidFilters(fs) && IsFresh(s0, handle) && slots[..] == Filled(s0, fs, handle, qos)
      modifies slots
      ensures SameView(s0, slots[..])
    {
      ghost var s1 := slots[..];
      var i := 0;
      while i < slots.Length
        invariant 0 <= i <= slots.Length
        invariant Dropped(s1, slots[..], handle, i)
      {
        if slots[i].handle == handle { slots[i] := slots[i].(filter := []); }
        i := i + 1;
      }
      UndoRegister(s0, fs, handle, qos, slots[..]);
    }

    /** Whether another slot is active with the filter of slot `i`. */
    method IsHeldElsewhere(i: nat) returns (held: bool)
      requires Valid() && i < slots.Length
      ensures held <==> HeldElsewhere(slots[..], i)
    {
      var j := 0;
      while j < slots.Length
        invariant 0 <= j <= slots.Length
        invariant forall k | 0 <= k < j && k != i :: !(IsActive(slots[k]) && slots[k].filter == slots[i].filter)
      {
        if i != j && slots[j].filter != [] && slots[j].filter == slots[i].filter {
          assert slots[..][j].filter == slots[..][i].filter;
          return true;
        }
        j := j + 1;
      }
      return false;
    }

    /** Drops the subscriptions of a handle. With `unsubscribe`, the broker is told of exactly the filters that are
        no longer active, and also of an empty filter if a slot of the handle was inactive before. */
    method Unregister(handle: nat, unsubscribe: bool)
      requires Valid()
      modifies this, slots
      ensures Valid() && slots[..] == DropHandle(old(slots[..]), handle)
      ensures requested ==
              if unsubscribe then old(requested) - (ActiveFilters(old(slots[..])) - ActiveFilters(slots[..])) else old(requested)
      ensures !unsubscribe ==> dropped == old(dropped)
      ensures unsubscribe && old(InStep()) ==> InStep()
      ensures old(dropped) <= dropped
      ensures unsubscribe ==>
                var told := set f | f in dropped[|old(dropped)|..];
                && told - {[]} == ActiveFilters(old(slots[..])) - ActiveFilters(slots[..])
                && ([] in told <==> HasInactive(old(slots[..]), handle, MAX_SUBSCRIPTIONS))
    {
      hide ActiveFilters, HeldElsewhere, HasInactive;
      ghost var s0, d0, r0 := slots[..], dropped, requested;
      var i := 0;
      NothingDropped(s0, d0, r0, handle);
      while i < slots.Length
        invariant 0 <= i <= slots.Length && Valid()
        invariant Dropped(s0, slots[..], handle, i)
        invariant !unsubscribe ==> requested == r0 && dropped == d0
        invariant d0 <= dropped
        invariant unsubscribe ==> Told(s0, slots[..], dropped[|d0|..], r0, requested)
        invariant unsubscribe ==> ([] in dropped[|d0|..] <==> HasInactive(s0, handle, i))
      {
        MoreInactive(s0, handle, i);
        if slots[i].handle == handle {
          ghost var s1, d1, r1 := slots[..], dropped, requested;
          if unsubscribe {
            var held := IsHeldElsewhere(i);
            if !held {
              requested := requested - {slots[i].filter};
              dropped := dropped + [slots[i].filter];
              assert dropped[|d0|..] == d1[|d0|..] + [s1[i].filter];
            }
            NotEmptyElsewhere(s1, i);
            Telling(s0, s1, i, handle, d1[|d0|..], r0, r1);
          }
          slots[i] := slots[i].(filter := []);
          assert slots[..] == Cleared(s1, i);
        }
        i := i + 1;
      }
      DroppedIs(s0, slots[..], handle);
    }

    /** Handles a subscribe request of a new connection; `brokerOk` is the broker's answer. */
    method Subscribe(fs: seq<bytes>, handle: nat, qos: nat, brokerOk: bool) returns (status: Status)
      requires InStep() && fs != [] && IsFresh(slots[..], handle)
      modifies this, slots
      ensures InStep()
      ensures status == Ok ==> slots[..] == Filled(old(slots[..]), fs, handle, qos)
      ensures status == Ok ==> requested == old(requested) + set f | f in fs
      ensures status != Ok ==> SameView(old(slots[..]), slots[..]) && requested == old(requested)
      ensures status == Ok <==> ValidFilters(fs) && |fs| <= FreeCount(old(slots[..])) && brokerOk
      ensures dropped == old(dropped)
    {
      hide ActiveFilters, Filled, SameView, Dropped;
      ghost var s0 := slots[..];
      status := Register(fs, handle, qos);
      if status != Ok { SameViewSameFilters(s0, slots[..]); return; }
      if !brokerOk {
        Unregister(handle, false);
        UndoRegister(s0, fs, handle, qos, slots[..]);
        SameViewSameFilters(s0, slots[..]);
        return BrokerFailed;
      }
      FilledAdds(s0, fs, handle, qos);
      requested := requested + set f | f in fs;
    }

    /** Subscribes to every active filter again; `answers` are the broker's. A filter that is refused loses its
        slot. */
    method Resubscribe(answers: seq<bool>)
      requires Valid() && |answers| == MAX_SUBSCRIPTIONS
      modifies this, slots
      ensures Valid() && slots[..] == Kept(old(slots[..]), answers)
      ensures requested == old(requested) + ActiveFilters(slots[..])
      ensures dropped == old(dropped)
    {
      ghost var s0, r0 := slots[..], requested;
      var i := 0;
      assert slots[..0] == [];
      while i < slots.Length
        invariant 0 <= i <= slots.Length
        invariant forall k | i <= k < slots.Length :: slots[k] == s0[k]
        invariant forall k | 0 <= k < i :: slots[k] == Kept(s0, answers)[k]
        invariant requested == r0 + ActiveFilters(slots[..i])
        invariant dropped == old(dropped)
      {
        ghost var done := slots[..i];
        if slots[i].filter != [] {
          if answers[i] {
            requested := requested + {slots[i].filter};
          } else {
            slots[i] := slots[i].(filter := []);
          }
        }
        assert slots[..i + 1] == done + [slots[i]];
        ActiveExtends(done, slots[i]);
        i := i + 1;
      }
      assert slots[..i] == slots[..];
    }

    /** A reconnection without a session, with nothing else going on. */
    method Reconnect(answers: seq<bool>)
      requires Valid() && |answers| == MAX_SUBSCRIPTIONS
      modifies this, slots
      ensures InStep() && slots[..] == Kept(old(slots[..]), answers) && dropped == old(dropped)
    {
      requested := {};
      Resubscribe(answers);
    }
  }

  /** The slots that stay when the active ones are subscribed again and some are refused. */
  function Kept(slots: seq<Slot>, answers: seq<bool>): seq<Slot>
    requires |answers| == |slots|
  {
    seq(|slots|, i requires 0 <= i < |slots| =>
      if IsActive(slots[i]) && !answers[i] then slots[i].(filter := []) else slots[i])
  }

  lemma ActiveExtends(done: seq<Slot>, s: Slot)
    ensures ActiveFilters(done + [s]) == ActiveFilters(done) + if IsActive(s) then {s.filter} else {}
  {
    var all := done + [s];
    assert forall i | 0 <= i < |done| :: all[i] == done[i];
    forall f | f in ActiveFilters(done) ensures f in ActiveFilters(all) {
      var i :| 0 <= i < |done| && IsActive(done[i]) && done[i].filter == f;
      assert all[i].filter == f;
    }
    if IsActive(s) { assert all[|done|].filter == s.filter; }
  }

  /** The filters told to the broker are those that were active and no longer are, and count as not requested. */
  ghost predicate Told(s0: seq<Slot>, s: seq<Slot>, told: seq<bytes>, r0: set<bytes>, r: set<bytes>) {
    && (set f | f in told) - {[]} == ActiveFilters(s0) - ActiveFilters(s) && ActiveFilters(s) <= ActiveFilters(s0)
    && r == r0 - (ActiveFilters(s0) - ActiveFilters(s)) && [] !in r0
  }

  lemma NothingDropped(s0: seq<Slot>, d0: seq<bytes>, r0: set<bytes>, handle: nat)
    requires [] !in r0
    ensures !HasInactive(s0, handle, 0) && d0[|d0|..] == []
    ensures Told(s0, s0, d0[|d0|..], r0, r0) && Dropped(s0, s0, handle, 0)
  {
    hide ActiveFilters;
    var none := d0[|d0|..];
    assert none == [] && (set f | f in none) == {};
  }

  lemma Telling(s0: seq<Slot>, s1: seq<Slot>, i: nat, handle: nat, told: seq<bytes>, r0: set<bytes>, r1: set<bytes>)
    requires Told(s0, s1, told, r0, r1) && i < |s1|
    ensures if HeldElsewhere(s1, i) then Told(s0, Cleared(s1, i), told, r0, r1)
            else Told(s0, Cleared(s1, i), told + [s1[i].filter], r0, r1 - {s1[i].filter})
  {
    hide ActiveFilters, HeldElsewhere;
    ClearedFilters(s1, i);
    var f := s1[i].filter;
    if !HeldElsewhere(s1, i) {
      assert (set x | x in told + [f]) == (set x | x in told) + {f};
      OwnFilter(s1, i);
      OneLess(ActiveFilters(s0), ActiveFilters(s1), (set x | x in told), f);
    }
  }

  lemma OwnFilter(s: seq<Slot>, i: nat)
    requires i < |s|
    ensures s[i].filter != [] ==> s[i].filter in ActiveFilters(s)
    ensures [] !in ActiveFilters(s)
  {
  }

  lemma OneLess(a0: set<bytes>, a1: set<bytes>, told: set<bytes>, f: bytes)
    requires told - {[]} == a0 - a1 && a1 <= a0 && [] !in a1 && (f != [] ==> f in a1)
    ensures told + {f} - {[]} == a0 - (a1 - {f})
  {
    forall x
      ensures x in told + {f} - {[]} <==> x in a0 - (a1 - {f})
    {
      assert x in told - {[]} <==> x in a0 - a1;
    }
  }
}
