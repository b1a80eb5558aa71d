/** Handles for pooled sockets (`ggl-socket/src/socket_handle.c`): a slot number and a 16-bit generation. */
module SocketPool {
  const FD_FREE: int := -0x5555_5556
  const WRAP: int := 0x1_0000

  type u16 = x: int | 0 <= x < 0x1_0000
  type u32 = x: int | 0 <= x < 0x1_0000_0000

  datatype Status = Ok | Invalid | NoEntry | NoMemory | CallbackFailed

  // ---- Handles ----

  function HandleOf(slot: nat, generation: u16): (h: u32)
    requires slot < 0xFFFF
    ensures h != 0
  {
    generation as int * WRAP + slot + 1
  }

  /** The slot a handle names; 65535 for a handle whose low half is zero. */
  function SlotOf(h: u32): u16 { (h as int % WRAP + 0xFFFF) % WRAP }

  function GenerationOf(h: u32): u16 { h as int / WRAP }

  lemma HandleParts(slot: nat, generation: u16)
    requires slot < 0xFFFF
    ensures SlotOf(HandleOf(slot, generation)) == slot && GenerationOf(HandleOf(slot, generation)) == generation
  {
  }

  // ---- The history of a pool ----

  /** A successful registration: the slot, how often the slot had been released before, and the descriptor. */
  datatype Ticket = Ticket(slot: nat, count: nat, fd: int)

  /** The descriptors in the slots, how often each slot has been released, all tickets so far, and every
      descriptor given back by a release. */
  datatype History = History(fds: seq<int>, releases: seq<nat>, tickets: seq<Ticket>, returned: multiset<int>)

  function Generation(count: nat): u16 { count % WRAP }

  function TicketHandle(t: Ticket): u32
    requires t.slot < 0xFFFF
  {
    HandleOf(t.slot, Generation(t.count))
  }

  ghost predicate IsLive(h: History, t: Ticket) { t.slot < |h.releases| && t.count == h.releases[t.slot] }

  /** How `validate_handle` judges a handle. */
  function Judged(h: History, handle: u32): Status {
    var slot := SlotOf(handle);
    if slot >= |h.releases| then Invalid
    else if GenerationOf(handle) != Generation(h.releases[slot]) then NoEntry
    else Ok
  }

  /** The ticket of an occupied slot. */
  ghost predicate Holds(h: History, i: nat)
    requires i < |h.fds| == |h.releases|
  {
    h.fds[i] >= 0 && Ticket(i, h.releases[i], h.fds[i]) in h.tickets
  }

  ghost predicate Consistent(h: History) {
    && |h.fds| == |h.releases| <= 0xFFFF
    && (forall t | t in h.tickets :: t.slot < |h.fds| && t.fd >= 0 && t.count <= h.releases[t.slot])
    && (forall t | t in h.tickets && IsLive(h, t) :: h.fds[t.slot] == t.fd)
    && (forall i: nat | i < |h.fds| && h.fds[i] != FD_FREE :: Holds(h, i))
    && Distinct(h.tickets)
  }

  ghost predicate Distinct(ts: seq<Ticket>) {
    forall i, j | 0 <= i < j < |ts| :: ts[i].slot != ts[j].slot || ts[i].count != ts[j].count
  }

  function Register(h: History, slot: nat, fd: int): History
    requires slot < |h.fds| == |h.releases|
  {
    h.(fds := h.fds[slot := fd], tickets := h.tickets + [Ticket(slot, h.releases[slot], fd)])
  }

  function Release(h: History, slot: nat): History
    requires slot < |h.fds| == |h.releases|
  {
    History(h.fds[slot := FD_FREE], h.releases[slot := h.releases[slot] + 1], h.tickets,
            if h.fds[slot] == FD_FREE then h.returned else h.returned + multiset{h.fds[slot]})
  }

  lemma RegisterKeeps(h: History, slot: nat, fd: int)
    requires Consistent(h) && slot < |h.fds| && h.fds[slot] == FD_FREE && fd >= 0
    ensures Consistent(Register(h, slot, fd))
  {
    var h1 := Register(h, slot, fd);
    var t0 := Ticket(slot, h.releases[slot], fd);
    forall t | t in h.tickets
      ensures t.slot != slot || t.count < h.releases[slot]
    {
      if t.slot == slot && t.count == h.releases[slot] { assert IsLive(h, t); }
    }
    forall t | t in h1.tickets && IsLive(h1, t)
      ensures h1.fds[t.slot] == t.fd
    {
      if t != t0 { assert t in h.tickets && IsLive(h, t); }
    }
    forall i: nat | i < |h1.fds| && h1.fds[i] != FD_FREE
      ensures Holds(h1, i)
    {
      if i != slot { assert Holds(h, i); }
    }
    forall i, j | 0 <= i < j < |h1.tickets|
      ensures h1.tickets[i].slot != h1.tickets[j].slot || h1.tickets[i].count != h1.tickets[j].count
    {
      if j == |h.tickets| { assert h1.tickets[i] in h.tickets; }
    }
  }

  lemma ReleaseKeeps(h: History, slot: nat)
    requires Consistent(h) && slot < |h.fds|
    ensures Consistent(Release(h, slot))
  {
    var h1 := Release(h, slot);
    forall t | t in h1.tickets && IsLive(h1, t)
      ensures h1.fds[t.slot] == t.fd
    {
      assert IsLive(h, t);
    }
    forall i: nat | i < |h1.fds| && h1.fds[i] != FD_FREE
      ensures Holds(h1, i)
    {
      assert Holds(h, i);
    }
  }

  // ---- What handles are worth ----

  lemma SameResidue(a: nat, b: nat)
    requires b <= a
    ensures Generation(a) == Generation(b) <==> (a - b) % WRAP == 0
  {
    var qa, qb, d := a / WRAP, b / WRAP, a - b;
    if a % WRAP == b % WRAP {
      assert d == (qa - qb) * WRAP;
      Multiple(qa - qb, d);
    }
    if d % WRAP == 0 {
      assert a == b + d / WRAP * WRAP;
      AddMultiple(b, d / WRAP);
    }
  }

  lemma Multiple(q: int, d: nat)
    requires d == q * WRAP
    ensures d % WRAP == 0
  {
  }

  lemma {:induction false} AddMultiple(b: nat, q: nat)
    ensures (b + q * WRAP) % WRAP == b % WRAP
    decreases q
  {
    if q > 0 {
      AddMultiple(b, q - 1);
      assert b + q * WRAP == b + (q - 1) * WRAP + WRAP;
    }
  }

  /** An issued handle is accepted exactly when the slot has since been released a multiple of 65536 times: while
      it is live, and again each time the generation wraps. */
  lemma AcceptedIff(h: History, t: Ticket)
    requires Consistent(h) && t in h.tickets
    ensures Judged(h, TicketHandle(t)) == Ok <==> (h.releases[t.slot] - t.count) % WRAP == 0
    ensures Judged(h, TicketHandle(t)) != Ok ==> Judged(h, TicketHandle(t)) == NoEntry
    ensures SlotOf(TicketHandle(t)) == t.slot
  {
    HandleParts(t.slot, Generation(t.count));
    SameResidue(h.releases[t.slot], t.count);
  }

  /** Before the generation wraps, exactly the live handles are accepted, each for its own descriptor. */
  lemma LiveOnly(h: History, t: Ticket)
    requires Consistent(h) && t in h.tickets && h.releases[t.slot] - t.count < WRAP
    ensures Judged(h, TicketHandle(t)) == Ok <==> IsLive(h, t)
    ensures IsLive(h, t) ==> h.fds[SlotOf(TicketHandle(t))] == t.fd
  {
    AcceptedIff(h, t);
  }

  /** No two live tickets have the same handle. */
  lemma LiveHandlesDiffer(h: History, i: nat, j: nat)
    requires Consistent(h) && i < j < |h.tickets| && IsLive(h, h.tickets[i]) && IsLive(h, h.tickets[j])
    ensures TicketHandle(h.tickets[i]) != TicketHandle(h.tickets[j])
  {
    var s, t := h.tickets[i], h.tickets[j];
    assert s in h.tickets && t in h.tickets;
    HandleParts(s.slot, Generation(s.count));
    HandleParts(t.slot, Generation(t.count));
  }

  // ---- Runs ----

  /** A registration into the first free slot, with the callback's answer, or a release through an issued
      handle. */
  datatype Op = RegisterOp(fd: int, callbackOk: bool) | ReleaseOp(ticket: nat, callbackOk: bool)

  function FirstFree(fds: seq<int>): (i: nat)
    ensures i <= |fds|
    ensures i < |fds| ==> fds[i] == FD_FREE
    ensures forall k | 0 <= k < i :: fds[k] != FD_FREE
    decreases |fds|
  {
    if fds == [] || fds[0] == FD_FREE then 0 else FirstFree(fds[1..]) + 1
  }

  function Step(h: History, op: Op): History
    requires |h.fds| == |h.releases|
  {
    match op
    case RegisterOp(fd, callbackOk) =>
      var i := FirstFree(h.fds);
      if fd < 0 || i == |h.fds| || !callbackOk then h else Register(h, i, fd)
    case ReleaseOp(k, callbackOk) =>
      if k >= |h.tickets| || h.tickets[k].slot >= 0xFFFF then h
      else
        var handle := TicketHandle(h.tickets[k]);
        if Judged(h, handle) != Ok || !callbackOk then h else Release(h, SlotOf(handle))
  }

  function Run(h: History, ops: seq<Op>): History
    requires |h.fds| == |h.releases|
  {
    if ops == [] then h
    else
      var h1 := Run(h, ops[..|ops| - 1]);
      if |h1.fds| == |h1.releases| then Step(h1, ops[|ops| - 1]) else h1
  }

  /** The descriptors of tickets. */
  ghost function Fds(ts: seq<Ticket>): multiset<int> {
    if ts == [] then multiset{} else Fds(ts[..|ts| - 1]) + multiset{ts[|ts| - 1].fd}
  }

  ghost function InSlots(fds: seq<int>): multiset<int> { multiset(fds)[FD_FREE := 0] }

  /** Nothing is lost and nothing is given back twice: each registered descriptor is in a slot or has been
      returned, as often as it was registered. */
  ghost predicate Conserved(h: History) { Fds(h.tickets) == InSlots(h.fds) + h.returned }

  lemma UpdateMultiset(s: seq<int>, i: nat, x: int)
    requires i < |s|
    ensures multiset(s[i := x]) == multiset(s) - multiset{s[i]} + multiset{x}
  {
    assert s == s[..i] + [s[i]] + s[i + 1..];
    assert s[i := x] == s[..i] + [x] + s[i + 1..];
  }

  lemma RegisterConserves(h: History, slot: nat, fd: int)
    requires Conserved(h) && slot < |h.fds| == |h.releases| && h.fds[slot] == FD_FREE && fd >= 0
    ensures Conserved(Register(h, slot, fd))
  {
    var h1 := Register(h, slot, fd);
    UpdateMultiset(h.fds, slot, fd);
    assert h1.tickets[..|h1.tickets| - 1] == h.tickets;
    assert InSlots(h1.fds) == InSlots(h.fds) + multiset{fd};
  }

  lemma ReleaseConserves(h: History, slot: nat)
    requires Conserved(h) && slot < |h.fds| == |h.releases|
    ensures Conserved(Release(h, slot))
  {
    UpdateMultiset(h.fds, slot, FD_FREE);
    var fd := h.fds[slot];
    assert fd in multiset(h.fds);
    if fd != FD_FREE { assert InSlots(h.fds) == InSlots(Release(h, slot).fds) + multiset{fd}; }
    else { assert InSlots(h.fds) == InSlots(Release(h, slot).fds); }
  }

  function Empty(n: nat): History { History(seq(n, _ => FD_FREE), seq(n, _ => 0), [], multiset{}) }

  /** After any run of registrations and of releases through issued handles, the pool is consistent and
      descriptors are conserved. */
  lemma {:induction false} RunKeeps(n: nat, ops: seq<Op>)
    requires n <= 0xFFFF
    ensures Consistent(Run(Empty(n), ops)) && Conserved(Run(Empty(n), ops)) && |Run(Empty(n), ops).fds| == n
    decreases |ops|
  {
    hide Fds, InSlots;
    if ops == [] {
      NothingYet(n);
    } else {
      RunKeeps(n, ops[..|ops| - 1]);
      var h, op := Run(Empty(n), ops[..|ops| - 1]), ops[|ops| - 1];
      StepKeeps(h, op);
    }
  }

  lemma NothingYet(n: nat)
    ensures Conserved(Empty(n))
  {
    assert forall x :: x in multiset(Empty(n).fds) ==> x == FD_FREE;
    assert InSlots(Empty(n).fds) == multiset{};
  }

  lemma StepKeeps(h: History, op: Op)
    requires Consistent(h) && Conserved(h)
    ensures Consistent(Step(h, op)) && Conserved(Step(h, op)) && |Step(h, op).fds| == |h.fds|
  {
    hide Fds, InSlots, Consistent, Conserved, FirstFree;
    Sizes(h);
    match op
    case RegisterOp(fd, callbackOk) =>
      var i := FirstFree(h.fds);
      if fd >= 0 && i < |h.fds| && callbackOk {
        RegisterKeeps(h, i, fd);
        RegisterConserves(h, i, fd);
      }
    case ReleaseOp(k, callbackOk) =>
      if k < |h.tickets| && h.tickets[k].slot < 0xFFFF {
        var handle := TicketHandle(h.tickets[k]);
        if Judged(h, handle) == Ok && callbackOk {
          ReleaseKeeps(h, SlotOf(handle));
          ReleaseConserves(h, SlotOf(handle));
        }
      }
  }

  lemma Sizes(h: History)
    requires Consistent(h)
    ensures |h.fds| == |h.releases| <= 0xFFFF
  {
  }

  // ---- The pool itself ----

  class Pool {
    const maxFds: nat
    const fds: array<int>
    const generations: array<u16>
    ghost var history: History
    /** The descriptors closed so far. */
    ghost var closed: multiset<int>

    ghost predicate Valid()
      reads this, fds, generations
    {
      && fds.Length == generations.Length == maxFds <= 0xFFFF && fds as object != generations as object
      && fds[..] == history.fds && |history.releases| == maxFds
      && (forall i | 0 <= i < maxFds :: generations[i] == Generation(history.releases[i]))
      && Consistent(history) && Conserved(history) && closed <= history.returned
    }

    constructor (n: nat)
      requires n <= 0xFFFF
      ensures Valid() && maxFds == n && history == Empty(n) && closed == multiset{} && fresh(fds) && fresh(generations)
    {
      maxFds := n;
      fds := new int[n](_ => FD_FREE);
      generations := new u16[n](_ => 0);
      history, closed := Empty(n), multiset{};
      new;
      assert fds[..] == Empty(n).fds;
      RunKeeps(n, []);
    }

    /** The slot of a handle, if the handle is accepted. */
    method Validate(handle: u32) returns (status: Status, index: u16)
      requires Valid()
      ensures status == Judged(history, handle)
      ensures status == Ok ==> index == SlotOf(handle) && index < maxFds
    {
      index := SlotOf(handle);
      if index >= maxFds { return Invalid, index; }
      if GenerationOf(handle) != generations[index] { return NoEntry, index; }
      return Ok, index;
    }

    /** Puts a descriptor into the first free slot; `callbackOk` is the answer of the pool's callback. */
    method RegisterFd(fd: int, callbackOk: bool) returns (status: Status, handle: u32)
      requires Valid()
      modifies this, fds
      ensures Valid() && closed == old(closed)
      ensures history == Step(old(history), RegisterOp(fd, callbackOk))
      ensures status == Ok <==> history != old(history)
      ensures status == Ok ==> handle == TicketHandle(history.tickets[|history.tickets| - 1])
      ensures status == Invalid <==> fd < 0
      ensures status == NoMemory <==> fd >= 0 && forall i | 0 <= i < maxFds :: old(history).fds[i] != FD_FREE
    {
      hide Consistent, Conserved;
      handle := 0;
      if fd < 0 { return Invalid, 0; }
      var i := 0;
      while i < maxFds
        invariant 0 <= i <= maxFds
        invariant forall k | 0 <= k < i :: history.fds[k] != FD_FREE
      {
        if fds[i] == FD_FREE {
          assert FirstFree(history.fds) == i;
          fds[i] := fd;
          handle := HandleOf(i, generations[i]);
          if !callbackOk {
            fds[i] := FD_FREE;
            assert fds[..] == history.fds;
            return CallbackFailed, 0;
          }
          RegisterKeeps(history, i, fd);
          RegisterConserves(history, i, fd);
          history := Register(history, i, fd);
          return Ok, handle;
        }
        i := i + 1;
      }
      assert FirstFree(history.fds) == maxFds;
      return NoMemory, 0;
    }

    /** Frees the slot of an accepted handle and gives back its descriptor. */
    method ReleaseHandle(handle: u32, callbackOk: bool) returns (status: Status, fd: int)
      requires Valid()
      modifies this, fds, generations
      ensures Valid() && closed == old(closed)
      ensures Judged(old(history), handle) != Ok ==> status == Judged(old(history), handle)
      ensures Judged(old(history), handle) == Ok ==> status == if callbackOk then Ok else CallbackFailed
      ensures status == Ok ==> SlotOf(handle) < maxFds && history == Release(old(history), SlotOf(handle)) && fd == old(history).fds[SlotOf(handle)]
      ensures status != Ok ==> history == old(history)
    {
      hide Consistent, Conserved;
      var s, index := Validate(handle);
      if s != Ok { return s, -1; }
      if !callbackOk { return CallbackFailed, -1; }
      fd := fds[index];
      NextGeneration(history.releases[index]);
      ReleaseKeeps(history, index);
      ReleaseConserves(history, index);
      generations[index] := (generations[index] as int + 1) % WRAP;
      fds[index] := FD_FREE;
      history := Release(history, index);
      status := Ok;
    }

    /** Releases an accepted handle and closes what was in its slot: no descriptor is closed more often than it
        was registered. */
    method CloseHandle(handle: u32, callbackOk: bool) returns (status: Status)
      requires Valid()
      modifies this, fds, generations
      ensures Valid() && closed <= Fds(history.tickets)
      ensures Judged(old(history), handle) != Ok ==> status == Judged(old(history), handle)
      ensures Judged(old(history), handle) == Ok ==> status == if callbackOk then Ok else CallbackFailed
      ensures status != Ok ==> history == old(history) && closed == old(closed)
      ensures status == Ok ==> SlotOf(handle) < maxFds && history == Release(old(history), SlotOf(handle))
      ensures status == Ok ==> var fd := old(history).fds[SlotOf(handle)];
                closed == if fd == FD_FREE then old(closed) else old(closed) + multiset{fd}
    {
      hide Consistent, Fds, InSlots;
      var fd;
      status, fd := ReleaseHandle(handle, callbackOk);
      if status == Ok && fd != FD_FREE { closed := closed + multiset{fd}; }
    }
  }

  lemma NextGeneration(n: nat)
    ensures Generation(n + 1) == (Generation(n) as int + 1) % WRAP
  {
  }
}
