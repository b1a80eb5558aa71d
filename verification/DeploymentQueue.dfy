/** The deployment queue (`ggdeploymentd/src/deployment_queue.c`): a ring of ten slots that refines a first-in
    first-out sequence. */
module DeploymentQueue {
  import opened Buffer

  const SIZE: nat := 10

  /** Bytes of memory of each slot. */
  const MEM_SIZE: nat := 5000

  datatype State = Queued | InProgress

  /** A record as it reads: the id at the start of its slot's memory, and behind it everything else that was copied
      there, the document. */
  datatype Deployment = Deployment(id: bytes, doc: bytes, state: State)

  datatype Status = Ok | NotReplaceable | Busy | NoMemory

  // ---- The queue as a sequence ----

  predicate DistinctIds(q: seq<Deployment>) {
    forall i, j | 0 <= i < j < |q| :: q[i].id != q[j].id
  }

  /** Ids are distinct and only the head can be in progress. */
  predicate Proper(q: seq<Deployment>) {
    && |q| <= SIZE && DistinctIds(q)
    && forall i | 0 < i < |q| :: q[i].state == Queued
  }

  /** The position of a deployment with this id; the length if there is none. */
  function Position(q: seq<Deployment>, id: bytes): (i: nat)
    ensures i <= |q|
    ensures i < |q| ==> q[i].id == id
    ensures forall k | 0 <= k < i :: q[k].id != id
    decreases |q|
  {
    if q == [] || q[0].id == id then 0 else Position(q[1..], id) + 1
  }

  /** What a caller offers: an id and the pieces of the document, which are copied one after the other. */
  datatype Offer = Offer(id: bytes, parts: seq<bytes>)

  function Flat(pieces: seq<bytes>): bytes {
    if pieces == [] then [] else pieces[0] + Flat(pieces[1..])
  }

  /** What is copied into `room` bytes: the pieces up to the first that does not fit. */
  function Copied(pieces: seq<bytes>, room: nat): (w: bytes)
    ensures |w| <= room
  {
    if pieces == [] || |pieces[0]| > room then [] else pieces[0] + Copied(pieces[1..], room - |pieces[0]|)
  }

  lemma {:induction false} CopiedAll(pieces: seq<bytes>, room: nat)
    ensures Copied(pieces, room) <= Flat(pieces)
    ensures |Flat(pieces)| <= room ==> Copied(pieces, room) == Flat(pieces)
  {
    if pieces != [] && |pieces[0]| <= room { CopiedAll(pieces[1..], room - |pieces[0]|); }
  }

  function Pieces(o: Offer): seq<bytes> { [o.id] + o.parts }

  predicate Fits(o: Offer) { |Flat(Pieces(o))| <= MEM_SIZE }

  /** How a record reads once `w` has been copied over the start of its memory: its lengths and its state stay. */
  function Spoil(d: Deployment, w: bytes): (r: Deployment)
    ensures |r.id| == |d.id| && |r.doc| == |d.doc| && r.state == d.state
  {
    var was := d.id + d.doc;
    var now := if |w| >= |was| then w[..|was|] else w + was[|w|..];
    Deployment(now[..|d.id|], now[|d.id|..], d.state)
  }

  function Verdict(q: seq<Deployment>, o: Offer): Status {
    var i := Position(q, o.id);
    if i < |q| && q[i].state != Queued then NotReplaceable
    else if i == |q| && |q| >= SIZE then Busy
    else if !Fits(o) then NoMemory
    else Ok
  }

  function Fresh(o: Offer): Deployment { Deployment(o.id, Flat(o.parts), Queued) }

  function Accepted(q: seq<Deployment>, o: Offer): seq<Deployment> {
    var i := Position(q, o.id);
    if i < |q| then q[i := Fresh(o)] else q + [Fresh(o)]
  }

  lemma AcceptedIsProper(q: seq<Deployment>, o: Offer)
    requires Proper(q) && Verdict(q, o) == Ok
    ensures Proper(Accepted(q, o))
    ensures q != [] && q[0].state == InProgress ==> Accepted(q, o)[0] == q[0]
  {
  }

  /** The queue after a copy that did not fit. The record is not replaced, but its memory holds part of the copy; a
      slot just taken in has the record of its last use, `stale`. */
  function SpoiltQueue(q: seq<Deployment>, o: Offer, stale: Deployment): seq<Deployment> {
    var i, w := Position(q, o.id), Copied(Pieces(o), MEM_SIZE);
    if i < |q| then q[i := Spoil(q[i], w)] else q + [Spoil(stale, w)]
  }

  /** A record whose id is as long as the new one reads with the new id. */
  lemma SpoiltId(d: Deployment, o: Offer)
    requires |o.id| <= MEM_SIZE && |d.id| == |o.id|
    ensures Spoil(d, Copied(Pieces(o), MEM_SIZE)).id == o.id
  {
    var w := Copied(Pieces(o), MEM_SIZE);
    assert Pieces(o)[0] == o.id && w[..|o.id|] == o.id;
    var was := d.id + d.doc;
    if |w| >= |was| { assert w[..|was|][..|o.id|] == w[..|o.id|]; } else { assert (w + was[|w|..])[..|o.id|] == w[..|o.id|]; }
  }

  /** Putting another record with the same id and state in place of one keeps the queue proper. */
  lemma SameIdIsProper(q: seq<Deployment>, i: nat, d: Deployment)
    requires Proper(q) && i < |q| && d.id == q[i].id && d.state == q[i].state
    ensures Proper(q[i := d])
  {
    var s := q[i := d];
    assert forall k | 0 <= k < |q| :: s[k].id == q[k].id && s[k].state == q[k].state;
  }

  /** A record at the end is proper exactly when no other has its id and it is not in progress behind the head. */
  lemma AppendedIsProper(q: seq<Deployment>, d: Deployment)
    requires Proper(q) && |q| < SIZE
    ensures Proper(q + [d]) <==> (forall k | 0 <= k < |q| :: q[k].id != d.id) && (q != [] ==> d.state == Queued)
  {
    var s := q + [d];
    assert s[|q|] == d && forall k | 0 <= k < |q| :: s[k] == q[k];
    if Proper(s) {
      forall k | 0 <= k < |q| ensures q[k].id != d.id { assert s[k].id != s[|q|].id; }
    }
  }

  /** A deployment that could not be replaced keeps its id, so the queue stays proper, with its document spoilt. A
      slot newly taken in leaves the queue proper exactly when no deployment has the id that is read there now, and
      it is not marked as in progress behind the head. */
  lemma SpoiltIsProper(q: seq<Deployment>, o: Offer, stale: Deployment)
    requires Proper(q) && Verdict(q, o) == NoMemory && forall d | d in q :: |d.id| <= MEM_SIZE
    ensures var i, d := Position(q, o.id), Spoil(stale, Copied(Pieces(o), MEM_SIZE));
            Proper(SpoiltQueue(q, o, stale)) <==>
            i < |q| || ((forall k | 0 <= k < |q| :: q[k].id != d.id) && (q != [] ==> stale.state == Queued))
  {
    hide Spoil, Copied, Pieces, Proper, Position, Fits;
    var i, w := Position(q, o.id), Copied(Pieces(o), MEM_SIZE);
    if i < |q| {
      assert q[i] in q;
      SpoiltId(q[i], o);
      SameIdIsProper(q, i, Spoil(q[i], w));
    } else {
      AppendedIsProper(q, Spoil(stale, w));
    }
  }

  // ---- Runs ----

  datatype Op = Enqueue(o: Offer) | Dequeue | Release

  /** The queue with the ids taken in and let out so far, in order. */
  datatype Log = Log(queue: seq<Deployment>, entered: seq<bytes>, left: seq<bytes>)

  /** A dequeue on an empty queue waits; a release is made only by the holder of the head. */
  predicate Enabled(q: seq<Deployment>, op: Op) {
    match op
    case Enqueue(o) => Verdict(q, o) != NoMemory
    case Dequeue => q != []
    case Release => q != [] && q[0].state == InProgress
  }

  function Step(s: Log, op: Op): Log
    requires Enabled(s.queue, op)
  {
    match op
    case Enqueue(o) =>
      if Verdict(s.queue, o) != Ok then s
      else Log(Accepted(s.queue, o), s.entered + if Position(s.queue, o.id) < |s.queue| then [] else [o.id], s.left)
    case Dequeue => s.(queue := s.queue[0 := s.queue[0].(state := InProgress)])
    case Release => Log(s.queue[1..], s.entered, s.left + [s.queue[0].id])
  }

  function Ids(q: seq<Deployment>): seq<bytes> { seq(|q|, i requires 0 <= i < |q| => q[i].id) }

  /** First in, first out: what has left and what is waiting is what has entered, in the same order. */
  ghost predicate Ordered(s: Log) { Proper(s.queue) && s.left + Ids(s.queue) == s.entered }

  lemma StepKeepsOrder(s: Log, op: Op)
    requires Ordered(s) && Enabled(s.queue, op)
    ensures Ordered(Step(s, op))
  {
    var s1 := Step(s, op);
    match op
    case Enqueue(o) =>
      if Verdict(s.queue, o) == Ok {
        AcceptedIsProper(s.queue, o);
        if Position(s.queue, o.id) < |s.queue| {
          assert Ids(s1.queue) == Ids(s.queue);
        } else {
          assert Ids(s1.queue) == Ids(s.queue) + [o.id];
          assert s.left + (Ids(s.queue) + [o.id]) == s.left + Ids(s.queue) + [o.id];
        }
      }
    case Dequeue => assert Ids(s1.queue) == Ids(s.queue);
    case Release =>
      assert Ids(s.queue) == [s.queue[0].id] + Ids(s1.queue);
      assert s.left + ([s.queue[0].id] + Ids(s1.queue)) == s.left + [s.queue[0].id] + Ids(s1.queue);
  }

  ghost predicate IsRun(states: seq<Log>, ops: seq<Op>) {
    && |states| == |ops| + 1 && states[0] == Log([], [], [])
    && forall i | 0 <= i < |ops| :: Enabled(states[i].queue, ops[i]) && states[i + 1] == Step(states[i], ops[i])
  }

  /** Every state of every run is ordered. */
  lemma {:induction false} RunIsOrdered(states: seq<Log>, ops: seq<Op>, n: nat)
    requires IsRun(states, ops) && n < |states|
    ensures Ordered(states[n])
    decreases n
  {
    if n == 0 {
      assert [] + Ids([]) == [];
    } else {
      RunIsOrdered(states, ops, n - 1);
      StepKeepsOrder(states[n - 1], ops[n - 1]);
    }
  }

  /** A deployment in progress stays as it is, at the head, until it is released. */
  lemma {:induction false} InProgressIsStable(states: seq<Log>, ops: seq<Op>, m: nat, n: nat)
    requires IsRun(states, ops) && m <= n < |states|
    requires states[m].queue != [] && states[m].queue[0].state == InProgress
    requires forall i | m <= i < n :: !ops[i].Release?
    ensures states[n].queue != [] && states[n].queue[0] == states[m].queue[0]
    decreases n
  {
    if m < n {
      InProgressIsStable(states, ops, m, n - 1);
      RunIsOrdered(states, ops, n - 1);
      assert !ops[n - 1].Release? && states[n] == Step(states[n - 1], ops[n - 1]);
      var q := states[n - 1].queue;
      if ops[n - 1].Enqueue? && Verdict(q, ops[n - 1].o) == Ok { AcceptedIsProper(q, ops[n - 1].o); }
    }
  }

  // ---- The ring ----

  /** The slot of the deployment at position `i` when the head is in slot `index`. */
  function SlotAt(index: nat, i: nat): (slot: nat)
    ensures slot < SIZE
  {
    (index + i) % SIZE
  }

  lemma SlotsDiffer(index: nat, i: nat, j: nat)
    requires i < SIZE && j < SIZE && i != j
    ensures SlotAt(index, i) != SlotAt(index, j)
  {
  }

  class Ring {
    const slots: array<Deployment>
    var index: nat
    var count: nat

    ghost predicate Valid()
      reads this, slots
    {
      slots.Length == SIZE && index < SIZE && count <= SIZE
    }

    /** The waiting deployments, oldest first. */
    ghost function Contents(): (q: seq<Deployment>)
      requires Valid()
      reads this, slots
      ensures |q| == count
    {
      seq(count, i requires 0 <= i < count && Valid() reads this, slots => slots[SlotAt(index, i)])
    }

    constructor ()
      ensures Valid() && Contents() == [] && fresh(slots)
      ensures forall s | 0 <= s < SIZE :: slots[s] == Deployment([], [], Queued)
    {
      slots := new Deployment[SIZE](_ => Deployment([], [], Queued));
      index, count := 0, 0;
    }

    /** The slot of the waiting deployment with this id. */
    method GetMatching(id: bytes) returns (found: bool, slot: nat)
      requires Valid()
      ensures slot < SIZE
      ensures found <==> Position(Contents(), id) < count
      ensures found ==> slot == SlotAt(index, Position(Contents(), id))
    {
      ghost var q := Contents();
      var i := 0;
      while i < count
        invariant 0 <= i <= count
        invariant forall k | 0 <= k < i :: q[k].id != id
      {
        slot := SlotAt(index, i);
        if slots[slot].id == id {
          assert q[i] == slots[slot];
          return true, slot;
        }
        assert q[i] == slots[slot];
        i := i + 1;
      }
      return false, 0;
    }

    /** Overwrites the deployment at position `p`. */
    method Put(slot: nat, d: Deployment, ghost p: nat)
      requires Valid() && p < count && slot == SlotAt(index, p)
      modifies slots
      ensures Valid() && Contents() == old(Contents())[p := d]
      ensures forall s | 0 <= s < SIZE && s != slot :: slots[s] == old(slots[s])
    {
      hide SlotAt;
      ghost var q := Contents();
      forall k | 0 <= k < count && k != p ensures SlotAt(index, k) != slot { SlotsDiffer(index, k, p); }
      slots[slot] := d;
      assert forall k | 0 <= k < count && k != p :: Contents()[k] == q[k];
    }

    /** Takes the slot behind the last deployment into the queue, with what it holds. */
    method Grow() returns (slot: nat)
      requires Valid() && count < SIZE
      modifies this`count
      ensures Valid() && slot == SlotAt(index, old(count)) && count == old(count) + 1
      ensures Contents() == old(Contents()) + [slots[slot]]
    {
      hide SlotAt;
      slot := SlotAt(index, count);
      count := count + 1;
    }

    /** Adds a deployment, or replaces a queued one with the same id. A copy that does not fit spoils the slot,
        which by then is part of the queue. */
    method EnqueueDeployment(o: Offer) returns (status: Status)
      requires Valid()
      modifies this`count, slots
      ensures Valid()
      ensures status == Verdict(old(Contents()), o)
      ensures status == Ok ==> Contents() == Accepted(old(Contents()), o)
      ensures forall k | count <= k < SIZE :: slots[SlotAt(index, k)] == old(slots[SlotAt(index, k)])
      ensures status == NotReplaceable || status == Busy ==> Contents() == old(Contents())
      ensures status == NoMemory ==>
                Contents() == SpoiltQueue(old(Contents()), o, old(slots[SlotAt(index, count)]))
    {
      hide SlotAt;
      ghost var p := Position(Contents(), o.id);
      var found, slot := GetMatching(o.id);
      if found {
        assert Contents()[p] == slots[slot];
        if slots[slot].state != Queued { return NotReplaceable; }
      } else {
        if count >= SIZE { return Busy; }
        slot := Grow();
      }
      forall k | count <= k < SIZE ensures SlotAt(index, k) != slot { SlotsDiffer(index, k, p); }
      var w := Copied(Pieces(o), MEM_SIZE);
      CopiedAll(Pieces(o), MEM_SIZE);
      if |Flat(Pieces(o))| > MEM_SIZE {
        Put(slot, Spoil(slots[slot], w), p);
        return NoMemory;
      }
      Put(slot, Fresh(o), p);
      return Ok;
    }

    /** Marks the head as in progress and hands out its slot. */
    method DequeueDeployment() returns (slot: nat)
      requires Valid() && count > 0
      modifies slots
      ensures Valid() && slot == index
      ensures Contents() == old(Contents())[0 := old(Contents())[0].(state := InProgress)]
      ensures slots[slot] == Contents()[0]
    {
      assert SlotAt(index, 0) == index;
      assert Contents()[0] == slots[index];
      Put(index, slots[index].(state := InProgress), 0);
      return index;
    }

    /** Removes the head. */
    method ReleaseDeployment(slot: nat)
      requires Valid() && count > 0 && slot == index
      modifies this`count, this`index
      ensures Valid() && Contents() == old(Contents())[1..]
    {
      ghost var q, first := Contents(), index;
      count := count - 1;
      index := (index + 1) % SIZE;
      forall i | 0 <= i < count ensures Contents()[i] == q[1..][i] {
        assert SlotAt(index, i) == SlotAt(first, i + 1);
      }
    }
  }

  /** Two deployments that do not fit into an unused ring leave two records with the same, empty, id. */
  method SpoilsTwice(a: Offer, b: Offer) returns (ring: Ring)
    requires !Fits(a) && !Fits(b) && a.id != [] && b.id != []
    ensures ring.Valid() && |ring.Contents()| == 2 && !DistinctIds(ring.Contents())
  {
    hide Spoil, Fits, SlotAt;
    ring := new Ring();
    var _ := ring.EnqueueDeployment(a);
    assert ring.Contents()[0].id == [];
    assert ring.slots[SlotAt(ring.index, 1)].id == [];
    var _ := ring.EnqueueDeployment(b);
    assert ring.Contents()[0].id == ring.Contents()[1].id;
  }
}
