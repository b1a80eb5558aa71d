/** The store of unacknowledged MQTT publishes of `iotcored/src/mqtt.c`: a record table over one byte
    buffer that is compacted on every free. */
module PacketStore {
  import opened Buffer

  /** `IOTCORED_MQTT_MAX_PUBLISH_RECORDS` and `IOTCORED_UNACKED_PACKET_BUFFER_SIZE`. */
  const MAX_RECORDS: nat := 10
  const BUFFER_SIZE: nat := 15000

  /** A record; a packet id of 0 marks a free one. `at` is the packet's offset, `NULL` for a free record. */
  datatype Record = Record(id: nat, at: int, len: nat)

  const NULL: int := -1
  const FREE: Record := Record(0, NULL, 0)

  datatype Packet = Packet(id: nat, data: bytes)

  // ---- The abstract store: the live packets in order ----

  function Flatten(ps: seq<Packet>): bytes {
    if ps == [] then [] else ps[0].data + Flatten(ps[1..])
  }

  function Offset(ps: seq<Packet>, i: nat): nat
    requires i <= |ps|
  {
    |Flatten(ps[..i])|
  }

  /** The record that describes packet `i`. */
  function RecordOf(ps: seq<Packet>, i: nat): Record
    requires i < |ps|
  {
    Record(ps[i].id, Offset(ps, i), |ps[i].data|)
  }

  predicate Fits(ps: seq<Packet>, len: nat) {
    |ps| < MAX_RECORDS && |Flatten(ps)| + len <= BUFFER_SIZE
  }

  /** The first packet with the given id, or `|ps|`. */
  function IndexOf(ps: seq<Packet>, id: nat): (i: nat)
    ensures i <= |ps|
    ensures i < |ps| ==> ps[i].id == id
    ensures forall j | 0 <= j < i :: ps[j].id != id
  {
    if ps == [] || ps[0].id == id then 0 else 1 + IndexOf(ps[1..], id)
  }

  /** The first packet whose bytes start at the same offset as packet `i`: the one a free by address finds. */
  function FirstAt(ps: seq<Packet>, i: nat): (first: nat)
    requires i < |ps|
    ensures first <= i
  {
    if i == 0 || ps[i - 1].data != [] then i else FirstAt(ps, i - 1)
  }

  function Without(ps: seq<Packet>, i: nat): seq<Packet>
    requires i < |ps|
  {
    ps[..i] + ps[i + 1..]
  }

  function Cleared(ps: seq<Packet>, id: nat): seq<Packet> {
    var i := IndexOf(ps, id);
    if i < |ps| then Without(ps, FirstAt(ps, i)) else ps
  }

  lemma {:induction false} FlattenConcat(a: seq<Packet>, b: seq<Packet>)
    ensures Flatten(a + b) == Flatten(a) + Flatten(b)
  {
    if a == [] {
      assert a + b == b;
    } else {
      assert (a + b)[1..] == a[1..] + b;
      FlattenConcat(a[1..], b);
    }
  }

  lemma FlattenOne(p: Packet)
    ensures Flatten([p]) == p.data
  {
    assert [p][1..] == [] && p.data + [] == p.data;
  }

  lemma FlattenAround(ps: seq<Packet>, i: nat)
    requires i < |ps|
    ensures Flatten(ps[..i + 1]) == Flatten(ps[..i]) + ps[i].data
    ensures Flatten(ps) == Flatten(ps[..i]) + ps[i].data + Flatten(ps[i + 1..])
    ensures Flatten(Without(ps, i)) == Flatten(ps[..i]) + Flatten(ps[i + 1..])
  {
    hide Flatten, Without;
    SplitAround(ps, i);
    FlattenParts(ps[..i], ps[i], ps[i + 1..]);
  }

  lemma SplitAround(ps: seq<Packet>, i: nat)
    requires i < |ps|
    ensures ps[..i + 1] == ps[..i] + [ps[i]]
    ensures ps == ps[..i] + [ps[i]] + ps[i + 1..]
    ensures Without(ps, i) == ps[..i] + ps[i + 1..]
  {
  }

  lemma FlattenParts(a: seq<Packet>, p: Packet, c: seq<Packet>)
    ensures Flatten(a + [p]) == Flatten(a) + p.data
    ensures Flatten(a + [p] + c) == Flatten(a) + p.data + Flatten(c)
    ensures Flatten(a + c) == Flatten(a) + Flatten(c)
  {
    hide Flatten;
    FlattenConcat(a, [p]);
    FlattenOne(p);
    FlattenConcat(a + [p], c);
    FlattenConcat(a, c);
  }

  /** Packets tile the flattened bytes without gaps. */
  lemma Tile(ps: seq<Packet>, i: nat)
    requires i < |ps|
    ensures Offset(ps, i + 1) == Offset(ps, i) + |ps[i].data| <= |Flatten(ps)|
    ensures Flatten(ps)[Offset(ps, i)..Offset(ps, i + 1)] == ps[i].data
    ensures Flatten(Without(ps, i)) == Flatten(ps)[..Offset(ps, i)] + Flatten(ps)[Offset(ps, i + 1)..]
  {
    FlattenAround(ps, i);
    Slices(Flatten(ps[..i]), ps[i].data, Flatten(ps[i + 1..]));
  }

  lemma Slices(a: bytes, d: bytes, b: bytes)
    ensures (a + d + b)[|a|..|a| + |d|] == d
    ensures (a + d + b)[..|a|] == a && (a + d + b)[|a| + |d|..] == b
  {
  }

  lemma {:induction false} OffsetsGrow(ps: seq<Packet>, i: nat, j: nat)
    requires i <= j <= |ps|
    ensures Offset(ps, i) <= Offset(ps, j)
    ensures Offset(ps, i) == Offset(ps, j) <==> forall k | i <= k < j :: ps[k].data == []
  {
    if i < j {
      OffsetsGrow(ps, i, j - 1);
      Tile(ps, j - 1);
    }
  }

  lemma {:induction false} FirstAtIs(ps: seq<Packet>, i: nat)
    requires i < |ps|
    ensures FirstAt(ps, i) <= i && Offset(ps, FirstAt(ps, i)) == Offset(ps, i)
    ensures forall j | 0 <= j < FirstAt(ps, i) :: Offset(ps, j) != Offset(ps, i)
  {
    if i == 0 {
    } else if ps[i - 1].data != [] {
      forall j | 0 <= j < i ensures Offset(ps, j) != Offset(ps, i) {
        OffsetsGrow(ps, j, i);
      }
    } else {
      FirstAtIs(ps, i - 1);
      OffsetsGrow(ps, i - 1, i);
    }
  }

  /** Clearing an id removes that id's packet exactly when no empty packet sits right before it; otherwise
      another packet goes and the one asked for stays. */
  lemma FreesTheRightPacket(ps: seq<Packet>, id: nat)
    requires IndexOf(ps, id) < |ps|
    ensures var i := IndexOf(ps, id);
            && (Cleared(ps, id) == Without(ps, i) <==> i == 0 || ps[i - 1].data != [])
            && (i != 0 && ps[i - 1].data == [] ==> ps[i] in Cleared(ps, id))
  {
    var i := IndexOf(ps, id);
    if i != 0 && ps[i - 1].data == [] {
      var f := FirstAt(ps, i);
      assert f == FirstAt(ps, i - 1) <= i - 1;
      assert Without(ps, f)[i - 1] == ps[i];
      assert Without(ps, i)[i - 1] == ps[i - 1];
    }
  }

  class Store {
    const records: array<Record>
    const buffer: array<byte>
    ghost var live: seq<Packet>

    /** The records describe the packets in order, and all others are free. */
    ghost predicate RecordsMatch(ps: seq<Packet>)
      reads records
    {
      && records.Length == MAX_RECORDS && |ps| <= MAX_RECORDS
      && (forall i | 0 <= i < |ps| ::
            records[i] == RecordOf(ps, i) && records[i].id != 0)
      && (forall i | |ps| <= i < MAX_RECORDS :: records[i] == FREE)
    }

    /** The packets' bytes fill the buffer from offset 0 without gaps. */
    ghost predicate BytesMatch(ps: seq<Packet>)
      reads buffer
    {
      && buffer.Length == BUFFER_SIZE && |Flatten(ps)| <= BUFFER_SIZE
      && buffer[..|Flatten(ps)|] == Flatten(ps)
    }

    ghost predicate Valid()
      reads this, records, buffer
    {
      RecordsMatch(live) && BytesMatch(live)
    }

    constructor ()
      ensures Valid() && fresh(records) && fresh(buffer)
      ensures live == []
    {
      records := new Record[MAX_RECORDS](_ => FREE);
      buffer := new byte[BUFFER_SIZE](_ => 0);
      live := [];
    }

    /** The loop both `mqtt_pub_alloc` and `mqtt_store_packet` start with. */
    method FirstFree() returns (i: nat)
      requires Valid()
      ensures i == |live|
    {
      i := 0;
      while i < MAX_RECORDS && records[i].id != 0
        invariant i <= |live|
      {
        i := i + 1;
      }
    }

    /** `mqtt_pub_alloc`: the offset after the last packet, if a record is free and the bytes fit. */
    method Alloc(length: nat) returns (at: int)
      requires Valid()
      ensures at == if Fits(live, length) then |Flatten(live)| else NULL
    {
      var i := FirstFree();
      if i == MAX_RECORDS { return NULL; }
      var filled := 0;
      if i != 0 {
        filled := records[i - 1].at + records[i - 1].len;
        Tile(live, i - 1);
      }
      assert live[..i] == live;
      if BUFFER_SIZE - filled < length { return NULL; }
      return filled;
    }

    /** `mqtt_store_packet`. */
    method StorePacket(id: nat, packet: bytes) returns (ok: bool)
      requires Valid() && id != 0
      modifies this, records, buffer
      ensures Valid()
      ensures ok <==> Fits(old(live), |packet|)
      ensures live == if ok then old(live) + [Packet(id, packet)] else old(live)
    {
      var i := FirstFree();
      if i == MAX_RECORDS { return false; }
      var at := Alloc(|packet|);
      if at == NULL { return false; }
      ghost var before := buffer[..];
      forall k | 0 <= k < |packet| {
        buffer[at + k] := packet[k];
      }
      records[i] := Record(id, at, |packet|);
      live := live + [Packet(id, packet)];
      StoredTail(old(live), Packet(id, packet));
      assert buffer[..at] == before[..at];
      assert buffer[..at + |packet|] == buffer[..at] + packet;
      return true;
    }

    static lemma StoredTail(ps: seq<Packet>, p: Packet)
      ensures Flatten(ps + [p]) == Flatten(ps) + p.data
      ensures forall i | 0 <= i <= |ps| :: Offset(ps + [p], i) == Offset(ps, i)
      ensures Offset(ps, |ps|) == |Flatten(ps)|
    {
      hide Flatten;
      FlattenConcat(ps, [p]);
      FlattenOne(p);
      assert ps[..|ps|] == ps;
      forall i | 0 <= i <= |ps| ensures Offset(ps + [p], i) == Offset(ps, i) {
        assert (ps + [p])[..i] == ps[..i];
      }
    }

    /** `mqtt_retrieve_packet`: the address and length stored for an id. */
    method RetrievePacket(id: nat) returns (found: bool, at: int, len: nat)
      requires Valid() && id != 0
      ensures found <==> IndexOf(live, id) < |live|
      ensures found ==> 0 <= at <= at + len <= BUFFER_SIZE
      ensures found ==> buffer[at..at + len] == live[IndexOf(live, id)].data
    {
      var i := 0;
      at, len := NULL, 0;
      while i < MAX_RECORDS
        invariant i <= MAX_RECORDS
        invariant forall j | 0 <= j < i && j < |live| :: live[j].id != id
      {
        if records[i].id == id {
          Tile(live, i);
          assert buffer[..|Flatten(live)|][records[i].at..records[i].at + records[i].len] == live[i].data;
          return true, records[i].at, records[i].len;
        }
        i := i + 1;
      }
      found := false;
    }

    /** The search of `mqtt_pub_free`: the first live record at that address. */
    method FindAt(ptr: int) returns (i: nat)
      requires Valid()
      ensures i <= MAX_RECORDS
      ensures i < MAX_RECORDS ==> i < |live| && Offset(live, i) == ptr
      ensures forall j | 0 <= j < i && j < |live| :: Offset(live, j) != ptr
    {
      i := 0;
      while i < MAX_RECORDS && !(records[i].id != 0 && records[i].at == ptr)
        invariant i <= MAX_RECORDS
        invariant forall j | 0 <= j < i && j < |live| :: Offset(live, j) != ptr
      {
        i := i + 1;
      }
    }

    /** The `memmove` and `memset` of `mqtt_pub_free`. */
    method CloseGap(at: nat, len: nat, move: bool)
      requires buffer.Length == BUFFER_SIZE && at + len <= BUFFER_SIZE
      modifies buffer
      ensures buffer[..BUFFER_SIZE - len] ==
              if move then old(buffer[..at]) + old(buffer[at + len..]) else old(buffer[..BUFFER_SIZE - len])
      ensures forall k | BUFFER_SIZE - len <= k < BUFFER_SIZE :: buffer[k] == 0
    {
      if move {
        forall k | at <= k < BUFFER_SIZE - len {
          buffer[k] := buffer[k + len];
        }
      }
      forall k | BUFFER_SIZE - len <= k < BUFFER_SIZE {
        buffer[k] := 0;
      }
    }

    /** The record compaction of `mqtt_pub_free`. */
    method CloseRecord(start: nat, len: nat, ghost ps: seq<Packet>)
      requires start < |ps| && RecordsMatch(ps) && len == |ps[start].data|
      modifies records
      ensures RecordsMatch(Without(ps, start))
    {
      hide RecordOf;
      WithoutRecords(ps, start);
      var i := start;
      while i < MAX_RECORDS - 1 && records[i + 1].id != 0
        invariant start <= i < |ps|
        invariant forall j | 0 <= j < i :: records[j] == RecordOf(Without(ps, start), j) && records[j].id != 0
        invariant forall j | i <= j < MAX_RECORDS :: records[j] == old(records[j])
      {
        records[i] := Moved(records[i + 1], len);
        i := i + 1;
      }
      records[i] := FREE;
    }

    /** `mqtt_pub_free`, once the record is found. */
    method FreeAt(i: nat)
      requires Valid() && i < |live|
      modifies this, records, buffer
      ensures Valid() && live == Without(old(live), i)
    {
      hide Flatten;
      Tile(live, i);
      var at, len := records[i].at, records[i].len;
      ghost var was := buffer[..];
      CloseGap(at, len, i != MAX_RECORDS - 1);
      CloseRecord(i, len, live);
      GapClosed(live, i, was, buffer[..], i != MAX_RECORDS - 1);
      live := Without(live, i);
    }

    /** `mqtt_pub_free`. */
    method Free(ptr: int)
      requires Valid()
      modifies this, records, buffer
      ensures Valid()
      ensures (forall j | 0 <= j < |old(live)| :: Offset(old(live), j) != ptr) ==> live == old(live)
      ensures forall i | 0 <= i < |old(live)| && Offset(old(live), i) == ptr &&
                (forall j | 0 <= j < i :: Offset(old(live), j) != ptr) :: live == Without(old(live), i)
    {
      var i := FindAt(ptr);
      if i == MAX_RECORDS { return; }
      FreeAt(i);
    }

    static function Moved(r: Record, len: nat): Record {
      Record(r.id, r.at - len, r.len)
    }

    static lemma WithoutRecords(ps: seq<Packet>, i: nat)
      requires i < |ps|
      ensures forall j | 0 <= j < i :: RecordOf(Without(ps, i), j) == RecordOf(ps, j)
      ensures forall j | i <= j < |ps| - 1 :: RecordOf(Without(ps, i), j) == Moved(RecordOf(ps, j + 1), |ps[i].data|)
    {
      forall j | 0 <= j < i ensures RecordOf(Without(ps, i), j) == RecordOf(ps, j) {
        assert Without(ps, i)[..j] == ps[..j];
      }
      forall j | i <= j < |ps| - 1 ensures RecordOf(Without(ps, i), j) == Moved(RecordOf(ps, j + 1), |ps[i].data|) {
        assert Without(ps, i)[..j] == Without(ps[..j + 1], i);
        Tile(ps[..j + 1], i);
        assert ps[..j + 1][..i] == ps[..i] && ps[..j + 1][..i + 1] == ps[..i + 1];
      }
    }

    static lemma GapClosed(ps: seq<Packet>, i: nat, was: bytes, now: bytes, move: bool)
      requires i < |ps| <= MAX_RECORDS && |was| == |now| == BUFFER_SIZE
      requires |Flatten(ps)| <= BUFFER_SIZE && was[..|Flatten(ps)|] == Flatten(ps)
      requires !move ==> i == |ps| - 1
      requires var at, len := Offset(ps, i), |ps[i].data|;
               && at + len <= BUFFER_SIZE
               && now[..BUFFER_SIZE - len] == if move then was[..at] + was[at + len..] else was[..BUFFER_SIZE - len]
      ensures |Flatten(Without(ps, i))| == |Flatten(ps)| - |ps[i].data|
      ensures now[..|Flatten(Without(ps, i))|] == Flatten(Without(ps, i))
    {
      hide Flatten, Offset;
      Tile(ps, i);
      var at, len, total := Offset(ps, i), |ps[i].data|, |Flatten(ps)|;
      if !move {
        assert ps[..i + 1] == ps;
        LastOffset(ps);
      }
      CutOut(was, now, at, len, total, move);
    }

    static lemma LastOffset(ps: seq<Packet>)
      ensures Offset(ps, |ps|) == |Flatten(ps)|
    {
      assert ps[..|ps|] == ps;
    }

    static lemma CutOut(was: bytes, now: bytes, at: nat, len: nat, total: nat, move: bool)
      requires at + len <= total <= |was| == |now| && (!move ==> total == at + len)
      requires now[..|was| - len] == if move then was[..at] + was[at + len..] else was[..|was| - len]
      ensures now[..total - len] == was[..total][..at] + was[..total][at + len..]
    {
      assert now[..total - len] == now[..|was| - len][..total - len];
    }

    /** `mqtt_clear_packet`. */
    method ClearPacket(id: nat)
      requires Valid()
      modifies this, records, buffer
      ensures Valid()
      ensures id != 0 ==> live == Cleared(old(live), id)
      ensures id == 0 ==> live == old(live)
    {
      var i := FirstWithId(id);
      if i == MAX_RECORDS { return; }
      if i < |live| { FirstAtIs(live, i); }
      Free(records[i].at);
    }

    method FirstWithId(id: nat) returns (i: nat)
      requires Valid()
      ensures i <= MAX_RECORDS
      ensures i < MAX_RECORDS ==> records[i].id == id
      ensures i == MAX_RECORDS ==> forall j | 0 <= j < MAX_RECORDS :: records[j].id != id
      ensures forall j | 0 <= j < i && j < |live| :: live[j].id != id
    {
      i := 0;
      while i < MAX_RECORDS
        invariant 0 <= i <= MAX_RECORDS
        invariant forall j | 0 <= j < i :: records[j].id != id
        invariant forall j | 0 <= j < i && j < |live| :: live[j].id != id
      {
        if records[i].id == id { return; }
        i := i + 1;
      }
    }
  }

  // ---- Whole runs ----

  datatype Op = StoreOp(packet: Packet) | ClearOp(id: nat)

  function Step(ps: seq<Packet>, op: Op): seq<Packet> {
    match op
    case StoreOp(p) => if Fits(ps, |p.data|) then ps + [p] else ps
    case ClearOp(id) => Cleared(ps, id)
  }

  function Run(ops: seq<Op>): seq<Packet> {
    if ops == [] then [] else Step(Run(ops[..|ops| - 1]), ops[|ops| - 1])
  }

  function Lookup(ps: seq<Packet>, id: nat): Option<bytes> {
    var i := IndexOf(ps, id);
    if i < |ps| then Some(ps[i].data) else None
  }

  /** What a run should have left for an id: the last accepted store, unless cleared since. */
  function Expected(ops: seq<Op>, id: nat): Option<bytes> {
    if ops == [] then None
    else
      var before := ops[..|ops| - 1];
      match ops[|ops| - 1]
      case StoreOp(p) =>
        if p.id == id && Fits(Run(before), |p.data|) then Some(p.data) else Expected(before, id)
      case ClearOp(c) => if c == id then None else Expected(before, id)
  }

  /** Clients never reuse a live id and never store an empty packet. */
  ghost predicate Proper(ops: seq<Op>) {
    forall k | 0 <= k < |ops| ::
      ops[k].StoreOp? ==>
        var p := ops[k].packet;
        p.data != [] && Lookup(Run(ops[..k]), p.id) == None
  }

  ghost predicate Clean(ps: seq<Packet>) {
    && (forall i | 0 <= i < |ps| :: ps[i].data != [])
    && (forall i, j | 0 <= i < j < |ps| :: ps[i].id != ps[j].id)
  }

  /** Over every run the table holds exactly the packets that were accepted and not cleared, byte for byte. */
  lemma {:induction false} RunKeepsPackets(ops: seq<Op>, id: nat)
    requires Proper(ops)
    ensures Clean(Run(ops)) && |Run(ops)| <= MAX_RECORDS && |Flatten(Run(ops))| <= BUFFER_SIZE
    ensures Lookup(Run(ops), id) == Expected(ops, id)
  {
    if ops != [] {
      var before, op := ops[..|ops| - 1], ops[|ops| - 1];
      assert forall k | 0 <= k < |before| :: before[..k] == ops[..k];
      RunKeepsPackets(before, id);
      var ps := Run(before);
      match op
      case StoreOp(p) =>
        FlattenConcat(ps, [p]);
        FlattenOne(p);
        LookupAppend(ps, p, id);
        LookupAppend(ps, p, p.id);
      case ClearOp(c) =>
        var i := IndexOf(ps, c);
        if i < |ps| {
          FreesTheRightPacket(ps, c);
          Tile(ps, i);
          LookupWithout(ps, i, id);
        }
    }
  }

  /** An empty packet is stored under id 1 and another under id 2. Clearing 2 removes 1 instead. */
  lemma EmptyPacketRun()
    ensures var ops := [StoreOp(Packet(1, [])), StoreOp(Packet(2, [7])), ClearOp(2)];
            && Run(ops) == [Packet(2, [7])]
            && Expected(ops, 1) == Some([]) && Lookup(Run(ops), 1) == None
            && Expected(ops, 2) == None && Lookup(Run(ops), 2) == Some([7])
  {
    var p1, p2 := Packet(1, []), Packet(2, [7]);
    var ops := [StoreOp(p1), StoreOp(p2), ClearOp(2)];
    var one, two := [StoreOp(p1)], [StoreOp(p1), StoreOp(p2)];
    assert one[..0] == [] && two[..1] == one && ops[..2] == two;
    assert Fits([], 0) && Run(one) == [p1];
    FlattenOne(p1);
    assert Fits([p1], 1) && Run(two) == [p1, p2];
    assert [p1, p2][1..] == [p2];
    assert IndexOf([p1, p2], 2) == 1 && FirstAt([p1, p2], 1) == 0;
    assert Without([p1, p2], 0) == [p2];
  }

  lemma LookupAppend(ps: seq<Packet>, p: Packet, id: nat)
    requires Lookup(ps, p.id) == None
    ensures Lookup(ps + [p], id) == if id == p.id then Some(p.data) else Lookup(ps, id)
  {
    var i := IndexOf(ps + [p], id);
    var j := IndexOf(ps, id);
    if j < |ps| { assert (ps + [p])[j].id == id; }
    if i < |ps| { assert (ps + [p])[i] == ps[i]; }
    if id == p.id { assert (ps + [p])[|ps|].id == id; }
  }

  lemma LookupWithout(ps: seq<Packet>, i: nat, id: nat)
    requires Clean(ps) && i < |ps|
    ensures Clean(Without(ps, i))
    ensures Lookup(Without(ps, i), id) == if id == ps[i].id then None else Lookup(ps, id)
  {
    hide IndexOf;
    var qs := Without(ps, i);
    assert forall k | 0 <= k < |qs| :: qs[k] == if k < i then ps[k] else ps[k + 1];
    var a, b := IndexOf(qs, id), IndexOf(ps, id);
    if b < |ps| && b != i { assert qs[if b < i then b else b - 1].id == id; }
    if a < |qs| { assert ps[if a < i then a else a + 1].id == id; }
  }
}
