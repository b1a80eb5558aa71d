/** Reading the binary object format of `core-bus/src/object_serde.c`: an explicit stack of slots still to
    be filled, in memory taken from a bump allocator. */
module ObjectDecode {
  import opened Buffer
  import opened Objects
  import opened Words
  import opened ObjectSerde

  // ---- The recursive reader ----

  /** What a head announces: a finished value, or a collection of `n` entries. */
  datatype HeadRead = Leaf(o: Obj) | Open(isMap: bool, n: nat)

  /** `read_buf_raw`. */
  function ReadBuf(b: bytes): (r: Option<(bytes, bytes)>)
    ensures r.Some? ==> |r.value.1| < |b|
  {
    if |b| < 4 || ReadLe(b[..4]) > |b| - 4 then None
    else Some((b[4..4 + ReadLe(b[..4])], b[4 + ReadLe(b[..4])..]))
  }

  /** `read_obj`, without what it allocates and pushes. A boolean is true for every byte but 0. */
  function ReadHead(b: bytes): (r: Option<(HeadRead, bytes)>)
    ensures r.Some? ==> |r.value.1| < |b|
    ensures r.Some? && r.value.0.Leaf? ==> !r.value.0.o.Collection?
  {
    if b == [] then None
    else if b[0] == 0 then Some((Leaf(Null), b[1..]))
    else if b[0] == 1 then if |b| < 2 then None else Some((Leaf(Bool(b[1] != 0)), b[2..]))
    else if b[0] == 2 then if |b| < 9 then None else Some((Leaf(I64(FromUint64(ReadUint64(b[1..9])))), b[9..]))
    else if b[0] == 3 then if |b| < 9 then None else Some((Leaf(F64(ReadUint64(b[1..9]))), b[9..]))
    else if b[0] == 4 then
      match ReadBuf(b[1..]) case None => None case Some((d, rest)) => Some((Leaf(Buf(d)), rest))
    else if b[0] == 5 || b[0] == 6 then
      if |b| < 5 then None else Some((Open(b[0] == 6, ReadLe(b[1..5])), b[5..]))
    else None
  }

  function ReadUint64(b: bytes): uint64
    requires |b| == 8
  {
    Pow256Values();
    ReadLe(b)
  }

  function ReadKey(b: bytes, isMap: bool): (r: Option<(bytes, bytes)>)
    ensures r.Some? ==> |r.value.1| <= |b|
  {
    if isMap then ReadBuf(b) else Some(([], b))
  }

  function Decoded(b: bytes): (r: Option<(Obj, bytes)>)
    ensures r.Some? ==> |r.value.1| < |b|
    decreases |b|, 0
  {
    match ReadHead(b)
    case None => None
    case Some((Leaf(o), rest)) => Some((o, rest))
    case Some((Open(isMap, n), rest)) =>
      match DecodedEntries(rest, isMap, n)
      case None => None
      case Some((es, rest')) => Some((Collection(isMap, es), rest'))
  }

  function DecodedEntries(b: bytes, isMap: bool, n: nat): (r: Option<(seq<KV>, bytes)>)
    ensures r.Some? ==> |r.value.1| <= |b| && |r.value.0| == n
    decreases |b|, 1, n
  {
    if n == 0 then Some(([], b))
    else match ReadKey(b, isMap)
      case None => None
      case Some((key, b1)) =>
        match Decoded(b1)
        case None => None
        case Some((o, b2)) =>
          match DecodedEntries(b2, isMap, n - 1)
          case None => None
          case Some((es, b3)) => Some(([KV(key, o)] + es, b3))
  }

  // ---- Reading inverts writing ----

  lemma ReadBufOf(d: bytes, t: bytes)
    requires |d| <= UINT32_MAX
    ensures ReadBuf(EncodedBuf(d) + t) == Some((d, t))
  {
    Pow256Values();
    ReadOfLe(|d|, 4);
    var b := EncodedBuf(d) + t;
    assert b[..4] == Le(|d|, 4) && b[4..4 + |d|] == d && b[4 + |d|..] == t;
  }

  lemma ReadUint64Of(tag: byte, x: uint64, t: bytes)
    ensures var b := [tag] + Le(x, 8) + t;
            |b| >= 9 && ReadUint64(b[1..9]) == x && b[9..] == t
  {
    var b := [tag] + Le(x, 8) + t;
    assert b[1..9] == Le(x, 8) && b[9..] == t;
    Pow256Values();
    ReadOfLe(x, 8);
  }

  lemma ReadLengthOf(tag: byte, n: nat, t: bytes)
    requires n <= UINT32_MAX
    ensures var b := [tag] + Le(n, 4) + t;
            |b| >= 5 && ReadLe(b[1..5]) == n && b[5..] == t
  {
    var b := [tag] + Le(n, 4) + t;
    assert b[1..5] == Le(n, 4) && b[5..] == t;
    Pow256Values();
    ReadOfLe(n, 4);
  }

  lemma ReadHeadOf(o: Obj, t: bytes)
    requires HeadFits(o)
    ensures ReadHead(Head(o) + t) ==
            Some((if o.Collection? then Open(o.isMap, |o.entries|) else Leaf(o), t))
  {
    hide ReadBuf, EncodedBuf, ReadUint64, Le, ReadLe;
    match o
    case Null => assert ([0] + t)[1..] == t;
    case Bool(x) => assert (Head(o) + t)[2..] == t;
    case I64(i) => ReadUint64Of(2, ToUint64(i), t);
    case F64(bits) => ReadUint64Of(3, bits, t);
    case Buf(d) =>
      ReadBufOf(d, t);
      assert (Head(o) + t)[1..] == EncodedBuf(d) + t;
    case Collection(isMap, es) => ReadLengthOf(if isMap then 6 else 5, |es|, t);
  }

  lemma {:induction false} DecodedOf(o: Obj, t: bytes)
    requires WellFormed(o) && LengthsFit(o)
    ensures Decoded(Encoded(o) + t) == Some((o, t))
    decreases o, 0
  {
    if o.Collection? {
      var es := EncodedEntries(o.isMap, o.entries);
      Associate(Head(o), es, t);
      ReadHeadOf(o, es + t);
      DecodedEntriesOf(o.isMap, o.entries, t);
    } else {
      assert Encoded(o) == Head(o);
      ReadHeadOf(o, t);
    }
  }

  lemma Regroup(a: bytes, b: bytes, c: bytes, d: bytes)
    ensures a + b + c + d == a + (b + (c + d))
  {
  }

  lemma ReadKeyOf(isMap: bool, e: KV, t: bytes)
    requires if isMap then |e.key| <= UINT32_MAX else e.key == []
    ensures ReadKey(EncodedKey(isMap, e) + t, isMap) == Some((e.key, t))
  {
    if isMap { ReadBufOf(e.key, t); } else { assert EncodedKey(isMap, e) + t == t; }
  }

  lemma {:induction false} DecodedEntriesOf(isMap: bool, es: seq<KV>, t: bytes)
    requires WellFormedEntries(isMap, es) && EntryLengthsFit(isMap, es)
    ensures DecodedEntries(EncodedEntries(isMap, es) + t, isMap, |es|) == Some((es, t))
    decreases es, 1
  {
    hide ReadKey, EncodedKey, Decoded, Encoded;
    var b := EncodedEntries(isMap, es) + t;
    if es == [] {
      assert b == t;
    } else {
      var tail := EncodedEntries(isMap, es[1..]) + t;
      var b1 := Encoded(es[0].val) + tail;
      Regroup(EncodedKey(isMap, es[0]), Encoded(es[0].val), EncodedEntries(isMap, es[1..]), t);
      ReadKeyOf(isMap, es[0], b1);
      DecodedOf(es[0].val, tail);
      DecodedEntriesOf(isMap, es[1..], t);
      assert es == [es[0]] + es[1..];
    }
  }

  // ---- Costs: nesting and memory ----

  /** Non-empty collections nest at most `room` deep: an empty one takes no level when reading. */
  predicate ReadDepthFits(o: Obj, room: int)
    decreases o, 0
  {
    o.Collection? && o.entries != [] ==> room > 0 && EntryReadDepthsFit(o.entries, room - 1)
  }

  predicate EntryReadDepthsFit(es: seq<KV>, room: int)
    decreases es, 1
  {
    es == [] || (ReadDepthFits(es[0].val, room) && EntryReadDepthsFit(es[1..], room))
  }

  /** Whatever nests shallowly enough to be written can be read back. */
  lemma {:induction false} WritableIsReadable(o: Obj, room: int)
    requires DepthFits(o, room)
    ensures ReadDepthFits(o, room)
    decreases o, 0
  {
    if o.Collection? { WritableEntriesAreReadable(o.entries, room - 1); }
  }

  lemma {:induction false} WritableEntriesAreReadable(es: seq<KV>, room: int)
    requires EntryDepthsFit(es, room)
    ensures EntryReadDepthsFit(es, room)
    decreases es, 1
  {
    if es != [] {
      WritableIsReadable(es[0].val, room);
      WritableEntriesAreReadable(es[1..], room);
    }
  }

  // ---- Memory ----

  /** Where a bump allocator at index `at` places what is aligned to eight bytes. */
  function Aligned(at: nat): (i: nat)
    ensures at <= i < at + 8 && i % 8 == 0
  {
    at + (8 - at % 8) % 8
  }

  /** The allocator's index after the bytes `d` were taken, which costs memory only if they are copied. */
  function AfterBuf(copy: bool, d: bytes, at: nat): nat { if copy then at + |d| else at }

  /** The index after the slots of a collection were taken; an empty one takes none. */
  function AfterSlots(isMap: bool, n: nat, at: nat): nat { if n == 0 then at else Aligned(at) + Cost(isMap, n) }

  /** The index after an object has been read. */
  function After(copy: bool, o: Obj, at: nat): (i: nat)
    ensures at <= i
    decreases o, 0
  {
    match o
    case Buf(d) => AfterBuf(copy, d, at)
    case Collection(isMap, es) => AfterAll(copy, es, AfterSlots(isMap, |es|, at))
    case _ => at
  }

  function AfterAll(copy: bool, es: seq<KV>, at: nat): (i: nat)
    ensures at <= i
    decreases es, 1
  {
    if es == [] then at else AfterAll(copy, es[1..], After(copy, es[0].val, AfterBuf(copy, es[0].key, at)))
  }

  function AfterEntry(copy: bool, e: KV, at: nat): (i: nat)
    ensures at <= i
  {
    After(copy, e.val, AfterBuf(copy, e.key, at))
  }

  lemma AlignedSlots(isMap: bool, n: nat, at: nat)
    requires at % 8 == 0
    ensures AfterSlots(isMap, n, at) == at + Cost(isMap, n) && (at + Cost(isMap, n)) % 8 == 0
  {
    assert Aligned(at) == at;
    var half: nat := n * if isMap then 5 else 3;
    assert Cost(isMap, n) == 8 * half;
  }

  /** Without copies there is no padding: an object takes exactly the bytes of its slots. */
  lemma {:induction false} UncopiedNeed(o: Obj, at: nat)
    requires at % 8 == 0
    ensures After(false, o, at) == at + Need(o) && (at + Need(o)) % 8 == 0
    decreases o, 0
  {
    hide Cost, AfterSlots, AfterAll, NeedAll;
    if o.Collection? {
      AlignedSlots(o.isMap, |o.entries|, at);
      UncopiedNeedAll(o.entries, at + Cost(o.isMap, |o.entries|));
    }
  }

  lemma {:induction false} UncopiedNeedAll(es: seq<KV>, at: nat)
    requires at % 8 == 0
    ensures AfterAll(false, es, at) == at + NeedAll(es) && (at + NeedAll(es)) % 8 == 0
    decreases es, 1
  {
    hide After, Need;
    if es != [] {
      UncopiedNeed(es[0].val, at);
      UncopiedNeedAll(es[1..], at + Need(es[0].val));
    }
  }

  /** A slot of allocated memory holds a key and an object, which may refer to a run of other slots. */
  datatype Cell = Value(o: Obj) | Ref(isMap: bool, start: nat, len: nat)

  datatype Slot = Slot(key: bytes, cell: Cell)

  /** Slots that are still to be filled, with the entry promised for each. */
  type Pending = map<nat, KV>

  /** Slot `i` holds object `o`, where a pending slot counts as holding what is promised. */
  ghost predicate Holds(slots: seq<Slot>, pend: Pending, i: nat, o: Obj)
    decreases o, 0
  {
    && i < |slots| && i !in pend
    && if o.Collection? then
         && slots[i].cell.Ref? && slots[i].cell.isMap == o.isMap && slots[i].cell.len == |o.entries|
         && HoldsAll(slots, pend, slots[i].cell.start, o.entries)
       else slots[i].cell == Value(o)
  }

  ghost predicate HoldsEntry(slots: seq<Slot>, pend: Pending, i: nat, e: KV)
    decreases e.val, 1
  {
    if i in pend then pend[i] == e
    else i < |slots| && slots[i].key == e.key && Holds(slots, pend, i, e.val)
  }

  ghost predicate HoldsAll(slots: seq<Slot>, pend: Pending, start: nat, es: seq<KV>)
    decreases es, 2
  {
    forall k | 0 <= k < |es| :: HoldsEntry(slots, pend, start + k, es[k])
  }

  /** Filling pending slots as promised changes no object. */
  ghost predicate Fills(slots: seq<Slot>, pend: Pending, slots2: seq<Slot>, pend2: Pending) {
    && |slots| <= |slots2|
    && (forall i: nat | i < |slots| && i !in pend :: i !in pend2 && slots2[i] == slots[i])
    && (forall j | j in pend :: HoldsEntry(slots2, pend2, j, pend[j]))
  }

  lemma {:induction false} FillsKeeps(slots: seq<Slot>, pend: Pending, slots2: seq<Slot>, pend2: Pending, i: nat, o: Obj)
    requires Fills(slots, pend, slots2, pend2) && Holds(slots, pend, i, o)
    ensures Holds(slots2, pend2, i, o)
    decreases o, 0
  {
    if o.Collection? {
      var start := slots[i].cell.start;
      forall k | 0 <= k < |o.entries|
        ensures HoldsEntry(slots2, pend2, start + k, o.entries[k])
      {
        FillsKeepsEntry(slots, pend, slots2, pend2, start + k, o.entries[k]);
      }
    }
  }

  lemma {:induction false} FillsKeepsEntry(slots: seq<Slot>, pend: Pending, slots2: seq<Slot>, pend2: Pending, i: nat, e: KV)
    requires Fills(slots, pend, slots2, pend2) && HoldsEntry(slots, pend, i, e)
    ensures HoldsEntry(slots2, pend2, i, e)
    decreases e.val, 1
  {
    if i !in pend { FillsKeeps(slots, pend, slots2, pend2, i, e.val); }
  }

  // ---- The reader's stack ----

  /** A run of slots to fill; the last frame of a stack is the top. */
  datatype Frame = Frame(isMap: bool, next: nat, remaining: nat)

  /** The entries that the rest of the input holds for each frame. */
  ghost function Ahead(b: bytes, fs: seq<Frame>): (r: Option<(seq<seq<KV>>, bytes)>)
    ensures r.Some? ==> |r.value.0| == |fs|
    ensures r.Some? ==> forall k | 0 <= k < |fs| :: |r.value.0[k]| == fs[k].remaining
    decreases |fs|
  {
    if fs == [] then Some(([], b))
    else
      var top := fs[|fs| - 1];
      match DecodedEntries(b, top.isMap, top.remaining)
      case None => None
      case Some((es, b1)) =>
        match Ahead(b1, fs[..|fs| - 1])
        case None => None
        case Some((ess, t)) => Some((ess + [es], t))
  }

  /** The promises for one run of slots. */
  function Run(start: nat, es: seq<KV>): (m: Pending)
    decreases |es|
    ensures forall j :: j in m <==> start <= j < start + |es|
    ensures forall k | 0 <= k < |es| :: start + k in m && m[start + k] == es[k]
  {
    if es == [] then map[] else Run(start + 1, es[1..])[start := es[0]]
  }

  ghost function Promises(fs: seq<Frame>, ess: seq<seq<KV>>): Pending
    requires |fs| == |ess|
  {
    if fs == [] then map[]
    else Promises(fs[..|fs| - 1], ess[..|fs| - 1]) + Run(fs[|fs| - 1].next, ess[|fs| - 1])
  }

  /** The frames describe disjoint runs of existing slots. */
  ghost predicate Separate(fs: seq<Frame>, size: nat) {
    && (forall k | 0 <= k < |fs| :: fs[k].next + fs[k].remaining <= size)
    && (forall k, l | 0 <= k < l < |fs| ::
          fs[k].next + fs[k].remaining <= fs[l].next || fs[l].next + fs[l].remaining <= fs[k].next)
  }

  lemma {:induction false} PromisedSlots(fs: seq<Frame>, ess: seq<seq<KV>>, j: nat)
    requires |fs| == |ess| && forall k | 0 <= k < |fs| :: |ess[k]| == fs[k].remaining
    ensures j in Promises(fs, ess) ==> exists k :: 0 <= k < |fs| && fs[k].next <= j < fs[k].next + fs[k].remaining
  {
    if fs != [] {
      var n := |fs| - 1;
      PromisedSlots(fs[..n], ess[..n], j);
      if j in Promises(fs[..n], ess[..n]) {
        var k :| 0 <= k < n && fs[..n][k].next <= j < fs[..n][k].next + fs[..n][k].remaining;
        assert fs[k] == fs[..n][k];
      } else if j in Promises(fs, ess) {
        assert fs[n].next <= j < fs[n].next + fs[n].remaining;
      }
    }
  }

  lemma PromisesBound(fs: seq<Frame>, ess: seq<seq<KV>>, size: nat)
    requires |fs| == |ess| && Separate(fs, size) && forall k | 0 <= k < |fs| :: |ess[k]| == fs[k].remaining
    ensures forall j | j in Promises(fs, ess) :: j < size
  {
    hide Promises;
    forall j | j in Promises(fs, ess) ensures j < size {
      PromisedSlots(fs, ess, j);
    }
  }

  /** The first entry of the top frame, put in front of what the later input holds. */
  function AddFirst(ess: seq<seq<KV>>, e: KV): seq<seq<KV>>
    requires ess != []
  {
    ess[..|ess| - 1] + [[e] + ess[|ess| - 1]]
  }

  function Advance(fs: seq<Frame>): seq<Frame>
    requires fs != [] && fs[|fs| - 1].remaining > 0
  {
    var top := fs[|fs| - 1];
    fs[..|fs| - 1] + [Frame(top.isMap, top.next + 1, top.remaining - 1)]
  }

  lemma PromisesPush(lo: seq<Frame>, los: seq<seq<KV>>, f: Frame, es: seq<KV>)
    requires |lo| == |los|
    ensures Promises(lo + [f], los + [es]) == Promises(lo, los) + Run(f.next, es)
  {
    assert (lo + [f])[..|lo|] == lo && (los + [es])[..|lo|] == los;
  }

  lemma AdvanceTop(lo: seq<Frame>, los: seq<seq<KV>>, f: Frame, es: seq<KV>, e: KV)
    requires |lo| == |los| && f.remaining > 0
    ensures Promises(lo + [f], los + [[e] + es]) ==
            Promises(lo + [Frame(f.isMap, f.next + 1, f.remaining - 1)], los + [es])[f.next := e]
  {
    PromisesPush(lo, los, f, [e] + es);
    PromisesPush(lo, los, Frame(f.isMap, f.next + 1, f.remaining - 1), es);
    assert ([e] + es)[1..] == es;
    AddPromise(Promises(lo, los), Run(f.next + 1, es), f.next, e);
  }

  lemma SeparateTop(lo: seq<Frame>, f: Frame, size: nat)
    requires Separate(lo + [f], size)
    ensures forall k | 0 <= k < |lo| :: lo[k].next + lo[k].remaining <= f.next || f.next + f.remaining <= lo[k].next
  {
    var fs := lo + [f];
    assert fs[|lo|] == f && forall k | 0 <= k < |lo| :: fs[k] == lo[k];
  }

  lemma AdvanceFree(lo: seq<Frame>, los: seq<seq<KV>>, f: Frame, es: seq<KV>, size: nat)
    requires |lo| == |los| && f.remaining > 0 && Separate(lo + [f], size)
    requires forall k | 0 <= k < |lo| :: |los[k]| == lo[k].remaining
    ensures f.next !in Promises(lo + [Frame(f.isMap, f.next + 1, f.remaining - 1)], los + [es])
  {
    PromisesPush(lo, los, Frame(f.isMap, f.next + 1, f.remaining - 1), es);
    PromisedSlots(lo, los, f.next);
    SeparateTop(lo, f, size);
  }

  /** Filling one slot: its promise goes, and nothing else is promised there. */
  lemma AdvancePromises(fs: seq<Frame>, ess: seq<seq<KV>>, e: KV, size: nat)
    requires fs != [] && fs[|fs| - 1].remaining > 0 && Separate(fs, size)
    requires |ess| == |fs| && forall k | 0 <= k < |fs| :: |ess[k]| == Advance(fs)[k].remaining
    ensures var j := fs[|fs| - 1].next;
            && Promises(fs, AddFirst(ess, e)) == Promises(Advance(fs), ess)[j := e]
            && j !in Promises(Advance(fs), ess)
  {
    hide Promises, Separate;
    var n := |fs| - 1;
    var lo, los, f, es := fs[..n], ess[..n], fs[n], ess[n];
    assert fs == lo + [f] && ess == los + [es];
    AdvanceTop(lo, los, f, es, e);
    forall k | 0 <= k < n ensures |los[k]| == lo[k].remaining {
      assert Advance(fs)[k] == fs[k];
    }
    AdvanceFree(lo, los, f, es, size);
  }

  lemma AddPromise(below: Pending, run: Pending, j: nat, e: KV)
    ensures below + run[j := e] == (below + run)[j := e]
  {
  }

  lemma AdvanceSeparate(fs: seq<Frame>, size: nat)
    requires fs != [] && fs[|fs| - 1].remaining > 0 && Separate(fs, size)
    ensures Separate(Advance(fs), size)
  {
  }

  // ---- One step of the input ----

  /** Reading one entry of the top frame, when it is a finished value. */
  lemma AheadLeaf(b: bytes, fs: seq<Frame>, key: bytes, b1: bytes, o: Obj, b2: bytes)
    requires fs != [] && fs[|fs| - 1].remaining > 0
    requires ReadKey(b, fs[|fs| - 1].isMap) == Some((key, b1)) && Decoded(b1) == Some((o, b2))
    ensures Ahead(b, fs) ==
            match Ahead(b2, Advance(fs))
            case None => None
            case Some((ess, t)) => Some((AddFirst(ess, KV(key, o)), t))
  {
    hide Decoded, ReadKey;
    var n := |fs| - 1;
    assert Advance(fs)[..n] == fs[..n];
    match DecodedEntries(b2, fs[n].isMap, fs[n].remaining - 1)
    case None =>
    case Some((es, b3)) =>
      match Ahead(b3, fs[..n])
      case None =>
      case Some((ess, t)) =>
        assert (ess + [es])[..n] == ess;
  }

  /** Reading one entry of the top frame, when it is a collection that is pushed as a frame of its own. */
  lemma AheadOpen(b: bytes, fs: seq<Frame>, key: bytes, b1: bytes, isMap: bool, m: nat, b2: bytes, start: nat)
    requires fs != [] && fs[|fs| - 1].remaining > 0
    requires ReadKey(b, fs[|fs| - 1].isMap) == Some((key, b1)) && ReadHead(b1) == Some((Open(isMap, m), b2))
    ensures Ahead(b, fs) ==
            match Ahead(b2, Advance(fs) + [Frame(isMap, start, m)])
            case None => None
            case Some((ess, t)) =>
              Some((AddFirst(ess[..|fs|], KV(key, Collection(isMap, ess[|fs|]))), t))
  {
    var fs2 := Advance(fs) + [Frame(isMap, start, m)];
    assert fs2[..|fs|] == Advance(fs) && fs2[|fs|] == Frame(isMap, start, m);
    match DecodedEntries(b2, isMap, m)
    case None =>
      assert Decoded(b1) == None;
    case Some((es, b3)) =>
      AheadLeaf(b, fs, key, b1, Collection(isMap, es), b3);
      match Ahead(b3, Advance(fs))
      case None =>
      case Some((ess, t)) =>
        assert (ess + [es])[..|fs|] == ess;
  }

  lemma AheadFails(b: bytes, fs: seq<Frame>)
    requires fs != [] && fs[|fs| - 1].remaining > 0
    requires ReadKey(b, fs[|fs| - 1].isMap).None? || ReadHead(ReadKey(b, fs[|fs| - 1].isMap).value.1).None?
    ensures Ahead(b, fs) == None
  {
    var top := fs[|fs| - 1];
    assert DecodedEntries(b, top.isMap, top.remaining) == None;
  }

  // ---- What the reading loop keeps ----

  /** The allocator's index after everything ahead has been read. */
  ghost function AfterAhead(copy: bool, ess: seq<seq<KV>>, at: nat): (i: nat)
    ensures at <= i
    decreases |ess|
  {
    if ess == [] then at else AfterAhead(copy, ess[..|ess| - 1], AfterAll(copy, ess[|ess| - 1], at))
  }

  /** The nesting ahead fits the stack; a frame at index `k` is enclosed in `k` collections. */
  ghost predicate DepthAheadFits(ess: seq<seq<KV>>) {
    ess == [] || (EntryReadDepthsFit(ess[|ess| - 1], MAX_LEVELS - |ess|) && DepthAheadFits(ess[..|ess| - 1]))
  }

  lemma PushCosts(copy: bool, ess: seq<seq<KV>>, es: seq<KV>, at: nat)
    ensures AfterAhead(copy, ess + [es], at) == AfterAhead(copy, ess, AfterAll(copy, es, at))
    ensures DepthAheadFits(ess + [es]) <==> EntryReadDepthsFit(es, MAX_LEVELS - |ess| - 1) && DepthAheadFits(ess)
  {
    PushNeed(copy, ess, es, at);
    PushDepthFits(ess, es);
  }

  lemma PushNeed(copy: bool, ess: seq<seq<KV>>, es: seq<KV>, at: nat)
    ensures AfterAhead(copy, ess + [es], at) == AfterAhead(copy, ess, AfterAll(copy, es, at))
  {
    hide AfterAll;
    var all := ess + [es];
    assert all[..|all| - 1] == ess && all[|all| - 1] == es;
  }

  lemma PushDepthFits(ess: seq<seq<KV>>, es: seq<KV>)
    ensures DepthAheadFits(ess + [es]) <==> EntryReadDepthsFit(es, MAX_LEVELS - |ess| - 1) && DepthAheadFits(ess)
  {
    hide EntryReadDepthsFit, DepthAheadFits;
    var all := ess + [es];
    assert all[..|all| - 1] == ess && all[|all| - 1] == es;
    TopDepthFits(all);
  }

  lemma TopDepthFits(ess: seq<seq<KV>>)
    requires ess != []
    ensures DepthAheadFits(ess) <==>
            EntryReadDepthsFit(ess[|ess| - 1], MAX_LEVELS - |ess|) && DepthAheadFits(ess[..|ess| - 1])
  {
    hide EntryReadDepthsFit;
  }

  lemma AddFirstCosts(copy: bool, ess: seq<seq<KV>>, e: KV, at: nat)
    requires ess != []
    ensures AfterAhead(copy, AddFirst(ess, e), at) == AfterAhead(copy, ess, AfterEntry(copy, e, at))
    ensures DepthAheadFits(AddFirst(ess, e)) <==> ReadDepthFits(e.val, MAX_LEVELS - |ess|) && DepthAheadFits(ess)
  {
    hide AfterEntry, ReadDepthFits, AfterAhead, DepthAheadFits, AddFirst;
    AddFirstIs(ess, e);
    SplitTop(ess);
    TopCosts(copy, ess[..|ess| - 1], ess[|ess| - 1], e, at);
  }

  lemma TopCosts(copy: bool, lo: seq<seq<KV>>, es: seq<KV>, e: KV, at: nat)
    ensures AfterAhead(copy, lo + [[e] + es], at) == AfterAhead(copy, lo + [es], AfterEntry(copy, e, at))
    ensures DepthAheadFits(lo + [[e] + es]) <==>
            ReadDepthFits(e.val, MAX_LEVELS - |lo| - 1) && DepthAheadFits(lo + [es])
  {
    hide AfterEntry, AfterAll, ReadDepthFits, EntryReadDepthsFit, AfterAhead, DepthAheadFits;
    PushCosts(copy, lo, es, AfterEntry(copy, e, at));
    PushCosts(copy, lo, [e] + es, at);
    FirstCosts(copy, es, e, at, MAX_LEVELS - |lo| - 1);
  }

  lemma AddFirstIs(ess: seq<seq<KV>>, e: KV)
    requires ess != []
    ensures AddFirst(ess, e) == ess[..|ess| - 1] + [[e] + ess[|ess| - 1]]
  {
  }

  lemma SplitTop(ess: seq<seq<KV>>)
    requires ess != []
    ensures ess == ess[..|ess| - 1] + [ess[|ess| - 1]]
  {
  }

  lemma FirstCosts(copy: bool, es: seq<KV>, e: KV, at: nat, room: int)
    ensures AfterAll(copy, [e] + es, at) == AfterAll(copy, es, AfterEntry(copy, e, at))
    ensures EntryReadDepthsFit([e] + es, room) <==> ReadDepthFits(e.val, room) && EntryReadDepthsFit(es, room)
  {
    hide After, ReadDepthFits;
    assert ([e] + es)[1..] == es;
  }

  /** What is to be read, whether buffers are copied, and the allocator's index at the start. */
  datatype Job = Job(whole: bytes, copy: bool, start: nat)

  /** The state of the loop against the recursive reader: the allocator is at index `at`, `b` is the rest of
      the input. If the rest cannot be read, neither can the whole. */
  ghost predicate OnTrack(job: Job, b: bytes, fs: seq<Frame>, slots: seq<Slot>, at: nat) {
    match Ahead(b, fs)
    case None => Decoded(job.whole) == None
    case Some((ess, t)) =>
      && Decoded(job.whole).Some?
      && var (o, t0) := Decoded(job.whole).value;
         && t == t0
         && HoldsEntry(slots, Promises(fs, ess), 0, KV([], o))
         && AfterAhead(job.copy, ess, at) == After(job.copy, o, job.start)
         && (DepthAheadFits(ess) <==> ReadDepthFits(o, MAX_LEVELS - 1))
  }

  lemma StartOnTrack(job: Job)
    ensures OnTrack(job, job.whole, [Frame(false, 0, 1)], [Slot([], Value(Null))], job.start)
  {
    hide Decoded, Ahead, AfterAhead, After, DepthAheadFits, ReadDepthFits, Promises, Holds;
    StartAhead(job.whole);
    match Decoded(job.whole)
    case None =>
    case Some((o, t)) =>
      StartCosts(job.copy, o, job.start);
      StartPromises(o);
  }

  /** At the start the one object of the input lies ahead. */
  lemma StartAhead(whole: bytes)
    ensures Ahead(whole, [Frame(false, 0, 1)]) ==
            match Decoded(whole) { case None => None case Some((o, t)) => Some(([[KV([], o)]], t)) }
  {
    hide Decoded;
    var fs := [Frame(false, 0, 1)];
    assert fs[..0] == [];
    match Decoded(whole)
    case None =>
      assert DecodedEntries(whole, false, 1) == None;
    case Some((o, t)) =>
      assert DecodedEntries(t, false, 0) == Some(([], t));
      assert [KV([], o)] + [] == [KV([], o)];
      assert DecodedEntries(whole, false, 1) == Some(([KV([], o)], t));
      assert Ahead(t, []) == Some(([], t));
      assert [] + [[KV([], o)]] == [[KV([], o)]];
  }

  lemma StartCosts(copy: bool, o: Obj, at: nat)
    ensures AfterAhead(copy, [[KV([], o)]], at) == After(copy, o, at)
    ensures DepthAheadFits([[KV([], o)]]) <==> ReadDepthFits(o, MAX_LEVELS - 1)
  {
    hide After, ReadDepthFits;
    var es, ess := [KV([], o)], [[KV([], o)]];
    assert es[1..] == [] && ess[..0] == [] && ess[0] == es;
    assert AfterAll(copy, es, at) == After(copy, o, at);
    assert AfterAhead(copy, [], After(copy, o, at)) == After(copy, o, at);
    assert EntryReadDepthsFit(es, MAX_LEVELS - 1) <==> ReadDepthFits(o, MAX_LEVELS - 1);
  }

  lemma StartPromises(o: Obj)
    ensures HoldsEntry([Slot([], Value(Null))], Promises([Frame(false, 0, 1)], [[KV([], o)]]), 0, KV([], o))
  {
    var es := [KV([], o)];
    PromisesPush([], [], Frame(false, 0, 1), es);
    assert [] + [Frame(false, 0, 1)] == [Frame(false, 0, 1)] && [] + [es] == [es];
    assert 0 in Run(0, es) && Run(0, es)[0 + 0] == es[0];
  }

  lemma PopOnTrack(job: Job, b: bytes, fs: seq<Frame>, slots: seq<Slot>, at: nat)
    requires fs != [] && fs[|fs| - 1].remaining == 0 && OnTrack(job, b, fs, slots, at)
    ensures OnTrack(job, b, fs[..|fs| - 1], slots, at)
  {
    hide HoldsEntry, After, ReadDepthFits, Decoded, Promises, AfterAhead, DepthAheadFits;
    var n := |fs| - 1;
    match Ahead(b, fs[..n])
    case None =>
    case Some((ess, t)) =>
      assert Ahead(b, fs) == Some((ess + [[]], t));
      PushCosts(job.copy, ess, [], at);
      assert fs == fs[..n] + [fs[n]];
      PromisesPush(fs[..n], ess, fs[n], []);
      assert Promises(fs[..n], ess) + Run(fs[n].next, []) == Promises(fs[..n], ess);
  }

  /** Filling the next slot with a finished value, or with an empty collection. */
  lemma LeafOnTrack(job: Job, b: bytes, fs: seq<Frame>, slots: seq<Slot>, at: nat,
                    key: bytes, b1: bytes, o: Obj, b2: bytes, cell: Cell)
    requires fs != [] && fs[|fs| - 1].remaining > 0 && Separate(fs, |slots|) && |fs| <= MAX_LEVELS
    requires OnTrack(job, b, fs, slots, at)
    requires ReadKey(b, fs[|fs| - 1].isMap) == Some((key, b1)) && Decoded(b1) == Some((o, b2))
    requires if o.Collection? then o.entries == [] && cell.Ref? && cell.isMap == o.isMap && cell.len == 0 else cell == Value(o)
    ensures OnTrack(job, b2, Advance(fs), slots[fs[|fs| - 1].next := Slot(key, cell)], AfterEntry(job.copy, KV(key, o), at))
  {
    hide ReadKey, Decoded, HoldsEntry, Promises, AfterEntry, AfterAhead, After;
    AheadLeaf(b, fs, key, b1, o, b2);
    match Ahead(b2, Advance(fs))
    case None =>
    case Some((ess, t)) =>
      var e, j := KV(key, o), fs[|fs| - 1].next;
      AddFirstCosts(job.copy, ess, e, at);
      AdvancePromises(fs, ess, e, |slots|);
      var (wholeObj, _) := Decoded(job.whole).value;
      FilledLeaf(slots, Promises(Advance(fs), ess), j, e, cell);
      FillsKeepsEntry(slots, Promises(fs, AddFirst(ess, e)),
                      slots[j := Slot(key, cell)], Promises(Advance(fs), ess), 0, KV([], wholeObj));
  }

  lemma FilledLeaf(slots: seq<Slot>, pend: Pending, j: nat, e: KV, cell: Cell)
    requires j < |slots| && j !in pend
    requires if e.val.Collection? then e.val.entries == [] && cell.Ref? && cell.isMap == e.val.isMap && cell.len == 0
             else cell == Value(e.val)
    ensures Fills(slots, pend[j := e], slots[j := Slot(e.key, cell)], pend)
  {
    var slots2, promised := slots[j := Slot(e.key, cell)], pend[j := e];
    forall i | i in promised ensures HoldsEntry(slots2, pend, i, promised[i]) {
      if i == j { assert Holds(slots2, pend, j, e.val); }
    }
  }

  /** Filling the next slot with a reference to a new run of slots, which becomes the top frame. */
  lemma OpenOnTrack(job: Job, b: bytes, fs: seq<Frame>, slots: seq<Slot>, at: nat,
                    key: bytes, b1: bytes, isMap: bool, n: nat, b2: bytes, blank: seq<Slot>)
    requires fs != [] && fs[|fs| - 1].remaining > 0 && Separate(fs, |slots|) && |fs| < MAX_LEVELS
    requires fs[|fs| - 1].next < |slots| && OnTrack(job, b, fs, slots, at)
    requires ReadKey(b, fs[|fs| - 1].isMap) == Some((key, b1)) && ReadHead(b1) == Some((Open(isMap, n), b2))
    requires n > 0 && |blank| == n
    ensures var start := |slots|;
            OnTrack(job, b2, Advance(fs) + [Frame(isMap, start, n)],
                    slots[fs[|fs| - 1].next := Slot(key, Ref(isMap, start, n))] + blank,
                    AfterSlots(isMap, n, AfterBuf(job.copy, key, at)))
  {
    hide ReadKey, Decoded, HoldsEntry, Promises, ReadHead, AfterSlots, AfterBuf, AfterAhead, After, DepthAheadFits, Separate, Fills;
    var start, j := |slots|, fs[|fs| - 1].next;
    var f := Frame(isMap, start, n);
    var slots2 := slots[j := Slot(key, Ref(isMap, start, n))] + blank;
    AheadOpen(b, fs, key, b1, isMap, n, b2, start);
    match Ahead(b2, Advance(fs) + [f])
    case None =>
    case Some((ess, t)) =>
      var lo, es := ess[..|fs|], ess[|fs|];
      assert ess == lo + [es];
      var e := KV(key, Collection(isMap, es));
      assert |es| == n by { assert (Advance(fs) + [f])[|fs|] == f; }
      forall k | 0 <= k < |fs| ensures |lo[k]| == Advance(fs)[k].remaining {
        assert (Advance(fs) + [f])[k] == Advance(fs)[k];
      }
      OpenCostsKept(job.copy, lo, es, e, isMap, at);
      OpenFills(fs, lo, es, slots, key, isMap, blank);
      var (wholeObj, _) := Decoded(job.whole).value;
      FillsKeepsEntry(slots, Promises(fs, AddFirst(lo, e)), slots2, Promises(Advance(fs) + [f], ess), 0, KV([], wholeObj));
  }

  lemma OpenCostsKept(copy: bool, lo: seq<seq<KV>>, es: seq<KV>, e: KV, isMap: bool, at: nat)
    requires lo != [] && es != [] && e.val == Collection(isMap, es)
    ensures AfterAhead(copy, AddFirst(lo, e), at) ==
            AfterAhead(copy, lo + [es], AfterSlots(isMap, |es|, AfterBuf(copy, e.key, at)))
    ensures |lo| < MAX_LEVELS ==> (DepthAheadFits(AddFirst(lo, e)) <==> DepthAheadFits(lo + [es]))
  {
    hide AfterAhead, DepthAheadFits, AfterAll, EntryReadDepthsFit, AfterSlots, AfterBuf;
    AddFirstCosts(copy, lo, e, at);
    PushCosts(copy, lo, es, AfterSlots(isMap, |es|, AfterBuf(copy, e.key, at)));
  }

  lemma OpenFills(fs: seq<Frame>, lo: seq<seq<KV>>, es: seq<KV>, slots: seq<Slot>, key: bytes, isMap: bool, blank: seq<Slot>)
    requires fs != [] && fs[|fs| - 1].remaining > 0 && Separate(fs, |slots|)
    requires |lo| == |fs| && forall k | 0 <= k < |fs| :: |lo[k]| == Advance(fs)[k].remaining
    requires |blank| == |es|
    ensures var start, j := |slots|, fs[|fs| - 1].next;
            && j < |slots|
            && Fills(slots, Promises(fs, AddFirst(lo, KV(key, Collection(isMap, es)))),
                     slots[j := Slot(key, Ref(isMap, start, |es|))] + blank,
                     Promises(Advance(fs) + [Frame(isMap, start, |es|)], lo + [es]))
  {
    hide Promises, Separate, Fills;
    var start, j := |slots|, fs[|fs| - 1].next;
    var e := KV(key, Collection(isMap, es));
    AdvancePromises(fs, lo, e, |slots|);
    AdvanceSeparate(fs, |slots|);
    NextInside(fs, |slots|);
    PromisesBound(Advance(fs), lo, |slots|);
    PromisesPush(Advance(fs), lo, Frame(isMap, start, |es|), es);
    FilledOpen(slots, Promises(Advance(fs), lo), j, key, isMap, es, blank);
  }

  lemma FilledOpen(slots: seq<Slot>, pend: Pending, j: nat, key: bytes, isMap: bool, es: seq<KV>, blank: seq<Slot>)
    requires j < |slots| && j !in pend && |blank| == |es|
    requires forall i | i in pend :: i < |slots|
    ensures var start := |slots|;
            Fills(slots, pend[j := KV(key, Collection(isMap, es))],
                  slots[j := Slot(key, Ref(isMap, start, |es|))] + blank, pend + Run(start, es))
  {
    hide Holds, Run;
    var start := |slots|;
    var slots2 := slots[j := Slot(key, Ref(isMap, start, |es|))] + blank;
    var pend2 := pend + Run(start, es);
    RunPromised(slots2, pend, start, es);
    RefHolds(slots2, pend2, j, key, isMap, start, es);
    forall i: nat | i < |slots| && i !in pend && i != j ensures i !in pend2 && slots2[i] == slots[i] {
    }
  }

  lemma RunPromised(slots: seq<Slot>, pend: Pending, start: nat, es: seq<KV>)
    ensures HoldsAll(slots, pend + Run(start, es), start, es)
  {
    hide Holds, Run;
    var pend2 := pend + Run(start, es);
    assert forall k | 0 <= k < |es| :: start + k in pend2 && pend2[start + k] == es[k];
  }

  lemma RefHolds(slots: seq<Slot>, pend: Pending, j: nat, key: bytes, isMap: bool, start: nat, es: seq<KV>)
    requires j < |slots| && j !in pend && slots[j] == Slot(key, Ref(isMap, start, |es|)) && HoldsAll(slots, pend, start, es)
    ensures HoldsEntry(slots, pend, j, KV(key, Collection(isMap, es)))
  {
    hide HoldsAll;
    assert Holds(slots, pend, j, Collection(isMap, es));
  }

  // ---- The code ----

  /** One round of the reading loop on a frame with slots left. */
  method ReadEntry(b: bytes, fs: seq<Frame>, slots: seq<Slot>, copy: bool, at: nat, budget: nat, ghost job: Job)
    returns (ok: bool, b2: bytes, fs2: seq<Frame>, slots2: seq<Slot>, at2: nat)
    requires fs != [] && fs[|fs| - 1].remaining > 0 && Separate(fs, |slots|) && |fs| <= MAX_LEVELS
    requires at <= budget && copy == job.copy && OnTrack(job, b, fs, slots, at)
    ensures ok ==> |b2| < |b| && |fs2| <= MAX_LEVELS && at2 <= budget
    ensures ok ==> Separate(fs2, |slots2|) && OnTrack(job, b2, fs2, slots2, at2)
    ensures ok ==> |fs2| <= |fs| + 1
    ensures !ok ==> Unreadable(job, budget)
  {
    hide OnTrack, Ahead, Separate, AfterBuf, AfterSlots, After;
    b2, fs2, slots2, at2 := b, fs, slots, at;
    var top := fs[|fs| - 1];
    var key := ReadKey(b, top.isMap);
    if key.None? {
      AheadFails(b, fs);
      FailsOffTrack(job, b, fs, slots, at, budget);
      return false, b2, fs2, slots2, at2;
    }
    var b1 := key.value.1;
    at2 := AfterBuf(copy, key.value.0, at);
    if at2 > budget {
      EntryCosts(job, b, fs, slots, at, key.value.0, b1, budget);
      return false, b2, fs2, slots2, at2;
    }
    var head := ReadHead(b1);
    if head.None? {
      AheadFails(b, fs);
      FailsOffTrack(job, b, fs, slots, at, budget);
      return false, b2, fs2, slots2, at2;
    }
    b2 := head.value.1;
    AdvanceSeparate(fs, |slots|);
    NextInside(fs, |slots|);
    match head.value.0
    case Leaf(o) =>
      LeafOnTrack(job, b, fs, slots, at, key.value.0, b1, o, b2, Value(o));
      LeafCosts(copy, o, at2);
      at2 := if o.Buf? then AfterBuf(copy, o.data, at2) else at2;
      if at2 > budget {
        LeafUnreadable(job, b, fs, slots, at, key.value.0, b1, o, b2, budget);
        return false, b2, fs2, slots2, at2;
      }
      slots2 := slots[top.next := Slot(key.value.0, Value(o))];
      fs2 := Advance(fs);
      return true, b2, fs2, slots2, at2;
    case Open(isMap, n) =>
      if n == 0 {
        assert DecodedEntries(b2, isMap, 0) == Some(([], b2));
        LeafOnTrack(job, b, fs, slots, at, key.value.0, b1, Collection(isMap, []), b2, Ref(isMap, 0, 0));
        EmptyCosts(copy, isMap, at2);
        slots2 := slots[top.next := Slot(key.value.0, Ref(isMap, 0, 0))];
        fs2 := Advance(fs);
        return true, b2, fs2, slots2, at2;
      }
      at2 := AfterSlots(isMap, n, at2);
      if at2 > budget || |fs| >= MAX_LEVELS {
        OpenUnreadable(job, b, fs, slots, at, key.value.0, b1, isMap, n, b2, budget);
        return false, b2, fs2, slots2, at2;
      }
      var blank := seq(n, _ => Slot([], Value(Null)));
      OpenOnTrack(job, b, fs, slots, at, key.value.0, b1, isMap, n, b2, blank);
      slots2 := slots[top.next := Slot(key.value.0, Ref(isMap, |slots|, n))] + blank;
      fs2 := Advance(fs) + [Frame(isMap, |slots|, n)];
      PushSeparate(Advance(fs), |slots|, isMap, n);
      return true, b2, fs2, slots2, at2;
  }

  /** Why reading fails: malformed input, too deep nesting, or too little memory. */
  ghost predicate Unreadable(job: Job, budget: nat) {
    match Decoded(job.whole)
    case None => true
    case Some((o, t)) => !ReadDepthFits(o, MAX_LEVELS - 1) || After(job.copy, o, job.start) > budget
  }

  lemma FailsOffTrack(job: Job, b: bytes, fs: seq<Frame>, slots: seq<Slot>, at: nat, budget: nat)
    requires OnTrack(job, b, fs, slots, at) && Ahead(b, fs) == None
    ensures Unreadable(job, budget)
  {
  }

  lemma LeafCosts(copy: bool, o: Obj, at: nat)
    requires !o.Collection?
    ensures After(copy, o, at) == if o.Buf? then AfterBuf(copy, o.data, at) else at
  {
  }

  lemma EmptyCosts(copy: bool, isMap: bool, at: nat)
    ensures After(copy, Collection(isMap, []), at) == at
  {
  }

  lemma NextInside(fs: seq<Frame>, size: nat)
    requires fs != [] && fs[|fs| - 1].remaining > 0 && Separate(fs, size)
    ensures fs[|fs| - 1].next < size
  {
  }

  lemma PushSeparate(fs: seq<Frame>, size: nat, isMap: bool, n: nat)
    requires Separate(fs, size)
    ensures Separate(fs + [Frame(isMap, size, n)], size + n)
  {
  }

  /** If there is no memory for the copy of a key, there is none for the whole object. */
  lemma EntryCosts(job: Job, b: bytes, fs: seq<Frame>, slots: seq<Slot>, at: nat, key: bytes, b1: bytes, budget: nat)
    requires fs != [] && fs[|fs| - 1].remaining > 0 && OnTrack(job, b, fs, slots, at)
    requires ReadKey(b, fs[|fs| - 1].isMap) == Some((key, b1)) && AfterBuf(job.copy, key, at) > budget
    ensures Unreadable(job, budget)
  {
    hide ReadKey, Decoded, HoldsEntry, Promises, AfterBuf, AfterAhead, DepthAheadFits, After;
    match Decoded(b1)
    case None =>
      NoEntry(b, fs, key, b1);
    case Some((o, b2)) =>
      AheadLeaf(b, fs, key, b1, o, b2);
      match Ahead(b2, Advance(fs))
      case None =>
      case Some((ess, t)) =>
        AddFirstCosts(job.copy, ess, KV(key, o), at);
  }

  lemma NoEntry(b: bytes, fs: seq<Frame>, key: bytes, b1: bytes)
    requires fs != [] && fs[|fs| - 1].remaining > 0
    requires ReadKey(b, fs[|fs| - 1].isMap) == Some((key, b1)) && Decoded(b1) == None
    ensures Ahead(b, fs) == None
  {
    var top := fs[|fs| - 1];
    assert DecodedEntries(b, top.isMap, top.remaining) == None;
  }

  /** The same for the copy of a buffer. */
  lemma LeafUnreadable(job: Job, b: bytes, fs: seq<Frame>, slots: seq<Slot>, at: nat,
                       key: bytes, b1: bytes, o: Obj, b2: bytes, budget: nat)
    requires fs != [] && fs[|fs| - 1].remaining > 0 && OnTrack(job, b, fs, slots, at)
    requires ReadKey(b, fs[|fs| - 1].isMap) == Some((key, b1)) && Decoded(b1) == Some((o, b2))
    requires AfterEntry(job.copy, KV(key, o), at) > budget
    ensures Unreadable(job, budget)
  {
    hide ReadKey, Decoded, HoldsEntry, Promises, AfterEntry, AfterAhead, DepthAheadFits, After;
    AheadLeaf(b, fs, key, b1, o, b2);
    match Ahead(b2, Advance(fs))
    case None =>
    case Some((ess, t)) =>
      AddFirstCosts(job.copy, ess, KV(key, o), at);
  }

  /** If a collection does not fit the memory or the stack, the whole object does not either. */
  lemma OpenUnreadable(job: Job, b: bytes, fs: seq<Frame>, slots: seq<Slot>, at: nat,
                       key: bytes, b1: bytes, isMap: bool, n: nat, b2: bytes, budget: nat)
    requires fs != [] && fs[|fs| - 1].remaining > 0 && OnTrack(job, b, fs, slots, at)
    requires ReadKey(b, fs[|fs| - 1].isMap) == Some((key, b1)) && ReadHead(b1) == Some((Open(isMap, n), b2))
    requires n > 0 && (AfterSlots(isMap, n, AfterBuf(job.copy, key, at)) > budget || |fs| >= MAX_LEVELS)
    ensures Unreadable(job, budget)
  {
    hide ReadKey, ReadHead, Decoded, HoldsEntry, Promises, AfterSlots, AfterBuf, AfterAhead, DepthAheadFits;
    AheadOpen(b, fs, key, b1, isMap, n, b2, 0);
    match Ahead(b2, Advance(fs) + [Frame(isMap, 0, n)])
    case None =>
    case Some((ess, t)) =>
      var e := KV(key, Collection(isMap, ess[|fs|]));
      AddFirstCosts(job.copy, ess[..|fs|], e, at);
      assert |ess[|fs|]| == n by { assert (Advance(fs) + [Frame(isMap, 0, n)])[|fs|].remaining == n; }
  }

  /** `ggl_deserialize` with an allocator of `budget` bytes at index `start`: reads exactly the objects of the format,
      with no trailing bytes, whenever the nesting fits the stack and the memory suffices. */
  method Deserialize(buf: bytes, copy: bool, start: nat, budget: nat) returns (ok: bool, slots: seq<Slot>, at: nat)
    requires start <= budget
    ensures ok <==> Decoded(buf).Some? && Decoded(buf).value.1 == [] && !Unreadable(Job(buf, copy, start), budget)
    ensures ok ==> HoldsEntry(slots, map[], 0, KV([], Decoded(buf).value.0))
    ensures ok ==> at == After(copy, Decoded(buf).value.0, start) <= budget
  {
    hide OnTrack, Separate, After;
    ghost var job := Job(buf, copy, start);
    var rest := buf;
    var fs := [Frame(false, 0, 1)];
    slots, at := [Slot([], Value(Null))], start;
    StartOnTrack(job);
    assert Separate(fs, 1) by { StartSeparate(); }
    while fs != []
      invariant |fs| <= MAX_LEVELS && at <= budget && Separate(fs, |slots|)
      invariant OnTrack(job, rest, fs, slots, at)
      decreases |rest|, |fs|
    {
      if fs[|fs| - 1].remaining == 0 {
        PopOnTrack(job, rest, fs, slots, at);
        PopSeparate(fs, |slots|);
        fs := fs[..|fs| - 1];
      } else {
        ok, rest, fs, slots, at := ReadEntry(rest, fs, slots, copy, at, budget, job);
        if !ok { return; }
      }
    }
    DoneOnTrack(job, rest, slots, at);
    ok := rest == [];
  }

  lemma StartSeparate()
    ensures Separate([Frame(false, 0, 1)], 1)
  {
  }

  lemma PopSeparate(fs: seq<Frame>, size: nat)
    requires fs != [] && Separate(fs, size)
    ensures Separate(fs[..|fs| - 1], size)
  {
  }

  lemma DoneOnTrack(job: Job, rest: bytes, slots: seq<Slot>, at: nat)
    requires OnTrack(job, rest, [], slots, at)
    ensures Decoded(job.whole).Some? && Decoded(job.whole).value.1 == rest
    ensures ReadDepthFits(Decoded(job.whole).value.0, MAX_LEVELS - 1)
    ensures After(job.copy, Decoded(job.whole).value.0, job.start) == at
    ensures HoldsEntry(slots, map[], 0, KV([], Decoded(job.whole).value.0))
  {
    assert Ahead(rest, []) == Some(([], rest));
  }

  /** The round trip: whatever the writer accepts is read back as the same object, given the memory. */
  method RoundTrip(o: Obj, buf: array<byte>, copy: bool, start: nat, budget: nat)
    returns (written: bool, ok: bool, slots: seq<Slot>)
    requires WellFormed(o) && start <= budget
    modifies buf
    ensures written <==> |Encoded(o)| <= buf.Length && Depth(o) <= MAX_LEVELS - 1 && LengthsFit(o)
    ensures written ==> (ok <==> After(copy, o, start) <= budget)
    ensures written && ok ==> HoldsEntry(slots, map[], 0, KV([], o))
  {
    var status, len := Serialize(o, buf);
    written, ok, slots := status == Ok, false, [];
    if written {
      DecodedOf(o, []);
      assert Encoded(o) + [] == Encoded(o);
      DepthFitsIs(o, MAX_LEVELS - 1);
      WritableIsReadable(o, MAX_LEVELS - 1);
      var at: nat;
      ok, slots, at := Deserialize(buf[..len], copy, start, budget);
    }
  }
}
