/** The binary object format of `core-bus/src/object_serde.c`, written and read with an explicit bounded
    stack instead of recursion. */
module ObjectSerde {
  import opened Buffer
  import opened BumpBuffer
  import opened Objects
  import opened Words

  /** `GGL_MAX_OBJECT_DEPTH`: the number of levels on the stack, one of which is the object itself. */
  const MAX_LEVELS: nat := 15
  const UINT32_MAX: nat := 0xFFFF_FFFF

  // ---- The format, recursively ----

  function ToUint64(i: int64): uint64 { if i < 0 then i + 0x1_0000_0000_0000_0000 else i }

  function FromUint64(x: uint64): int64 {
    if x < 0x8000_0000_0000_0000 then x else x - 0x1_0000_0000_0000_0000
  }

  /** A length and the bytes. */
  function EncodedBuf(d: bytes): bytes { Le(|d|, 4) + d }

  /** What is written for an object itself, without the entries of a collection. */
  function Head(o: Obj): (b: bytes)
    ensures |b| > 0
  {
    match o
    case Null => [0]
    case Bool(b) => [1, if b then 1 else 0]
    case I64(i) => [2] + Le(ToUint64(i), 8)
    case F64(bits) => [3] + Le(bits, 8)
    case Buf(d) => [4] + EncodedBuf(d)
    case Collection(isMap, es) => [if isMap then 6 else 5] + Le(|es|, 4)
  }

  function Encoded(o: Obj): bytes
    decreases o, 0
  {
    Head(o) + if o.Collection? then EncodedEntries(o.isMap, o.entries) else []
  }

  function EncodedKey(isMap: bool, e: KV): bytes { if isMap then EncodedBuf(e.key) else [] }

  function EncodedEntries(isMap: bool, es: seq<KV>): bytes
    decreases es, 1
  {
    if es == [] then []
    else EncodedKey(isMap, es[0]) + Encoded(es[0].val) + EncodedEntries(isMap, es[1..])
  }

  /** Nesting of collections. */
  function Depth(o: Obj): nat
    decreases o, 0
  {
    if o.Collection? then 1 + MaxDepth(o.entries) else 0
  }

  function MaxDepth(es: seq<KV>): nat
    decreases es, 1
  {
    if es == [] then 0 else Max(Depth(es[0].val), MaxDepth(es[1..]))
  }

  function Max(a: nat, b: nat): nat { if a < b then b else a }

  /** The same as a bound: collections nest at most `room` deep. */
  predicate DepthFits(o: Obj, room: int)
    decreases o, 0
  {
    o.Collection? ==> room > 0 && EntryDepthsFit(o.entries, room - 1)
  }

  predicate EntryDepthsFit(es: seq<KV>, room: int)
    decreases es, 1
  {
    es == [] || (DepthFits(es[0].val, room) && EntryDepthsFit(es[1..], room))
  }

  lemma {:induction false} DepthFitsIs(o: Obj, room: nat)
    ensures DepthFits(o, room) <==> Depth(o) <= room
    decreases o, 0
  {
    if o.Collection? && room > 0 { EntryDepthsFitIs(o.entries, room - 1); }
  }

  lemma {:induction false} EntryDepthsFitIs(es: seq<KV>, room: nat)
    ensures EntryDepthsFit(es, room) <==> MaxDepth(es) <= room
    decreases es, 1
  {
    if es != [] {
      DepthFitsIs(es[0].val, room);
      EntryDepthsFitIs(es[1..], room);
    }
  }

  /** All lengths fit the 32-bit length fields. */
  predicate LengthsFit(o: Obj)
    decreases o, 0
  {
    match o
    case Buf(d) => |d| <= UINT32_MAX
    case Collection(isMap, es) => |es| <= UINT32_MAX && EntryLengthsFit(isMap, es)
    case _ => true
  }

  predicate EntryLengthsFit(isMap: bool, es: seq<KV>)
    decreases es, 1
  {
    es == [] || ((isMap ==> |es[0].key| <= UINT32_MAX) && LengthsFit(es[0].val) && EntryLengthsFit(isMap, es[1..]))
  }

  // ---- The writer's stack ----

  /** A level: the entries still to be written. The last level of a stack is the top. */
  datatype Level = Level(isMap: bool, entries: seq<KV>)

  type Stack = seq<Level>

  function Top(st: Stack): Level
    requires st != []
  {
    st[|st| - 1]
  }

  function Below(st: Stack): Stack
    requires st != []
  {
    st[..|st| - 1]
  }

  ghost function StackBytes(st: Stack): bytes {
    if st == [] then [] else EncodedEntries(Top(st).isMap, Top(st).entries) + StackBytes(Below(st))
  }

  /** The nesting still ahead fits the stack. A level at index `k` is enclosed in `k` collections. */
  ghost predicate StackDepthFits(st: Stack) {
    st == [] || (EntryDepthsFit(Top(st).entries, MAX_LEVELS - |st|) && StackDepthFits(Below(st)))
  }

  ghost predicate StackFits(st: Stack) {
    st == [] || (EntryLengthsFit(Top(st).isMap, Top(st).entries) && StackFits(Below(st)))
  }

  datatype Status = Ok | NoMemory | Range

  /** What `write_obj` pushes for an object. */
  function Pushed(st: Stack, o: Obj): Stack {
    if o.Collection? then st + [Level(o.isMap, o.entries)] else st
  }

  lemma PushedIs(st: Stack, o: Obj)
    requires o.Collection?
    ensures Below(Pushed(st, o)) == st && Top(Pushed(st, o)) == Level(o.isMap, o.entries)
  {
  }

  lemma PushedBytes(st: Stack, o: Obj)
    ensures Head(o) + StackBytes(Pushed(st, o)) == Encoded(o) + StackBytes(st)
  {
    if o.Collection? {
      PushedIs(st, o);
      Associate(Head(o), EncodedEntries(o.isMap, o.entries), StackBytes(st));
    } else {
      assert Encoded(o) == Head(o);
    }
  }

  lemma PushedFits(st: Stack, o: Obj)
    ensures StackFits(Pushed(st, o)) <==> (o.Collection? ==> EntryLengthsFit(o.isMap, o.entries)) && StackFits(st)
  {
    if o.Collection? { PushedIs(st, o); }
  }

  lemma PushedDepth(st: Stack, o: Obj)
    ensures StackDepthFits(Pushed(st, o)) <==>
            (o.Collection? ==> EntryDepthsFit(o.entries, MAX_LEVELS - |st| - 1)) && StackDepthFits(st)
  {
    hide EntryDepthsFit, StackDepthFits;
    if o.Collection? {
      PushedIs(st, o);
      TopDepth(Pushed(st, o));
    }
  }

  lemma TopDepth(st: Stack)
    requires st != []
    ensures StackDepthFits(st) <==> EntryDepthsFit(Top(st).entries, MAX_LEVELS - |st|) && StackDepthFits(Below(st))
  {
    hide EntryDepthsFit;
  }

  /** The stack after the first entry of its top level has been taken off. */
  function Rest(st: Stack): Stack
    requires st != [] && Top(st).entries != []
  {
    Below(st) + [Level(Top(st).isMap, Top(st).entries[1..])]
  }

  lemma RestIs(st: Stack)
    requires st != [] && Top(st).entries != []
    ensures Below(Rest(st)) == Below(st) && Top(Rest(st)) == Level(Top(st).isMap, Top(st).entries[1..])
    ensures |Rest(st)| == |st|
  {
  }

  lemma RestBytes(st: Stack)
    requires st != [] && Top(st).entries != []
    ensures var e, isMap := Top(st).entries[0], Top(st).isMap;
            StackBytes(st) == EncodedKey(isMap, e) + Encoded(e.val) + StackBytes(Rest(st))
  {
    RestIs(st);
    var e, isMap := Top(st).entries[0], Top(st).isMap;
    Associate(EncodedKey(isMap, e) + Encoded(e.val), EncodedEntries(isMap, Top(st).entries[1..]), StackBytes(Below(st)));
  }

  lemma Associate(a: bytes, b: bytes, c: bytes)
    ensures a + b + c == a + (b + c)
  {
  }

  lemma RestFits(st: Stack)
    requires st != [] && Top(st).entries != []
    ensures var e, isMap := Top(st).entries[0], Top(st).isMap;
            StackFits(st) <==> (isMap ==> |e.key| <= UINT32_MAX) && LengthsFit(e.val) && StackFits(Rest(st))
  {
    RestIs(st);
  }

  lemma RestDepth(st: Stack)
    requires st != [] && Top(st).entries != []
    ensures StackDepthFits(st) <==>
            DepthFits(Top(st).entries[0].val, MAX_LEVELS - |st|) && StackDepthFits(Rest(st))
  {
    RestIs(st);
  }

  /** What the writing loop keeps: the bytes written and the stack add up to the encoding. */
  ghost predicate Progress(o: Obj, written: bytes, st: Stack) {
    && |st| <= MAX_LEVELS
    && written + StackBytes(st) == Encoded(o)
    && (LengthsFit(o) <==> StackFits(st))
    && (DepthFits(o, MAX_LEVELS - 1) <==> StackDepthFits(st))
  }

  /** The bytes written for the first entry of the top level, and the stack after them. */
  function EntryHead(st: Stack): bytes
    requires st != [] && Top(st).entries != []
  {
    EncodedKey(Top(st).isMap, Top(st).entries[0]) + Head(Top(st).entries[0].val)
  }

  function After(st: Stack): Stack
    requires st != [] && Top(st).entries != []
  {
    Pushed(Rest(st), Top(st).entries[0].val)
  }

  lemma EntryBytes(st: Stack)
    requires st != [] && Top(st).entries != []
    ensures StackBytes(st) == EntryHead(st) + StackBytes(After(st))
  {
    var e, isMap := Top(st).entries[0], Top(st).isMap;
    RestBytes(st);
    PushedBytes(Rest(st), e.val);
    Associate(EncodedKey(isMap, e), Encoded(e.val), StackBytes(Rest(st)));
    Associate(EncodedKey(isMap, e), Head(e.val), StackBytes(After(st)));
  }

  lemma EntryFits(st: Stack)
    requires st != [] && Top(st).entries != []
    ensures StackFits(st) <==> EntryHeadFits(st) && StackFits(After(st))
  {
    RestFits(st);
    PushedFits(Rest(st), Top(st).entries[0].val);
  }

  predicate EntryHeadFits(st: Stack)
    requires st != [] && Top(st).entries != []
  {
    (Top(st).isMap ==> |Top(st).entries[0].key| <= UINT32_MAX) && HeadFits(Top(st).entries[0].val)
  }

  lemma EntryDepth(st: Stack)
    requires st != [] && Top(st).entries != []
    ensures StackDepthFits(st) <==> |After(st)| <= MAX_LEVELS && StackDepthFits(After(st))
    requires |st| <= MAX_LEVELS
  {
    RestIs(st);
    RestDepth(st);
    PushedDepth(Rest(st), Top(st).entries[0].val);
  }

  lemma EntryShrinks(st: Stack)
    requires st != [] && Top(st).entries != []
    ensures |After(st)| < |st| + |EntryHead(st)|
  {
    RestIs(st);
  }

  /** One entry: its key and head are the next bytes, and it can fail only for the stated reasons. */
  lemma EntryProgress(o: Obj, written: bytes, st: Stack)
    requires st != [] && Top(st).entries != [] && Progress(o, written, st)
    ensures |written| + |EntryHead(st)| <= |Encoded(o)|
    ensures |StackBytes(After(st))| + |After(st)| < |StackBytes(st)| + |st|
    ensures LengthsFit(o) ==> EntryHeadFits(st)
    ensures |After(st)| > MAX_LEVELS ==> !DepthFits(o, MAX_LEVELS - 1)
    ensures EntryHeadFits(st) && |After(st)| <= MAX_LEVELS ==> Progress(o, written + EntryHead(st), After(st))
  {
    hide StackBytes, StackFits, StackDepthFits, EntryHead, EntryHeadFits, After, Encoded, LengthsFit, DepthFits;
    EntryBytes(st);
    EntryFits(st);
    EntryDepth(st);
    EntryShrinks(st);
    Associate(written, EntryHead(st), StackBytes(After(st)));
  }

  /** The lengths written in the head of an object fit. */
  predicate HeadFits(o: Obj) {
    (o.Buf? ==> |o.data| <= UINT32_MAX) && (o.Collection? ==> |o.entries| <= UINT32_MAX)
  }

  /** `write_buf`. */
  method WriteBuf(buf: array<byte>, at: nat, d: bytes) returns (status: Status, next: nat)
    requires at <= buf.Length
    modifies buf
    ensures status == Range <==> |d| > UINT32_MAX
    ensures status == Ok <==> |d| <= UINT32_MAX && at + |EncodedBuf(d)| <= buf.Length
    ensures status == Ok ==> next == at + |EncodedBuf(d)| && buf[..next] == old(buf[..at]) + EncodedBuf(d)
  {
    if |d| > UINT32_MAX { return Range, at; }
    var ok;
    ok, next := Append(buf, at, buf.Length, Le(|d|, 4) + d);
    status := if ok then Ok else NoMemory;
  }

  /** `write_obj`: the head of an object, and a push for a collection. */
  method WriteObj(buf: array<byte>, at: nat, st: Stack, o: Obj) returns (status: Status, next: nat, st2: Stack)
    requires at <= buf.Length && 0 < |st| <= MAX_LEVELS
    modifies buf
    ensures status == Ok <==> at + |Head(o)| <= buf.Length && HeadFits(o) && |Pushed(st, o)| <= MAX_LEVELS
    ensures status == NoMemory ==> at + |Head(o)| > buf.Length
    ensures status == Range ==> !HeadFits(o) || |Pushed(st, o)| > MAX_LEVELS
    ensures status == Ok ==> next == at + |Head(o)| && buf[..next] == old(buf[..at]) + Head(o)
    ensures status == Ok ==> st2 == Pushed(st, o)
  {
    st2 := st;
    if !HeadFits(o) {
      var ok;
      ok, next := Append(buf, at, buf.Length, [TagOf(o)]);
      return if ok then Range else NoMemory, next, st2;
    }
    status, next := WriteHead(buf, at, o);
    if status == Ok && o.Collection? {
      if |st| >= MAX_LEVELS { return Range, next, st2; }
      st2 := st + [Level(o.isMap, o.entries)];
    }
  }

  function TagOf(o: Obj): byte { Head(o)[0] }

  /** The tag, then the value or length. */
  method WriteHead(buf: array<byte>, at: nat, o: Obj) returns (status: Status, next: nat)
    requires at <= buf.Length && HeadFits(o)
    modifies buf
    ensures status == if at + |Head(o)| <= buf.Length then Ok else NoMemory
    ensures status == Ok ==> next == at + |Head(o)| && buf[..next] == old(buf[..at]) + Head(o)
  {
    ghost var start := buf[..at];
    var head := Head(o);
    assert head == head[..1] + head[1..];
    Associate(start, head[..1], head[1..]);
    var ok;
    ok, next := Append(buf, at, buf.Length, head[..1]);
    if ok { ok, next := Append(buf, next, buf.Length, head[1..]); }
    status := if ok then Ok else NoMemory;
  }

  /** One round of the loop on a non-empty level. */
  method WriteEntry(buf: array<byte>, at: nat, st: Stack) returns (status: Status, next: nat, st2: Stack)
    requires at <= buf.Length && 0 < |st| <= MAX_LEVELS && Top(st).entries != []
    modifies buf
    ensures status == Ok <==>
            at + |EntryHead(st)| <= buf.Length && EntryHeadFits(st) && |After(st)| <= MAX_LEVELS
    ensures status == Ok ==>
              && st2 == After(st)
              && next == at + |EntryHead(st)| && buf[..next] == old(buf[..at]) + EntryHead(st)
    ensures status == NoMemory ==> at + |EntryHead(st)| > buf.Length
    ensures status == Range ==> !EntryHeadFits(st) || |After(st)| > MAX_LEVELS
  {
    var e, isMap := Top(st).entries[0], Top(st).isMap;
    ghost var start := buf[..at];
    RestIs(st);
    next, st2 := at, st;
    if isMap {
      status, next := WriteBuf(buf, at, e.key);
      if status != Ok { return; }
    }
    Associate(start, EncodedKey(isMap, e), Head(e.val));
    assert start + EncodedKey(isMap, e) == buf[..next];
    status, next, st2 := WriteObj(buf, next, Rest(st), e.val);
  }

  /** `ggl_serialize`: the explicit stack writes exactly the recursive encoding, and succeeds exactly when
      the encoding fits the buffer, the nesting is at most 14 and every length fits 32 bits. */
  method Serialize(o: Obj, buf: array<byte>) returns (status: Status, len: nat)
    modifies buf
    ensures status == Ok <==> |Encoded(o)| <= buf.Length && Depth(o) <= MAX_LEVELS - 1 && LengthsFit(o)
    ensures status == Ok ==> len == |Encoded(o)| && buf[..len] == Encoded(o)
    ensures status == NoMemory ==> |Encoded(o)| > buf.Length
    ensures status == Range ==> Depth(o) > MAX_LEVELS - 1 || !LengthsFit(o)
  {
    hide Progress, EntryHead, EntryHeadFits, After, Encoded, LengthsFit, DepthFits, StackBytes;
    var st: Stack := [Level(false, [KV([], o)])];
    len := 0;
    DepthFitsIs(o, MAX_LEVELS - 1);
    StartProgress(o);
    assert buf[..len] == [];
    while st != []
      invariant len <= buf.Length && |st| <= MAX_LEVELS && Progress(o, buf[..len], st)
      decreases |StackBytes(st)| + |st|
    {
      if Top(st).entries == [] {
        PopProgress(o, buf[..len], st);
        st := Below(st);
      } else {
        EntryProgress(o, buf[..len], st);
        status, len, st := WriteEntry(buf, len, st);
        if status != Ok { return; }
      }
    }
    DoneProgress(o, buf[..len]);
    return Ok, len;
  }

  lemma StartProgress(o: Obj)
    ensures Progress(o, [], [Level(false, [KV([], o)])])
  {
    var es := [KV([], o)];
    var st: Stack := [Level(false, es)];
    assert Below(st) == [] && es[1..] == [];
    assert EncodedEntries(false, es) == [] + Encoded(o) + [];
    assert EntryDepthsFit(es, MAX_LEVELS - 1) <==> DepthFits(o, MAX_LEVELS - 1);
    assert EntryLengthsFit(false, es) <==> LengthsFit(o);
    assert StackBytes(st) == Encoded(o) + [];
  }

  lemma PopProgress(o: Obj, written: bytes, st: Stack)
    requires st != [] && Top(st).entries == [] && Progress(o, written, st)
    ensures Progress(o, written, Below(st)) && |StackBytes(Below(st))| == |StackBytes(st)|
  {
    hide Encoded, LengthsFit, DepthFits;
    assert EncodedEntries(Top(st).isMap, []) == [];
    assert [] + StackBytes(Below(st)) == StackBytes(Below(st));
  }

  lemma DoneProgress(o: Obj, written: bytes)
    requires Progress(o, written, [])
    ensures written == Encoded(o) && LengthsFit(o) && DepthFits(o, MAX_LEVELS - 1)
  {
    assert written + [] == written;
  }
}
