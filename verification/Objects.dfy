/** The generic object of `ggl-lib/include/ggl/object.h`. */
module Objects {
  import opened Buffer

  type int64 = x: int | -0x8000_0000_0000_0000 <= x < 0x8000_0000_0000_0000
  type uint64 = x: int | 0 <= x < 0x1_0000_0000_0000_0000

  /** A list and a map are both collections of entries; the entries of a list have empty keys. A floating
      point number is carried as its 64 bits. */
  datatype Obj =
    | Null
    | Bool(b: bool)
    | I64(i: int64)
    | F64(bits: uint64)
    | Buf(data: bytes)
    | Collection(isMap: bool, entries: seq<KV>)

  datatype KV = KV(key: bytes, val: Obj)

  predicate WellFormed(o: Obj)
    decreases o, 0
  {
    o.Collection? ==> WellFormedEntries(o.isMap, o.entries)
  }

  predicate WellFormedEntries(isMap: bool, es: seq<KV>)
    decreases es, 1
  {
    forall i | 0 <= i < |es| :: (!isMap ==> es[i].key == []) && WellFormed(es[i].val)
  }

  /** `sizeof(GglObject)` and `sizeof(GglKV)`. */
  const OBJECT_SIZE: nat := 24
  const KV_SIZE: nat := 40

  function Cost(isMap: bool, n: nat): nat { n * if isMap then KV_SIZE else OBJECT_SIZE }

  /** Bytes allocated to read an object, besides the object itself. */
  function Need(o: Obj): nat
    decreases o, 0
  {
    if o.Collection? then Cost(o.isMap, |o.entries|) + NeedAll(o.entries) else 0
  }

  function NeedAll(es: seq<KV>): nat
    decreases es, 1
  {
    if es == [] then 0 else Need(es[0].val) + NeedAll(es[1..])
  }
}
