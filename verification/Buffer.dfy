/** Byte buffers and the pure helpers of `ggl-lib/src/buffer.c`. */
module Buffer {
  type byte = x: int | 0 <= x < 256
  type bytes = seq<byte>

  datatype Option<+T> = None | Some(value: T)

  predicate HasPrefix(buf: bytes, prefix: bytes) {
    |prefix| <= |buf| && buf[..|prefix|] == prefix
  }

  predicate HasSuffix(buf: bytes, suffix: bytes) {
    |suffix| <= |buf| && buf[|buf| - |suffix|..] == suffix
  }

  /** Whether `sub` occurs in `buf` at offset `k`. */
  predicate OccursAt(buf: bytes, sub: bytes, k: nat) {
    k <= |buf| && HasPrefix(buf[k..], sub)
  }

  /** The first occurrence of `sub` in `buf`; an empty `sub` occurs at offset 0. */
  function Find(buf: bytes, sub: bytes): (r: Option<nat>)
    ensures r.Some? ==> OccursAt(buf, sub, r.value)
    ensures r.Some? ==> forall k: nat | k < r.value :: !OccursAt(buf, sub, k)
    ensures r.None? ==> forall k: nat :: !OccursAt(buf, sub, k)
    decreases |buf|
  {
    if |sub| > |buf| then None
    else if buf[..|sub|] == sub then
      assert buf[0..] == buf;
      Some(0)
    else
      assert buf[0..] == buf;
      assert forall k: nat | 0 < k :: OccursAt(buf, sub, k) <==> OccursAt(buf[1..], sub, k - 1) by {
        forall k: nat | 0 < k
          ensures OccursAt(buf, sub, k) <==> OccursAt(buf[1..], sub, k - 1)
        {
          if k <= |buf| { assert buf[k..] == buf[1..][k - 1..]; }
        }
      }
      match Find(buf[1..], sub)
      case None => None
      case Some(k) => Some(k + 1)
  }
}
