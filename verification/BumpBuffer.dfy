/** Byte output through the bump allocator of `ggl-lib/src/bump_alloc.c`. */
module BumpBuffer {
  import opened Buffer

  /** Allocates from an allocator over `buf[..limit]` whose index is `at`, and fills the bytes. */
  method Append(buf: array<byte>, at: nat, limit: nat, data: bytes) returns (ok: bool, next: nat)
    requires at <= limit <= buf.Length
    modifies buf
    ensures ok <==> at + |data| <= limit
    ensures next == if ok then at + |data| else at
    ensures buf[..next] == old(buf[..at]) + if ok then data else []
  {
    if at + |data| > limit { return false, at; }
    forall k | 0 <= k < |data| {
      buf[at + k] := data[k];
    }
    next := at + |data|;
    assert buf[..next] == buf[..at] + buf[at..next];
    return true, next;
  }
}
