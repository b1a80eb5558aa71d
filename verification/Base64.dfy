/** Base64 of `ggl-lib/src/base64.c`: the encoding of section 4 of RFC 4648, decoded strictly as in its
    section 3.5 (no data after padding, no unused bits). */
module Base64 {
  import opened Buffer

  const PAD: byte := 61

  type digit = x: int | 0 <= x < 64

  /** `BASE64_TABLE`. */
  function CharOf(d: digit): byte {
    if d < 26 then 65 + d else if d < 52 then 97 + d - 26 else if d < 62 then 48 + d - 52
    else if d == 62 then 43 else 47
  }

  /** `base64_char_to_byte`. */
  function DigitOf(c: byte): Option<digit> {
    if 65 <= c <= 90 then Some(c - 65)
    else if 97 <= c <= 122 then Some(c - 97 + 26)
    else if 48 <= c <= 57 then Some(c - 48 + 52)
    else if c == 43 then Some(62)
    else if c == 47 then Some(63)
    else None
  }

  lemma DigitOfChar(d: digit)
    ensures DigitOf(CharOf(d)) == Some(d) && CharOf(d) != PAD
  {
  }

  lemma CharOfDigit(c: byte)
    requires DigitOf(c).Some?
    ensures CharOf(DigitOf(c).value) == c && c != PAD
  {
  }

  // ---- Encoding ----

  /** The four characters of a 24-bit chunk. */
  function Quad(chunk: nat): (q: bytes)
    requires chunk < 0x100_0000
    ensures |q| == 4
  {
    [CharOf(chunk / 0x4_0000), CharOf(chunk / 0x1000 % 64), CharOf(chunk / 64 % 64), CharOf(chunk % 64)]
  }

  function Chunk(b0: byte, b1: byte, b2: byte): nat {
    b0 as int * 0x1_0000 + b1 as int * 0x100 + b2 as int
  }

  function Encoded(b: bytes): bytes {
    if b == [] then []
    else if |b| == 1 then Quad(Chunk(b[0], 0, 0))[..2] + [PAD, PAD]
    else if |b| == 2 then Quad(Chunk(b[0], b[1], 0))[..3] + [PAD]
    else Quad(Chunk(b[0], b[1], b[2])) + Encoded(b[3..])
  }

  // ---- Decoding ----

  /** `base64_decode_segment`: one to three bytes, or nothing for a malformed segment. */
  function Segment(s: bytes): (r: Option<bytes>)
    requires |s| == 4
    ensures r.Some? ==> 1 <= |r.value| <= 3
  {
    match (DigitOf(s[0]), DigitOf(s[1])) {
      case (Some(d0), Some(d1)) =>
        Truncations(d0);
        Truncations(d1);
        var v0: byte := d0 as int * 4 % 256 + d1 as int / 16;
        var v1: byte := d1 as int * 16 % 256;
        if s[2] == PAD then
          if s[3] != PAD || v1 != 0 then None else Some([v0])
        else match DigitOf(s[2]) {
          case None => None
          case Some(d2) =>
            Truncations(d2);
            var w1: byte := v1 as int + d2 as int / 4;
            var v2: byte := d2 as int * 64 % 256;
            if s[3] == PAD then
              if v2 != 0 then None else Some([v0, w1])
            else match DigitOf(s[3]) {
              case None => None
              case Some(d3) => Some([v0, w1, v2 as int + d3 as int])
            }
        }
      case _ => None
    }
  }

  function Decoded(s: bytes): Option<bytes> {
    if s == [] then Some([])
    else if |s| < 4 then None
    else match Segment(s[..4])
      case None => None
      case Some(d) =>
        if |d| < 3 then if |s| == 4 then Some(d) else None
        else match Decoded(s[4..])
          case None => None
          case Some(rest) => Some(d + rest)
  }

  // ---- Round trips ----

  lemma DivMod64(x: nat, k: nat, t: nat)
    requires x == 64 * k + t && t < 64
    ensures x / 64 == k && x % 64 == t
  {
  }

  /** The four digits that three bytes are cut into. */
  function D0(b0: byte): digit { b0 as int / 4 }
  function D1(b0: byte, b1: byte): digit { b0 as int % 4 * 16 + b1 as int / 16 }
  function D2(b1: byte, b2: byte): digit { b1 as int % 16 * 4 + b2 as int / 64 }
  function D3(b2: byte): digit { b2 as int % 64 }

  lemma ChunkDigits(b0: byte, b1: byte, b2: byte)
    ensures Quad(Chunk(b0, b1, b2)) == [CharOf(D0(b0)), CharOf(D1(b0, b1)), CharOf(D2(b1, b2)), CharOf(D3(b2))]
  {
    hide CharOf;
    var c := Chunk(b0, b1, b2);
    var m := b0 as int * 1024 + b1 as int * 4 + b2 as int / 64;
    var k := b0 as int * 16 + b1 as int / 16;
    DivMod64(c, m, D3(b2));
    DivMod64(m, k, D2(b1, b2));
    DivMod64(k, D0(b0), D1(b0, b1));
    Shifts(c);
  }

  lemma Shifts(c: nat)
    ensures c / 0x1000 == c / 64 / 64 && c / 0x4_0000 == c / 64 / 64 / 64
  {
  }

  /** The three bytes that four digits make. */
  function B0(d0: digit, d1: digit): byte { d0 as int * 4 + d1 as int / 16 }
  function B1(d1: digit, d2: digit): byte { d1 as int % 16 * 16 + d2 as int / 4 }
  function B2(d2: digit, d3: digit): byte { d2 as int % 4 * 64 + d3 as int }

  lemma BytesOfDigits(b0: byte, b1: byte, b2: byte)
    ensures B0(D0(b0), D1(b0, b1)) == b0 && B1(D1(b0, b1), D2(b1, b2)) == b1 && B2(D2(b1, b2), D3(b2)) == b2
  {
  }

  lemma DigitsOfBytes(d0: digit, d1: digit, d2: digit, d3: digit)
    ensures D0(B0(d0, d1)) == d0 && D1(B0(d0, d1), B1(d1, d2)) == d1
    ensures D2(B1(d1, d2), B2(d2, d3)) == d2 && D3(B2(d2, d3)) == d3
  {
  }

  /** Padding zeroes the bits that a shorter text does not use, and nothing else. */
  lemma UnusedBits(b0: byte, b1: byte)
    ensures D1(b0, 0) % 16 == 0 && D2(b1, 0) % 4 == 0
  {
  }

  lemma PaddedBytes(d1: digit, d2: digit)
    ensures d1 % 16 == 0 ==> B1(d1, 0) == 0
    ensures d2 % 4 == 0 ==> B2(d2, 0) == 0
  {
  }

  lemma Truncations(d: digit)
    ensures d as int * 4 % 256 == d as int * 4
    ensures d as int * 16 % 256 == d as int % 16 * 16
    ensures d as int * 64 % 256 == d as int % 4 * 64
  {
  }

  /** What a segment decodes to, in terms of its digits. */
  lemma SegmentMeans(s: bytes, d: bytes)
    requires |s| == 4
    ensures Segment(s) == Some(d) <==>
            && DigitOf(s[0]).Some? && DigitOf(s[1]).Some?
            && var d0, d1 := DigitOf(s[0]).value, DigitOf(s[1]).value;
               if s[2] == PAD then s[3] == PAD && d1 % 16 == 0 && d == [B0(d0, d1)]
               else
                 && DigitOf(s[2]).Some?
                 && var d2 := DigitOf(s[2]).value;
                    if s[3] == PAD then d2 % 4 == 0 && d == [B0(d0, d1), B1(d1, d2)]
                    else
                      && DigitOf(s[3]).Some?
                      && d == [B0(d0, d1), B1(d1, d2), B2(d2, DigitOf(s[3]).value)]
  {
    hide DigitOf;
    if DigitOf(s[0]).Some? && DigitOf(s[1]).Some? {
      Truncations(DigitOf(s[0]).value);
      Truncations(DigitOf(s[1]).value);
      if DigitOf(s[2]).Some? { Truncations(DigitOf(s[2]).value); }
    }
  }

  /** The text of one to three bytes. */
  function Text(b0: byte, b1: byte, b2: byte, n: nat): (s: bytes)
    requires 1 <= n <= 3
    ensures |s| == 4
  {
    [CharOf(D0(b0)), CharOf(D1(b0, b1)),
     if n < 2 then PAD else CharOf(D2(b1, b2)), if n < 3 then PAD else CharOf(D3(b2))]
  }

  lemma EncodedIsText(b: bytes)
    requires b != []
    ensures |b| == 1 ==> Encoded(b) == Text(b[0], 0, 0, 1)
    ensures |b| == 2 ==> Encoded(b) == Text(b[0], b[1], 0, 2)
    ensures |b| >= 3 ==> Encoded(b) == Text(b[0], b[1], b[2], 3) + Encoded(b[3..])
  {
    hide CharOf, Quad, D0, D1, D2, D3;
    var b1 := if |b| > 1 then b[1] else 0;
    var b2 := if |b| > 2 then b[2] else 0;
    var q := Quad(Chunk(b[0], b1, b2));
    hide Chunk;
    ChunkDigits(b[0], b1, b2);
    Padded(q);
    if |b| == 1 {
      assert Encoded(b) == q[..2] + [PAD, PAD];
    } else if |b| == 2 {
      assert Encoded(b) == q[..3] + [PAD];
    } else {
      assert Encoded(b) == q + Encoded(b[3..]);
    }
  }

  lemma Padded(q: bytes)
    requires |q| == 4
    ensures q[..2] + [PAD, PAD] == [q[0], q[1], PAD, PAD] && q[..3] + [PAD] == [q[0], q[1], q[2], PAD]
    ensures q == [q[0], q[1], q[2], q[3]]
  {
  }

  lemma SegmentOfText(b0: byte, b1: byte, b2: byte, n: nat)
    requires 1 <= n <= 3 && (n < 3 ==> b2 == 0) && (n < 2 ==> b1 == 0)
    ensures Segment(Text(b0, b1, b2, n)) == Some([b0, b1, b2][..n])
  {
    hide Segment, DigitOf, CharOf, D0, D1, D2, D3, B0, B1, B2;
    BytesOfDigits(b0, b1, b2);
    UnusedBits(b0, b1);
    DigitOfChar(D0(b0));
    DigitOfChar(D1(b0, b1));
    DigitOfChar(D2(b1, b2));
    DigitOfChar(D3(b2));
    SegmentMeans(Text(b0, b1, b2, n), [b0, b1, b2][..n]);
  }

  lemma SegmentIsText(s: bytes)
    requires |s| == 4 && Segment(s).Some?
    ensures var d := Segment(s).value;
            s == Text(d[0], if |d| > 1 then d[1] else 0, if |d| > 2 then d[2] else 0, |d|)
  {
    hide Segment, DigitOf, CharOf, D0, D1, D2, D3, B0, B1, B2;
    var d := Segment(s).value;
    SegmentMeans(s, d);
    CharOfDigit(s[0]);
    CharOfDigit(s[1]);
    var d0, d1 := DigitOf(s[0]).value, DigitOf(s[1]).value;
    if s[2] != PAD { CharOfDigit(s[2]); }
    if s[3] != PAD { CharOfDigit(s[3]); }
    var d2: digit := if s[2] == PAD then 0 else DigitOf(s[2]).value;
    var d3: digit := if s[3] == PAD then 0 else DigitOf(s[3]).value;
    DigitsOfBytes(d0, d1, d2, d3);
    PaddedBytes(d1, d2);
  }

  /** Every byte string decodes from its own encoding. */
  lemma {:induction false} DecodeOfEncode(b: bytes)
    ensures Decoded(Encoded(b)) == Some(b)
  {
    if b != [] {
      var n := if |b| < 3 then |b| else 3;
      var b1 := if n > 1 then b[1] else 0;
      var b2 := if n > 2 then b[2] else 0;
      EncodedIsText(b);
      SegmentOfText(b[0], b1, b2, n);
      hide Segment, Text;
      var s, t := Encoded(b), Text(b[0], b1, b2, n);
      assert [b[0], b1, b2][..n] == b[..n];
      if n == 3 {
        DecodeOfEncode(b[3..]);
        assert s[..4] == t && s[4..] == Encoded(b[3..]) && b[..n] + b[3..] == b;
      } else {
        assert s[..4] == s && b[..n] == b;
      }
    }
  }

  /** Only canonical texts decode: what is accepted is the encoding of what it decodes to. */
  lemma {:induction false} EncodeOfDecode(s: bytes)
    requires Decoded(s).Some?
    ensures Encoded(Decoded(s).value) == s
  {
    if s != [] {
      SegmentIsText(s[..4]);
      var d := Segment(s[..4]).value;
      hide Segment, Text;
      EncodedIsText(Decoded(s).value);
      if |d| == 3 {
        EncodeOfDecode(s[4..]);
        var b := d + Decoded(s[4..]).value;
        assert b[3..] == Decoded(s[4..]).value;
        assert s == s[..4] + s[4..];
      } else {
        assert s[..4] == s;
      }
    }
  }

  // ---- The code ----

  lemma {:induction false} DecodedLength(s: bytes)
    ensures Decoded(s).Some? ==> |s| % 4 == 0
  {
    hide Segment;
    if |s| >= 4 {
      DecodedLength(s[4..]);
      assert |s[4..]| == |s| - 4;
    }
  }

  /** The decoder's progress: `out` is decoded, `s` remains, and `last` says that padding was seen. */
  ghost predicate Progress(whole: bytes, out: bytes, s: bytes, last: bool) {
    Decoded(whole) ==
    if last then if s == [] then Some(out) else None
    else match Decoded(s) case None => None case Some(rest) => Some(out + rest)
  }

  lemma SegmentProgress(whole: bytes, out: bytes, i: nat)
    requires i + 4 <= |whole| && Progress(whole, out, whole[i..], false)
    ensures var d := Segment(whole[i..i + 4]);
            && (d.None? ==> Decoded(whole) == None)
            && (d.Some? ==> Progress(whole, out + d.value, whole[i + 4..], |d.value| != 3))
  {
    hide Segment;
    var s := whole[i..];
    assert s[..4] == whole[i..i + 4] && s[4..] == whole[i + 4..];
    if Segment(s[..4]).Some? {
      var d := Segment(s[..4]).value;
      if |d| == 3 && Decoded(s[4..]).Some? { Associate(out, d, Decoded(s[4..]).value); }
    }
  }

  /** `base64_decode_segment` on four bytes of a buffer, which may be the target itself. */
  method DecodeSegment(base64: array<byte>, i: nat, target: array<byte>, n: nat) returns (ok: bool, next: nat, padding: bool)
    requires i + 4 <= base64.Length && n + 3 <= target.Length
    modifies target
    ensures ok <==> Segment(old(base64[i..i + 4])).Some?
    ensures ok ==>
              var d := Segment(old(base64[i..i + 4])).value;
              next == n + |d| && target[..next] == old(target[..n]) + d && padding == (|d| != 3)
    ensures ok ==> forall k | next <= k < target.Length :: target[k] == old(target[k])
  {
    var d := Segment(base64[i..i + 4]);
    if d.None? { return false, n, false; }
    next := Put(target, n, d.value);
    return true, next, |d.value| != 3;
  }

  /** The loop of `ggl_base64_decode` over `m` segments. */
  method DecodeSegments(base64: array<byte>, target: array<byte>, ghost m: nat) returns (ok: bool, n: nat)
    requires base64.Length == 4 * m && 3 * m <= target.Length
    modifies target
    ensures ok <==> Decoded(old(base64[..])).Some?
    ensures ok ==> n <= target.Length && target[..n] == Decoded(old(base64[..])).value
  {
    ghost var text := base64[..];
    ghost var j := 0;
    n := 0;
    var last, i := false, 0;
    assert text[0..] == text && target[..0] == [];
    StartProgress(text);
    hide Progress, Segment, Decoded;
    while i < base64.Length
      invariant i == 4 * j && j <= m && n <= 3 * j
      invariant forall k | i <= k < base64.Length :: base64[k] == text[k]
      invariant Progress(text, target[..n], text[i..], last)
    {
      if last {
        PaddingEnds(text, target[..n], text[i..]);
        return false, n;
      }
      SegmentProgress(text, target[..n], i);
      assert base64[i..i + 4] == text[i..i + 4];
      ok, n, last := DecodeSegment(base64, i, target, n);
      if !ok { return; }
      i, j := i + 4, j + 1;
    }
    EndProgress(text, target[..n], last);
    assert text[i..] == [];
    return true, n;
  }

  /** `ggl_base64_decode`. The text and the target may be the same buffer, in which case decoding is in
      place (`ggl_base64_decode_in_place`); the result is the same. */
  method Decode(base64: array<byte>, target: array<byte>) returns (ok: bool, n: nat)
    modifies target
    ensures ok <==> Decoded(old(base64[..])).Some? && base64.Length / 4 * 3 <= target.Length
    ensures ok ==> n <= target.Length && target[..n] == Decoded(old(base64[..])).value
  {
    DecodedLength(base64[..]);
    if base64.Length % 4 != 0 { return false, 0; }
    if target.Length < base64.Length / 4 * 3 { return false, 0; }
    ok, n := DecodeSegments(base64, target, base64.Length / 4);
  }

  method Put(a: array<byte>, at: nat, data: bytes) returns (next: nat)
    requires at + |data| <= a.Length
    modifies a
    ensures next == at + |data| && a[..next] == old(a[..at]) + data
    ensures forall k | next <= k < a.Length :: a[k] == old(a[k])
  {
    forall k | 0 <= k < |data| {
      a[at + k] := data[k];
    }
    next := at + |data|;
  }

  lemma StartProgress(text: bytes)
    ensures Progress(text, [], text, false)
  {
    if Decoded(text).Some? { assert [] + Decoded(text).value == Decoded(text).value; }
  }

  lemma PaddingEnds(text: bytes, out: bytes, s: bytes)
    requires Progress(text, out, s, true) && s != []
    ensures Decoded(text) == None
  {
  }

  lemma EndProgress(text: bytes, out: bytes, last: bool)
    ensures Progress(text, out, [], last) <==> Decoded(text) == Some(out)
  {
    assert Decoded([]) == Some([]) && out + [] == out;
  }

  /** `ggl_base64_encode`: fails exactly when the text does not fit the allocator. */
  method Encode(b: bytes, available: nat) returns (text: Option<array<byte>>)
    ensures text.Some? <==> |Encoded(b)| <= available
    ensures text.Some? ==> fresh(text.value) && text.value[..] == Encoded(b)
  {
    EncodedLength(b);
    var len := (|b| + 2) / 3 * 4;
    if len > available { return None; }
    var mem := new byte[len];
    var chunks := |b| / 3;
    assert b[0..] == b;
    hide Quad, Encoded, Chunk;
    for i := 0 to chunks
      invariant mem[..4 * i] + Encoded(b[3 * i..]) == Encoded(b)
    {
      var q := Quad(Chunk(b[3 * i], b[3 * i + 1], b[3 * i + 2]));
      EncodedChunk(b, i);
      Associate(mem[..4 * i], q, Encoded(b[3 * (i + 1)..]));
      var _ := Put(mem, 4 * i, q);
    }
    var remaining := |b| % 3;
    ghost var done := mem[..4 * chunks];
    if remaining > 0 {
      var q := Quad(Chunk(b[3 * chunks], if remaining > 1 then b[3 * chunks + 1] else 0, 0));
      EncodedRest(b, chunks);
      var _ := Put(mem, 4 * chunks, [q[0], q[1], if remaining > 1 then q[2] else PAD, PAD]);
      assert mem[..] == mem[..4 * chunks + 4];
    } else {
      assert b[3 * chunks..] == [];
      EncodedNothing();
      assert mem[..] == mem[..4 * chunks] == done + [];
    }
    text := Some(mem);
  }

  lemma Associate(a: bytes, b: bytes, c: bytes)
    ensures a + b + c == a + (b + c)
  {
  }

  lemma EncodedNothing()
    ensures Encoded([]) == []
  {
  }

  lemma {:induction false} EncodedLength(b: bytes)
    ensures |Encoded(b)| == (|b| + 2) / 3 * 4
  {
    hide Quad, Chunk;
    if |b| > 3 { EncodedLength(b[3..]); }
  }

  lemma EncodedChunk(b: bytes, i: nat)
    requires 3 * i + 3 <= |b|
    ensures Encoded(b[3 * i..]) == Quad(Chunk(b[3 * i], b[3 * i + 1], b[3 * i + 2])) + Encoded(b[3 * (i + 1)..])
  {
    hide Quad, Chunk;
    assert b[3 * i..][3..] == b[3 * (i + 1)..];
  }

  lemma EncodedRest(b: bytes, chunks: nat)
    requires chunks == |b| / 3 && |b| % 3 > 0
    ensures var two := |b| % 3 == 2;
            var q := Quad(Chunk(b[3 * chunks], if two then b[3 * chunks + 1] else 0, 0));
            Encoded(b[3 * chunks..]) == [q[0], q[1], if two then q[2] else PAD, PAD]
  {
    hide Quad, Chunk;
  }
}
