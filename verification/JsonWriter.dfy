/** Writing JSON into a fixed buffer (`ggl-json/src/json_encode.c`), piece by piece. */
module JsonWriter {
  import opened Buffer
  import opened BumpBuffer
  import opened JsonSyntax
  import opened JsonTree
  import opened JsonEncode
  import opened Int64Text
  import opened Objects

  /** A text was written at `at` if it fits. When it ends exactly at the end of the buffer its last byte may have
      been lost to a terminator. */
  ghost predicate Wrote(before: bytes, after: bytes, at: nat, ok: bool, next: nat, text: bytes) {
    && at <= |before| == |after| && after[..at] == before[..at]
    && (ok <==> at + |text| <= |before|)
    && (ok ==> next == at + |text| && (next < |before| ==> after[at..next] == text))
  }

  lemma WroteNothing(m: bytes, at: nat)
    requires at <= |m|
    ensures Wrote(m, m, at, true, at, [])
  {
  }

  /** Two pieces, one after the other. A byte lost by the first is never followed by a second that fits. */
  lemma WroteBoth(m0: bytes, m1: bytes, m2: bytes, at: nat, n1: nat, ok: bool, n2: nat, s: bytes, t: bytes)
    requires Wrote(m0, m1, at, true, n1, s) && Wrote(m1, m2, n1, ok, n2, t)
    ensures Wrote(m0, m2, at, ok, n2, s + t)
    ensures ok && t != [] && m2[n1..n2] == t ==> m2[at..n2] == s + t
  {
    assert m2[..at] == m2[..n1][..at] && m1[..at] == m1[..n1][..at];
    if ok && n1 < |m0| {
      assert m2[at..n2] == m2[at..n1] + m2[n1..n2];
      assert m2[at..n1] == m2[..n1][at..n1] == m1[..n1][at..n1] == m1[at..n1] == s;
    }
  }

  /** A piece that does not fit leaves no room for more. */
  lemma Stopped(m0: bytes, m1: bytes, at: nat, n1: nat, s: bytes, t: bytes)
    requires Wrote(m0, m1, at, false, n1, s)
    ensures Wrote(m0, m1, at, false, n1, s + t)
  {
  }

  method BufWrite(buf: array<byte>, at: nat, s: bytes) returns (ok: bool, next: nat)
    requires at <= buf.Length
    modifies buf
    ensures Wrote(old(buf[..]), buf[..], at, ok, next, s)
    ensures ok ==> buf[at..next] == s
  {
    ghost var before := buf[..];
    assert before[..at] == buf[..at];
    ok, next := Append(buf, at, buf.Length, s);
    assert buf[..at] == buf[..next][..at];
    if ok { assert buf[at..next] == buf[..next][at..next]; }
  }

  /** The text with its last byte replaced by a NUL. */
  function Clip(s: bytes): bytes { if s == [] then [] else s[..|s| - 1] + [0] }

  /** `snprintf`: writes what fits and a terminator, and reports the full length. */
  method Print(buf: array<byte>, at: nat, s: bytes) returns (ok: bool, next: nat)
    requires at <= buf.Length
    modifies buf
    ensures Wrote(old(buf[..]), buf[..], at, ok, next, s)
    ensures ok && next == buf.Length ==> buf[at..next] == Clip(s)
  {
    var room := buf.Length - at;
    if room > 0 {
      var n := if |s| < room then |s| else room - 1;
      forall k | 0 <= k < n { buf[at + k] := s[k]; }
      buf[at + n] := 0;
    }
    if |s| > room { return false, at; }
    return true, at + |s|;
  }

  /** Writes a string byte by byte between quotes. */
  method WriteStr(buf: array<byte>, at: nat, s: bytes) returns (ok: bool, next: nat)
    requires at <= buf.Length
    modifies buf
    ensures Wrote(old(buf[..]), buf[..], at, ok, next, StrText(Escaped(s)))
    ensures ok ==> buf[at..next] == StrText(Escaped(s))
  {
    hide Wrote, EscapedByte;
    ghost var m0 := buf[..];
    ok, next := BufWrite(buf, at, [QUOTE]);
    StrPieces(s);
    if !ok { Stopped(m0, buf[..], at, next, [QUOTE], Escaped(s) + [QUOTE]); return; }
    var i := 0;
    ghost var done: bytes := [QUOTE];
    assert s[0..] == s;
    while i < |s|
      invariant 0 <= i <= |s| && next <= buf.Length
      invariant Wrote(m0, buf[..], at, true, next, done)
      invariant done + (Escaped(s[i..]) + [QUOTE]) == StrText(Escaped(s))
    {
      ghost var m1, n1 := buf[..], next;
      var c := s[i];
      var piece := EscapedByte(c);
      ghost var rest := Escaped(s[i + 1..]) + [QUOTE];
      NextByte(s, i, done);
      if c <= 0x1F {
        ok, next := Print(buf, next, piece);
      } else {
        ok, next := BufWrite(buf, next, piece);
      }
      WroteBoth(m0, m1, buf[..], at, n1, ok, next, done, piece);
      if !ok { Stopped(m0, buf[..], at, next, done + piece, rest); return; }
      WroteFits(m0, buf[..], at, next, done + piece);
      done, i := done + piece, i + 1;
    }
    ghost var m1, n1 := buf[..], next;
    assert s[i..] == [];
    NoneLeft(done);
    ok, next := BufWrite(buf, next, [QUOTE]);
    WroteBoth(m0, m1, buf[..], at, n1, ok, next, done, [QUOTE]);
  }

  lemma WroteFits(m0: bytes, m1: bytes, at: nat, next: nat, s: bytes)
    requires Wrote(m0, m1, at, true, next, s)
    ensures next <= |m0|
  {
  }

  lemma StrPieces(s: bytes)
    ensures [QUOTE] + (Escaped(s) + [QUOTE]) == StrText(Escaped(s))
  {
  }

  lemma NextByte(s: bytes, i: nat, done: bytes)
    requires i < |s|
    ensures done + (Escaped(s[i..]) + [QUOTE]) == done + EscapedByte(s[i]) + (Escaped(s[i + 1..]) + [QUOTE])
  {
    assert s[i..][1..] == s[i + 1..];
    assert done + (EscapedByte(s[i]) + Escaped(s[i + 1..]) + [QUOTE])
        == done + EscapedByte(s[i]) + (Escaped(s[i + 1..]) + [QUOTE]);
  }

  lemma NoneLeft(done: bytes)
    ensures done + (Escaped([]) + [QUOTE]) == done + [QUOTE]
  {
  }

  // ---- Objects ----

  predicate IsNumber(o: Obj) { o.I64? || o.F64? }

  function SepText(first: bool): bytes { if first then [] else [COMMA] }

  function KeyPiece(isMap: bool, e: KV): bytes { if isMap then StrText(Escaped(e.key)) + [COLON] else [] }

  /** An entry and the comma in front of it. */
  function Piece(isMap: bool, e: KV, first: bool, printf: Printf): bytes {
    SepText(first) + (KeyPiece(isMap, e) + Encoded(e.val, printf))
  }

  /** What is still to be written when `i` entries have been. */
  function Remaining(isMap: bool, es: seq<KV>, i: nat, printf: Printf): bytes
    requires i <= |es|
  {
    if i == |es| then [] else SepText(i == 0) + EncodedEntries(isMap, es[i..], printf)
  }

  lemma NextPiece(isMap: bool, es: seq<KV>, i: nat, printf: Printf)
    requires i < |es|
    ensures Remaining(isMap, es, i, printf) == Piece(isMap, es[i], i == 0, printf) + Remaining(isMap, es, i + 1, printf)
  {
    hide Encoded, StrText, Escaped;
    var rest := es[i..];
    assert rest[0] == es[i] && rest[1..] == es[i + 1..];
    var e := KeyPiece(isMap, es[i]) + Encoded(es[i].val, printf);
    assert EncodedEntry(isMap, es[i], printf) == e;
    if i + 1 == |es| {
      assert SepText(i == 0) + e + [] == SepText(i == 0) + e;
    } else {
      Associate(SepText(i == 0), e, [COMMA] + EncodedEntries(isMap, es[i + 1..], printf));
    }
  }

  method WriteKey(buf: array<byte>, at: nat, isMap: bool, key: bytes) returns (ok: bool, next: nat)
    requires at <= buf.Length
    modifies buf
    ensures Wrote(old(buf[..]), buf[..], at, ok, next, if isMap then StrText(Escaped(key)) + [COLON] else [])
  {
    hide Wrote, StrText, Escaped;
    ghost var m0 := buf[..];
    if !isMap { WroteNothing(m0, at); return true, at; }
    ok, next := WriteStr(buf, at, key);
    if !ok { Stopped(m0, buf[..], at, next, StrText(Escaped(key)), [COLON]); return; }
    WroteFits(m0, buf[..], at, next, StrText(Escaped(key)));
    ghost var m1, n1 := buf[..], next;
    ok, next := BufWrite(buf, next, [COLON]);
    WroteBoth(m0, m1, buf[..], at, n1, ok, next, StrText(Escaped(key)), [COLON]);
  }

  method WriteSep(buf: array<byte>, at: nat, first: bool) returns (ok: bool, next: nat)
    requires at <= buf.Length
    modifies buf
    ensures Wrote(old(buf[..]), buf[..], at, ok, next, SepText(first))
  {
    if first { WroteNothing(buf[..], at); return true, at; }
    ok, next := BufWrite(buf, at, [COMMA]);
  }

  method WriteEntry(buf: array<byte>, at: nat, isMap: bool, e: KV, first: bool, printf: Printf)
    returns (ok: bool, next: nat)
    requires at <= buf.Length
    modifies buf
    ensures Wrote(old(buf[..]), buf[..], at, ok, next, Piece(isMap, e, first, printf))
    decreases e, 1
  {
    hide Wrote, Encoded, StrText, Escaped, SepText;
    ghost var m0 := buf[..];
    ghost var key, val := KeyPiece(isMap, e), Encoded(e.val, printf);
    Associate(SepText(first), key, val);
    ok, next := WriteSep(buf, at, first);
    if !ok { Stopped(m0, buf[..], at, next, SepText(first), key + val); return; }
    WroteFits(m0, buf[..], at, next, SepText(first));
    ghost var m1, n1 := buf[..], next;
    ok, next := WriteKey(buf, next, isMap, e.key);
    WroteBoth(m0, m1, buf[..], at, n1, ok, next, SepText(first), key);
    if !ok { Stopped(m0, buf[..], at, next, SepText(first) + key, val); return; }
    WroteFits(m0, buf[..], at, next, SepText(first) + key);
    ghost var m2, n2 := buf[..], next;
    ok, next := WriteObj(buf, next, e.val, printf);
    WroteBoth(m0, m2, buf[..], at, n2, ok, next, SepText(first) + key, val);
  }

  method WriteCollection(buf: array<byte>, at: nat, isMap: bool, es: seq<KV>, printf: Printf)
    returns (ok: bool, next: nat)
    requires at <= buf.Length
    modifies buf
    ensures var text := [Open(isMap)] + (EncodedEntries(isMap, es, printf) + [Close(isMap)]);
            Wrote(old(buf[..]), buf[..], at, ok, next, text) && (ok ==> buf[at..next] == text)
    decreases es, 2
  {
    hide Wrote, EncodedEntries, Piece, Remaining;
    ghost var m0, close, text := buf[..], [Close(isMap)], EncodedEntries(isMap, es, printf);
    AllRemain(isMap, es, printf);
    ok, next := BufWrite(buf, at, [Open(isMap)]);
    if !ok { Stopped(m0, buf[..], at, next, [Open(isMap)], text + close); return; }
    ghost var done: bytes := [Open(isMap)];
    var i := 0;
    while i < |es|
      invariant 0 <= i <= |es| && next <= buf.Length
      invariant Wrote(m0, buf[..], at, true, next, done)
      invariant done + (Remaining(isMap, es, i, printf) + close) == [Open(isMap)] + (text + close)
    {
      ghost var m1, n1 := buf[..], next;
      ghost var piece, rest := Piece(isMap, es[i], i == 0, printf), Remaining(isMap, es, i + 1, printf);
      NextPiece(isMap, es, i, printf);
      Associate(piece, rest, close);
      Associate(done, piece, rest + close);
      ok, next := WriteEntry(buf, next, isMap, es[i], i == 0, printf);
      WroteBoth(m0, m1, buf[..], at, n1, ok, next, done, piece);
      if !ok { Stopped(m0, buf[..], at, next, done + piece, rest + close); return; }
      WroteFits(m0, buf[..], at, next, done + piece);
      done, i := done + piece, i + 1;
    }
    NoneRemain(isMap, es, printf);
    assert done + ([] + close) == done + close;
    ghost var m1, n1 := buf[..], next;
    ok, next := BufWrite(buf, next, [Close(isMap)]);
    WroteBoth(m0, m1, buf[..], at, n1, ok, next, done, close);
  }

  lemma AllRemain(isMap: bool, es: seq<KV>, printf: Printf)
    ensures Remaining(isMap, es, 0, printf) == EncodedEntries(isMap, es, printf)
  {
    if es != [] {
      assert es[0..] == es;
      assert [] + EncodedEntries(isMap, es, printf) == EncodedEntries(isMap, es, printf);
    }
  }

  lemma NoneRemain(isMap: bool, es: seq<KV>, printf: Printf)
    ensures Remaining(isMap, es, |es|, printf) == []
  {
  }

  /** Writes an object at `at`. Only a number that ends exactly at the end of the buffer loses its last byte. */
  method WriteObj(buf: array<byte>, at: nat, o: Obj, printf: Printf) returns (ok: bool, next: nat)
    requires at <= buf.Length
    modifies buf
    ensures Wrote(old(buf[..]), buf[..], at, ok, next, Encoded(o, printf))
    ensures ok && !IsNumber(o) ==> buf[at..next] == Encoded(o, printf)
    ensures ok && IsNumber(o) && next == buf.Length ==> buf[at..next] == Clip(Encoded(o, printf))
    decreases o, 0
  {
    hide Wrote, StrText, Escaped, EncodedEntries, Decimal, Clip;
    match o
    case Null => ok, next := BufWrite(buf, at, NULL_TEXT);
    case Bool(b) => ok, next := BufWrite(buf, at, if b then TRUE_TEXT else FALSE_TEXT);
    case I64(i) => ok, next := Print(buf, at, Decimal(i));
    case F64(bits) => ok, next := Print(buf, at, printf(bits));
    case Buf(s) => ok, next := WriteStr(buf, at, s);
    case Collection(isMap, es) => ok, next := WriteCollection(buf, at, isMap, es, printf);
  }

  /** What ends up in a buffer of `size` bytes that holds the text of `o`. */
  function Shown(o: Obj, size: nat, printf: Printf): bytes {
    if IsNumber(o) && |Encoded(o, printf)| == size then Clip(Encoded(o, printf)) else Encoded(o, printf)
  }

  /** Encodes an object into a buffer: it succeeds exactly when the text fits. */
  method Encode(o: Obj, buf: array<byte>, printf: Printf) returns (ok: bool, len: nat)
    modifies buf
    ensures ok <==> |Encoded(o, printf)| <= buf.Length
    ensures ok ==> len == |Encoded(o, printf)| && buf[..len] == Shown(o, buf.Length, printf)
  {
    hide Encoded, Clip;
    ok, len := WriteObj(buf, 0, o, printf);
    if ok { assert buf[0..len] == buf[..len]; }
  }

  lemma LastDigit(n: nat)
    ensures Digits(n) != [] && Digits(n)[|Digits(n)| - 1] >= 48
  {
  }

  /** The encoder's output is the text of the object unless the object is one integer whose digits fill the
      buffer. */
  lemma ShownIsEncoded(o: Obj, size: nat, printf: Printf)
    requires NoFloats(o) && |Encoded(o, printf)| <= size
    ensures Shown(o, size, printf) == Encoded(o, printf) <==> !(o.I64? && |Encoded(o, printf)| == size)
  {
    hide NoFloatEntries, EncodedEntries, Digits, Escaped;
    if o.I64? {
      var s := Encoded(o, printf);
      var x: int := o.i;
      LastDigit(if x < 0 then -x else x);
      assert s[|s| - 1] >= 48;
      if |s| == size { assert Clip(s)[|s| - 1] == 0; }
    }
  }
}
