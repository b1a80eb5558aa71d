/** EventStream framing of `eventstream/src/encode.c` and `eventstream/src/decode.c`. */
module EventStream {
  import opened Buffer
  import opened BumpBuffer
  import opened Crc32
  import opened Words

  const UINT32_MAX: nat := 0xFFFF_FFFF
  const TYPE_INT32: byte := 4
  const TYPE_STRING: byte := 7

  type int32 = x: int | -0x8000_0000 <= x < 0x8000_0000

  datatype Value = Int32(v: int32) | Str(s: bytes)

  datatype Header = Header(name: bytes, value: Value)

  // ---- Words ----

  function Be32(x: word): (b: bytes)
    ensures |b| == 4
  {
    Be(x, 4)
  }

  function ReadBe32(b: bytes): word
    requires |b| == 4
  {
    Pow256Values();
    ReadBe(b)
  }

  lemma Be32RoundTrip(x: word)
    ensures ReadBe32(Be32(x)) == x
  {
    Pow256Values();
    ReadOfBe(x, 4);
  }

  lemma ReadRoundTrip(b: bytes)
    requires |b| == 4
    ensures Be32(ReadBe32(b)) == b
  {
    BeOfRead(b);
  }

  function ToWord(v: int32): word { if v < 0 then v + 0x1_0000_0000 else v }

  function FromWord(x: word): int32 { if x < 0x8000_0000 then x else x - 0x1_0000_0000 }

  // ---- The format (the length bytes are exact for encodable headers) ----

  predicate Encodable(h: Header) {
    |h.name| <= 255 && (h.value.Str? ==> |h.value.s| <= 0xFFFF)
  }

  predicate AllEncodable(hs: seq<Header>) {
    forall h | h in hs :: Encodable(h)
  }

  function EncodedValue(v: Value): bytes {
    match v
    case Int32(x) => [TYPE_INT32] + Be32(ToWord(x))
    case Str(s) => [TYPE_STRING, |s| / 256 % 256, |s| % 256] + s
  }

  function EncodedHeader(h: Header): bytes {
    [|h.name| % 256] + h.name + EncodedValue(h.value)
  }

  function EncodedHeaders(hs: seq<Header>): bytes {
    if hs == [] then [] else EncodedHeader(hs[0]) + EncodedHeaders(hs[1..])
  }

  /** The packet up to the final checksum. */
  function Body(headers: bytes, payload: bytes): bytes
    requires 16 + |headers| + |payload| <= UINT32_MAX
  {
    var lengths := Be32(16 + |headers| + |payload|) + Be32(|headers|);
    lengths + Be32(Crc(0, lengths)) + headers + payload
  }

  function Packet(headers: bytes, payload: bytes): bytes
    requires 16 + |headers| + |payload| <= UINT32_MAX
  {
    var body := Body(headers, payload);
    body + Be32(Crc(0, body))
  }

  // ---- Decoding ----

  datatype Prelude = Prelude(dataLen: nat, headersLen: nat, crc: word)

  /** `eventstream_decode_prelude`. */
  function DecodePrelude(buf: bytes): Option<Prelude> {
    if |buf| < 12 then None
    else
      var crc := Crc(0, buf[..8]);
      var preludeCrc := ReadBe32(buf[8..12]);
      if crc != preludeCrc then None
      else
        var messageLen := ReadBe32(buf[..4]);
        var headersLen := ReadBe32(buf[4..8]);
        if messageLen < 16 || headersLen > messageLen - 16 then None
        else Some(Prelude(messageLen - 12, headersLen, Crc(preludeCrc, buf[8..12])))
  }

  /** Length of the value that follows a type byte, if it lies within the buffer. */
  function ValueLength(b: bytes): Option<nat> {
    if |b| < 1 then None
    else if b[0] == TYPE_INT32 then if |b| - 1 < 4 then None else Some(5)
    else if b[0] == TYPE_STRING then
      if |b| - 1 < 2 then None
      else
        var len := b[1] as int * 256 + b[2] as int;
        if |b| - 3 < len then None else Some(3 + len)
    else None
  }

  /** `take_header`: the length of the first header, with every bound checked. */
  function HeaderLength(b: bytes): (r: Option<nat>)
    ensures r.Some? ==> 0 < r.value <= |b|
  {
    if |b| < 1 || |b| - 1 < b[0] then None
    else match ValueLength(b[1 + b[0]..])
      case None => None
      case Some(n) => Some(1 + b[0] as int + n)
  }

  function HeaderCount(b: bytes): Option<nat>
    decreases |b|
  {
    if b == [] then Some(0)
    else match HeaderLength(b)
      case None => None
      case Some(n) =>
        match HeaderCount(b[n..])
        case None => None
        case Some(k) => Some(k + 1)
  }

  /** `count_headers`. */
  method CountHeaders(buf: bytes) returns (count: Option<nat>)
    ensures count == HeaderCount(buf)
  {
    var headers := buf;
    var n := 0;
    while |headers| > 0
      invariant HeaderCount(buf).None? <==> HeaderCount(headers).None?
      invariant HeaderCount(buf).Some? ==> HeaderCount(buf).value == n + HeaderCount(headers).value
      decreases |headers|
    {
      var taken := HeaderLength(headers);
      if taken.None? { return None; }
      headers := headers[taken.value..];
      n := n + 1;
    }
    return Some(n);
  }

  /** A decoded message: the header section the iterator walks, its header count, and the payload. */
  datatype Message = Message(headers: bytes, count: nat, payload: bytes)

  /** `eventstream_decode`. */
  method Decode(prelude: Prelude, data: bytes) returns (msg: Option<Message>)
    requires 4 <= |data| == prelude.dataLen && prelude.headersLen <= |data| - 4
    ensures msg == Decoded(prelude, data)
  {
    var crc := Crc(prelude.crc, data[..|data| - 4]);
    if crc != ReadBe32(data[|data| - 4..]) { return None; }
    var headers := data[..prelude.headersLen];
    var count := CountHeaders(headers);
    if count.None? { return None; }
    return Some(Message(headers, count.value, data[prelude.headersLen..|data| - 4]));
  }

  function Decoded(prelude: Prelude, data: bytes): Option<Message>
    requires 4 <= |data| == prelude.dataLen && prelude.headersLen <= |data| - 4
  {
    var headers := data[..prelude.headersLen];
    if Crc(prelude.crc, data[..|data| - 4]) != ReadBe32(data[|data| - 4..]) || HeaderCount(headers).None? then None
    else Some(Message(headers, HeaderCount(headers).value, data[prelude.headersLen..|data| - 4]))
  }

  /** What the unchecked iterator reads for a value at `at` lies inside the section. */
  ghost predicate ValueInside(section: bytes, at: nat) {
    && at < |section|
    && (section[at] == TYPE_INT32 || section[at] == TYPE_STRING)
    && (section[at] == TYPE_INT32 ==> at + 5 <= |section|)
    && (section[at] == TYPE_STRING ==>
          at + 3 <= |section| && at + 3 + section[at + 1] as int * 256 + section[at + 2] as int <= |section|)
  }

  /** What it reads for one header at `pos` lies inside the section. */
  ghost predicate ReadsInside(section: bytes, pos: nat) {
    pos < |section| && ValueInside(section, pos + 1 + section[pos])
  }

  /** The value part of `eventstream_header_next`, at the type byte. */
  method ValueNext(section: bytes, at: nat) returns (value: Value, next: nat)
    requires ValueInside(section, at)
    ensures at < next <= |section|
    ensures value.Str? ==> |value.s| <= 0xFFFF
    ensures section[at..next] == EncodedValue(value)
  {
    hide Be32, ReadBe32;
    var p := at + 1;
    if section[at] == TYPE_INT32 {
      next := p + 4;
      var raw := section[p..next];
      ReadRoundTrip(raw);
      value := Int32(FromWord(ReadBe32(raw)));
    } else {
      var strLen := section[p] as int * 256 + section[p + 1] as int;
      next := p + 2 + strLen;
      value := Str(section[p + 2..next]);
      LengthBytes(section[p], section[p + 1]);
    }
    SplitAt(section, at, if value.Int32? then p else p + 2, next);
  }

  lemma LengthBytes(hi: byte, lo: byte)
    ensures (hi as int * 256 + lo as int) / 256 % 256 == hi && (hi as int * 256 + lo as int) % 256 == lo
  {
  }

  lemma SplitAt(s: bytes, i: nat, j: nat, k: nat)
    requires i <= j <= k <= |s|
    ensures s[i..k] == s[i..j] + s[j..k]
    ensures j == i + 1 ==> s[i..j] == [s[i]]
    ensures j == i + 3 ==> s[i..j] == [s[i], s[i + 1], s[i + 2]]
  {
  }

  /** `eventstream_header_next` on a non-empty iterator: it checks no bound, so the bounds are required. */
  method HeaderNext(section: bytes, pos: nat) returns (header: Header, next: nat)
    requires ReadsInside(section, pos)
    ensures pos < next <= |section|
    ensures Encodable(header) && section[pos..next] == EncodedHeader(header)
  {
    var p := pos + 1 + section[pos];
    var name := section[pos + 1..p];
    var value;
    value, next := ValueNext(section, p);
    header := Header(name, value);
    assert section[pos..next] == section[pos..pos + 1] + section[pos + 1..p] + section[p..next];
  }

  lemma CheckedIsInside(section: bytes, pos: nat)
    requires pos <= |section| && HeaderLength(section[pos..]).Some?
    ensures ReadsInside(section, pos)
  {
    var b := section[pos..];
    var v := b[1 + b[0]..];
    assert b[0] == section[pos] && v == section[pos + 1 + section[pos]..];
    assert v[0] == section[pos + 1 + section[pos]];
    if v[0] == TYPE_STRING {
      assert v[1] == section[pos + 2 + section[pos]] && v[2] == section[pos + 3 + section[pos]];
    }
  }

  /** Walking an accepted header section with the unchecked iterator: it never leaves the section, yields
      exactly the counted number of headers, and ends exactly at the end. */
  method ReadHeaders(msg: Message) returns (hs: seq<Header>)
    requires HeaderCount(msg.headers) == Some(msg.count)
    ensures |hs| == msg.count
    ensures AllEncodable(hs) && EncodedHeaders(hs) == msg.headers
  {
    hide EncodedHeader, EncodedHeaders, HeaderCount;
    var section := msg.headers;
    hs := [];
    var pos := 0;
    var count := msg.count;
    assert section[0..] == section;
    NoHeaders();
    while count > 0
      invariant pos <= |section|
      invariant HeaderCount(section[pos..]) == Some(count)
      invariant |hs| + count == msg.count
      invariant AllEncodable(hs) && EncodedHeaders(hs) == section[..pos]
    {
      CountedIsInside(section, pos);
      var header, next := HeaderNext(section, pos);
      CountStep(section, pos, next, header);
      EncodedAppend(hs, header);
      assert section[..next] == section[..pos] + section[pos..next];
      hs := hs + [header];
      pos := next;
      count := count - 1;
    }
    CountedIsInside(section, pos);
    assert section[..pos] == section;
  }

  lemma NoHeaders()
    ensures EncodedHeaders([]) == []
  {
  }

  lemma CountedIsInside(section: bytes, pos: nat)
    requires pos <= |section| && HeaderCount(section[pos..]).Some?
    ensures HeaderCount(section[pos..]).value > 0 ==> ReadsInside(section, pos)
    ensures HeaderCount(section[pos..]).value == 0 ==> pos == |section|
  {
    hide HeaderLength;
    if pos < |section| { CheckedIsInside(section, pos); }
  }

  lemma CountStep(section: bytes, pos: nat, next: nat, header: Header)
    requires pos < next <= |section| && Encodable(header) && section[pos..next] == EncodedHeader(header)
    ensures HeaderCount(section[pos..]) ==
            match HeaderCount(section[next..]) case None => None case Some(k) => Some(k + 1)
  {
    hide EncodedHeader, HeaderLength;
    HeaderLengthOf(header, section[next..]);
    assert section[pos..] == EncodedHeader(header) + section[next..];
    assert section[pos..][next - pos..] == section[next..];
  }

  lemma {:induction false} EncodedConcat(hs: seq<Header>, ks: seq<Header>)
    ensures EncodedHeaders(hs + ks) == EncodedHeaders(hs) + EncodedHeaders(ks)
  {
    if hs == [] {
      assert [] + ks == ks;
    } else {
      assert (hs + ks)[1..] == hs[1..] + ks;
      EncodedConcat(hs[1..], ks);
    }
  }

  lemma EncodedAppend(hs: seq<Header>, h: Header)
    ensures EncodedHeaders(hs + [h]) == EncodedHeaders(hs) + EncodedHeader(h)
  {
    EncodedConcat(hs, [h]);
    assert [h][1..] == [];
  }

  /** The checked length of an encoded header is its length, whatever follows. */
  lemma HeaderLengthOf(h: Header, rest: bytes)
    requires Encodable(h)
    ensures HeaderLength(EncodedHeader(h) + rest) == Some(|EncodedHeader(h)|)
  {
    var b := EncodedHeader(h) + rest;
    assert b[0] == |h.name|;
    assert b[1 + b[0]..] == EncodedValue(h.value) + rest;
  }

  lemma {:induction false} CountOf(hs: seq<Header>)
    requires AllEncodable(hs)
    ensures HeaderCount(EncodedHeaders(hs)) == Some(|hs|)
  {
    if hs != [] {
      CountOf(hs[1..]);
      HeaderLengthOf(hs[0], EncodedHeaders(hs[1..]));
      assert EncodedHeaders(hs)[|EncodedHeader(hs[0])|..] == EncodedHeaders(hs[1..]);
    }
  }

  /** Equal headers sections hold equal headers. */
  lemma {:induction false} HeadersInjective(hs: seq<Header>, ks: seq<Header>)
    requires AllEncodable(hs) && AllEncodable(ks) && EncodedHeaders(hs) == EncodedHeaders(ks)
    ensures hs == ks
  {
    CountOf(hs);
    CountOf(ks);
    if hs != [] {
      var b := EncodedHeaders(hs);
      HeaderLengthOf(hs[0], EncodedHeaders(hs[1..]));
      HeaderLengthOf(ks[0], EncodedHeaders(ks[1..]));
      var n := |EncodedHeader(hs[0])|;
      assert b[..n] == EncodedHeader(hs[0]) && b[..n] == EncodedHeader(ks[0]);
      assert b[n..] == EncodedHeaders(hs[1..]) && b[n..] == EncodedHeaders(ks[1..]);
      HeaderInjective(hs[0], ks[0]);
      HeadersInjective(hs[1..], ks[1..]);
    }
  }

  lemma HeaderInjective(h: Header, k: Header)
    requires Encodable(h) && Encodable(k) && EncodedHeader(h) == EncodedHeader(k)
    ensures h == k
  {
    hide EncodedValue;
    var b := EncodedHeader(h);
    assert b[0] == |h.name| == |k.name|;
    assert b[1..1 + |h.name|] == h.name && b[1..1 + |h.name|] == k.name;
    assert b[1 + |h.name|..] == EncodedValue(h.value) && b[1 + |h.name|..] == EncodedValue(k.value);
    ValueInjective(h.value, k.value);
  }

  lemma ValueInjective(v: Value, w: Value)
    requires EncodedValue(v) == EncodedValue(w)
    ensures v == w
  {
    hide Be32, ReadBe32;
    var b := EncodedValue(v);
    assert b[0] == EncodedValue(w)[0];
    match v
    case Int32(x) =>
      assert b[1..] == Be32(ToWord(x)) && b[1..] == Be32(ToWord(w.v));
      Be32RoundTrip(ToWord(x));
      Be32RoundTrip(ToWord(w.v));
    case Str(s) =>
      assert b[3..] == s && b[3..] == w.s;
  }

  // ---- Whole packets ----

  /** What a receiver does: 12 bytes, then as many as the prelude announces. */
  function Received(buf: bytes): Option<Message> {
    match DecodePrelude(buf[..if |buf| < 12 then |buf| else 12])
    case None => None
    case Some(prelude) => if |buf| - 12 != prelude.dataLen then None else Decoded(prelude, buf[12..])
  }

  lemma PreludeOf(buf: bytes)
    requires |buf| >= 12
    ensures DecodePrelude(buf[..12]).Some? <==>
            && ReadBe32(buf[8..12]) == Crc(0, buf[..8])
            && 16 + ReadBe32(buf[4..8]) <= ReadBe32(buf[..4])
    ensures DecodePrelude(buf[..12]).Some? ==>
              DecodePrelude(buf[..12]).value == Prelude(ReadBe32(buf[..4]) - 12, ReadBe32(buf[4..8]), Crc(0, buf[..12]))
  {
    var p := buf[..12];
    assert p[..8] == buf[..8] && p[8..12] == buf[8..12] && p[..4] == buf[..4] && p[4..8] == buf[4..8];
    assert buf[..8] + buf[8..12] == buf[..12];
    CrcConcat(0, buf[..8], buf[8..12]);
  }

  /** The fields of a packet, as slices. */
  ghost predicate HasParts(buf: bytes, headers: bytes, payload: bytes) {
    && |buf| == 16 + |headers| + |payload| <= UINT32_MAX
    && buf[..4] == Be32(|buf|) && buf[4..8] == Be32(|headers|)
    && buf[8..12] == Be32(Crc(0, buf[..8]))
    && buf[12..|buf| - 4] == headers + payload
    && buf[|buf| - 4..] == Be32(Crc(0, buf[..|buf| - 4]))
  }

  lemma PacketHasParts(headers: bytes, payload: bytes)
    requires 16 + |headers| + |payload| <= UINT32_MAX
    ensures HasParts(Packet(headers, payload), headers, payload)
  {
    var body := Body(headers, payload);
    var lengths := Be32(16 + |headers| + |payload|) + Be32(|headers|);
    Slices(Be32(16 + |headers| + |payload|), Be32(|headers|), Be32(Crc(0, lengths)), headers + payload, Be32(Crc(0, body)));
    assert body == Be32(16 + |headers| + |payload|) + Be32(|headers|) + Be32(Crc(0, lengths)) + (headers + payload);
  }

  lemma Slices(a: bytes, b: bytes, c: bytes, d: bytes, e: bytes)
    requires |a| == |b| == |c| == |e| == 4
    ensures var s := a + b + c + d + e;
            && s[..4] == a && s[4..8] == b && s[..8] == a + b && s[8..12] == c
            && s[12..|s| - 4] == d && s[..|s| - 4] == a + b + c + d && s[|s| - 4..] == e
  {
  }

  lemma PartsMakePacket(buf: bytes, headers: bytes, payload: bytes)
    requires HasParts(buf, headers, payload)
    ensures buf == Packet(headers, payload)
  {
    hide Be32, Crc;
    var n := |buf| - 4;
    assert buf[..8] == buf[..4] + buf[4..8];
    assert buf[..n] == buf[..4] + buf[4..8] + buf[8..12] + buf[12..n];
    assert buf[..n] == Body(headers, payload);
    assert buf == buf[..n] + buf[n..];
  }

  /** The checksum of the body is the chained one the receiver computes. */
  lemma ChainedCrc(buf: bytes)
    requires |buf| >= 16
    ensures Crc(Crc(0, buf[..12]), buf[12..|buf| - 4]) == Crc(0, buf[..|buf| - 4])
    ensures buf[12..][..|buf| - 16] == buf[12..|buf| - 4]
  {
    assert buf[..12] + buf[12..|buf| - 4] == buf[..|buf| - 4];
    CrcConcat(0, buf[..12], buf[12..|buf| - 4]);
  }

  lemma PartsAreReceived(buf: bytes, headers: bytes, payload: bytes)
    requires HasParts(buf, headers, payload) && HeaderCount(headers).Some?
    ensures Received(buf) == Some(Message(headers, HeaderCount(headers).value, payload))
  {
    hide Be32, ReadBe32, Crc, HeaderCount, DecodePrelude;
    Be32RoundTrip(|buf|);
    Be32RoundTrip(|headers|);
    Be32RoundTrip(Crc(0, buf[..8]));
    Be32RoundTrip(Crc(0, buf[..|buf| - 4]));
    PreludeOf(buf);
    ChainedCrc(buf);
    var data := buf[12..];
    assert data[|data| - 4..] == buf[|buf| - 4..];
    assert data[..|headers|] == (headers + payload)[..|headers|] == headers;
    assert data[|headers|..|data| - 4] == data[..|data| - 4][|headers|..] == payload;
  }

  lemma ReceivedHasParts(buf: bytes)
    requires Received(buf).Some?
    ensures var m := Received(buf).value;
            HeaderCount(m.headers) == Some(m.count) && HasParts(buf, m.headers, m.payload)
  {
    hide Be32, ReadBe32, Crc, HeaderCount;
    assert |buf| >= 12;
    PreludeOf(buf);
    var m := Received(buf).value;
    var data := buf[12..];
    ReadRoundTrip(buf[..4]);
    ReadRoundTrip(buf[4..8]);
    ReadRoundTrip(buf[8..12]);
    ReadRoundTrip(data[|data| - 4..]);
    ChainedCrc(buf);
    assert data[|data| - 4..] == buf[|buf| - 4..];
    assert data[..|data| - 4] == m.headers + m.payload;
  }

  /** The receiver accepts exactly the packets of the format, for every byte string. */
  lemma ReceiverAcceptsExactlyPackets(buf: bytes, m: Message)
    ensures Received(buf) == Some(m) <==>
            && HeaderCount(m.headers) == Some(m.count)
            && 16 + |m.headers| + |m.payload| <= UINT32_MAX
            && buf == Packet(m.headers, m.payload)
  {
    if Received(buf) == Some(m) {
      ReceivedHasParts(buf);
      PartsMakePacket(buf, m.headers, m.payload);
    }
    if HeaderCount(m.headers) == Some(m.count) && 16 + |m.headers| + |m.payload| <= UINT32_MAX {
      PacketHasParts(m.headers, m.payload);
      PartsAreReceived(Packet(m.headers, m.payload), m.headers, m.payload);
    }
  }

  // ---- Encoding ----

  function Replaced(s: bytes, at: nat, data: bytes): (r: bytes)
    requires at + |data| <= |s|
    ensures |r| == |s|
  {
    s[..at] + data + s[at + |data|..]
  }

  lemma ReplacedSlice(s: bytes, at: nat, data: bytes, i: nat, j: nat)
    requires at + |data| <= |s| && i <= j <= |s|
    ensures j <= at || at + |data| <= i ==> Replaced(s, at, data)[i..j] == s[i..j]
    ensures i == at && j == at + |data| ==> Replaced(s, at, data)[i..j] == data
  {
    var r := Replaced(s, at, data);
    assert forall k | 0 <= k < at || at + |data| <= k < |s| :: r[k] == s[k];
    if j <= at || at + |data| <= i {
      assert |r[i..j]| == |s[i..j]|;
      forall k | 0 <= k < j - i ensures r[i..j][k] == s[i..j][k] { assert r[i + k] == s[i + k]; }
    }
  }

  /** Overwrites part of the buffer. */
  method Put(buf: array<byte>, at: nat, data: bytes)
    requires at + |data| <= buf.Length
    modifies buf
    ensures buf[..] == Replaced(old(buf[..]), at, data)
  {
    forall k | 0 <= k < |data| {
      buf[at + k] := data[k];
    }
  }

  /** The value part of `header_encode`. */
  method ValueEncode(buf: array<byte>, at: nat, limit: nat, v: Value) returns (ok: bool, next: nat)
    requires at <= limit <= buf.Length
    modifies buf
    ensures ok <==> (v.Str? ==> |v.s| <= 0xFFFF) && at + |EncodedValue(v)| <= limit
    ensures ok ==> next == at + |EncodedValue(v)| && buf[..next] == old(buf[..at]) + EncodedValue(v)
  {
    hide Be32, ToWord;
    ghost var start := buf[..at];
    match v
    case Int32(x) =>
      ok, next := Append(buf, at, limit, [TYPE_INT32]);
      if !ok { return; }
      ok, next := Append(buf, next, limit, Be32(ToWord(x)));
      assert start + [TYPE_INT32] + Be32(ToWord(x)) == start + EncodedValue(v);
    case Str(s) =>
      ok, next := Append(buf, at, limit, [TYPE_STRING]);
      if !ok { return; }
      if |s| > 0xFFFF { return false, next; }
      ok, next := Append(buf, next, limit, [|s| / 256 % 256, |s| % 256]);
      if !ok { return; }
      ok, next := Append(buf, next, limit, s);
      assert start + [TYPE_STRING] + [|s| / 256 % 256, |s| % 256] + s == start + EncodedValue(v);
  }

  /** `header_encode`. */
  method HeaderEncode(buf: array<byte>, at: nat, limit: nat, h: Header) returns (ok: bool, next: nat)
    requires at <= limit <= buf.Length
    modifies buf
    ensures ok <==> Encodable(h) && at + |EncodedHeader(h)| <= limit
    ensures ok ==> next == at + |EncodedHeader(h)| && buf[..next] == old(buf[..at]) + EncodedHeader(h)
  {
    ghost var start := buf[..at];
    if |h.name| > 255 { return false, at; }
    ok, next := Append(buf, at, limit, [|h.name| % 256]);
    if !ok { return; }
    ok, next := Append(buf, next, limit, h.name);
    if !ok { return; }
    ok, next := ValueEncode(buf, next, limit, h.value);
    if ok {
      assert start + [|h.name| % 256] + h.name + EncodedValue(h.value) == start + EncodedHeader(h);
    }
  }

  method HeadersEncode(buf: array<byte>, at: nat, limit: nat, hs: seq<Header>) returns (ok: bool, next: nat)
    requires at <= limit <= buf.Length
    modifies buf
    ensures ok <==> AllEncodable(hs) && at + |EncodedHeaders(hs)| <= limit
    ensures ok ==> next == at + |EncodedHeaders(hs)| && buf[..next] == old(buf[..at]) + EncodedHeaders(hs)
  {
    hide EncodedHeader;
    ok, next := true, at;
    ghost var start := buf[..at];
    for i := 0 to |hs|
      invariant forall j | 0 <= j < i :: Encodable(hs[j])
      invariant at <= next <= limit && next == at + |EncodedHeaders(hs[..i])|
      invariant buf[..next] == start + EncodedHeaders(hs[..i])
    {
      ghost var done := EncodedHeaders(hs[..i]);
      ok, next := HeaderEncode(buf, next, limit, hs[i]);
      PrefixStep(hs, i);
      if !ok {
        assert hs[i] in hs;
        return;
      }
      Associate(start, done, EncodedHeader(hs[i]));
    }
    assert hs[..|hs|] == hs;
    ok := true;
  }

  lemma Associate(a: bytes, b: bytes, c: bytes)
    ensures a + b + c == a + (b + c)
  {
  }

  lemma PrefixStep(hs: seq<Header>, i: nat)
    requires i < |hs|
    ensures EncodedHeaders(hs[..i + 1]) == EncodedHeaders(hs[..i]) + EncodedHeader(hs[i])
    ensures |EncodedHeaders(hs[..i + 1])| <= |EncodedHeaders(hs)|
  {
    assert hs[..i + 1] == hs[..i] + [hs[i]] && hs == hs[..i + 1] + hs[i + 1..];
    EncodedAppend(hs[..i], hs[i]);
    EncodedConcat(hs[..i + 1], hs[i + 1..]);
  }

  lemma AppendedSlices(s: bytes, at: nat, data: bytes)
    requires 12 <= at <= |s|
    ensures (s[..at] + data)[4..8] == s[4..8]
    ensures (s[..at] + data)[12..] == s[12..at] + data
  {
  }

  /** `eventstream_encode`. The payload reader is modelled by its result: `None` if it fails, else the bytes
      it writes provided they fit. */
  method Encode(buf: array<byte>, hs: seq<Header>, payload: Option<bytes>) returns (ok: bool, len: nat)
    modifies buf
    ensures ok <==>
            && AllEncodable(hs) && payload.Some?
            && 16 + |EncodedHeaders(hs)| + |payload.value| <= if buf.Length < UINT32_MAX then buf.Length else UINT32_MAX
    ensures ok ==>
              && 16 + |EncodedHeaders(hs)| + |payload.value| <= UINT32_MAX
              && len == 16 + |EncodedHeaders(hs)| + |payload.value| <= buf.Length
              && HasParts(buf[..len], EncodedHeaders(hs), payload.value)
  {
    var limit := if buf.Length < UINT32_MAX then buf.Length else UINT32_MAX;
    len := 0;
    if limit < 12 { return false, len; }
    var at;
    ok, at := HeadersEncode(buf, 12, limit, hs);
    if !ok { return; }
    ghost var headers := EncodedHeaders(hs);
    ghost var s := buf[..];
    assert buf[..at] == s[..at];
    assert s[12..at] == s[..at][12..] == headers;
    Put(buf, 4, Be32(at - 12));
    ReplacedSlice(s, 4, Be32(at - 12), 4, 8);
    ReplacedSlice(s, 4, Be32(at - 12), 12, at);
    s := buf[..];
    assert buf[..at] == s[..at];
    if payload.None? { return false, len; }
    var end;
    ok, end := Append(buf, at, limit, payload.value);
    if !ok { return; }
    AppendedSlices(s, at, payload.value);
    ok := FinishPacket(buf, limit, end, headers, payload.value);
    len := end + 4;
  }

  /** The end of `eventstream_encode`: back-fills the total length and the prelude checksum, and appends the
      message checksum. The total is a 32-bit word. */
  method FinishPacket(buf: array<byte>, limit: nat, end: nat, ghost headers: bytes, ghost payload: bytes)
    returns (ok: bool)
    requires 12 <= end <= limit <= buf.Length && limit <= UINT32_MAX
    requires end == 12 + |headers| + |payload|
    requires buf[..end][4..8] == Be32(|headers|) && buf[..end][12..] == headers + payload
    modifies buf
    ensures ok <==> end + 4 <= limit
    ensures ok ==> HasParts(buf[..end + 4], headers, payload)
  {
    hide Crc, Be32, HasParts;
    ghost var s0 := buf[..];
    assert buf[..end] == s0[..end];
    var messageLen: word := (end + 4) % 0x1_0000_0000;
    Put(buf, 0, Be32(messageLen));
    ghost var s1 := buf[..];
    assert buf[..8] == s1[..8];
    var preludeCrc := Crc(0, buf[..8]);
    Put(buf, 8, Be32(preludeCrc));
    ghost var s2 := buf[..];
    assert buf[8..end] == s2[8..end];
    var messageCrc := Crc(preludeCrc, buf[8..end]);
    if limit - end < 4 { return false; }
    Put(buf, end, Be32(messageCrc));
    Finished(s0, end, headers, payload, messageLen);
    assert buf[..end + 4] == buf[..][..end + 4];
    return true;
  }

  lemma Finished(s0: bytes, end: nat, headers: bytes, payload: bytes, total: word)
    requires end == 12 + |headers| + |payload| && total == end + 4 <= |s0|
    requires s0[..end][4..8] == Be32(|headers|) && s0[..end][12..] == headers + payload
    ensures var s1 := Replaced(s0, 0, Be32(total));
            var s2 := Replaced(s1, 8, Be32(Crc(0, s1[..8])));
            var s3 := Replaced(s2, end, Be32(Crc(Crc(0, s1[..8]), s2[8..end])));
            HasParts(s3[..total], headers, payload)
  {
    var s1 := Replaced(s0, 0, Be32(total));
    var c := Be32(Crc(0, s1[..8]));
    var s2 := Replaced(s1, 8, c);
    ReplacedSlice(s0, 0, Be32(total), 0, 4);
    ReplacedSlice(s0, 0, Be32(total), 4, 8);
    ReplacedSlice(s0, 0, Be32(total), 12, end);
    ReplacedSlice(s1, 8, c, 0, 8);
    ReplacedSlice(s1, 8, c, 8, 12);
    ReplacedSlice(s1, 8, c, 12, end);
    assert s0[4..8] == s0[..end][4..8] && s0[12..end] == s0[..end][12..];
    var body := s2[..end];
    assert s2[..8] + s2[8..end] == body;
    CrcConcat(0, s2[..8], s2[8..end]);
    var m := Be32(Crc(0, body));
    var s3 := Replaced(s2, end, m);
    ReplacedSlice(s2, end, m, 0, end);
    ReplacedSlice(s2, end, m, end, total);
    assert s3[..total][..end] == s3[0..end] && s3[..total][end..] == s3[end..total];
    assert body[..4] == s1[0..8][..4] == s1[..4] && body[4..8] == s1[0..8][4..8] == s1[4..8];
    assert body[..8] == s1[..8] && body[8..12] == s2[8..12] && body[12..] == s2[12..end];
    PartsFromBody(s3[..total], body, headers, payload);
  }

  lemma PartsFromBody(packet: bytes, body: bytes, headers: bytes, payload: bytes)
    requires |body| == 12 + |headers| + |payload| && |packet| == |body| + 4 <= UINT32_MAX
    requires packet[..|body|] == body && packet[|body|..] == Be32(Crc(0, body))
    requires body[..4] == Be32(|packet|) && body[4..8] == Be32(|headers|)
    requires body[8..12] == Be32(Crc(0, body[..8])) && body[12..] == headers + payload
    ensures HasParts(packet, headers, payload)
  {
    assert packet[..4] == body[..4] && packet[4..8] == body[4..8] && packet[8..12] == body[8..12];
    assert packet[..8] == body[..8] && packet[12..|packet| - 4] == body[12..];
  }

  /** The round trip: what the encoder writes is received, and the iterator yields the given headers. */
  method RoundTrip(buf: array<byte>, hs: seq<Header>, payload: bytes) returns (ok: bool, got: Option<(seq<Header>, bytes)>)
    modifies buf
    ensures ok ==> got == Some((hs, payload))
  {
    var len;
    ok, len := Encode(buf, hs, Some(payload));
    got := None;
    if ok {
      var packet := buf[..len];
      CountOf(hs);
      PartsAreReceived(packet, EncodedHeaders(hs), payload);
      var prelude := DecodePrelude(packet[..12]);
      if prelude.Some? && |packet| - 12 == prelude.value.dataLen {
        var msg := Decode(prelude.value, packet[12..]);
        if msg.Some? {
          var read := ReadHeaders(msg.value);
          HeadersInjective(read, hs);
          got := Some((read, msg.value.payload));
        }
      }
    }
  }
}
