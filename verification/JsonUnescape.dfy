/** Decoding the escapes of a JSON string in place (`ggl-json/src/json_decode.c`). The result is the string
    denoted by the text exactly when the text has no `\uXXXX` escape. */
module JsonUnescape {
  import opened Buffer
  import opened JsonSyntax

  // ---- What a string body denotes (section 7 of RFC 8259) ----

  /** The character of a two-byte escape. */
  function EscapeValue(c: byte): (r: Option<byte>)
    ensures r.Some? <==> IsSimpleEscape(c)
  {
    if c == QUOTE || c == BACKSLASH || c == 47 then Some(c)
    else if c == 98 then Some(8)
    else if c == 102 then Some(12)
    else if c == 110 then Some(10)
    else if c == 114 then Some(13)
    else if c == 116 then Some(9)
    else None
  }

  function HexValue(c: byte): (r: nat)
    requires IsHex(c)
    ensures r < 16
  {
    if IsDigit(c) then c as int - 48 else if c <= 70 then c as int - 55 else c as int - 87
  }

  predicate IsHex4(s: bytes) { |s| == 4 && IsHex(s[0]) && IsHex(s[1]) && IsHex(s[2]) && IsHex(s[3]) }

  function Hex4(s: bytes): (r: nat)
    requires IsHex4(s)
    ensures r < 0x1_0000
  {
    HexValue(s[0]) * 4096 + HexValue(s[1]) * 256 + HexValue(s[2]) * 16 + HexValue(s[3])
  }

  /** The UTF-8 form of a code point. */
  function Utf8(cp: nat): (s: bytes)
    requires cp < 0x20_0000
    ensures 1 <= |s| <= 4 && (cp < 0x1_0000 ==> |s| <= 3)
    ensures BACKSLASH in s ==> cp == BACKSLASH as int && s == [BACKSLASH]
    ensures 0x80 <= cp < 0x800 ==> |s| == 2 && s[0] as int == 0xC0 + cp / 64
    ensures |s| > 1 ==> forall c | c in s :: c >= 0x80
  {
    if cp < 0x80 then [cp]
    else if cp < 0x800 then [(0xC0 + cp / 64) as byte, (0x80 + cp % 64) as byte]
    else if cp < 0x1_0000 then [(0xE0 + cp / 4096) as byte, (0x80 + cp / 64 % 64) as byte, (0x80 + cp % 64) as byte]
    else [(0xF0 + cp / 0x4_0000) as byte, (0x80 + cp / 4096 % 64) as byte, (0x80 + cp / 64 % 64) as byte,
          (0x80 + cp % 64) as byte]
  }

  predicate IsHighSurrogate(code: nat) { 0xD800 <= code <= 0xDBFF }

  predicate IsLowSurrogate(code: nat) { 0xDC00 <= code <= 0xDFFF }

  function PairValue(high: nat, low: nat): (cp: nat)
    requires IsHighSurrogate(high) && IsLowSurrogate(low)
    ensures 0x1_0000 <= cp < 0x11_0000
  {
    (high - 0xD800) * 0x400 + (low - 0xDC00) + 0x1_0000
  }

  function Prepend(s: bytes, r: Option<bytes>): Option<bytes> { if r.None? then None else Some(s + r.value) }

  /** The string that a body stands for; nothing if the body has an unpaired surrogate. */
  function Denotes(s: bytes): Option<bytes>
    decreases |s|
  {
    var u := UnitLength(s);
    if s == [] then Some([])
    else if u == 0 then None
    else if u == 1 then Prepend([s[0]], Denotes(s[1..]))
    else if u == 2 then Prepend([EscapeValue(s[1]).value], Denotes(s[2..]))
    else
      var code := Hex4(s[2..6]);
      if IsLowSurrogate(code) then None
      else if !IsHighSurrogate(code) then Prepend(Utf8(code), Denotes(s[6..]))
      else if UnitLength(s[6..]) != 6 || !IsLowSurrogate(Hex4(s[8..12])) then None
      else Prepend(Utf8(PairValue(code, Hex4(s[8..12]))), Denotes(s[12..]))
  }

  predicate HasUnicode(s: bytes)
    decreases |s|
  {
    var u := UnitLength(s);
    u == 6 || (u > 0 && HasUnicode(s[u..]))
  }

  lemma {:induction false} DenotesShrinks(s: bytes)
    ensures Denotes(s).Some? ==> |Denotes(s).value| <= |s|
    decreases |s|
  {
    var u := UnitLength(s);
    if u == 1 || u == 2 { DenotesShrinks(s[u..]); }
    if u == 6 {
      DenotesShrinks(s[6..]);
      if |s| >= 12 { DenotesShrinks(s[12..]); }
    }
  }

  lemma {:induction false} DenotesSomething(s: bytes)
    requires IsBody(s) && !HasUnicode(s)
    ensures Denotes(s).Some?
    decreases |s|
  {
    if s != [] { DenotesSomething(s[UnitLength(s)..]); }
  }

  /** A body that is not decoded: an escape with the four digits 0041 denotes `A`. */
  lemma UnicodeExample()
    ensures var s := [BACKSLASH, LOWER_U, 48, 48, 52, 49]; IsBody(s) && HasUnicode(s) && Denotes(s) == Some([65])
  {
    var s := [BACKSLASH, LOWER_U, 48, 48, 52, 49];
    assert UnitLength(s) == 6 && s[6..] == [];
    assert BodyLength(s) == 6 + BodyLength(s[6..]);
    assert Hex4(s[2..6]) == 65;
    assert Denotes(s[6..]) == Some([]);
    assert Utf8(65) + [] == [65];
  }

  // ---- Decoding in place ----

  function Overwrite(m: bytes, at: nat, s: bytes): (r: bytes)
    requires at + |s| <= |m|
    ensures |r| == |m|
    ensures forall i | 0 <= i < |m| :: r[i] == if at <= i < at + |s| then s[i - at] else m[i]
  {
    m[..at] + s + m[at + |s|..]
  }

  /** The four bytes at `at` read as hexadecimal digits. */
  function HexAt(m: bytes, at: nat): (r: Option<nat>)
    requires at + 4 <= |m|
    ensures r.Some? ==> r.value < 0x1_0000
  {
    if IsHex4(m[at..at + 4]) then Some(Hex4(m[at..at + 4])) else None
  }

  /** What a `\uXXXX` escape at `r` writes when `w` is the write position; nothing if it is refused. The digits
      are taken from behind the write position. */
  function UnicodeBytes(m: bytes, r: nat, w: nat, hi: nat): (s: Option<bytes>)
    requires r <= hi < |m| && w <= r + 1
    ensures s.Some? ==> r + 6 <= hi && 1 <= |s.value| <= 4 && IsHex4(m[w + 2..w + 6])
    ensures s.Some? && 0x80 <= Hex4(m[w + 2..w + 6]) < 0x800 ==>
              |s.value| == 2 && s.value[0] as int == 0xC0 + Hex4(m[w + 2..w + 6]) / 64
  {
    if hi - r < 6 then None
    else
      match HexAt(m, w + 2)
      case None => None
      case Some(code) =>
        if IsHighSurrogate(code) then
          if hi - r < 12 || m[r + 6] != BACKSLASH || m[r + 7] != LOWER_U then None
          else
            match HexAt(m, w + 8)
            case None => None
            case Some(low) => if IsLowSurrogate(low) then Some(Utf8(PairValue(code, low))) else None
        else if IsLowSurrogate(code) then None
        else Some(Utf8(code))
  }

  // ---- How far writing runs ----

  function FirstBackslash(s: bytes): (p: nat)
    ensures p <= |s| && (p < |s| ==> s[p] == BACKSLASH)
    ensures forall i | 0 <= i < p :: s[i] != BACKSLASH
  {
    if s == [] || s[0] == BACKSLASH then 0 else 1 + FirstBackslash(s[1..])
  }

  /** The UTF-8 bytes of the `\uXXXX` escape, or pair of them, in front. */
  function CodeBytes(t: bytes): (u: Option<bytes>)
    ensures u.Some? ==> |t| >= 6 && 1 <= |u.value| <= 4 && IsHex4(t[2..6])
    ensures u.Some? && BACKSLASH in u.value ==> u.value == [BACKSLASH] && Hex4(t[2..6]) == BACKSLASH as int
    ensures u.Some? && |u.value| > 1 ==> forall c | c in u.value :: c >= 0x80
  {
    if |t| < 6 || !IsHex4(t[2..6]) then None
    else
      var code := Hex4(t[2..6]);
      if IsHighSurrogate(code) then
        if |t| < 12 || t[6] != BACKSLASH || t[7] != LOWER_U || !IsHex4(t[8..12]) || !IsLowSurrogate(Hex4(t[8..12]))
        then None
        else Some(Utf8(PairValue(code, Hex4(t[8..12]))))
      else if IsLowSurrogate(code) then None
      else Some(Utf8(code))
  }

  /** What the first escape of a text stands for if it is a `\uXXXX` escape. */
  function FirstUnicode(s: bytes): (u: Option<bytes>)
    ensures u.Some? ==> 1 <= |u.value| <= 4
    ensures u.Some? && |u.value| > 1 ==> forall c | c in u.value :: c >= 0x80
  {
    var p := FirstBackslash(s);
    if p + 1 < |s| && s[p + 1] == LOWER_U then CodeBytes(s[p..]) else None
  }

  /** How many bytes behind the text are overwritten. */
  function Spill(s: bytes): (n: nat)
    ensures n <= 4
    ensures n > 0 <==> FirstUnicode(s).Some? && FirstUnicode(s).value != [BACKSLASH]
  {
    match FirstUnicode(s) case None => 0 case Some(u) => if u == [BACKSLASH] then 0 else |u|
  }

  /** The first `n` bytes of `u` repeated. */
  function Echo(u: bytes, n: nat): (s: bytes)
    requires u != []
    ensures |s| == n
    ensures forall c | c in s :: c in u
    decreases n
  {
    if n <= |u| then u[..n] else u + Echo(u, n - |u|)
  }

  /** What is read from a text whose first escape is a `\uXXXX` escape. */
  function Garbled(s: bytes): (g: bytes)
    requires Spill(s) > 0
    ensures |g| == |s| + Spill(s)
  {
    var p := FirstBackslash(s);
    s[..p] + Echo(FirstUnicode(s).value, |s| - p + Spill(s))
  }

  lemma {:induction false} EchoesIs(m: bytes, q: nat, u: bytes, w: nat)
    requires u != [] && Echoes(m, q, u, w)
    ensures m[q..w] == Echo(u, w - q)
    decreases w
  {
    if w - q > |u| {
      var v := w - |u|;
      if v - q >= |u| {
        assert Echoes(m, q, u, v);
        EchoesIs(m, q, u, v);
      } else {
        assert Echo(u, v - q) == u[..v - q];
        assert m[q..v] == m[q..q + |u|][..v - q];
      }
      assert m[q + |u|..w] == m[q..v] by {
        assert forall i | 0 <= i < v - q :: m[q + |u|..w][i] == m[q + |u| + i] == m[q + i] == m[q..v][i];
      }
      assert m[q..w] == m[q..q + |u|] + m[q + |u|..w];
    }
  }

  method WriteBytes(mem: array<byte>, w: nat, s: bytes)
    requires w + |s| <= mem.Length
    modifies mem
    ensures mem[..] == Overwrite(old(mem[..]), w, s)
  {
    var i := 0;
    while i < |s|
      invariant 0 <= i <= |s|
      invariant forall k | 0 <= k < mem.Length :: mem[k] == if w <= k < w + i then s[k - w] else old(mem[k])
    {
      mem[w + i] := s[i];
      i := i + 1;
    }
  }

  /** The text has a meaning and needs no `\uXXXX` escape to say it. */
  predicate IsSimple(s: bytes) { Denotes(s).Some? && !HasUnicode(s) }

  /** `m` differs from `m0` only from `a` up to `b`. */
  ghost predicate Within(m0: bytes, m: bytes, a: int, b: int) {
    |m| == |m0| && forall i | 0 <= i < |m0| :: i < a || b <= i ==> m[i] == m0[i]
  }

  /** From `q` up to `w` the bytes `u` are repeated. */
  ghost predicate Echoes(m: bytes, q: nat, u: bytes, w: nat) {
    && q + |u| <= w <= |m| && m[q..q + |u|] == u
    && forall i | q + |u| <= i < w :: m[i] == m[i - |u|]
  }

  /** The first escape was a `\uXXXX` escape: writing is ahead of reading, so what was written is copied on and the
      rest of the text is never read. */
  ghost predicate Echoing(m0: bytes, m: bytes, lo: nat, hi: nat, r: nat, w: nat)
    requires lo <= hi <= |m0| == |m|
  {
    var s := m0[lo..hi];
    var q := lo + FirstBackslash(s);
    && Spill(s) > 0 && q <= r && w == r + Spill(s) && Echoes(m, q, FirstUnicode(s).value, w)
    && (forall i | q <= i < w :: m[i] != BACKSLASH) && Within(m0, m, q, w)
  }

  /** The first escape stood for a backslash, which is now read as the start of another escape. */
  ghost predicate Stuck(m0: bytes, m: bytes, lo: nat, hi: nat, r: nat, w: nat)
    requires lo <= hi <= |m0| == |m|
  {
    var s := m0[lo..hi];
    && FirstUnicode(s) == Some([BACKSLASH]) && r == lo + FirstBackslash(s) && r + 6 <= hi && Within(m0, m, r, r + 3)
    && ((w == r + 1 && m == m0) || (w == r + 3 && m[r] == BACKSLASH && m[r + 1] == 0xD7))
  }

  /** The first escape was not a `\uXXXX` escape: writing stays behind reading. */
  ghost predicate Shortened(m0: bytes, m: bytes, lo: nat, hi: nat, r: nat, w: nat)
    requires lo <= hi <= |m0| == |m|
  {
    w < r && FirstUnicode(m0[lo..hi]).None? && Within(m0, m, lo, w)
  }

  /** The state between two rounds. `m0` is the memory at the start, `m` the memory now. */
  ghost predicate Between(m0: bytes, m: bytes, lo: nat, hi: nat, r: nat, w: nat) {
    && lo <= r <= hi < |m0| == |m| && lo <= w <= |m|
    && (|| (w == r <= lo + FirstBackslash(m0[lo..hi]) && m == m0)
        || Shortened(m0, m, lo, hi, r, w)
        || Echoing(m0, m, lo, hi, r, w)
        || Stuck(m0, m, lo, hi, r, w))
    && Progress(m0, m, lo, hi, r, w)
  }

  /** How far the text has been decoded. */
  ghost predicate Progress(m0: bytes, m: bytes, lo: nat, hi: nat, r: nat, w: nat)
    requires lo <= r <= hi <= |m0| && lo <= w <= |m|
  {
    var s := m0[lo..hi];
    if HasUnicode(s) then w > r || HasUnicode(m0[r..hi])
    else
      Denotes(s).Some? ==>
        w <= r && IsSimple(m0[r..hi]) && Denotes(s) == Prepend(m[lo..w], Denotes(m0[r..hi]))
  }

  lemma Starts(m: bytes, lo: nat, hi: nat)
    requires lo <= hi < |m|
    ensures Between(m, m, lo, hi, lo, lo)
  {
    hide Denotes, HasUnicode, FirstUnicode, Spill;
    var s := m[lo..hi];
    if Denotes(s).Some? { assert m[lo..lo] + Denotes(s).value == Denotes(s).value; }
  }

  /** One unit of a simple text. */
  lemma SimpleUnit(s: bytes)
    requires IsSimple(s) && s != []
    ensures var u := UnitLength(s);
            && (u == 1 || u == 2) && IsSimple(s[u..])
            && Denotes(s) == Prepend([if u == 1 then s[0] else EscapeValue(s[1]).value], Denotes(s[u..]))
            && (u == 1 <==> s[0] != BACKSLASH)
  {
  }

  lemma UnicodeUnit(s: bytes)
    requires HasUnicode(s)
    ensures s != []
    ensures s[0] != BACKSLASH ==> HasUnicode(s[1..])
    ensures |s| >= 2 && s[0] == BACKSLASH && s[1] != LOWER_U ==> HasUnicode(s[2..])
  {
  }

  lemma PrependTwice(a: bytes, c: byte, r: Option<bytes>)
    ensures Prepend(a, Prepend([c], r)) == Prepend(a + [c], r)
  {
    if r.Some? { assert a + ([c] + r.value) == a + [c] + r.value; }
  }

  /** What is still to be read is as it was. */
  lemma Unread(m0: bytes, m: bytes, lo: nat, hi: nat, r: nat, w: nat)
    requires Between(m0, m, lo, hi, r, w) && w <= r
    ensures forall i | r <= i < |m0| :: m[i] == m0[i]
  {
    hide FirstUnicode, FirstBackslash, Spill, Echoes, Progress;
  }

  /** A round that reads `u` bytes and writes the byte they stand for keeps track of the text. */
  lemma UnitProgress(m0: bytes, m: bytes, lo: nat, hi: nat, r: nat, w: nat, u: nat, c: byte)
    requires Between(m0, m, lo, hi, r, w) && r < hi && u <= hi - r && w < |m|
    requires if m[r] != BACKSLASH then u == 1 && c == m[r]
             else u == 2 && r + 1 < hi && m[r + 1] != LOWER_U && EscapeValue(m[r + 1]) == Some(c)
    requires w > r ==> u == 1
    ensures Progress(m0, Overwrite(m, w, [c]), lo, hi, r + u, w + 1)
  {
    hide Denotes, HasUnicode, UnitLength, Echoing, Stuck, Shortened, FirstBackslash;
    var s := m0[r..hi];
    assert s[u..] == m0[r + u..hi];
    if w <= r {
      Unread(m0, m, lo, hi, r, w);
      assert s[0] == m[r] && (u == 2 ==> s[1] == m[r + 1]);
      if HasUnicode(m0[lo..hi]) {
        UnicodeUnit(s);
      } else if Denotes(m0[lo..hi]).Some? {
        SimpleUnit(s);
        PrependTwice(m[lo..w], c, Denotes(s[u..]));
        assert Overwrite(m, w, [c])[lo..w + 1] == m[lo..w] + [c];
      }
    }
  }

  lemma CopyRound(m0: bytes, m: bytes, lo: nat, hi: nat, r: nat, w: nat)
    requires Between(m0, m, lo, hi, r, w) && r < hi && m[r] != BACKSLASH && w < |m|
    ensures Between(m0, Overwrite(m, w, [m[r]]), lo, hi, r + 1, w + 1)
  {
    hide FirstUnicode, Progress, Overwrite, FirstBackslash;
    var m1 := Overwrite(m, w, [m[r]]);
    UnitProgress(m0, m, lo, hi, r, w, 1, m[r]);
    if w == r && m == m0 {
      assert m0[lo..hi][r - lo] == m[r];
      assert m1 == m0;
    } else if Echoing(m0, m, lo, hi, r, w) {
      EchoRound(m0, m, lo, hi, r, w);
    }
  }

  lemma EchoRound(m0: bytes, m: bytes, lo: nat, hi: nat, r: nat, w: nat)
    requires lo <= r < hi < |m0| == |m| && w < |m| && Echoing(m0, m, lo, hi, r, w)
    ensures Echoing(m0, Overwrite(m, w, [m[r]]), lo, hi, r + 1, w + 1)
  {
    hide FirstUnicode, Overwrite, FirstBackslash;
    var m1 := Overwrite(m, w, [m[r]]);
    var s := m0[lo..hi];
    var q, u := lo + FirstBackslash(s), FirstUnicode(s).value;
    assert m1[q..q + |u|] == m[q..q + |u|];
  }

  lemma SimpleRound(m0: bytes, m: bytes, lo: nat, hi: nat, r: nat, w: nat, c: byte)
    requires Between(m0, m, lo, hi, r, w) && r + 2 <= hi && m[r] == BACKSLASH && m[r + 1] != LOWER_U
    requires EscapeValue(m[r + 1]) == Some(c)
    ensures w <= r && Between(m0, Overwrite(m, w, [c]), lo, hi, r + 2, w + 1)
  {
    hide Progress, Overwrite, FirstBackslash, CodeBytes, Echoes;
    assert w <= r;
    UnitProgress(m0, m, lo, hi, r, w, 2, c);
    var s := m0[lo..hi];
    if w == r && m == m0 {
      assert s[r - lo] == m[r] && s[r + 1 - lo] == m[r + 1];
      assert FirstUnicode(s).None?;
    }
  }

  /** The digits of an escape are found only when nothing has been shortened before it, or far away. */
  lemma WindowMisses(m: bytes, r: nat, w: nat)
    requires r + 6 <= |m| && w < r < w + 6 && m[r] == BACKSLASH && m[r + 1] == LOWER_U
    ensures !IsHex4(m[w + 2..w + 6])
  {
    var s := m[w + 2..w + 6];
    if w + 1 == r { assert s[0] == m[r + 1]; } else { assert s[r - w - 2] == m[r]; }
  }

  lemma SliceOf(m: bytes, r: nat, hi: nat, a: nat, b: nat)
    requires r + b <= hi <= |m| && a <= b
    ensures m[r..hi][a..b] == m[r + a..r + b]
  {
    var x, y := m[r..hi][a..b], m[r + a..r + b];
    assert |x| == |y| && forall i | 0 <= i < |x| :: x[i] == y[i];
  }

  /** With nothing written yet, the digits are the escape's own. */
  lemma OwnDigits(m: bytes, r: nat, hi: nat)
    requires r <= hi < |m|
    ensures UnicodeBytes(m, r, r, hi) == CodeBytes(m[r..hi])
  {
    hide Hex4, Utf8, IsHex4, PairValue;
    var t := m[r..hi];
    if |t| >= 6 { SliceOf(m, r, hi, 2, 6); }
    if |t| >= 12 { SliceOf(m, r, hi, 8, 12); }
  }

  lemma UnicodeAhead(m0: bytes, lo: nat, hi: nat, r: nat, u: bytes)
    requires Between(m0, m0, lo, hi, r, r) && r < hi && r == lo + FirstBackslash(m0[lo..hi])
    requires r + 2 <= hi && m0[r] == BACKSLASH && m0[r + 1] == LOWER_U && UnicodeBytes(m0, r, r, hi) == Some(u)
    ensures FirstUnicode(m0[lo..hi]) == Some(u)
    ensures Between(m0, Overwrite(m0, r, u), lo, hi, r, r + |u|)
  {
    hide Echoing, Stuck, Shortened, Progress, FirstUnicode, Denotes, HasUnicode, Overwrite, UnicodeBytes;
    FirstIsUnicode(m0, lo, hi, r, u);
    NotSimple(m0, lo, hi, r);
    if BACKSLASH in u { AheadStuck(m0, lo, hi, r, u); } else { AheadEchoes(m0, lo, hi, r, u); }
  }

  lemma FirstIsUnicode(m0: bytes, lo: nat, hi: nat, r: nat, u: bytes)
    requires lo <= r && r + 2 <= hi < |m0| && r == lo + FirstBackslash(m0[lo..hi])
    requires m0[r + 1] == LOWER_U && UnicodeBytes(m0, r, r, hi) == Some(u)
    ensures FirstUnicode(m0[lo..hi]) == Some(u)
  {
    hide CodeBytes, UnicodeBytes, FirstBackslash;
    var s := m0[lo..hi];
    OwnDigits(m0, r, hi);
    assert s[r - lo..] == m0[r..hi] && s[r - lo + 1] == m0[r + 1];
  }

  lemma AheadStuck(m0: bytes, lo: nat, hi: nat, r: nat, u: bytes)
    requires lo <= r && r + 2 <= hi < |m0| && r == lo + FirstBackslash(m0[lo..hi]) && m0[r] == BACKSLASH
    requires BACKSLASH in u && UnicodeBytes(m0, r, r, hi) == Some(u) && FirstUnicode(m0[lo..hi]) == Some(u)
    requires HasUnicode(m0[lo..hi]) || Denotes(m0[lo..hi]).None?
    ensures r + |u| <= |m0| && Between(m0, Overwrite(m0, r, u), lo, hi, r, r + |u|)
  {
    hide FirstUnicode, Denotes, HasUnicode, FirstBackslash, Overwrite, Hex4, IsHex4;
    assert Overwrite(m0, r, u) == m0;
    assert Stuck(m0, m0, lo, hi, r, r + 1);
  }

  lemma AheadEchoes(m0: bytes, lo: nat, hi: nat, r: nat, u: bytes)
    requires lo <= r && r + 2 <= hi < |m0| && r == lo + FirstBackslash(m0[lo..hi])
    requires BACKSLASH !in u && UnicodeBytes(m0, r, r, hi) == Some(u) && FirstUnicode(m0[lo..hi]) == Some(u)
    requires HasUnicode(m0[lo..hi]) || Denotes(m0[lo..hi]).None?
    ensures r + |u| <= |m0| && Between(m0, Overwrite(m0, r, u), lo, hi, r, r + |u|)
  {
    hide FirstUnicode, Denotes, HasUnicode, FirstBackslash, UnicodeBytes, Overwrite;
    var m1 := Overwrite(m0, r, u);
    assert m1[r..r + |u|] == u;
    assert Echoing(m0, m1, lo, hi, r, r + |u|);
  }

  lemma UnicodeBehind(m0: bytes, m: bytes, lo: nat, hi: nat, r: nat, w: nat, u: bytes)
    requires Between(m0, m, lo, hi, r, w) && Shortened(m0, m, lo, hi, r, w) && r + 6 <= hi
    requires m[r] == BACKSLASH && m[r + 1] == LOWER_U && 1 <= |u| <= 4 && IsHex4(m[w + 2..w + 6])
    ensures Between(m0, Overwrite(m, w, u), lo, hi, r, w + |u|)
  {
    hide Denotes, HasUnicode, IsHex4, FirstUnicode, FirstBackslash, Overwrite;
    if r < w + 6 { WindowMisses(m, r, w); }
    assert m0[r..hi][0] == m[r] && m0[r..hi][1] == m[r + 1];
    if !HasUnicode(m0[lo..hi]) && Denotes(m0[lo..hi]).Some? {
      SimpleUnit(m0[r..hi]);
      assert false;
    }
  }

  lemma NotSimple(m0: bytes, lo: nat, hi: nat, r: nat)
    requires Between(m0, m0, lo, hi, r, r) && r + 2 <= hi && m0[r] == BACKSLASH && m0[r + 1] == LOWER_U
    ensures HasUnicode(m0[lo..hi]) || Denotes(m0[lo..hi]).None?
  {
    hide Denotes, HasUnicode, Echoing, Stuck, Shortened, FirstBackslash;
    var s := m0[r..hi];
    assert s[0] == m0[r] && s[1] == m0[r + 1];
    if !HasUnicode(m0[lo..hi]) && Denotes(m0[lo..hi]).Some? { SimpleUnit(s); }
  }

  lemma UnicodeStuck(m0: bytes, m: bytes, lo: nat, hi: nat, r: nat, w: nat, u: bytes)
    requires Between(m0, m, lo, hi, r, w) && Stuck(m0, m, lo, hi, r, w) && m[r + 1] == LOWER_U
    ensures w == r + 1
    ensures UnicodeBytes(m, r, w, hi) == Some(u) ==> Between(m0, Overwrite(m, w, u), lo, hi, r, w + |u|)
  {
    hide Denotes, HasUnicode, Overwrite, FirstBackslash, CodeBytes, UnicodeBytes, Hex4, IsHex4;
    assert w == r + 1 && m == m0;
    if UnicodeBytes(m, r, w, hi) == Some(u) {
      var s, p := m0[lo..hi], r - lo;
      assert s[p..] == m0[r..hi] && s[p..][2..6] == m0[r + 2..r + 6];
      StuckDigits(m0, r);
      assert Stuck(m0, Overwrite(m, w, u), lo, hi, r, w + 2);
    }
  }

  lemma StuckDigits(m: bytes, r: nat)
    requires r + 7 <= |m| && IsHex4(m[r + 2..r + 6]) && Hex4(m[r + 2..r + 6]) == BACKSLASH as int && IsHex4(m[r + 3..r + 7])
    ensures var code := Hex4(m[r + 3..r + 7]); 0x80 <= code < 0x800 && 0xC0 + code / 64 == 0xD7
  {
    hide Hex4;
    var d, e := m[r + 2..r + 6], m[r + 3..r + 7];
    BackslashDigits(d);
    assert e[0] == d[1] && e[1] == d[2] && e[2] == d[3];
    HebrewDigits(e);
  }

  lemma UnicodeRound(m0: bytes, m: bytes, lo: nat, hi: nat, r: nat, w: nat)
    requires Between(m0, m, lo, hi, r, w) && r + 2 <= hi && m[r] == BACKSLASH && m[r + 1] == LOWER_U
    ensures w <= r + 1
    ensures var u := UnicodeBytes(m, r, w, hi);
            u.Some? ==> w + |u.value| <= |m| && Between(m0, Overwrite(m, w, u.value), lo, hi, r, w + |u.value|)
  {
    hide Denotes, HasUnicode, UnicodeBytes, Hex4, IsHex4, FirstBackslash, Overwrite, Spill, FirstUnicode, Progress, Echoes;
    if Stuck(m0, m, lo, hi, r, w) {
      assert w <= r + 1;
      var u := UnicodeBytes(m, r, w, hi);
      if u.Some? { UnicodeStuck(m0, m, lo, hi, r, w, u.value); }
    } else if Shortened(m0, m, lo, hi, r, w) {
      var u := UnicodeBytes(m, r, w, hi);
      if u.Some? { UnicodeBehind(m0, m, lo, hi, r, w, u.value); }
    } else if w == r && m == m0 {
      AtBackslash(m0, lo, hi, r);
      var u := UnicodeBytes(m, r, w, hi);
      if u.Some? { UnicodeAhead(m0, lo, hi, r, u.value); }
    }
  }

  lemma AtBackslash(m0: bytes, lo: nat, hi: nat, r: nat)
    requires lo <= r < hi <= |m0| && r <= lo + FirstBackslash(m0[lo..hi]) && m0[r] == BACKSLASH
    ensures r == lo + FirstBackslash(m0[lo..hi])
  {
    hide FirstBackslash;
    assert m0[lo..hi][r - lo] == m0[r];
  }

  lemma BackslashDigits(s: bytes)
    requires IsHex4(s) && Hex4(s) == BACKSLASH as int
    ensures s[0] == 48 && s[1] == 48 && s[2] == 53 && (s[3] == 67 || s[3] == 99)
  {
    assert HexValue(s[0]) == 0;
    assert HexValue(s[1]) == 0;
    assert HexValue(s[2]) == 5;
    assert HexValue(s[3]) == 12;
  }

  lemma HebrewDigits(s: bytes)
    requires IsHex4(s) && s[0] == 48 && s[1] == 53 && (s[2] == 67 || s[2] == 99)
    ensures 0x5C0 <= Hex4(s) < 0x5D0 && Hex4(s) / 64 == 0x17
  {
  }

  /** A round is refused only for a text that is not simple, and then nothing outside the text has changed. */
  lemma Refused(m0: bytes, m: bytes, lo: nat, hi: nat, r: nat, w: nat)
    requires Between(m0, m, lo, hi, r, w) && r < hi && m[r] == BACKSLASH
    requires
      || hi - r < 2
      || (if m[r + 1] == LOWER_U then w <= r + 1 && UnicodeBytes(m, r, w, hi).None? else EscapeValue(m[r + 1]).None?)
    ensures !IsSimple(m0[lo..hi]) && Spill(m0[lo..hi]) == 0
  {
    hide Denotes, HasUnicode, FirstBackslash, CodeBytes, UnicodeBytes, EscapeValue, Echoes;
    if w <= r {
      Unread(m0, m, lo, hi, r, w);
      RefusedUnit(m0, m, lo, hi, r, w);
    }
    if w == r && m == m0 {
      AtBackslash(m0, lo, hi, r);
      OwnDigits(m0, r, hi);
      assert m0[lo..hi][r - lo..] == m0[r..hi];
      if hi - r >= 2 { assert m0[lo..hi][r + 1 - lo] == m0[r + 1]; }
    }
  }

  lemma RefusedUnit(m0: bytes, m: bytes, lo: nat, hi: nat, r: nat, w: nat)
    requires lo <= r < hi < |m0| == |m| && lo <= w <= r && Progress(m0, m, lo, hi, r, w) && m0[r] == BACKSLASH
    requires hi - r < 2 || m0[r + 1] == LOWER_U || EscapeValue(m0[r + 1]).None?
    ensures !IsSimple(m0[lo..hi])
  {
    hide Denotes, HasUnicode;
    var s := m0[r..hi];
    assert s[0] == m0[r] && (hi - r >= 2 ==> s[1] == m0[r + 1]);
    if IsSimple(m0[lo..hi]) {
      SimpleUnit(s);
      assert false;
    }
  }

  /** Unless the first escape is a `\uXXXX` escape, everything outside the text is as it was. */
  lemma InsideOnly(m0: bytes, m: bytes, lo: nat, hi: nat, r: nat, w: nat)
    requires Between(m0, m, lo, hi, r, w)
    ensures Within(m0, m, lo, if Spill(m0[lo..hi]) > 0 then w else hi)
    ensures w <= r + 4 && (w > r ==> r + 6 <= hi || Spill(m0[lo..hi]) > 0)
  {
    hide FirstBackslash, FirstUnicode, Progress, Echoes;
  }

  /** A simple text has no `\uXXXX` escape, so its first escape is none. */
  lemma {:induction false} SimpleFirst(s: bytes)
    requires IsSimple(s)
    ensures FirstUnicode(s).None?
    decreases |s|
  {
    hide Denotes, HasUnicode, CodeBytes;
    if s != [] {
      SimpleUnit(s);
      if s[0] != BACKSLASH {
        SimpleFirst(s[1..]);
        var p := FirstBackslash(s[1..]);
        if p + 1 < |s[1..]| { assert s[1..][p..] == s[1 + p..] && s[1..][p + 1] == s[1 + p + 1]; }
      }
    }
  }

  lemma SpillIsNotSimple(s: bytes)
    requires Spill(s) > 0
    ensures !IsSimple(s)
  {
    hide Denotes, HasUnicode, FirstUnicode;
    if IsSimple(s) { SimpleFirst(s); }
  }

  /** The body of the text `"\u0800"`. Decoding it writes three bytes behind it: over the closing quote, and two
      bytes behind the end if that is where the buffer ends. */
  lemma SpillExample()
    ensures var s := [BACKSLASH, LOWER_U, 48, 56, 48, 48];
            IsBody(s) && Spill(s) == 3 && 1 + |s| + Spill(s) == |[QUOTE] + s + [QUOTE]| + 2
  {
    var s := [BACKSLASH, LOWER_U, 48, 56, 48, 48];
    assert UnitLength(s) == 6 && s[6..] == [];
    assert BodyLength(s) == 6 + BodyLength(s[6..]);
    assert FirstBackslash(s) == 0 && s[0..] == s;
    assert s[2..6] == [48, 56, 48, 48];
    assert Hex4(s[2..6]) == 0x800;
    assert |Utf8(0x800)| == 3;
  }

  /** Writing leaves the memory only in a text whose first escape is a `\uXXXX` escape. */
  lemma LeavesMemory(m0: bytes, m: bytes, lo: nat, hi: nat, r: nat, w: nat)
    requires Between(m0, m, lo, hi, r, w) && r < hi && w == |m|
    ensures hi + Spill(m0[lo..hi]) > |m|
  {
    hide FirstBackslash, FirstUnicode, Progress, Echoes;
  }

  lemma Ends(m0: bytes, m: bytes, lo: nat, hi: nat, w: nat)
    requires Between(m0, m, lo, hi, hi, w)
    ensures Denotes(m0[lo..hi]) == Some(m[lo..w]) <==> IsSimple(m0[lo..hi])
    ensures Spill(m0[lo..hi]) == 0 ==> w <= hi && !HasUnicode(m0[lo..hi])
    ensures Spill(m0[lo..hi]) > 0 ==> w == hi + Spill(m0[lo..hi]) && Echoing(m0, m, lo, hi, hi, w)
  {
    hide HasUnicode, FirstBackslash, CodeBytes;
    DenotesShrinks(m0[lo..hi]);
    assert m0[hi..hi] == [] && Denotes([]) == Some([]);
    assert m[lo..w] + [] == m[lo..w];
    assert !HasUnicode([]) by { NoUnicodeInNothing(); }
  }

  lemma NoUnicodeInNothing()
    ensures !HasUnicode([])
  {
  }

  /** Handles the `\uXXXX` escape at `r`, which leaves the read position where it is. */
  method HandleUnicode(mem: array<byte>, lo: nat, hi: nat, r: nat, w: nat, ghost m0: bytes) returns (ok: bool, w1: nat)
    requires Between(m0, mem[..], lo, hi, r, w) && r + 2 <= hi && mem[r] == BACKSLASH && mem[r + 1] == LOWER_U
    modifies mem
    ensures ok ==> Between(m0, mem[..], lo, hi, r, w1) && w < w1
    ensures !ok ==> !IsSimple(m0[lo..hi]) && Spill(m0[lo..hi]) == 0 && Within(m0, mem[..], lo, hi)
  {
    hide Denotes, HasUnicode, IsSimple, UnicodeBytes, EscapeValue, Between, Overwrite, Spill, Within;
    ghost var m := mem[..];
    Bounds(m0, m, lo, hi, r, w);
    InsideOnly(m0, m, lo, hi, r, w);
    UnicodeRound(m0, m, lo, hi, r, w);
    var s := UnicodeBytes(mem[..], r, w, hi);
    if s.None? { Refused(m0, m, lo, hi, r, w); return false, w; }
    WriteBytes(mem, w, s.value);
    return true, w + |s.value|;
  }

  /** Handles the escape at `r`; `r1` and `w1` are the new read and write positions. */
  method HandleEscape(mem: array<byte>, lo: nat, hi: nat, r: nat, w: nat, ghost m0: bytes)
    returns (ok: bool, r1: nat, w1: nat)
    requires Between(m0, mem[..], lo, hi, r, w) && r < hi && mem[r] == BACKSLASH
    modifies mem
    ensures ok ==> Between(m0, mem[..], lo, hi, r1, w1) && (r < r1 || (r == r1 && w < w1))
    ensures !ok ==> !IsSimple(m0[lo..hi]) && Spill(m0[lo..hi]) == 0 && Within(m0, mem[..], lo, hi)
  {
    hide Denotes, HasUnicode, IsSimple, UnicodeBytes, EscapeValue, Between, Overwrite, Spill, Within;
    ghost var m := mem[..];
    Bounds(m0, m, lo, hi, r, w);
    InsideOnly(m0, m, lo, hi, r, w);
    if hi - r < 2 { Refused(m0, m, lo, hi, r, w); return false, r, w; }
    if mem[r + 1] == LOWER_U {
      ok, w1 := HandleUnicode(mem, lo, hi, r, w, m0);
      return ok, r, w1;
    }
    var c := EscapeValue(mem[r + 1]);
    if c.None? { Refused(m0, m, lo, hi, r, w); return false, r, w; }
    SimpleRound(m0, m, lo, hi, r, w, c.value);
    WriteBytes(mem, w, [c.value]);
    return true, r + 2, w + 1;
  }

  /** How decoding a string ends: with a length, with an error, or by writing behind the end of the memory. */
  datatype Ending = Unescaped(len: nat) | Malformed | Overrun

  /** Decodes the escapes of `mem[lo..hi]`, which a closing quote follows, where they stand. The result is the
      string that the text denotes exactly when the text has a meaning and no `\uXXXX` escape. A text whose first
      escape is a `\uXXXX` escape overwrites `Spill` bytes behind it with copies of the escape's value, and leaves
      the memory exactly when fewer bytes follow; any other text changes nothing outside it. */
  method UnescapeString(mem: array<byte>, lo: nat, hi: nat) returns (e: Ending)
    requires lo <= hi < mem.Length
    modifies mem
    ensures e == Overrun <==> hi + Spill(old(mem[lo..hi])) > mem.Length
    ensures e.Unescaped? ==> lo + e.len <= mem.Length
    ensures e.Unescaped? && Denotes(old(mem[lo..hi])) == Some(mem[lo..lo + e.len]) <==> IsSimple(old(mem[lo..hi]))
    ensures e.Unescaped? && Spill(old(mem[lo..hi])) == 0 ==> !HasUnicode(old(mem[lo..hi])) && e.len <= hi - lo
    ensures mem[..lo] == old(mem[..lo])
    ensures Spill(old(mem[lo..hi])) == 0 ==> mem[hi..] == old(mem[hi..])
    ensures var s, n := old(mem[lo..hi]), Spill(old(mem[lo..hi]));
            n > 0 && e != Overrun ==>
              && e == Unescaped(|s| + n) && mem[hi + n..] == old(mem[hi + n..]) && mem[lo..hi + n] == Garbled(s)
              && (n > 1 ==> forall i | hi <= i < hi + n :: mem[i] >= 0x80)
  {
    hide Denotes, HasUnicode, IsSimple, Between, Overwrite, Spill, FirstUnicode, FirstBackslash, Echoing, Echoes, Garbled;
    ghost var m0 := mem[..];
    ghost var s := m0[lo..hi];
    assert s == mem[lo..hi];
    var w: nat, r: nat := lo, lo;
    Starts(m0, lo, hi);
    while r < hi
      invariant lo <= r <= hi && lo <= w <= r + 4
      invariant Between(m0, mem[..], lo, hi, r, w)
      decreases hi - r, r + 4 - w
    {
      if mem[r] == BACKSLASH {
        var done;
        done, r, w := HandleEscape(mem, lo, hi, r, w, m0);
        if !done {
          Outside(m0, mem[..], lo, hi);
          return Malformed;
        }
      } else {
        Bounds(m0, mem[..], lo, hi, r, w);
        if w == mem.Length {
          LeavesMemory(m0, mem[..], lo, hi, r, w);
          SpillIsNotSimple(s);
          InsideOnly(m0, mem[..], lo, hi, r, w);
          Outside(m0, mem[..], lo, w);
          return Overrun;
        }
        CopyRound(m0, mem[..], lo, hi, r, w);
        WriteBytes(mem, w, [mem[r]]);
        w, r := w + 1, r + 1;
      }
      Bounds(m0, mem[..], lo, hi, r, w);
      InsideOnly(m0, mem[..], lo, hi, r, w);
    }
    Ends(m0, mem[..], lo, hi, w);
    InsideOnly(m0, mem[..], lo, hi, r, w);
    Bounds(m0, mem[..], lo, hi, r, w);
    Outside(m0, mem[..], lo, if Spill(s) > 0 then w else hi);
    if Spill(s) > 0 { EchoEnds(m0, mem[..], lo, hi, w); }
    e := Unescaped(w - lo);
  }

  lemma Outside(m0: bytes, m: bytes, a: nat, b: nat)
    requires Within(m0, m, a, b) && a <= |m0| && b <= |m0|
    ensures m[..a] == m0[..a] && m[b..] == m0[b..]
  {
  }

  lemma EchoEnds(m0: bytes, m: bytes, lo: nat, hi: nat, w: nat)
    requires lo <= hi < |m0| == |m| && Echoing(m0, m, lo, hi, hi, w)
    ensures var s := m0[lo..hi];
            && hi + Spill(s) <= |m| && m[lo..hi + Spill(s)] == Garbled(s)
            && (Spill(s) > 1 ==> forall i | hi <= i < hi + Spill(s) :: m[i] >= 0x80)
  {
    hide FirstUnicode, FirstBackslash, Echo, Echoes;
    var s := m0[lo..hi];
    var q, u, w := lo + FirstBackslash(s), FirstUnicode(s).value, hi + Spill(s);
    EchoBounds(m, q, u, w);
    EchoesIs(m, q, u, w);
    SamePrefix(m0, m, lo, hi, q);
    assert m[lo..w] == m[lo..q] + m[q..w];
    if Spill(s) > 1 { EchoedHigh(m, q, u, hi, w); }
  }

  lemma EchoBounds(m: bytes, q: nat, u: bytes, w: nat)
    requires Echoes(m, q, u, w)
    ensures q + |u| <= w <= |m|
  {
  }

  lemma SamePrefix(m0: bytes, m: bytes, lo: nat, hi: nat, q: nat)
    requires lo <= q <= hi <= |m0| == |m| && forall i | 0 <= i < q :: m[i] == m0[i]
    ensures m[lo..q] == m0[lo..hi][..q - lo]
  {
    SliceOf(m0, lo, hi, 0, q - lo);
  }

  lemma EchoedHigh(m: bytes, q: nat, u: bytes, a: nat, w: nat)
    requires u != [] && q <= a <= w <= |m| && m[q..w] == Echo(u, w - q) && forall c | c in u :: c >= 0x80
    ensures forall i | a <= i < w :: m[i] >= 0x80
  {
    hide Echo;
    forall i | a <= i < w ensures m[i] >= 0x80 {
      assert m[i] == m[q..w][i - q];
      assert m[i] in Echo(u, w - q);
    }
  }

  lemma Bounds(m0: bytes, m: bytes, lo: nat, hi: nat, r: nat, w: nat)
    requires Between(m0, m, lo, hi, r, w)
    ensures lo <= r <= hi < |m0| == |m| && lo <= w <= |m|
  {
  }
}
