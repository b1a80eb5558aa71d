/** JSON texts as accepted by `ggl-json/src/json_decode.c`: a syntax tree, its text, and a recogniser that
    is sound and complete for it. */
module JsonSyntax {
  import opened Buffer

  const QUOTE: byte := 34
  const BACKSLASH: byte := 92
  const COMMA: byte := 44
  const COLON: byte := 58
  const MINUS: byte := 45
  const PLUS: byte := 43
  const DOT: byte := 46
  const ZERO: byte := 48
  const LOWER_U: byte := 117

  predicate IsWs(c: byte) { c == 32 || c == 10 || c == 13 || c == 9 }

  predicate IsDigit(c: byte) { 48 <= c <= 57 }

  predicate IsHex(c: byte) { IsDigit(c) || 65 <= c <= 70 || 97 <= c <= 102 }

  predicate IsExp(c: byte) { c == 101 || c == 69 }

  predicate IsSign(c: byte) { c == PLUS || c == MINUS }

  /** The characters after a backslash that form a two-byte escape. */
  predicate IsSimpleEscape(c: byte) {
    c == QUOTE || c == BACKSLASH || c == 47 || c == 98 || c == 102 || c == 110 || c == 114 || c == 116
  }

  /** The bytes that stand for themselves in a string: printable ASCII and DEL. */
  predicate IsPlain(c: byte) { 0x20 <= c < 0x80 && c != QUOTE && c != BACKSLASH }

  // ---- Runs of one class of bytes ----

  /** The longest prefix whose bytes all satisfy `p`. */
  function Span(p: byte -> bool, b: bytes): (n: nat)
    ensures n <= |b|
    ensures forall i | 0 <= i < n :: p(b[i])
    ensures n < |b| ==> !p(b[n])
    decreases |b|
  {
    if b == [] || !p(b[0]) then 0 else 1 + Span(p, b[1..])
  }

  ghost predicate All(p: byte -> bool, s: bytes) { forall c | c in s :: p(c) }

  ghost predicate StopsAt(p: byte -> bool, t: bytes) { t == [] || !p(t[0]) }

  lemma {:induction false} SpanOf(p: byte -> bool, s: bytes, t: bytes)
    requires All(p, s) && StopsAt(p, t)
    ensures Span(p, s + t) == |s|
    decreases |s|
  {
    if s == [] {
      assert s + t == t;
    } else {
      assert s[0] in s;
      assert (s + t)[1..] == s[1..] + t;
      SpanOf(p, s[1..], t);
    }
  }

  lemma SpanSplits(p: byte -> bool, b: bytes)
    ensures All(p, b[..Span(p, b)]) && StopsAt(p, b[Span(p, b)..])
    ensures b == b[..Span(p, b)] + b[Span(p, b)..]
  {
    hide Span;
    var n := Span(p, b);
    var s := b[..n];
    forall c | c in s
      ensures p(c)
    {
      var i :| 0 <= i < n && s[i] == c;
    }
  }

  // ---- String bodies ----

  /** The length of one character of a string: a plain byte, a simple escape or a `\uXXXX` escape. */
  function UnitLength(b: bytes): (n: nat)
    ensures n <= |b|
  {
    if b == [] then 0
    else if IsPlain(b[0]) then 1
    else if b[0] == BACKSLASH && |b| >= 2 && IsSimpleEscape(b[1]) then 2
    else if b[0] == BACKSLASH && |b| >= 6 && b[1] == LOWER_U && IsHex(b[2]) && IsHex(b[3]) && IsHex(b[4]) && IsHex(b[5]) then 6
    else 0
  }

  function BodyLength(b: bytes): (n: nat)
    ensures n <= |b|
    decreases |b|
  {
    var u := UnitLength(b);
    if u == 0 then 0 else u + BodyLength(b[u..])
  }

  predicate IsBody(s: bytes) { BodyLength(s) == |s| }

  lemma UnitLengthOf(s: bytes, t: bytes)
    requires UnitLength(s) > 0
    ensures UnitLength(s + t) == UnitLength(s)
  {
  }

  lemma {:induction false} BodyLengthOf(s: bytes, t: bytes)
    requires IsBody(s) && (t == [] || t[0] == QUOTE)
    ensures BodyLength(s + t) == |s|
    decreases |s|
  {
    if s == [] {
      assert s + t == t;
    } else {
      var u := UnitLength(s);
      UnitLengthOf(s, t);
      assert (s + t)[u..] == s[u..] + t;
      BodyLengthOf(s[u..], t);
    }
  }

  lemma {:induction false} BodyPrefix(b: bytes)
    ensures IsBody(b[..BodyLength(b)])
    decreases |b|
  {
    var u := UnitLength(b);
    if u > 0 {
      var n := BodyLength(b);
      var s := b[..n];
      assert UnitLength(s) == u;
      BodyPrefix(b[u..]);
      assert s[u..] == b[u..][..n - u];
    }
  }

  // ---- Numbers ----

  datatype Exponent = Exponent(e: byte, sign: bytes, digits: bytes)

  datatype Number = Number(neg: bool, whole: bytes, frac: Option<bytes>, exp: Option<Exponent>)

  ghost predicate ExponentOk(e: Option<Exponent>) {
    e.Some? ==>
      && IsExp(e.value.e) && e.value.digits != [] && All(IsDigit, e.value.digits)
      && (e.value.sign == [] || (|e.value.sign| == 1 && IsSign(e.value.sign[0])))
  }

  ghost predicate NumberOk(n: Number) {
    && n.whole != [] && All(IsDigit, n.whole) && (n.whole[0] == ZERO ==> n.whole == [ZERO])
    && (n.frac.Some? ==> All(IsDigit, n.frac.value))
    && ExponentOk(n.exp)
  }

  function FracText(f: Option<bytes>): bytes { if f.Some? then [DOT] + f.value else [] }

  function ExpText(e: Option<Exponent>): bytes {
    if e.Some? then [e.value.e] + e.value.sign + e.value.digits else []
  }

  function NumberText(n: Number): bytes {
    (if n.neg then [MINUS] else []) + n.whole + FracText(n.frac) + ExpText(n.exp)
  }

  function ReadInt(b: bytes): (r: Option<(bytes, bytes)>)
    ensures r.Some? ==> |r.value.1| < |b|
  {
    if b == [] || !IsDigit(b[0]) then None
    else if b[0] == ZERO then Some(([ZERO], b[1..]))
    else var n := Span(IsDigit, b); Some((b[..n], b[n..]))
  }

  function ReadFrac(b: bytes): (r: (Option<bytes>, bytes))
    ensures |r.1| <= |b|
  {
    if b == [] || b[0] != DOT then (None, b)
    else var n := Span(IsDigit, b[1..]); (Some(b[1..][..n]), b[1..][n..])
  }

  function ReadExp(b: bytes): (r: (Option<Exponent>, bytes))
    ensures |r.1| <= |b|
  {
    if b == [] || !IsExp(b[0]) then (None, b)
    else
      var k := if |b| > 1 && IsSign(b[1]) then 2 else 1;
      var n := Span(IsDigit, b[k..]);
      if n == 0 then (None, b) else (Some(Exponent(b[0], b[1..k], b[k..][..n])), b[k..][n..])
  }

  function ReadNumber(b: bytes): (r: Option<(Number, bytes)>)
    ensures r.Some? ==> |r.value.1| < |b|
  {
    var neg := b != [] && b[0] == MINUS;
    match ReadInt(if neg then b[1..] else b)
    case None => None
    case Some((whole, b1)) =>
      var (frac, b2) := ReadFrac(b1);
      var (exp, b3) := ReadExp(b2);
      Some((Number(neg, whole, frac, exp), b3))
  }

  /** What may follow a number in a larger text. */
  predicate NumberEnds(t: bytes) { t == [] || !(IsDigit(t[0]) || t[0] == DOT || IsExp(t[0])) }

  lemma ReadIntSound(b: bytes)
    requires ReadInt(b).Some?
    ensures var (whole, rest) := ReadInt(b).value;
            b == whole + rest && whole != [] && All(IsDigit, whole) && (whole[0] == ZERO ==> whole == [ZERO])
  {
    SpanSplits(IsDigit, b);
  }

  lemma ReadIntOf(whole: bytes, t: bytes)
    requires whole != [] && All(IsDigit, whole) && (whole[0] == ZERO ==> whole == [ZERO])
    requires StopsAt(IsDigit, t)
    ensures ReadInt(whole + t) == Some((whole, t))
  {
    assert whole[0] in whole;
    SpanOf(IsDigit, whole, t);
    assert (whole + t)[..|whole|] == whole && (whole + t)[|whole|..] == t;
  }

  lemma ReadFracSound(b: bytes)
    ensures var (f, rest) := ReadFrac(b);
            b == FracText(f) + rest && (f.Some? ==> All(IsDigit, f.value))
  {
    hide Span, All;
    if b != [] && b[0] == DOT {
      var digits := b[1..];
      SpanSplits(IsDigit, digits);
      BehindDot(b, digits[..Span(IsDigit, digits)], digits[Span(IsDigit, digits)..]);
    } else {
      assert [] + b == b;
    }
  }

  lemma BehindDot(b: bytes, x: bytes, y: bytes)
    requires b != [] && b[0] == DOT && b[1..] == x + y
    ensures b == [DOT] + x + y
  {
    assert b == [b[0]] + b[1..];
    assert [DOT] + (x + y) == [DOT] + x + y;
  }

  lemma ReadFracOf(f: Option<bytes>, t: bytes)
    requires f.Some? ==> All(IsDigit, f.value)
    requires StopsAt(IsDigit, t) && (t == [] || t[0] != DOT)
    ensures ReadFrac(FracText(f) + t) == (f, t)
  {
    if f.Some? {
      ReadSomeFracOf(f.value, t);
    } else {
      assert FracText(f) + t == t;
    }
  }

  lemma ReadSomeFracOf(ds: bytes, t: bytes)
    requires All(IsDigit, ds) && StopsAt(IsDigit, t)
    ensures ReadFrac(FracText(Some(ds)) + t) == (Some(ds), t)
  {
    hide Span, All;
    var b, c := FracText(Some(ds)) + t, ds + t;
    SpanOf(IsDigit, ds, t);
    assert b[1..] == c;
    assert c[..|ds|] == ds && c[|ds|..] == t;
  }

  lemma ReadExpSound(b: bytes)
    ensures var (e, rest) := ReadExp(b);
            b == ExpText(e) + rest && ExponentOk(e)
  {
    var (e, rest) := ReadExp(b);
    if e.Some? {
      var k := if |b| > 1 && IsSign(b[1]) then 2 else 1;
      ReadSomeExpSound(b, k, Span(IsDigit, b[k..]));
    } else {
      assert [] + b == b;
    }
  }

  lemma ReadSomeExpSound(b: bytes, k: nat, n: nat)
    requires |b| > 0 && IsExp(b[0]) && (k == 1 || (k == 2 && |b| > 1 && IsSign(b[1])))
    requires n == Span(IsDigit, b[k..]) && n > 0
    ensures var e := Some(Exponent(b[0], b[1..k], b[k..][..n]));
            b == ExpText(e) + b[k..][n..] && ExponentOk(e)
  {
    hide Span, All;
    SpanSplits(IsDigit, b[k..]);
    var digits, rest := b[k..][..n], b[k..][n..];
    CutThree(b, k, digits, rest);
  }

  lemma CutThree(b: bytes, k: nat, c: bytes, d: bytes)
    requires 1 <= k <= |b| && b[k..] == c + d
    ensures b == [b[0]] + b[1..k] + c + d
  {
    assert b == [b[0]] + b[1..k] + b[k..];
    assert [b[0]] + b[1..k] + (c + d) == [b[0]] + b[1..k] + c + d;
  }

  lemma ReadExpOf(e: Option<Exponent>, t: bytes)
    requires ExponentOk(e) && NumberEnds(t)
    ensures ReadExp(ExpText(e) + t) == (e, t)
  {
    if e.Some? {
      ReadSomeExpOf(e.value, t);
    } else {
      assert ExpText(e) + t == t;
    }
  }

  /** The parts of an exponent with something behind it. */
  lemma ExpParts(e: byte, sign: bytes, digits: bytes, t: bytes)
    requires digits != []
    ensures var b, k, rest := [e] + sign + digits + t, 1 + |sign|, digits + t;
            && b[0] == e && b[1..k] == sign && b[k..] == rest && rest[..|digits|] == digits && rest[|digits|..] == t
            && b[1] == if sign == [] then digits[0] else sign[0]
  {
    var b, k := [e] + sign + digits + t, 1 + |sign|;
    assert b == ([e] + sign) + (digits + t);
    assert b[..k] == [e] + sign;
    assert b[1..k] == b[..k][1..];
  }

  lemma ReadSomeExpOf(x: Exponent, t: bytes)
    requires ExponentOk(Some(x)) && NumberEnds(t)
    ensures ReadExp(ExpText(Some(x)) + t) == (Some(x), t)
  {
    hide Span;
    assert x.digits[0] in x.digits;
    ExpParts(x.e, x.sign, x.digits, t);
    SpanOf(IsDigit, x.digits, t);
  }

  lemma ReadNumberSound(b: bytes)
    requires ReadNumber(b).Some?
    ensures var (n, rest) := ReadNumber(b).value; NumberOk(n) && b == NumberText(n) + rest
  {
    hide ReadInt, ReadFrac, ReadExp, FracText, ExpText;
    var (n, rest) := ReadNumber(b).value;
    var sign: bytes := if n.neg then [MINUS] else [];
    var b0 := if n.neg then b[1..] else b;
    assert b == sign + b0;
    ReadIntSound(b0);
    var b1 := ReadInt(b0).value.1;
    ReadFracSound(b1);
    var b2 := ReadFrac(b1).1;
    ReadExpSound(b2);
    Nest(sign, n.whole, FracText(n.frac), ExpText(n.exp), rest);
  }

  lemma Nest(a: bytes, b: bytes, c: bytes, d: bytes, e: bytes)
    ensures a + (b + (c + (d + e))) == a + b + c + d + e
  {
  }

  /** What may follow the digits of the whole part, and what may follow the fraction. */
  predicate WholeEnds(b: bytes) { b == [] || !IsDigit(b[0]) }

  predicate FracEnds(b: bytes) { b == [] || !(IsDigit(b[0]) || b[0] == DOT) }

  lemma TailEnds(n: Number, t: bytes)
    requires NumberOk(n) && NumberEnds(t)
    ensures FracEnds(ExpText(n.exp) + t)
    ensures WholeEnds(FracText(n.frac) + (ExpText(n.exp) + t))
  {
    var b3 := ExpText(n.exp) + t;
    if n.exp.Some? { assert b3[0] == n.exp.value.e; } else { assert b3 == t; }
    var b2 := FracText(n.frac) + b3;
    if n.frac.Some? { assert b2[0] == DOT; } else { assert b2 == b3; }
  }

  lemma SignSplits(neg: bool, whole: bytes, b2: bytes)
    requires whole != [] && All(IsDigit, whole)
    ensures var b := (if neg then [MINUS] else []) + (whole + b2);
            b != [] && (neg <==> b[0] == MINUS) && (if neg then b[1..] else b) == whole + b2
  {
    assert whole[0] in whole;
  }

  lemma ReadNumberOf(n: Number, t: bytes)
    requires NumberOk(n) && NumberEnds(t)
    ensures ReadNumber(NumberText(n) + t) == Some((n, t))
  {
    hide ReadInt, ReadFrac, ReadExp, FracText, ExpText, ExponentOk, All;
    var b2 := FracText(n.frac) + (ExpText(n.exp) + t);
    Nest(if n.neg then [MINUS] else [], n.whole, FracText(n.frac), ExpText(n.exp), t);
    TailEnds(n, t);
    SignSplits(n.neg, n.whole, b2);
    ReadIntOf(n.whole, b2);
    ReadFracOf(n.frac, ExpText(n.exp) + t);
    ReadExpOf(n.exp, t);
  }
}
