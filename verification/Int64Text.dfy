/** Decimal texts of 64-bit signed integers: parsing (`ggl-lib/src/buffer.c`) and printing. */
module Int64Text {
  import opened Buffer
  import opened JsonSyntax
  import opened Objects

  const INT64_MAX: int := 0x7FFF_FFFF_FFFF_FFFF
  const INT64_MIN: int := -0x8000_0000_0000_0000

  predicate InRange(x: int) { INT64_MIN <= x <= INT64_MAX }

  function Digit(c: byte): int { c as int - 48 }

  /** The number written by decimal digits, most significant first. */
  function DigitsValue(ds: bytes): int
  {
    if ds == [] then 0 else DigitsValue(ds[..|ds| - 1]) * 10 + Digit(ds[|ds| - 1])
  }

  predicate IsNegative(s: bytes) { s != [] && s[0] == MINUS }

  function Magnitude(s: bytes): bytes { if IsNegative(s) then s[1..] else s }

  function Signed(neg: bool, ds: bytes): int { if neg then -DigitsValue(ds) else DigitsValue(ds) }

  /** The digits in front of the first other byte. */
  function Leading(s: bytes): bytes { Magnitude(s)[..Span(IsDigit, Magnitude(s))] }

  predicate IsDecimal(s: bytes) { Magnitude(s) != [] && Span(IsDigit, Magnitude(s)) == |Magnitude(s)| }

  /** The number that a text stands for: every number in range is accepted and every other decimal text is out
      of range; a text that is not decimal is invalid unless the digits in front of the offending byte are out
      of range already. */
  function Int64Of(s: bytes): (r: ParseResult)
    ensures r.Ok? <==> IsDecimal(s) && InRange(Signed(IsNegative(s), Magnitude(s)))
  {
    if Magnitude(s) == [] then Invalid
    else if !InRange(Signed(IsNegative(s), Leading(s))) then
      assert IsDecimal(s) ==> Leading(s) == Magnitude(s);
      OutOfRange
    else if !IsDecimal(s) then Invalid
    else
      assert Leading(s) == Magnitude(s);
      Ok(Signed(IsNegative(s), Magnitude(s)))
  }

  datatype ParseResult = Ok(value: int64) | Invalid | OutOfRange

  predicate MulOverflows(a: int) { a > INT64_MAX / 10 || a < -(-INT64_MIN / 10) }

  predicate AddOverflows(a: int, b: int) { if b > 0 then a > INT64_MAX - b else a < INT64_MIN - b }

  lemma {:induction false} ValueGrows(ds: bytes, k: nat)
    requires k <= |ds| && All(IsDigit, ds)
    ensures 0 <= DigitsValue(ds[..k]) <= DigitsValue(ds)
    decreases |ds|
  {
    if k == |ds| {
      assert ds[..k] == ds;
      if ds != [] { DropLastAll(ds); ValueGrows(ds[..|ds| - 1], |ds| - 1); }
    } else {
      DropLastAll(ds);
      ValueGrows(ds[..|ds| - 1], k);
      assert ds[..|ds| - 1][..k] == ds[..k];
    }
  }

  lemma DropLastAll(ds: bytes)
    requires ds != [] && All(IsDigit, ds)
    ensures All(IsDigit, ds[..|ds| - 1]) && IsDigit(ds[|ds| - 1])
  {
    assert ds[|ds| - 1] in ds;
  }

  lemma OneMoreDigit(ds: bytes, k: nat)
    requires k < |ds|
    ensures DigitsValue(ds[..k + 1]) == DigitsValue(ds[..k]) * 10 + Digit(ds[k])
  {
    assert ds[..k + 1][..k] == ds[..k];
  }

  /** One round of the loop: either the next value is in range and is computed, or the whole number is out of
      range. */
  lemma DigitStep(neg: bool, ds: bytes, k: nat)
    requires k < |ds| && All(IsDigit, ds) && InRange(Signed(neg, ds[..k]))
    ensures var a, d := Signed(neg, ds[..k]), if neg then -Digit(ds[k]) else Digit(ds[k]);
            if MulOverflows(a) || AddOverflows(a * 10, d) then !InRange(Signed(neg, ds))
            else InRange(a * 10 + d) && Signed(neg, ds[..k + 1]) == a * 10 + d
  {
    hide DigitsValue;
    OneMoreDigit(ds, k);
    ValueGrows(ds, k + 1);
    assert ds[k] in ds;
  }

  lemma NoDigits(neg: bool)
    ensures Signed(neg, []) == 0 && InRange(0)
  {
  }

  lemma RangeIsInt64(x: int)
    requires InRange(x)
    ensures -0x8000_0000_0000_0000 <= x < 0x8000_0000_0000_0000
  {
  }

  /** Parses an optional minus sign and decimal digits, one digit at a time. */
  method StrToInt64(s: bytes) returns (r: ParseResult)
    ensures r == Int64Of(s)
  {
    hide DigitsValue, MulOverflows, AddOverflows, InRange, Signed, Digit;
    var neg := s != [] && s[0] == MINUS;
    var i := if neg then 1 else 0;
    ghost var start, ds, lead := i, Magnitude(s), Leading(s);
    assert ds == s[start..];
    SpanSplits(IsDigit, ds);
    assert Span(IsDigit, ds) == |ds| ==> lead == ds;
    var ret := 0;
    NoDigits(neg);
    if i == |s| { return Invalid; }
    while i < |s|
      invariant start <= i <= |s| && i - start <= |lead|
      invariant ret == Signed(neg, lead[..i - start]) && InRange(ret)
    {
      ghost var k := i - start;
      var c := s[i];
      assert c == ds[k];
      if c < 48 || c > 57 {
        assert lead[..k] == lead;
        return Invalid;
      }
      assert k < |lead|;
      DigitStep(neg, lead, k);
      if MulOverflows(ret) { return OutOfRange; }
      ret := ret * 10;
      var d := if neg then -Digit(c) else Digit(c);
      if AddOverflows(ret, d) { return OutOfRange; }
      ret := ret + d;
      i := i + 1;
    }
    assert lead[..i - start] == lead == ds;
    RangeIsInt64(ret);
    return Ok(ret);
  }

  // ---- Printing ----

  /** The decimal digits of a natural number, without leading zeros. */
  function Digits(n: nat): (ds: bytes)
    ensures ds != [] && (ds[0] == ZERO ==> ds == [ZERO] && n == 0)
    ensures |ds| == 1 ==> ds[0] as int == 48 + n
  {
    if n < 10 then [(48 + n) as byte] else Digits(n / 10) + [(48 + n % 10) as byte]
  }

  function Decimal(x: int): bytes { if x < 0 then [MINUS] + Digits(-x) else Digits(x) }

  lemma {:induction false} DigitsAreDigits(n: nat)
    ensures All(IsDigit, Digits(n)) && DigitsValue(Digits(n)) == n
  {
    var ds := Digits(n);
    if n < 10 {
      assert ds[..0] == [] && DigitsValue(ds) == DigitsValue(ds[..0]) * 10 + n;
    } else {
      DigitsAreDigits(n / 10);
      assert ds[..|ds| - 1] == Digits(n / 10);
    }
  }

  /** Parsing undoes printing. */
  lemma DecimalValue(x: int)
    ensures IsDecimal(Decimal(x)) && Signed(IsNegative(Decimal(x)), Magnitude(Decimal(x))) == x
  {
    var n: nat := if x < 0 then -x else x;
    DigitsAreDigits(n);
    var ds := Digits(n);
    assert ds[0] in ds;
    SpanOf(IsDigit, ds, []);
    assert ds + [] == ds;
    if x < 0 { assert Decimal(x)[1..] == ds; }
  }
}
