/** The checksum of `eventstream/src/crc32.c`: a table-driven form of the CRC in section 8 of RFC 1952.
    A 32-bit word is a natural number; its operators are defined bit by bit. */
module Crc32 {
  import opened Buffer
  import opened Words

  const POLYNOMIAL: word := 0xEDB88320
  const ALL_ONES: word := 0xFFFF_FFFF

  /** Bitwise exclusive or. */
  function Xor(a: nat, b: nat): nat
    decreases a + b
  {
    if a == 0 && b == 0 then 0
    else (if a % 2 == b % 2 then 0 else 1) + 2 * Xor(a / 2, b / 2)
  }

  function Not(c: word): word { ALL_ONES - c }

  // ---- Laws of exclusive or ----

  lemma {:induction false} XorZero(a: nat)
    ensures Xor(a, 0) == a && Xor(0, a) == a
  {
    if a > 0 { XorZero(a / 2); }
  }

  lemma {:induction false} XorSelf(a: nat)
    ensures Xor(a, a) == 0
  {
    if a > 0 { XorSelf(a / 2); }
  }

  lemma {:induction false} XorCommutes(a: nat, b: nat)
    ensures Xor(a, b) == Xor(b, a)
    decreases a + b
  {
    if a + b > 0 { XorCommutes(a / 2, b / 2); }
  }

  /** The lowest bit and the rest. */
  lemma XorHalves(a: nat, b: nat)
    ensures Xor(a, b) / 2 == Xor(a / 2, b / 2)
    ensures Xor(a, b) % 2 == if a % 2 == b % 2 then 0 else 1
  {
  }

  lemma {:induction false} XorAssociates(a: nat, b: nat, c: nat)
    ensures Xor(Xor(a, b), c) == Xor(a, Xor(b, c))
    decreases a + b + c
  {
    if a + b + c > 0 {
      XorAssociates(a / 2, b / 2, c / 2);
      XorHalves(a, b);
      XorHalves(b, c);
      var x, y := Xor(Xor(a, b), c), Xor(a, Xor(b, c));
      XorHalves(Xor(a, b), c);
      XorHalves(a, Xor(b, c));
      assert x / 2 == y / 2 && x % 2 == y % 2;
    }
  }

  // ---- Shifts and masks ----

  function Pow2(n: nat): nat {
    if n == 0 then 1 else 2 * Pow2(n - 1)
  }

  /** `c >> n`. */
  function Shift(c: nat, n: nat): nat
    decreases n
  {
    if n == 0 then c else Shift(c / 2, n - 1)
  }

  /** The low `n` bits of `c`. */
  function Low(c: nat, n: nat): (r: nat)
    ensures r <= c && r < Pow2(n)
    decreases n
  {
    if n == 0 then 0 else c % 2 + 2 * Low(c / 2, n - 1)
  }

  /** The low `n` bits are zero. */
  predicate LowZero(c: nat, n: nat)
    decreases n
  {
    n == 0 || (c % 2 == 0 && LowZero(c / 2, n - 1))
  }

  lemma {:induction false} ShiftSmall(c: nat, n: nat)
    ensures Shift(c, n) == 0 <==> c < Pow2(n)
    decreases n
  {
    if n > 0 { ShiftSmall(c / 2, n - 1); }
  }

  lemma {:induction false} ShiftXor(a: nat, b: nat, n: nat)
    ensures Shift(Xor(a, b), n) == Xor(Shift(a, n), Shift(b, n))
    decreases n
  {
    if n > 0 {
      XorHalves(a, b);
      ShiftXor(a / 2, b / 2, n - 1);
    }
  }

  lemma {:induction false} XorBound(a: nat, b: nat, n: nat)
    requires a < Pow2(n) && b < Pow2(n)
    ensures Xor(a, b) < Pow2(n)
  {
    ShiftSmall(a, n);
    ShiftSmall(b, n);
    ShiftXor(a, b, n);
    ShiftSmall(Xor(a, b), n);
  }

  lemma WordXor(a: word, b: word)
    ensures Xor(a, b) < 0x1_0000_0000
  {
    assert Pow2(8) == 0x100 && Pow2(16) == 0x1_0000 && Pow2(24) == 0x100_0000 && Pow2(32) == 0x1_0000_0000;
    XorBound(a, b, 32);
  }

  lemma Halves(c: nat, low: nat, high: nat, l: nat)
    requires low == c % 2 + 2 * l && high == c - low && l <= c / 2
    ensures low % 2 == c % 2 && low / 2 == l && high % 2 == 0 && high / 2 == c / 2 - l
  {
  }

  /** A number is its low bits and the rest, which have no bit in common. */
  lemma {:induction false} SplitBits(c: nat, n: nat)
    ensures Xor(Low(c, n), c - Low(c, n)) == c
    ensures LowZero(c - Low(c, n), n) && Shift(c - Low(c, n), n) == Shift(c, n)
    decreases n
  {
    if n == 0 {
      XorZero(c);
    } else {
      SplitBits(c / 2, n - 1);
      SplitOneMore(c, n);
    }
  }

  lemma SplitOneMore(c: nat, n: nat)
    requires n > 0
    requires var l := Low(c / 2, n - 1);
             && Xor(l, c / 2 - l) == c / 2
             && LowZero(c / 2 - l, n - 1) && Shift(c / 2 - l, n - 1) == Shift(c / 2, n - 1)
    ensures Xor(Low(c, n), c - Low(c, n)) == c
    ensures LowZero(c - Low(c, n), n) && Shift(c - Low(c, n), n) == Shift(c, n)
  {
    var low, high, l := Low(c, n), c - Low(c, n), Low(c / 2, n - 1);
    Halves(c, low, high, l);
    assert Xor(low, high) == c % 2 + 2 * Xor(l, c / 2 - l);
  }

  // ---- The division ----

  /** One bit of the division. */
  function Step(c: word): word {
    WordXor(POLYNOMIAL, c / 2);
    if c % 2 == 1 then Xor(POLYNOMIAL, c / 2) else c / 2
  }

  function Steps(c: word, n: nat): word
    decreases n, c
  {
    if n == 0 then c else Steps(Step(c), n - 1)
  }

  /** Taking in one byte, one bit at a time. */
  function TakeByte(c: word, b: byte): word {
    WordXor(c, b);
    Steps(Xor(c, b), 8)
  }

  /** The reference: the register after a message. */
  function Register(c: word, data: bytes): word
    decreases |data|
  {
    if data == [] then c else Register(TakeByte(c, data[0]), data[1..])
  }

  /** The checksum of a message that continues from checksum `crc`; `crc` is 0 for a new message. */
  function Crc(crc: word, data: bytes): word {
    Not(Register(Not(crc), data))
  }

  /** The division is linear. */
  lemma StepXor(a: word, b: word)
    ensures Xor(a, b) < 0x1_0000_0000
    ensures Step(Xor(a, b)) == Xor(Step(a), Step(b))
  {
    WordXor(a, b);
    XorHalves(a, b);
    var p, x, y := POLYNOMIAL, a / 2, b / 2;
    XorAssociates(p, x, y);
    XorAssociates(x, p, y);
    XorCommutes(p, x);
    XorAssociates(x, p, Xor(p, y));
    XorAssociates(p, p, y);
    XorSelf(p);
    XorZero(y);
  }

  lemma {:induction false} StepsXor(a: word, b: word, n: nat)
    ensures Xor(a, b) < 0x1_0000_0000
    ensures Steps(Xor(a, b), n) == Xor(Steps(a, n), Steps(b, n))
    decreases n
  {
    StepXor(a, b);
    if n > 0 { StepsXor(Step(a), Step(b), n - 1); }
  }

  /** As long as the low bits are zero, dividing is shifting. */
  lemma {:induction false} HighBitsShift(h: word, n: nat)
    requires LowZero(h, n)
    ensures Steps(h, n) == Shift(h, n)
    decreases n
  {
    if n > 0 { HighBitsShift(h / 2, n - 1); }
  }

  /** Several bits at once: only the low ones need dividing. */
  lemma BlockStep(c: word, n: nat)
    ensures Steps(c, n) == Xor(Steps(Low(c, n), n), Shift(c, n))
  {
    var low, high := Low(c, n), c - Low(c, n);
    SplitBits(c, n);
    StepsXor(low, high, n);
    HighBitsShift(high, n);
  }

  /** What the table holds: the remainder of each byte. */
  function Entry(n: byte): word { Steps(n, 8) }

  ghost predicate TableReady(table: array<word>)
    reads table
  {
    table.Length == 256 && forall n | 0 <= n < 256 :: table[n] == Entry(n)
  }

  /** The inner loop of `make_crc_table`. */
  method DivideByte(n: byte) returns (c: word)
    ensures c == Entry(n)
  {
    c := n;
    for k := 0 to 8
      invariant Steps(c, 8 - k) == Entry(n)
    {
      WordXor(POLYNOMIAL, c / 2);
      if c % 2 == 1 {
        c := Xor(POLYNOMIAL, c / 2);
      } else {
        c := c / 2;
      }
    }
  }

  /** `make_crc_table`. */
  method MakeCrcTable(table: array<word>)
    requires table.Length == 256
    modifies table
    ensures TableReady(table)
  {
    for n := 0 to 256
      invariant forall j | 0 <= j < n :: table[j] == Entry(j)
    {
      var c := DivideByte(n);
      table[n] := c;
    }
  }

  /** One table lookup takes in one byte. */
  lemma TableStep(c: word, b: byte)
    ensures Xor(c, b) < 0x1_0000_0000
    ensures Low(Xor(c, b), 8) < 256
    ensures TakeByte(c, b) == Xor(Entry(Low(Xor(c, b), 8)), Shift(c, 8))
  {
    WordXor(c, b);
    assert Pow2(8) == 256;
    BlockStep(Xor(c, b), 8);
    ShiftXor(c, b, 8);
    ShiftSmall(b, 8);
    XorZero(Shift(c, 8));
  }

  /** `ggl_update_crc`: the table-driven checksum is the bit-by-bit one. */
  method UpdateCrc(table: array<word>, crc: word, data: bytes) returns (r: word)
    requires TableReady(table)
    ensures r == Crc(crc, data)
  {
    var c: word := Not(crc);
    var n := 0;
    assert data[0..] == data;
    while n < |data|
      invariant 0 <= n <= |data|
      invariant Register(Not(crc), data) == Register(c, data[n..])
    {
      assert data[n..][0] == data[n] && data[n..][1..] == data[n + 1..];
      TableStep(c, data[n]);
      c := Xor(table[Low(Xor(c, data[n]), 8)], Shift(c, 8));
      n := n + 1;
    }
    r := Not(c);
  }

  lemma {:induction false} RegisterConcat(c: word, a: bytes, b: bytes)
    ensures Register(c, a + b) == Register(Register(c, a), b)
    decreases |a|
  {
    if a == [] {
      assert a + b == b;
    } else {
      assert (a + b)[1..] == a[1..] + b;
      RegisterConcat(TakeByte(c, a[0]), a[1..], b);
    }
  }

  /** A checksum can be continued: the checksum of two parts in turn is that of the whole. */
  lemma CrcConcat(crc: word, a: bytes, b: bytes)
    ensures Crc(Crc(crc, a), b) == Crc(crc, a + b)
  {
    RegisterConcat(Not(crc), a, b);
  }
}
