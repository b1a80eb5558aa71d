/** Fixed-width numbers as bytes, most or least significant byte first. */
module Words {
  import opened Buffer

  type word = x: int | 0 <= x < 0x1_0000_0000

  function Pow256(n: nat): nat {
    if n == 0 then 1 else 256 * Pow256(n - 1)
  }

  function Be(x: nat, n: nat): (b: bytes)
    ensures |b| == n
    decreases n, x
  {
    if n == 0 then [] else Be(x / 256, n - 1) + [x % 256]
  }

  function ReadBe(b: bytes): (x: nat)
    ensures x < Pow256(|b|)
    decreases |b|, b
  {
    if b == [] then 0 else 256 * ReadBe(b[..|b| - 1]) + b[|b| - 1] as int
  }

  lemma {:induction false} ReadOfBe(x: nat, n: nat)
    requires x < Pow256(n)
    ensures ReadBe(Be(x, n)) == x
    decreases n
  {
    if n > 0 {
      ReadOfBe(x / 256, n - 1);
      assert Be(x, n)[..n - 1] == Be(x / 256, n - 1);
    }
  }

  lemma {:induction false} BeOfRead(b: bytes)
    ensures Be(ReadBe(b), |b|) == b
    decreases |b|
  {
    if b != [] {
      BeOfRead(b[..|b| - 1]);
      var x := ReadBe(b);
      assert x / 256 == ReadBe(b[..|b| - 1]) && x % 256 == b[|b| - 1];
    }
  }

  function Le(x: nat, n: nat): (b: bytes)
    ensures |b| == n
    decreases n, x
  {
    if n == 0 then [] else [x % 256] + Le(x / 256, n - 1)
  }

  function ReadLe(b: bytes): (x: nat)
    ensures x < Pow256(|b|)
    decreases |b|, b
  {
    if b == [] then 0 else b[0] as int + 256 * ReadLe(b[1..])
  }

  lemma {:induction false} ReadOfLe(x: nat, n: nat)
    requires x < Pow256(n)
    ensures ReadLe(Le(x, n)) == x
    decreases n
  {
    if n > 0 { ReadOfLe(x / 256, n - 1); }
  }

  lemma {:induction false} LeOfRead(b: bytes)
    ensures Le(ReadLe(b), |b|) == b
    decreases |b|
  {
    if b != [] {
      LeOfRead(b[1..]);
      var x := ReadLe(b);
      assert x / 256 == ReadLe(b[1..]) && x % 256 == b[0];
    }
  }

  lemma Pow256Values()
    ensures Pow256(2) == 0x1_0000 && Pow256(4) == 0x1_0000_0000 && Pow256(8) == 0x1_0000_0000_0000_0000
  {
    assert Pow256(4) == 256 * 256 * Pow256(2);
    assert Pow256(8) == 0x1_0000_0000 * Pow256(4) by {
      assert Pow256(8) == 256 * 256 * Pow256(6);
      assert Pow256(6) == 256 * 256 * Pow256(4);
    }
  }
}
