/** C#'s shift and bitwise operators on values that are not negative, the
    only ones the Base32 helpers apply them to. */
module Bits {
  import opened CSharpInt

  /** `x >> k`. */
  function Shr(x: nat, k: nat): nat
  {
    DivNonNeg(x, Pow2(k));
    x / Pow2(k)
  }

  /** `x << k`, where the result fits the operand type. */
  function Shl(x: nat, k: nat): nat
  {
    x * Pow2(k)
  }

  /** `x & y`, bit by bit from the least significant one. */
  function And(x: nat, y: nat): nat
  {
    if x == 0 || y == 0 then 0
    else 2 * And(x / 2, y / 2) + (if x % 2 == 1 && y % 2 == 1 then 1 else 0)
  }

  /** `x | y`, bit by bit from the least significant one. */
  function Or(x: nat, y: nat): nat
  {
    if x == 0 then y
    else if y == 0 then x
    else 2 * Or(x / 2, y / 2) + (if x % 2 == 1 || y % 2 == 1 then 1 else 0)
  }

  /** Masking with `(1 << k) - 1` keeps the `k` low bits. */
  lemma {:induction false} AndLowBits(x: nat, k: nat)
    ensures And(x, Pow2(k) - 1) == x % Pow2(k)
  {
    if k == 0 {
      assert Pow2(k) == 1;
      ModUnique(x, 1, x, 0);
    } else if x > 0 {
      var p := Pow2(k - 1);
      var m: nat := 2 * p - 1;
      assert Pow2(k) - 1 == m;
      assert m / 2 == p - 1 && m % 2 == 1 by {
        ModUnique(m, 2, p - 1, 1);
      }
      AndOdd(x, m);
      AndLowBits(x / 2, k - 1);
      HalfMod(x, p);
    } else {
      ModUnique(0, Pow2(k), 0, 0);
    }
  }

  /** Masking with an odd value keeps the last bit. */
  lemma AndOdd(x: nat, m: nat)
    requires x > 0 && m % 2 == 1
    ensures And(x, m) == 2 * And(x / 2, m / 2) + x % 2
  {
  }

  /** The low bits of `x` below `2 * p` are those of `x / 2` below `p`,
      followed by the last bit of `x`. */
  lemma HalfMod(x: nat, p: nat)
    requires p >= 1
    ensures x % (2 * p) == 2 * ((x / 2) % p) + x % 2
  {
    var q := x / 2;
    assert x == 2 * q + x % 2;
    assert q == p * (q / p) + q % p;
    assert x == (2 * p) * (q / p) + (2 * (q % p) + x % 2);
    ModUnique(x, 2 * p, q / p, 2 * (q % p) + x % 2);
  }

  /** Or-ing a value whose `k` low bits are clear with one below `2^k` adds them. */
  lemma {:induction false} OrDisjoint(x: nat, y: nat, k: nat)
    requires x % Pow2(k) == 0 && y < Pow2(k)
    ensures Or(x, y) == x + y
  {
    if k > 0 && x > 0 && y > 0 {
      var p := Pow2(k - 1);
      assert Pow2(k) == 2 * p;
      HalfMod(x, p);
      assert x % 2 == 0 && (x / 2) % p == 0;
      OrDisjoint(x / 2, y / 2, k - 1);
    }
  }

  /** A shifted value has its low bits clear. */
  lemma ShlClear(x: nat, k: nat)
    ensures Shl(x, k) % Pow2(k) == 0
  {
    ModUnique(x * Pow2(k), Pow2(k), x, 0);
  }

  lemma Pow2Values()
    ensures Pow2(0) == 1 && Pow2(1) == 2 && Pow2(2) == 4 && Pow2(3) == 8 && Pow2(4) == 16
    ensures Pow2(5) == 32 && Pow2(6) == 64 && Pow2(7) == 128 && Pow2(8) == 256
  {
  }
}
