/** Bitwise operations on unsigned integers, and what they mean as arithmetic. */
module Bits {

  function And(a: nat, b: nat): (r: nat)
    ensures r <= a && r <= b
  {
    if a == 0 || b == 0 then 0 else 2 * And(a / 2, b / 2) + (a % 2) * (b % 2)
  }

  predicate IsPower2(n: nat)
  {
    n == 1 || (n > 1 && n % 2 == 0 && IsPower2(n / 2))
  }

  /** Masking with a power of two minus one wraps an index that ran over once. */
  lemma {:induction false} MaskWraps(x: nat, n: nat)
    requires IsPower2(n) && x < 2 * n
    ensures And(x, n - 1) == if x < n then x else x - n
  {
    if n > 1 {
      MaskWraps(x / 2, n / 2);
      assert (n - 1) / 2 == n / 2 - 1 && (n - 1) % 2 == 1;
    }
  }

  lemma AndOne(x: nat)
    ensures And(x, 1) == x % 2
  {
    if x > 0 { assert And(x / 2, 0) == 0; }
  }

  function Pow2(k: nat): (p: nat)
    ensures p > 0
  {
    if k == 0 then 1 else 2 * Pow2(k - 1)
  }

  lemma {:induction false} Pow2IsPower2(k: nat)
    ensures IsPower2(Pow2(k))
  {
    if k > 0 { Pow2IsPower2(k - 1); }
  }

  lemma {:induction false} Pow2Add(a: nat, b: nat)
    ensures Pow2(a + b) == Pow2(a) * Pow2(b)
  {
    if a > 0 {
      Pow2Add(a - 1, b);
      DoubleFirst(Pow2(a - 1), Pow2(b));
    }
  }

  lemma DoubleFirst(p: nat, q: nat)
    ensures 2 * (p * q) == 2 * p * q
  {
  }

  lemma Pow2Of16()
    ensures Pow2(16) == 0x1_0000
  {
    Pow2Add(1, 1);
    Pow2Add(2, 2);
    Pow2Add(4, 4);
    Pow2Add(8, 8);
  }

  lemma Pow2Of63()
    ensures 2 * Pow2(63) == 0x1_0000_0000_0000_0000
  {
    Pow2Of16();
    Pow2Add(16, 16);
    Pow2Add(32, 32);
    assert Pow2(64) == 2 * Pow2(63);
  }

  /** Masking with all ones but the lowest clears bit 0. */
  lemma AndEven(x: nat)
    requires x < 0x1_0000_0000
    ensures And(x, 0x1_0000_0000_0000_0000 - 2) == x - x % 2
  {
    Pow2IsPower2(63);
    Pow2Of63();
    MaskWraps(x / 2, Pow2(63));
  }

  function Shr(x: nat, i: nat): nat
  {
    if i == 0 then x else Shr(x / 2, i - 1)
  }
}
