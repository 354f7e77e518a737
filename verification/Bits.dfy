// Binary expansions of natural numbers.
module Bits {
  type Byte = x: nat | x < 256
  type Bytes = seq<Byte>

  function Pow2(k: nat): (r: nat)
    ensures r > 0
  {
    if k == 0 then 1 else 2 * Pow2(k - 1)
  }

  // x >> k
  function Shr(x: nat, k: nat): nat {
    if k == 0 then x else Shr(x, k - 1) / 2
  }

  // (x >> k) & 1
  function Bit(x: nat, k: nat): (r: nat)
    ensures r <= 1
  {
    Shr(x, k) % 2
  }

  // The bit length of x: the word size minus its leading zeros.
  function NumBits(x: nat): nat {
    if x == 0 then 0 else 1 + NumBits(x / 2)
  }

  lemma {:induction false} ShrFromHalf(x: nat, k: nat)
    ensures Shr(x, k + 1) == Shr(x / 2, k)
  {
    if k > 0 {
      ShrFromHalf(x, k - 1);
    }
  }

  lemma {:induction false} ShrNumBits(x: nat)
    ensures Shr(x, NumBits(x)) == 0
  {
    if x != 0 {
      ShrNumBits(x / 2);
      ShrFromHalf(x, NumBits(x / 2));
    }
  }

  lemma {:induction false} ShrZero(x: nat, k: nat)
    requires x < Pow2(k)
    ensures Shr(x, k) == 0
  {
    if k > 0 {
      ShrZero(x / 2, k - 1);
      ShrFromHalf(x, k - 1);
    }
  }

  lemma {:induction false} NumBitsBounds(x: nat)
    ensures x < Pow2(NumBits(x))
    ensures x > 0 ==> NumBits(x) > 0 && Pow2(NumBits(x) - 1) <= x
  {
    if x != 0 {
      NumBitsBounds(x / 2);
    }
  }

  lemma {:induction false} Pow2Monotone(j: nat, k: nat)
    requires j <= k
    ensures Pow2(j) <= Pow2(k)
  {
    if j < k {
      Pow2Monotone(j, k - 1);
    }
  }

  lemma {:induction false} Pow2Add(j: nat, k: nat)
    ensures Pow2(j + k) == Pow2(j) * Pow2(k)
  {
    if k > 0 {
      Pow2Add(j, k - 1);
      assert Pow2(j) * (2 * Pow2(k - 1)) == 2 * (Pow2(j) * Pow2(k - 1));
    }
  }
}
