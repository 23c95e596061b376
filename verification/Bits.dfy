/** Machine words as natural numbers: shifts, bitwise or, bit tests. */
module Bits {
  type byte = b: int | 0 <= b < 256

  const U32: nat := 0x1_0000_0000
  const U64: nat := 0x1_0000_0000_0000_0000

  /** `x << k`, before any truncation to a word. */
  function Shl(x: nat, k: nat): (r: nat)
    ensures r >= x
    ensures x == 0 ==> r == 0
  {
    if k == 0 then x else 2 * Shl(x, k - 1)
  }

  function Pow2(k: nat): (p: nat)
    ensures p > 0
  {
    Shl(1, k)
  }

  /** The C operator `|` on unsigned words. */
  function Or(a: nat, b: nat): nat {
    if a == 0 then b
    else if b == 0 then a
    else (if a % 2 == 1 || b % 2 == 1 then 1 else 0) + 2 * Or(a / 2, b / 2)
  }

  /** Bit `k` of word `w`. */
  predicate Bit(w: nat, k: nat) {
    if k == 0 then w % 2 == 1 else Bit(w / 2, k - 1)
  }

  // ---------------------------------------------------------------- shifts

  lemma {:induction false} ShlAdd(x: nat, y: nat, k: nat)
    ensures Shl(x + y, k) == Shl(x, k) + Shl(y, k)
  {
    if k > 0 { ShlAdd(x, y, k - 1); }
  }

  lemma {:induction false} ShlShl(x: nat, j: nat, k: nat)
    ensures Shl(Shl(x, j), k) == Shl(x, j + k)
  {
    if k > 0 { ShlShl(x, j, k - 1); }
  }

  lemma {:induction false} ShlMonotone(x: nat, y: nat, k: nat)
    requires x <= y
    ensures Shl(x, k) <= Shl(y, k)
  {
    if k > 0 { ShlMonotone(x, y, k - 1); }
  }

  lemma ShlMore(x: nat, j: nat, k: nat)
    requires j <= k
    ensures Shl(x, j) <= Shl(x, k)
  {
    ShlShl(x, j, k - j);
  }

  lemma Shl7(x: nat, k: nat)
    ensures Shl(x, k + 7) == Shl(128 * x, k) == 128 * Shl(x, k)
  {
    ShlShl(x, 7, k);
    Times128(x);
    ShlShl(x, k, 7);
    Times128(Shl(x, k));
  }

  lemma Times16(x: nat)
    ensures Shl(x, 4) == 16 * x
  {
    assert Shl(x, 1) == 2 * x;
    assert Shl(x, 2) == 4 * x;
  }

  lemma Times128(x: nat)
    ensures Shl(x, 7) == 128 * x
  {
    Times16(x);
    assert Shl(x, 6) == 4 * Shl(x, 4);
  }

  /** Shifts by whole septets and by words, as products.  `k` is a variable so that callers do not unroll the shift. */
  lemma {:induction false} ShlTable(x: nat, k: nat)
    ensures k == 0 ==> Shl(x, k) == x
    ensures k == 7 ==> Shl(x, k) == 0x80 * x
    ensures k == 14 ==> Shl(x, k) == 0x4000 * x
    ensures k == 21 ==> Shl(x, k) == 0x20_0000 * x
    ensures k == 28 ==> Shl(x, k) == 0x1000_0000 * x
    ensures k == 32 ==> Shl(x, k) == U32 * x
    ensures k == 35 ==> Shl(x, k) == 0x8_0000_0000 * x
    ensures k == 42 ==> Shl(x, k) == 0x400_0000_0000 * x
    ensures k == 49 ==> Shl(x, k) == 0x2_0000_0000_0000 * x
    ensures k == 56 ==> Shl(x, k) == 0x100_0000_0000_0000 * x
    ensures k == 63 ==> Shl(x, k) == 0x8000_0000_0000_0000 * x
    ensures k == 64 ==> Shl(x, k) == U64 * x
  {
    if k == 32 {
      ShlTable(x, k - 4);
      ShlShl(x, k - 4, 4);
      Times16(Shl(x, k - 4));
    } else if k == 64 {
      ShlTable(x, k - 1);
    } else if k >= 7 {
      ShlTable(x, k - 7);
      Shl7(x, k - 7);
    }
  }

  // ---------------------------------------------------------------- bitwise or

  /** Oring in bits above everything set so far is addition. */
  lemma {:induction false} OrDisjoint(a: nat, b: nat, k: nat)
    requires a < Pow2(k)
    ensures Or(a, Shl(b, k)) == a + Shl(b, k)
  {
    if k > 0 && a != 0 && b != 0 {
      OrDisjoint(a / 2, b, k - 1);
    }
  }

  /** A word stays a word under `|`. */
  lemma {:induction false} OrBound(a: nat, b: nat, k: nat)
    requires a < Pow2(k) && b < Pow2(k)
    ensures Or(a, b) < Pow2(k)
  {
    if a != 0 && b != 0 {
      OrBound(a / 2, b / 2, k - 1);
    }
  }

  lemma OrU64(a: nat, b: nat, k: nat)
    requires k == 64 && a < U64 && b < U64
    ensures Or(a, b) < U64
  {
    ShlTable(1, k);
    OrBound(a, b, k);
  }

  lemma OrU32(a: nat, b: nat, k: nat)
    requires k == 32 && a < U32 && b < U32
    ensures Or(a, b) < U32
  {
    ShlTable(1, k);
    OrBound(a, b, k);
  }

  lemma {:induction false} OrBit(a: nat, b: nat, k: nat)
    ensures Bit(Or(a, b), k) == (Bit(a, k) || Bit(b, k))
  {
    if a == 0 || b == 0 {
      ZeroBit(k);
    } else if k > 0 {
      OrBit(a / 2, b / 2, k - 1);
    }
  }

  // ---------------------------------------------------------------- single bits

  lemma {:induction false} ZeroBit(k: nat)
    ensures !Bit(0, k)
  {
    if k > 0 { ZeroBit(k - 1); }
  }

  lemma {:induction false} Pow2Bit(n: nat, k: nat)
    ensures Bit(Pow2(n), k) == (n == k)
  {
    if n == 0 {
      if k > 0 { ZeroBit(k - 1); }
    } else if k > 0 {
      Pow2Bit(n - 1, k - 1);
    }
  }

  /** The all-ones word 2^n - 1, `allbits >> (32 - n)` in C, has its n low bits set ... */
  lemma {:induction false} OnesBit(n: nat, k: nat)
    requires k < n
    ensures Bit(Pow2(n) - 1, k)
  {
    if k > 0 { OnesBit(n - 1, k - 1); }
  }

  /** ... and is the only word below 2^n that has. */
  lemma {:induction false} OnesFromBits(w: nat, n: nat)
    requires w < Pow2(n)
    requires forall k: nat | k < n :: Bit(w, k)
    ensures w == Pow2(n) - 1
  {
    if n > 0 {
      assert Bit(w, 0);
      forall k: nat | k < n - 1 ensures Bit(w / 2, k) { assert Bit(w, k + 1); }
      OnesFromBits(w / 2, n - 1);
    }
  }

  lemma {:induction false} HighBitsClear(w: nat, n: nat, k: nat)
    requires w < Pow2(n) && n <= k
    ensures !Bit(w, k)
  {
    if n == 0 {
      ZeroBit(k);
    } else {
      HighBitsClear(w / 2, n - 1, k - 1);
    }
  }

  lemma {:induction false} BoundFromBits(w: nat, n: nat, m: nat)
    requires w < Pow2(m) && n <= m
    requires forall k: nat | n <= k < m :: !Bit(w, k)
    ensures w < Pow2(n)
    decreases m
  {
    if n < m {
      forall k: nat | n - 1 <= k < m - 1 ensures !Bit(w / 2, k) { assert !Bit(w, k + 1); }
      if n > 0 {
        BoundFromBits(w / 2, n - 1, m - 1);
      } else {
        assert !Bit(w, 0);
        BoundFromBits(w / 2, 0, m - 1);
      }
    }
  }
}
