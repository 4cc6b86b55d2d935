/** Numbers as sets of bit positions: the source's bitwise OR, without machine bit vectors. */
module Bits {
  function Pow2(k: nat): (p: nat)
    ensures p >= 1
  {
    if k == 0 then 1 else 2 * Pow2(k - 1)
  }

  lemma Pow2Values()
    ensures Pow2(6) == 0x40 && Pow2(7) == 0x80 && Pow2(8) == 0x100 && Pow2(9) == 0x200
    ensures Pow2(16) == 0x1_0000 && Pow2(17) == 0x2_0000 && Pow2(18) == 0x4_0000 && Pow2(19) == 0x8_0000
    ensures Pow2(20) == 0x10_0000 && Pow2(21) == 0x20_0000 && Pow2(22) == 0x40_0000
    ensures Pow2(32) == 0x1_0000_0000
  {
    assert Pow2(4) == 0x10;
    assert Pow2(8) == 0x100;
    assert Pow2(12) == 0x1000;
    assert Pow2(16) == 0x1_0000;
    assert Pow2(20) == 0x10_0000;
    assert Pow2(24) == 0x100_0000;
    assert Pow2(28) == 0x1000_0000;
  }

  predicate Bit(x: nat, k: nat) {
    if k == 0 then x % 2 == 1 else Bit(x / 2, k - 1)
  }

  // x & (2^n - 1) == 0
  predicate LowBitsClear(x: nat, n: nat) {
    n == 0 || (x % 2 == 0 && LowBitsClear(x / 2, n - 1))
  }

  // x | y
  function Or(x: nat, y: nat): nat {
    if x == 0 && y == 0 then 0
    else 2 * Or(x / 2, y / 2) + if x % 2 == 1 || y % 2 == 1 then 1 else 0
  }

  // x & y
  function And(x: nat, y: nat): nat {
    if x == 0 || y == 0 then 0
    else 2 * And(x / 2, y / 2) + if x % 2 == 1 && y % 2 == 1 then 1 else 0
  }

  lemma {:induction false} BitAnd(x: nat, y: nat, k: nat)
    ensures Bit(And(x, y), k) <==> Bit(x, k) && Bit(y, k)
  {
    if x == 0 || y == 0 {
      BitZero(k);
    } else {
      assert And(x, y) / 2 == And(x / 2, y / 2);
      if k > 0 { BitAnd(x / 2, y / 2, k - 1); }
    }
  }

  lemma {:induction false} BitOr(x: nat, y: nat, k: nat)
    ensures Bit(Or(x, y), k) <==> Bit(x, k) || Bit(y, k)
  {
    if x == 0 && y == 0 {
      BitZero(k);
    } else {
      assert Or(x, y) / 2 == Or(x / 2, y / 2);
      if k > 0 { BitOr(x / 2, y / 2, k - 1); }
    }
  }

  lemma {:induction false} BitZero(k: nat)
    ensures !Bit(0, k)
  {
    if k > 0 { BitZero(k - 1); }
  }

  // A number is determined by its bits.
  lemma {:induction false} SameBits(x: nat, y: nat)
    requires forall k: nat :: Bit(x, k) <==> Bit(y, k)
    ensures x == y
    decreases x + y
  {
    if x != 0 || y != 0 {
      assert Bit(x, 0) <==> Bit(y, 0);
      forall k: nat ensures Bit(x / 2, k) <==> Bit(y / 2, k) {
        assert Bit(x, k + 1) <==> Bit(y, k + 1);
      }
      SameBits(x / 2, y / 2);
    }
  }

  lemma OrAssociates(x: nat, y: nat, z: nat)
    ensures Or(Or(x, y), z) == Or(x, Or(y, z))
  {
    forall k: nat ensures Bit(Or(Or(x, y), z), k) <==> Bit(Or(x, Or(y, z)), k) {
      BitOr(Or(x, y), z, k);
      BitOr(x, y, k);
      BitOr(x, Or(y, z), k);
      BitOr(y, z, k);
    }
    SameBits(Or(Or(x, y), z), Or(x, Or(y, z)));
  }

  lemma {:induction false} OrZero(x: nat)
    ensures Or(x, 0) == x && Or(0, x) == x
  {
    if x != 0 { OrZero(x / 2); }
  }

  // Bits outside a word stay outside it.
  lemma {:induction false} OrBound(x: nat, y: nat, k: nat)
    requires x < Pow2(k) && y < Pow2(k)
    ensures Or(x, y) < Pow2(k)
  {
    if x != 0 || y != 0 { OrBound(x / 2, y / 2, k - 1); }
  }

  lemma {:induction false} BitBound(x: nat, n: nat, k: nat)
    requires x < Pow2(n) && n <= k
    ensures !Bit(x, k)
  {
    if k == 0 {
    } else if n == 0 {
      BitBound(x / 2, 0, k - 1);
    } else {
      BitBound(x / 2, n - 1, k - 1);
    }
  }

  lemma {:induction false} LowBitsOfPow2(n: nat)
    ensures LowBitsClear(Pow2(n), n)
  {
    if n > 0 {
      assert Pow2(n) / 2 == Pow2(n - 1);
      LowBitsOfPow2(n - 1);
    }
  }

  lemma {:induction false} BitOfPow2(n: nat, k: nat)
    ensures Bit(Pow2(n), k) <==> k == n
  {
    if n > 0 {
      assert Pow2(n) / 2 == Pow2(n - 1);
      if k > 0 { BitOfPow2(n - 1, k - 1); }
    } else if k > 0 {
      BitZero(k - 1);
    }
  }

  // ---------------------------------------------------------------- masks

  lemma {:induction false} BitByMask(x: nat, n: nat)
    ensures And(x, Pow2(n)) != 0 <==> Bit(x, n)
  {
    if x == 0 {
      BitZero(n);
    } else if n > 0 {
      assert Pow2(n) / 2 == Pow2(n - 1);
      BitByMask(x / 2, n - 1);
    }
  }

  lemma {:induction false} LowBitsByMask(x: nat, n: nat)
    ensures And(x, Pow2(n) - 1) == 0 <==> LowBitsClear(x, n)
  {
    if n > 0 {
      assert (Pow2(n) - 1) / 2 == Pow2(n - 1) - 1 && (Pow2(n) - 1) % 2 == 1;
      LowBitsByMask(x / 2, n - 1);
    }
  }

  // x >> k
  function ShiftRight(x: nat, k: nat): nat {
    if k == 0 then x else ShiftRight(x / 2, k - 1)
  }

  lemma {:induction false} ShiftPow2(n: nat, k: nat)
    ensures ShiftRight(Pow2(n + k), k) == Pow2(n)
  {
    if k > 0 {
      assert Pow2(n + k) / 2 == Pow2(n + k - 1);
      ShiftPow2(n, k - 1);
    }
  }

  lemma ShiftedHighBit(n: nat)
    requires n < 8
    ensures ShiftRight(0x80, 7 - n) == Pow2(n) <= 0x80
  {
    Pow2Values();
    ShiftPow2(n, 7 - n);
    Pow2Monotone(n, 7);
  }

  lemma {:induction false} Pow2Monotone(j: nat, k: nat)
    requires j <= k
    ensures Pow2(j) <= Pow2(k)
  {
    if j < k { Pow2Monotone(j, k - 1); }
  }
}
