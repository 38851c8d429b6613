/** Bit operations on natural numbers, as far as the code packs words with them. */
module Bits {

  /** `a << k` */
  function Shl(a: nat, k: nat): nat {
    if k == 0 then a else 2 * Shl(a, k - 1)
  }

  /** `a | b` */
  function Or(a: nat, b: nat): nat
    decreases a + b
  {
    if a == 0 && b == 0 then 0
    else (if a % 2 == 1 || b % 2 == 1 then 1 else 0) + 2 * Or(a / 2, b / 2)
  }

  lemma {:induction false} OrZero(a: nat)
    ensures Or(a, 0) == a && Or(0, a) == a
  {
    if a > 0 {
      OrZero(a / 2);
    }
  }

  lemma OrDouble(x: nat, y: nat)
    ensures Or(2 * x, 2 * y) == 2 * Or(x, y)
  {
  }

  /** Shifting both operands shifts the result. */
  lemma {:induction false} OrShift(a: nat, b: nat, k: nat)
    ensures Or(Shl(a, k), Shl(b, k)) == Shl(Or(a, b), k)
  {
    if k > 0 {
      OrShift(a, b, k - 1);
      OrDouble(Shl(a, k - 1), Shl(b, k - 1));
    }
  }

  /** Fields that do not overlap are added. */
  lemma {:induction false} OrDisjoint(a: nat, b: nat, k: nat)
    requires b < Shl(1, k)
    ensures Or(Shl(a, k), b) == Shl(a, k) + b
  {
    if k == 0 {
      OrZero(a);
    } else {
      var x := Shl(a, k - 1);
      OrDisjoint(a, b / 2, k - 1);
      assert (2 * x) / 2 == x && (2 * x) % 2 == 0;
    }
  }

  /** Overlapping in one bit: the bit is set once, and a carry into it is lost. */
  lemma OrLowBit(a: nat, k: nat)
    ensures Or(Shl(a, k), Shl(1, k)) == Shl(if a % 2 == 1 then a else a + 1, k)
  {
    OrShift(a, 1, k);
    OrZero(a / 2);
    assert Or(a, 1) == 1 + 2 * Or(a / 2, 0);
  }

  lemma ShlSum(a: nat, j: nat, k: nat)
    ensures Shl(a, j + k) == Shl(Shl(a, j), k)
  {
  }

  lemma Shl10(a: nat)
    ensures Shl(a, 10) == 0x400 * a && Shl(a, 12) == 0x1000 * a && Shl(a, 13) == 0x2000 * a
  {
    assert Shl(a, 1) == 2 * a;
    assert Shl(a, 2) == 4 * a;
    assert Shl(a, 4) == 0x10 * a;
    assert Shl(a, 6) == 0x40 * a;
    assert Shl(a, 8) == 0x100 * a;
    assert Shl(a, 10) == 0x400 * a;
  }

  lemma Shl22(a: nat)
    ensures Shl(a, 22) == 0x40_0000 * a && Shl(a, 23) == 0x80_0000 * a
  {
    Shl10(a);
    Shl10(0x400 * a);
    ShlSum(a, 10, 10);
    assert Shl(a, 20) == 0x10_0000 * a;
  }

  /** `a >>> k` */
  function Shr(a: nat, k: nat): nat {
    if k == 0 then a else Shr(a / 2, k - 1)
  }

  lemma {:induction false} ShrShl(a: nat, k: nat)
    ensures Shr(Shl(a, k), k) == a
  {
    if k > 0 {
      assert (2 * Shl(a, k - 1)) / 2 == Shl(a, k - 1);
      ShrShl(a, k - 1);
    }
  }

  /** Shifting right and back loses less than one unit. */
  lemma {:induction false} ShrFloor(a: nat, k: nat)
    ensures Shl(Shr(a, k), k) <= a < Shl(Shr(a, k) + 1, k)
  {
    if k > 0 {
      ShrFloor(a / 2, k - 1);
    }
  }

  lemma {:induction false} ShlLinear(a: nat, b: nat, k: nat)
    ensures Shl(a + b, k) == Shl(a, k) + Shl(b, k)
  {
    if k > 0 {
      ShlLinear(a, b, k - 1);
    }
  }

  lemma {:induction false} ShlGrows(a: nat, b: nat, k: nat)
    requires a < b
    ensures Shl(a, k) < Shl(b, k)
  {
    if k > 0 {
      ShlGrows(a, b, k - 1);
    }
  }
}
