/** toFloat16 of the search tab: a binary32 number is rounded to binary16 and
    widened again.  Numbers are bit patterns (IEEE 754-2008, section 3.4). */
module HalfFloat {
  import opened Bits

  // ---------- fields of a binary32 pattern ----------

  function Sign32(x: nat): nat { x / 0x8000_0000 }

  function Exp32(x: nat): nat { (x / 0x80_0000) % 0x100 }

  function Mant32(x: nat): nat { x % 0x80_0000 }

  function Pack32(s: nat, e: nat, m: nat): nat {
    Or(Or(Shl(s, 31), Shl(e, 23)), m)
  }

  lemma Pack32Fields(s: nat, e: nat, m: nat)
    requires s <= 1 && e < 0x100 && m < 0x80_0000
    ensures var x := Pack32(s, e, m);
            x < 0x1_0000_0000 && Sign32(x) == s && Exp32(x) == e && Mant32(x) == m
  {
    hide Or, Shl;
    Shl22(1);
    Shl22(e);
    Shl31(s);
    Shl31(1);
    OrDisjoint(s, Shl(e, 23), 31);
    Shl22(0x100 * s + e);
    OrDisjoint(0x100 * s + e, m, 23);
  }

  lemma Shl31(a: nat)
    ensures Shl(a, 31) == 0x8000_0000 * a
  {
    Shl22(a);
    ShlSum(a, 23, 8);
    var b := Shl(a, 23);
    assert Shl(b, 1) == 2 * b;
    assert Shl(b, 2) == 4 * b;
    assert Shl(b, 4) == 0x10 * b;
    assert Shl(b, 6) == 0x40 * b;
    assert Shl(b, 8) == 0x100 * b;
  }

  // ---------- fields of a binary16 pattern ----------

  function Sign16(h: nat): nat { h / 0x8000 % 2 }

  function Exp16(h: nat): nat { (h / 0x400) % 0x20 }

  function Mant16(h: nat): nat { h % 0x400 }

  predicate IsHalf(h: nat) {
    h < 0x1_0000
  }

  predicate IsNaN16(h: nat) {
    Exp16(h) == 31 && Mant16(h) != 0
  }

  function Pack16(s: nat, e: nat, q: nat): nat {
    Or(Or(Shl(s, 15), Shl(e, 10)), q)
  }

  lemma Pack16Sum(s: nat, e: nat)
    requires s <= 1 && e < 0x20
    ensures Or(Shl(s, 15), Shl(e, 10)) == 0x8000 * s + 0x400 * e == Shl(0x20 * s + e, 10)
  {
    hide Or, Shl;
    Shl10(1);
    Shl10(e);
    Shl10(0x20 * s + e);
    Shl15(s);
    Shl15(1);
    OrDisjoint(s, Shl(e, 10), 15);
  }

  lemma Shl15(a: nat)
    ensures Shl(a, 15) == 0x8000 * a
  {
    Shl10(a);
    assert Shl(a, 14) == 2 * Shl(a, 13);
  }

  lemma Pack16Fields(s: nat, e: nat, q: nat)
    requires s <= 1 && e < 0x20 && q < 0x400
    ensures Pack16(s, e, q) == 0x8000 * s + 0x400 * e + q
  {
    hide Or, Shl;
    Pack16Sum(s, e);
    Shl10(1);
    OrDisjoint(0x20 * s + e, q, 10);
  }

  /** A significand that rounds up to the next binade sets the lowest exponent
      bit, which does nothing when that bit is set already. */
  lemma Pack16Carry(s: nat, e: nat)
    requires s <= 1 && e < 0x20
    ensures Pack16(s, e, 0x400) == 0x8000 * s + 0x400 * (if e % 2 == 1 then e else e + 1)
  {
    hide Or, Shl;
    Pack16Sum(s, e);
    Shl10(1);
    OrLowBit(0x20 * s + e, 10);
    assert (0x20 * s + e) % 2 == e % 2;
    Shl10(0x20 * s + e);
    Shl10(0x20 * s + e + 1);
  }

  // ---------- the two conversions ----------

  function RoundQ(mant: nat): nat {
    (mant + 0x1000) / 0x2000
  }

  /** binary32 to binary16 */
  function ToHalf(x: nat): nat
    requires x < 0x1_0000_0000
  {
    var exp, mant := Exp32(x) - 112, Mant32(x);
    if exp < -10 then Shl(Sign32(x), 15)
    else if exp <= 0 then Or(Shl(Sign32(x), 15), RoundQ(Shr(Or(Shl(1, 23), mant), 1 - exp)))
    else if exp >= 31 then Or(Shl(Sign32(x), 15), 0x7c00)
    else Pack16(Sign32(x), exp, RoundQ(mant))
  }

  /** The number of doublings that bring m up to 0x400. */
  function Doublings(m: nat): (j: nat)
    requires m > 0
    decreases 0x400 - m
  {
    if m >= 0x400 then 0 else 1 + Doublings(2 * m)
  }

  /** binary16 to binary32 */
  function FromHalf(h: nat): nat
    requires IsHalf(h)
  {
    var s, e, m := Sign16(h), Exp16(h), Mant16(h);
    if e == 0 && m == 0 then Shl(s, 31)
    else if e == 0 then
      DoublingsBounds(m);
      Pack32(s, 113 - Doublings(m), 0x2000 * (Shl(m, Doublings(m)) % 0x400))
    else if e == 31 then Pack32(s, 0xff, 0x2000 * m)
    else Pack32(s, e + 112, 0x2000 * m)
  }

  lemma {:induction false} DoublingsBounds(m: nat)
    requires 0 < m < 0x800
    ensures m < 0x400 ==> 0x400 <= Shl(m, Doublings(m)) < 0x800
    ensures Doublings(m) <= 10 && (m < 0x400 ==> Doublings(m) >= 1)
    decreases 0x400 - m
  {
    Shl10(m);
    DoublingsFit(m, 10);
  }

  lemma {:induction false} DoublingsFit(m: nat, n: nat)
    requires 0 < m < 0x800 && Shl(m, n) >= 0x400
    ensures Doublings(m) <= n && 0x400 <= Shl(m, Doublings(m)) < 0x800
    decreases n
  {
    if m < 0x400 {
      ShlSum(m, 1, n - 1);
      DoublingsFit(2 * m, n - 1);
      ShlSum(m, 1, Doublings(2 * m));
    }
  }

  /** toFloat16, from and to the bit pattern of the 32-bit buffer. */
  method ToFloat16(x: nat) returns (out: nat)
    requires x < 0x1_0000_0000
    ensures IsHalf(ToHalf(x)) && out == FromHalf(ToHalf(x))
  {
    var bits := Narrow(x);
    ToHalfIs(x);
    out := Widen(bits);
  }

  method Narrow(x: nat) returns (bits: nat)
    requires x < 0x1_0000_0000
    ensures bits == ToHalf(x)
  {
    hide Or, Shl, Shr, RoundQ;
    var sign := Shl(Sign32(x), 15);
    var exp := Exp32(x) - 127 + 15;
    var mant := Mant32(x);
    if exp <= 0 {
      if exp < -10 {
        bits := sign;
      } else {
        mant := Shr(Or(Shl(1, 23), mant), 1 - exp);
        bits := Or(sign, RoundQ(mant));
      }
    } else if exp >= 31 {
      bits := Or(sign, 0x7c00);
    } else {
      bits := Or(Or(sign, Shl(exp, 10)), RoundQ(mant));
    }
  }

  /** `m & 0x400` */
  lemma BitTest(m: nat)
    requires m < 0x800
    ensures (m / 0x400) % 2 == 0 <==> m < 0x400
  {
  }

  /** The renormalising loop on a subnormal significand. */
  method Normalise(m0: nat) returns (e: int, m: nat)
    requires 0 < m0 < 0x400
    ensures -9 <= e == 1 - Doublings(m0) && m == Shl(m0, Doublings(m0)) % 0x400
  {
    e, m := 0, m0;
    ghost var j: nat := 0;
    DoublingsBounds(m0);
    while (m / 0x400) % 2 == 0
      invariant 0 < m < 0x800 && m == Shl(m0, j) && e + j == 0 && j + Doublings(m) == Doublings(m0)
      decreases 0x400 - m
    {
      BitTest(m);
      m := 2 * m;
      e := e - 1;
      j := j + 1;
    }
    BitTest(m);
    e := e + 1;
    m := m % 0x400;
  }

  method Widen(bits: nat) returns (out: nat)
    requires IsHalf(bits)
    ensures out == FromHalf(bits)
  {
    hide Or, Shl;
    var s := Sign16(bits);
    var e: int := Exp16(bits);
    var m := Mant16(bits);
    if e == 0 {
      if m == 0 {
        out := Shl(s, 31);
      } else {
        e, m := Normalise(m);
        out := Pack32(s, e + 127 - 15, 0x2000 * m);
      }
    } else if e == 31 {
      out := Pack32(s, 0xff, 0x2000 * m);
    } else {
      out := Pack32(s, e + 127 - 15, 0x2000 * m);
    }
  }

  /** The half pattern, branch by branch; it is never a NaN. */
  lemma ToHalfIs(x: nat)
    requires x < 0x1_0000_0000
    ensures IsHalf(ToHalf(x)) && !IsNaN16(ToHalf(x)) && Sign16(ToHalf(x)) == Sign32(x)
    ensures ToHalf(x) - 0x8000 * Sign32(x) == HalfMagnitude(x)
  {
    hide Or, Shl, Shr;
    var s, exp, mant := Sign32(x), Exp32(x) - 112, Mant32(x);
    Shl15(s);
    if exp < -10 {
    } else if exp <= 0 {
      Shifted(mant, 1 - exp);
      Pack16Small(s, RoundQ(Shr(0x80_0000 + mant, 1 - exp)));
    } else if exp >= 31 {
      Pack16Small(s, 0x7c00);
    } else if RoundQ(mant) < 0x400 {
      Pack16Fields(s, exp, RoundQ(mant));
    } else {
      Pack16Carry(s, exp);
    }
  }

  lemma Pack16Small(s: nat, b: nat)
    requires s <= 1 && b < 0x8000
    ensures Or(Shl(s, 15), b) == 0x8000 * s + b
  {
    Shl15(s);
    Shl15(1);
    OrDisjoint(s, b, 15);
  }

  /** The significand with its hidden bit, shifted into the subnormal range. */
  lemma Shifted(mant: nat, t: nat)
    requires mant < 0x80_0000 && 1 <= t
    ensures Or(Shl(1, 23), mant) == 0x80_0000 + mant
    ensures RoundQ(Shr(0x80_0000 + mant, t)) <= 0x400
  {
    Shl22(1);
    OrDisjoint(1, mant, 23);
    ShrFloor(0x80_0000 + mant, t);
    ShlAtLeast(Shr(0x80_0000 + mant, t), t);
  }

  lemma {:induction false} ShlAtLeast(a: nat, t: nat)
    ensures Shl(a, t) >= a && (t >= 1 ==> Shl(a, t) >= 2 * a)
  {
    if t > 0 {
      ShlAtLeast(a, t - 1);
    }
  }

  /** The pattern without its sign: rounded half up, with the lost carry. */
  function HalfMagnitude(x: nat): nat {
    var exp, mant := Exp32(x) - 112, Mant32(x);
    if exp < -10 then 0
    else if exp <= 0 then RoundQ(Shr(0x80_0000 + mant, 1 - exp))
    else if exp >= 31 then 0x7c00
    else 0x400 * exp + (if RoundQ(mant) == 0x400 && exp % 2 == 1 then 0 else RoundQ(mant))
  }

  // ---------- fixed points ----------

  lemma HalfFields(h: nat)
    requires IsHalf(h)
    ensures h == 0x8000 * Sign16(h) + 0x400 * Exp16(h) + Mant16(h)
    ensures Sign16(h) <= 1 && Exp16(h) < 0x20 && Mant16(h) < 0x400
  {
  }

  /** The binary32 fields of a widened subnormal. */
  lemma WideSubnormal(h: nat)
    requires IsHalf(h) && Exp16(h) == 0 && Mant16(h) != 0
    ensures FromHalf(h) < 0x1_0000_0000 && Sign32(FromHalf(h)) == Sign16(h)
    ensures var j := Doublings(Mant16(h));
            1 <= j <= 10 && Exp32(FromHalf(h)) == 113 - j && 0x80_0000 + Mant32(FromHalf(h)) == Shl(Mant16(h), j + 13)
  {
    hide Or, Shl, Shr;
    var m := Mant16(h);
    var j := Doublings(m);
    DoublingsBounds(m);
    Pack32Fields(Sign16(h), 113 - j, 0x2000 * (Shl(m, j) % 0x400));
    ShlSum(m, j, 13);
    Shl10(Shl(m, j));
  }

  /** A widened subnormal is rounded back to itself. */
  lemma SubnormalFixed(h: nat)
    requires IsHalf(h) && Exp16(h) == 0 && Mant16(h) != 0
    ensures FromHalf(h) < 0x1_0000_0000 && ToHalf(FromHalf(h)) == h
  {
    hide Or, Shl, Shr, FromHalf, ToHalf;
    var m := Mant16(h);
    var j := Doublings(m);
    WideSubnormal(h);
    ShlSwap(m, 13, j);
    ShrShl(Shl(m, 13), j);
    Shl10(m);
    ToHalfIs(FromHalf(h));
    HalfFields(h);
  }

  lemma ShlSwap(m: nat, a: nat, b: nat)
    ensures Shl(m, b + a) == Shl(Shl(m, a), b)
  {
  }

  /** Every binary16 number that is not a NaN is a fixed point: zeros,
      subnormals, normal numbers and infinities. */
  lemma HalvesAreFixed(h: nat)
    requires IsHalf(h) && !IsNaN16(h)
    ensures FromHalf(h) < 0x1_0000_0000 && ToHalf(FromHalf(h)) == h
  {
    hide Or, Shl, Shr, ToHalf, Pack32;
    var s, e, m := Sign16(h), Exp16(h), Mant16(h);
    HalfFields(h);
    if e == 0 && m == 0 {
      Shl31(s);
      ToHalfIs(FromHalf(h));
    } else if e == 0 {
      SubnormalFixed(h);
    } else {
      NormalFixed(h);
    }
  }

  lemma NormalFixed(h: nat)
    requires IsHalf(h) && Exp16(h) != 0 && !IsNaN16(h)
    ensures FromHalf(h) < 0x1_0000_0000 && ToHalf(FromHalf(h)) == h
  {
    hide Or, Shl, Shr, ToHalf, Pack32;
    var s, e, m := Sign16(h), Exp16(h), Mant16(h);
    HalfFields(h);
    Pack32Fields(s, if e == 31 then 0xff else e + 112, 0x2000 * m);
    ToHalfIs(FromHalf(h));
    assert RoundQ(0x2000 * m) == m;
  }

  /** toFloat16 as a function on bit patterns. */
  function Rounded(x: nat): nat
    requires x < 0x1_0000_0000
  {
    ToHalfIs(x);
    FromHalf(ToHalf(x))
  }

  /** Rounding twice is rounding once, on every input, NaNs included. */
  lemma RoundingIsIdempotent(x: nat)
    requires x < 0x1_0000_0000
    ensures Rounded(x) < 0x1_0000_0000 && Rounded(Rounded(x)) == Rounded(x)
  {
    ToHalfIs(x);
    HalvesAreFixed(ToHalf(x));
  }

  // ---------- the error ----------

  /** The magnitude of a finite binary32 number, in units of 2^-149. */
  function Magnitude(x: nat): nat {
    if Exp32(x) == 0 then Mant32(x) else Shl(0x80_0000 + Mant32(x), Exp32(x) - 1)
  }

  /** Half a unit in the last place of binary16 at the magnitude of x. */
  function HalfUlp(x: nat): nat {
    if Exp32(x) <= 112 then Shl(1, 124) else Shl(0x1000, Exp32(x) - 1)
  }

  /** The magnitude of a finite binary16 number, in the same units. */
  function HalfValue(h: nat): nat {
    if Exp16(h) == 0 then Shl(Mant16(h), 125) else Shl(0x400 + Mant16(h), Exp16(h) + 124)
  }

  /** Widening changes no value. */
  lemma WideningIsExact(h: nat)
    requires IsHalf(h) && Exp16(h) < 31
    ensures Magnitude(FromHalf(h)) == HalfValue(h)
  {
    hide Or, Shl, Shr;
    var s, e, m := Sign16(h), Exp16(h), Mant16(h);
    HalfFields(h);
    if e == 0 && m == 0 {
      Shl31(s);
      ShlZero(125);
    } else if e == 0 {
      var j := Doublings(m);
      WideSubnormal(h);
      ShlSum(m, j + 13, 112 - j);
    } else {
      Pack32Fields(s, e + 112, 0x2000 * m);
      Shl10(0x400 + m);
      ShlSum(0x400 + m, 13, e + 111);
    }
  }

  lemma WideningKeepsSign(h: nat)
    requires IsHalf(h)
    ensures Sign32(FromHalf(h)) == Sign16(h)
  {
    hide Or, Shl, Shr;
    var s, e, m := Sign16(h), Exp16(h), Mant16(h);
    HalfFields(h);
    if e == 0 && m == 0 {
      Shl31(s);
    } else if e == 0 {
      WideSubnormal(h);
    } else {
      Pack32Fields(s, if e == 31 then 0xff else e + 112, 0x2000 * m);
    }
  }

  lemma {:induction false} ShlZero(k: nat)
    ensures Shl(0, k) == 0
  {
    if k > 0 {
      ShlZero(k - 1);
    }
  }

  /** The result is finite: the number is below the overflow threshold. */
  predicate BelowThreshold(x: nat) {
    Exp32(x) < 142 || (Exp32(x) == 142 && RoundQ(Mant32(x)) < 0x400)
  }

  /** The branch that loses the carry: the significand rounds up to the next
      binade while the exponent field is odd. */
  predicate LosesCarry(x: nat) {
    112 < Exp32(x) < 143 && Exp32(x) % 2 == 1 && RoundQ(Mant32(x)) == 0x400
  }

  function Distance(a: nat, b: nat): nat {
    if a < b then b - a else a - b
  }

  /** Differences scale. */
  lemma ScaledDistance(a: nat, b: nat, k: nat)
    ensures Distance(Shl(a, k), Shl(b, k)) == Shl(Distance(a, b), k)
  {
  }

  lemma ScaledAtMost(a: nat, b: nat, k: nat)
    ensures Shl(a, k) <= Shl(b, k) <==> a <= b
  {
  }

  /** In the normal range: the distance to the rounded significand. */
  lemma NormalError(x: nat)
    requires x < 0x1_0000_0000 && 112 < Exp32(x) < 143 && BelowThreshold(x)
    ensures Distance(HalfValue(ToHalf(x)), Magnitude(x)) <= HalfUlp(x) <==> !LosesCarry(x)
  {
    hide Or, Shl, Shr, ToHalf;
    var exp, mant := Exp32(x) - 112, Mant32(x);
    var q := RoundQ(mant);
    var k := exp + 111;
    ToHalfIs(x);
    HalfFields(ToHalf(x));
    if q < 0x400 {
      NormalValue(0x400 + q, k);
      ScaledDistance(0x2000 * (0x400 + q), 0x80_0000 + mant, k);
      ScaledAtMost(Distance(0x2000 * (0x400 + q), 0x80_0000 + mant), 0x1000, k);
    } else if exp % 2 == 1 {
      NormalValue(0x400, k);
      ScaledDistance(0x2000 * 0x400, 0x80_0000 + mant, k);
      ScaledAtMost(Distance(0x2000 * 0x400, 0x80_0000 + mant), 0x1000, k);
    } else {
      NormalValue(0x800, k);
      ShlSum(0x400, 1, exp + 124);
      assert Shl(0x400, 1) == 0x800 by {
        ShlOne(0x400);
      }
      ScaledDistance(0x2000 * 0x800, 0x80_0000 + mant, k);
      ScaledAtMost(Distance(0x2000 * 0x800, 0x80_0000 + mant), 0x1000, k);
    }
  }

  lemma ShlOne(a: nat)
    ensures Shl(a, 1) == 2 * a
  {
  }

  lemma NormalValue(c: nat, k: nat)
    ensures Shl(c, 13 + k) == Shl(0x2000 * c, k)
  {
    Shl10(c);
    ShlSum(c, 13, k);
  }

  /** In the subnormal range. */
  lemma SubnormalError(x: nat)
    requires x < 0x1_0000_0000 && 102 <= Exp32(x) <= 112
    ensures Distance(HalfValue(ToHalf(x)), Magnitude(x)) <= HalfUlp(x)
  {
    hide Or, Shl, Shr, ToHalf;
    var t, big := 113 - Exp32(x), 0x80_0000 + Mant32(x);
    var r := Shr(big, t);
    var q := RoundQ(r);
    ToHalfIs(x);
    HalfFields(ToHalf(x));
    Shifted(Mant32(x), t);
    assert HalfValue(ToHalf(x)) == Shl(q, 125) by {
      if q == 0x400 {
        assert Exp16(ToHalf(x)) == 1 && Mant16(ToHalf(x)) == 0;
      }
    }
    ShlSum(q, 13, 112);
    Shl10(q);
    ShlSum(0x2000 * q, t, 112 - t);
    ShrFloor(big, t);
    RoundedWithin(r, t);
    ScaledDistance(Shl(0x2000 * q, t), big, 112 - t);
    ScaledAtMost(Distance(Shl(0x2000 * q, t), big), Shl(0x1000, t), 112 - t);
    ShlSum(0x1000, t, 112 - t);
    Shl10(1);
    ShlSum(1, 12, 112);
  }

  /** Rounding the truncated significand half up stays within half a unit. */
  lemma RoundedWithin(r: nat, t: nat)
    ensures Shl(0x2000 * RoundQ(r), t) <= Shl(r, t) + Shl(0x1000, t)
    ensures Shl(r + 1, t) <= Shl(0x2000 * RoundQ(r), t) + Shl(0x1000, t)
  {
    var q := RoundQ(r);
    ShlLinear(r, 0x1000, t);
    ShlLinear(0x2000 * q, 0x1000, t);
    ScaledAtMost(0x2000 * q, r + 0x1000, t);
    ScaledAtMost(r + 1, 0x2000 * q + 0x1000, t);
  }

  /** Too small for binary16: the result is zero. */
  lemma TinyError(x: nat)
    requires x < 0x1_0000_0000 && Exp32(x) < 102
    ensures Distance(HalfValue(ToHalf(x)), Magnitude(x)) <= HalfUlp(x)
  {
    hide Or, Shl, Shr, ToHalf;
    ToHalfIs(x);
    HalfFields(ToHalf(x));
    ShlZero(125);
    ShlSum(1, 24, 100);
    Shl22(1);
    ShlSum(1, 23, 1);
    ShlOne(0x80_0000);
    if Exp32(x) == 0 {
      ShlAtLeast(0x100_0000, 100);
    } else {
      var k := Exp32(x) - 1;
      ScaledAtMost(0x80_0000 + Mant32(x), 0x100_0000, k);
      ShlSum(0x100_0000, k, 100 - k);
      ShlAtLeast(Shl(0x100_0000, k), 100 - k);
    }
  }

  /** Below the overflow threshold the result is within half a unit in the last
      place exactly when no carry is lost. */
  lemma ErrorWithinHalfUlpIff(x: nat)
    requires x < 0x1_0000_0000 && BelowThreshold(x)
    ensures Sign32(Rounded(x)) == Sign32(x)
    ensures Distance(Magnitude(Rounded(x)), Magnitude(x)) <= HalfUlp(x) <==> !LosesCarry(x)
  {
    hide Or, Shl, Shr, ToHalf, FromHalf, Magnitude, HalfUlp, HalfValue;
    ToHalfIs(x);
    FiniteBelow(x);
    WideningKeepsSign(ToHalf(x));
    WideningIsExact(ToHalf(x));
    if Exp32(x) < 102 {
      TinyError(x);
    } else if Exp32(x) <= 112 {
      SubnormalError(x);
    } else {
      NormalError(x);
    }
  }

  /** A lost carry rounds down to the power of two below x, where the nearest
      binary16 number is the power of two above it. */
  lemma LostCarryRoundsDown(x: nat)
    requires x < 0x1_0000_0000 && LosesCarry(x)
    ensures Magnitude(Rounded(x)) == Shl(0x80_0000, Exp32(x) - 1)
    ensures Distance(Shl(0x100_0000, Exp32(x) - 1), Magnitude(x)) <= HalfUlp(x)
  {
    hide Or, Shl, Shr, ToHalf;
    var k := Exp32(x) - 1;
    ToHalfIs(x);
    HalfFields(ToHalf(x));
    WideningIsExact(ToHalf(x));
    NormalValue(0x400, k);
    ScaledDistance(0x100_0000, 0x80_0000 + Mant32(x), k);
    ScaledAtMost(Distance(0x100_0000, 0x80_0000 + Mant32(x)), 0x1000, k);
  }

  lemma FiniteBelow(x: nat)
    requires x < 0x1_0000_0000 && BelowThreshold(x)
    ensures Exp16(ToHalf(x)) < 31
  {
    hide Or, Shl, Shr, ToHalf;
    ToHalfIs(x);
    HalfFields(ToHalf(x));
    if 102 <= Exp32(x) <= 112 {
      Shifted(Mant32(x), 113 - Exp32(x));
    }
  }

  /** From the threshold on the result is an infinity; so it is for a NaN. */
  lemma AboveThreshold(x: nat)
    requires x < 0x1_0000_0000 && !BelowThreshold(x)
    ensures Exp32(Rounded(x)) == 0xff && Mant32(Rounded(x)) == 0 && Sign32(Rounded(x)) == Sign32(x)
  {
    hide Or, Shl, Shr, ToHalf;
    ToHalfIs(x);
    HalfFields(ToHalf(x));
    Pack32Fields(Sign32(x), 0xff, 0);
  }
}
