/** Bitwise or and and of natural numbers, and what shifting, smearing and masking
    do to a number. */
module WordBits {
  import opened Powers

  function Or(a: nat, b: nat): nat {
    if a == 0 && b == 0 then 0
    else 2 * Or(a / 2, b / 2) + if a % 2 == 1 || b % 2 == 1 then 1 else 0
  }

  function And(a: nat, b: nat): nat {
    if a == 0 || b == 0 then 0
    else 2 * And(a / 2, b / 2) + if a % 2 == 1 && b % 2 == 1 then 1 else 0
  }

  function ShiftRight(x: nat, k: nat): (r: nat)
  {
    QuotientNat(x, Pow2(k));
    x / Pow2(k)
  }

  lemma {:induction false} ShiftTwice(x: nat, a: nat, b: nat)
    ensures ShiftRight(ShiftRight(x, a), b) == ShiftRight(x, a + b)
    decreases b
  {
    if b > 0 {
      ShiftTwice(x, a, b - 1);
      TopBit(ShiftRight(x, a), Pow2(b - 1));
      TopBit(x, Pow2(a + b - 1));
    }
  }

  lemma ShiftStep(x: nat, k: nat)
    ensures ShiftRight(x, k + 1) == ShiftRight(x, k) / 2
  {
    TopBit(x, Pow2(k));
  }

  lemma OrHalf(a: nat, b: nat)
    ensures Or(a, b) / 2 == Or(a / 2, b / 2)
  {
  }

  lemma {:induction false} OrShifted(a: nat, b: nat, k: nat)
    ensures ShiftRight(Or(a, b), k) == Or(ShiftRight(a, k), ShiftRight(b, k))
  {
    if k == 0 {
      assert Pow2(0) == 1;
    } else {
      OrShifted(a, b, k - 1);
      ShiftStep(Or(a, b), k - 1);
      ShiftStep(a, k - 1);
      ShiftStep(b, k - 1);
      OrHalf(ShiftRight(a, k - 1), ShiftRight(b, k - 1));
    }
  }

  lemma {:induction false} OrZero(a: nat)
    ensures Or(a, 0) == a
  {
    if a > 0 {
      OrZero(a / 2);
    }
  }

  /** Or-ing in `s` ones fills the low bits. */
  lemma {:induction false} OrOnes(a: nat, s: nat)
    ensures Or(a, Pow2(s) - 1) == ShiftRight(a, s) * Pow2(s) + Pow2(s) - 1
    decreases s
  {
    if s == 0 {
      OrZero(a);
    } else {
      OrOnes(a / 2, s - 1);
      HalfFirst(a, Pow2(s - 1));
      HalfOnes(s);
      Doubled(ShiftRight(a, s), Pow2(s - 1));
    }
  }

  lemma Doubled(q: nat, p: nat)
    ensures 2 * (q * p) == q * (2 * p)
  {
  }

  /** Masking with `s` ones is the remainder by 2^s. */
  lemma {:induction false} AndOnes(a: nat, s: nat)
    ensures And(a, Pow2(s) - 1) == a % Pow2(s)
    decreases s
  {
    if s == 0 {
      assert Pow2(0) == 1;
    } else {
      AndOnes(a / 2, s - 1);
      HalfFirst(a, Pow2(s - 1));
      HalfOnes(s);
      if Pow2(s) - 1 != 0 && a == 0 {
        DivModUnique(0, Pow2(s), 0, 0);
      }
    }
  }

  /** `x` has `k` bits, of which the top `s` are ones. */
  ghost predicate TopOnes(x: nat, k: nat, s: nat) {
    s <= k && ShiftRight(x, k - s) == Pow2(s) - 1
  }

  lemma OnesSplit(a: nat, b: nat)
    ensures (Pow2(a) - 1) * Pow2(b) + Pow2(b) - 1 == Pow2(a + b) - 1
  {
    Pow2Split(a, b);
    assert (Pow2(a) - 1) * Pow2(b) == Pow2(a) * Pow2(b) - Pow2(b);
  }

  lemma OnesShifted(a: nat, b: nat)
    ensures ShiftRight(Pow2(a + b) - 1, b) == Pow2(a) - 1
  {
    OnesSplit(a, b);
    assert Pow2(b) * (Pow2(a) - 1) == (Pow2(a) - 1) * Pow2(b);
    DivModUnique(Pow2(a + b) - 1, Pow2(b), Pow2(a) - 1, Pow2(b) - 1);
  }

  lemma SmearPart(x: nat, k: nat, s: nat)
    requires TopOnes(x, k, s) && 2 * s <= k
    ensures TopOnes(Or(x, ShiftRight(x, s)), k, 2 * s)
  {
    var m := k - 2 * s;
    OrShifted(x, ShiftRight(x, s), m);
    ShiftTwice(x, s, m);
    ShiftTwice(x, m, s);
    OrOnes(ShiftRight(x, m), s);
    OnesSplit(s, s);
  }

  lemma SmearAll(x: nat, k: nat, s: nat)
    requires TopOnes(x, k, s) && k < 2 * s
    ensures TopOnes(Or(x, ShiftRight(x, s)), k, k)
  {
    TopShifted(x, k, s);
    OrOnes(x, k - s);
    OnesSplit(s, k - s);
    assert Pow2(0) == 1;
  }

  lemma TopShifted(x: nat, k: nat, s: nat)
    requires TopOnes(x, k, s) && k < 2 * s
    ensures ShiftRight(x, s) == Pow2(k - s) - 1
  {
    ShiftTwice(x, k - s, 2 * s - k);
    OnesShifted(k - s, 2 * s - k);
  }

  /** x |= x >> s doubles the ones at the top. */
  lemma Smear(x: nat, k: nat, s: nat)
    requires TopOnes(x, k, s)
    ensures TopOnes(Or(x, ShiftRight(x, s)), k, if 2 * s <= k then 2 * s else k)
  {
    if 2 * s <= k {
      SmearPart(x, k, s);
    } else {
      SmearAll(x, k, s);
    }
  }

  function Least(a: nat, b: nat): nat {
    if a <= b then a else b
  }

  /** The same, also once all bits are ones. */
  lemma SmearLine(x: nat, k: nat, s: nat)
    requires s >= 1 && TopOnes(x, k, Least(s, k))
    ensures TopOnes(Or(x, ShiftRight(x, s)), k, Least(2 * s, k))
  {
    if s <= k {
      Smear(x, k, s);
    } else {
      assert Pow2(0) == 1 && x == Pow2(k) - 1;
      Pow2Monotone(k, s);
      DivModUnique(x, Pow2(s), 0, x);
      OrZero(x);
    }
  }

  /** The number of bits of v - 1 is the ceiling of the logarithm of v. */
  lemma TopBitOnly(v: nat)
    requires 1 <= v <= Pow2(32)
    ensures CeilLog2(v) <= 32 && TopOnes(v - 1, CeilLog2(v), Least(1, CeilLog2(v)))
  {
    var k := CeilLog2(v);
    assert Pow2(0) == 1 && Pow2(1) == 2;
    if k > 32 {
      Pow2Monotone(32, k - 1);
      assert false;
    }
    if k > 0 {
      DivModUnique(v - 1, Pow2(k - 1), 1, v - 1 - Pow2(k - 1));
    }
  }

  /** round_to_power_of_2, where the 32-bit result does not wrap around. */
  method RoundToPowerOf2(v: nat) returns (r: nat)
    requires 1 <= v <= Pow2(32)
    ensures r == Pow2(CeilLog2(v))
  {
    ghost var k := CeilLog2(v);
    TopBitOnly(v);
    r := v - 1;
    SmearLine(r, k, 1);
    r := Or(r, ShiftRight(r, 1));
    SmearLine(r, k, 2);
    r := Or(r, ShiftRight(r, 2));
    SmearLine(r, k, 4);
    r := Or(r, ShiftRight(r, 4));
    SmearLine(r, k, 8);
    r := Or(r, ShiftRight(r, 8));
    SmearLine(r, k, 16);
    r := Or(r, ShiftRight(r, 16));
    AllOnes(r, k);
    r := r + 1;
  }

  lemma AllOnes(x: nat, k: nat)
    requires TopOnes(x, k, k)
    ensures x == Pow2(k) - 1
  {
    assert Pow2(0) == 1;
  }
}
