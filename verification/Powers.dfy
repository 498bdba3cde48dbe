/** Powers of two and the bits of natural numbers. */
module Powers {

  function Pow2(k: nat): (p: nat)
    ensures p >= 1
  {
    if k == 0 then 1 else 2 * Pow2(k - 1)
  }

  /** Bit `k` of `x`. */
  predicate BitOf(x: nat, k: nat) {
    x / Pow2(k) % 2 == 1
  }

  lemma DivMod(x: nat, p: nat)
    requires p > 0
    ensures x == p * (x / p) + x % p
    ensures 0 <= x % p < p
  {
  }

  lemma NegativeProduct(p: nat, q: int)
    requires p > 0
    ensures q < 0 ==> p * q + p <= 0
  {
    if q < 0 {
      var k: nat := -q - 1;
      assert p * q == -(p * k) - p;
      assert p * k >= 0;
    }
  }

  lemma QuotientNat(x: nat, p: nat)
    requires p > 0
    ensures x / p >= 0
  {
    DivMod(x, p);
    NegativeProduct(p, x / p);
  }

  lemma MulStep(p: nat, a: nat, b: nat)
    requires a < b
    ensures p * a + p <= p * b
  {
    assert p * b == p * a + p * (b - a);
    assert p * (b - a) == p + p * (b - a - 1);
  }

  /** A quotient and a remainder are determined by their sum. */
  lemma DivModUnique(x: nat, p: nat, q: nat, r: nat)
    requires p > 0 && x == p * q + r && r < p
    ensures x / p == q && x % p == r
  {
    var q', r' := x / p, x % p;
    DivMod(x, p);
    if q' < q {
      MulStep(p, q', q);
    } else if q' > q {
      MulStep(p, q, q');
    }
  }

  /** Remainders below twice the divisor. */
  lemma ModOnce(x: nat, p: nat)
    requires p > 0
    ensures x < p ==> x % p == x
    ensures p <= x < 2 * p ==> x % p == x - p
  {
    if x < p {
      DivModUnique(x, p, 0, x);
    } else if x < 2 * p {
      DivModUnique(x, p, 1, x - p);
    }
  }

  /** Splitting off the top bit below 2p. */
  lemma TopBit(x: nat, p: nat)
    requires p > 0
    ensures x % (2 * p) == (x / p % 2) * p + x % p
    ensures x / (2 * p) == x / p / 2
  {
    var q := x / p;
    QuotientNat(x, p);
    DivMod(x, p);
    DivMod(q, 2);
    Halved(p, q / 2, q % 2);
    var r := (q % 2) * p + x % p;
    DivModUnique(x, 2 * p, q / 2, r);
  }

  lemma Halved(p: nat, half: nat, bit: nat)
    requires bit < 2
    ensures p * (2 * half + bit) == (2 * p) * half + bit * p
    ensures bit * p <= p
  {
    assert p * (2 * half + bit) == 2 * (p * half) + p * bit;
  }

  lemma TopBitOf(x: nat, k: nat)
    ensures x % Pow2(k + 1) == (if BitOf(x, k) then Pow2(k) else 0) + x % Pow2(k)
  {
    TopBit(x, Pow2(k));
  }

  /** Halving first or last makes no difference. */
  lemma HalfFirst(x: nat, p: nat)
    requires p > 0
    ensures x / 2 / p == x / (2 * p)
    ensures x % (2 * p) == 2 * (x / 2 % p) + x % 2
  {
    var q, r := x / 2 / p, x / 2 % p;
    DivMod(x / 2, p);
    QuotientNat(x / 2, p);
    assert p * q + p * q == (2 * p) * q;
    DivModUnique(x, 2 * p, q, 2 * r + x % 2);
  }

  lemma HalfOnes(s: nat)
    requires s > 0
    ensures (Pow2(s) - 1) / 2 == Pow2(s - 1) - 1 && (Pow2(s) - 1) % 2 == 1
  {
  }

  lemma Pow2Split(a: nat, b: nat)
    ensures Pow2(a + b) == Pow2(a) * Pow2(b)
    decreases b
  {
    if b > 0 {
      Pow2Split(a, b - 1);
      assert Pow2(a + b) == 2 * Pow2(a + b - 1);
      assert Pow2(a) * Pow2(b) == 2 * (Pow2(a) * Pow2(b - 1));
    }
  }

  lemma Pow2Monotone(a: nat, b: nat)
    requires a <= b
    ensures Pow2(a) <= Pow2(b)
    decreases b - a
  {
    if a < b {
      Pow2Monotone(a + 1, b);
    }
  }

  /** The smallest exponent whose power reaches `n`. */
  function CeilLog2(n: nat): (k: nat)
    requires n >= 1
    ensures n <= Pow2(k) && (k > 0 ==> Pow2(k - 1) < n)
  {
    CeilLog2From(n, 0)
  }

  function CeilLog2From(n: nat, k: nat): (r: nat)
    requires n >= 1 && (k > 0 ==> Pow2(k - 1) < n)
    ensures n <= Pow2(r) && (r > 0 ==> Pow2(r - 1) < n)
    decreases n - Pow2(k)
  {
    if n <= Pow2(k) then k else CeilLog2From(n, k + 1)
  }
}
