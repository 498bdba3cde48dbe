/** Golomb-Rice coding of 32-bit differences, on bit strings: a number n with parameter k
    is its quotient n / 2^k in unary, a zero, and its remainder in k bits, least
    significant bit first. */
module RiceCode {
  import opened Options
  import opened Permutations
  import opened Powers

  function Min(a: nat, b: nat): nat {
    if a <= b then a else b
  }

  // ----- Bits of a word -----

  /** The low `n` bits of `v`, least significant first. */
  function BitsOf(v: nat, n: nat): (r: seq<bool>)
    ensures |r| == n
  {
    if n == 0 then [] else [v % 2 == 1] + BitsOf(v / 2, n - 1)
  }

  /** Bit `j` of the string is bit `j` of the number. */
  lemma {:induction false} BitsOfAt(v: nat, n: nat, j: nat)
    requires j < n
    ensures BitsOf(v, n)[j] == BitOf(v, j)
    decreases n
  {
    if j == 0 {
      assert Pow2(0) == 1;
    } else {
      BitsOfAt(v / 2, n - 1, j - 1);
      HalfBit(v, j);
    }
  }

  lemma HalfBit(v: nat, j: nat)
    requires j > 0
    ensures BitOf(v / 2, j - 1) == BitOf(v, j)
  {
    HalfFirst(v, Pow2(j - 1));
  }

  function ValueOf(bits: seq<bool>): nat {
    if |bits| == 0 then 0 else (if bits[0] then 1 else 0) + 2 * ValueOf(bits[1..])
  }

  lemma {:induction false} ValueOfBits(v: nat, n: nat)
    requires v < Pow2(n)
    ensures ValueOf(BitsOf(v, n)) == v
  {
    if n > 0 {
      ValueOfBits(v / 2, n - 1);
    }
  }

  lemma {:induction false} ValueBound(bits: seq<bool>)
    ensures ValueOf(bits) < Pow2(|bits|)
  {
    if |bits| > 0 {
      ValueBound(bits[1..]);
    }
  }

  function Repeat(b: bool, n: nat): (r: seq<bool>)
    ensures |r| == n
  {
    seq(n, _ => b)
  }

  lemma {:induction false} ZeroBits(n: nat)
    ensures BitsOf(0, n) == Repeat(false, n)
  {
    if n > 0 {
      ZeroBits(n - 1);
      assert Repeat(false, n) == [false] + Repeat(false, n - 1);
    }
  }

  /** 2^m - 1 is m ones. */
  lemma {:induction false} OnesBits(m: nat, n: nat)
    requires m <= n
    ensures BitsOf(Pow2(m) - 1, n) == Repeat(true, m) + Repeat(false, n - m)
  {
    if m == 0 {
      ZeroBits(n);
      assert Repeat(true, 0) + Repeat(false, n) == Repeat(false, n);
    } else {
      OnesBits(m - 1, n - 1);
      HalfOnes(m);
      assert Repeat(true, m) == [true] + Repeat(true, m - 1);
    }
  }

  // ----- Encoding -----

  /** The word 1<<q - 1 in 32-bit arithmetic. */
  function UnaryWord(q: nat): Word {
    Pow2Monotone(Min(q, 32), 32);
    assert Pow2(32) == WORD by { Pow2Of32(); }
    Pow2(Min(q, 32)) - 1
  }

  lemma Pow2Of32()
    ensures Pow2(32) == WORD
  {
    assert Pow2(8) == 256;
    Pow2Split(8, 8);
    Pow2Split(16, 16);
  }

  /** v >> k and the k bits that it drops. */
  function Quot(v: Word, k: nat): (q: nat)
    ensures q <= v
  {
    if k == 0 then v else Quot(v / 2, k - 1)
  }

  function Rem(v: Word, k: nat): (r: nat)
    ensures r < Pow2(k) && r <= v
  {
    if k == 0 then 0 else v % 2 + 2 * Rem(v / 2, k - 1)
  }

  /** They are quotient and remainder by 2^k. */
  lemma {:induction false} SplitFacts(v: Word, k: nat)
    ensures v == Pow2(k) * Quot(v, k) + Rem(v, k)
  {
    if k == 0 {
      assert Pow2(0) == 1;
    } else {
      SplitFacts(v / 2, k - 1);
      TwiceProduct(Pow2(k - 1), Quot(v, k));
    }
  }

  lemma TwiceProduct(p: nat, q: nat)
    ensures 2 * (p * q) == (2 * p) * q
  {
  }

  lemma GrowsBy(p: nat, q: nat)
    requires p >= 1
    ensures q <= p * q
    ensures p >= 2 ==> 2 * q <= p * q
  {
    assert p * q == q + (p - 1) * q;
    if p >= 2 {
      assert p * q == 2 * q + (p - 2) * q;
    }
  }

  lemma Rejoin(v: Word, k: nat)
    ensures Quot(v, k) * Pow2(k) + Rem(v, k) == v
  {
    SplitFacts(v, k);
  }

  /** q + 1 in 32-bit arithmetic. */
  function OneMore(q: nat): nat {
    if q + 1 == WORD then 0 else q + 1
  }

  /** What WriteValue writes: q + 1 bits of the unary word, also a 32-bit sum, and k bits
      of the remainder. */
  function CodeOf(q: nat, r: nat, k: nat): seq<bool> {
    BitsOf(UnaryWord(q), OneMore(q)) + BitsOf(r, k)
  }

  function Code(v: Word, k: nat): seq<bool> {
    CodeOf(Quot(v, k), Rem(v, k), k)
  }

  function EncodeBits(deltas: seq<Word>, k: nat): seq<bool> {
    if |deltas| == 0 then [] else Code(deltas[0], k) + EncodeBits(deltas[1..], k)
  }

  // ----- Decoding -----

  function LeadingOnes(bits: seq<bool>): (n: nat)
    ensures n <= |bits|
  {
    if |bits| > 0 && bits[0] then 1 + LeadingOnes(bits[1..]) else 0
  }

  function ShiftLeft(q: nat, k: nat): nat {
    if k == 0 then q else 2 * ShiftLeft(q, k - 1)
  }

  lemma {:induction false} ShiftLeftIsProduct(q: nat, k: nat)
    ensures ShiftLeft(q, k) == q * Pow2(k)
  {
    if k == 0 {
      assert Pow2(0) == 1;
    } else {
      ShiftLeftIsProduct(q, k - 1);
    }
  }

  /** q<<k + r in 32-bit arithmetic. */
  function Combine(q: nat, r: nat, k: nat): Word {
    (ShiftLeft(q, k) + r) % WORD
  }

  lemma CombineSmall(q: nat, r: nat, k: nat)
    requires 0 <= q * Pow2(k) + r < WORD
    ensures Combine(q, r, k) == q * Pow2(k) + r
  {
    ShiftLeftIsProduct(q, k);
  }

  /** ReadValue: None at the end of the data. */
  function ReadOne(bits: seq<bool>, k: nat): Option<(Word, seq<bool>)> {
    var q := LeadingOnes(bits);
    if q == |bits| || |bits| - q - 1 < k then None
    else
      var rest := bits[q + 1..];
      Some((Combine(q, ValueOf(rest[..k]), k), rest[k..]))
  }

  function ReadAll(bits: seq<bool>, k: nat, count: nat): Option<(seq<Word>, seq<bool>)> {
    if count == 0 then Some(([], bits))
    else
      match ReadOne(bits, k)
      case None => None
      case Some((d, rest)) =>
        match ReadAll(rest, k, count - 1)
        case None => None
        case Some((ds, rest')) => Some(([d] + ds, rest'))
  }

  // ----- One number -----

  lemma {:induction false} LeadingOnesOf(m: nat, rest: seq<bool>)
    ensures LeadingOnes(Repeat(true, m) + rest) == m + LeadingOnes(rest)
  {
    if m == 0 {
      assert Repeat(true, 0) + rest == rest;
    } else {
      assert (Repeat(true, m) + rest)[1..] == Repeat(true, m - 1) + rest;
      LeadingOnesOf(m - 1, rest);
    }
  }

  lemma UnarySize(q: nat)
    requires q + 1 < WORD
    ensures OneMore(q) == q + 1
    ensures UnaryWord(q) == Pow2(Min(q, 32)) - 1
  {
  }

  /** The code of a number: at most 32 ones, then at least one zero unless q + 1 wraps. */
  lemma CodeShape(q: nat, r: nat, k: nat)
    requires q + 1 < WORD
    ensures CodeOf(q, r, k) == Repeat(true, Min(q, 32)) + [false] + (Repeat(false, q - Min(q, 32)) + BitsOf(r, k))
  {
    var m := Min(q, 32);
    UnarySize(q);
    OnesBits(m, q + 1);
    RepeatNext(false, q - m);
    Regrouped(Repeat(true, m), [false], Repeat(false, q - m), BitsOf(r, k));
  }

  lemma RepeatNext(b: bool, n: nat)
    ensures Repeat(b, n + 1) == [b] + Repeat(b, n)
  {
  }

  lemma Regrouped(a: seq<bool>, b: seq<bool>, c: seq<bool>, d: seq<bool>)
    ensures (a + (b + c)) + d == a + b + (c + d)
  {
  }

  /** Ones up to a zero, then `z` and whatever follows. */
  lemma OnesThenZero(m: nat, z: seq<bool>, tail: seq<bool>)
    ensures var bits := (Repeat(true, m) + [false] + z) + tail;
            LeadingOnes(bits) == m && |bits| == m + 1 + |z| + |tail| && bits[m + 1..] == z + tail
  {
    assert (Repeat(true, m) + [false] + z) + tail == Repeat(true, m) + ([false] + (z + tail));
    LeadingOnesOf(m, [false] + (z + tail));
    assert (Repeat(true, m) + ([false] + (z + tail)))[m + 1..] == z + tail;
  }

  lemma FrontOf(r: seq<bool>, tail: seq<bool>)
    ensures (r + tail)[..|r|] == r && (r + tail)[|r|..] == tail
  {
  }

  lemma ReadOneIs(bits: seq<bool>, m: nat, k: nat, rest: seq<bool>)
    requires LeadingOnes(bits) == m < |bits| && bits[m + 1..] == rest && k <= |rest|
    ensures ReadOne(bits, k) == Some((Combine(m, ValueOf(rest[..k]), k), rest[k..]))
  {
    assert bits[LeadingOnes(bits) + 1..] == rest;
  }

  /** Reading m ones, a zero and k bits. */
  lemma ReadOneOf(m: nat, r: seq<bool>, tail: seq<bool>)
    ensures ReadOne((Repeat(true, m) + [false] + r) + tail, |r|) == Some((Combine(m, ValueOf(r), |r|), tail))
  {
    OnesThenZero(m, r, tail);
    FrontOf(r, tail);
    ReadOneIs((Repeat(true, m) + [false] + r) + tail, m, |r|, r + tail);
  }

  lemma ShortCode(q: nat, r: nat, k: nat)
    requires q <= 32
    ensures CodeOf(q, r, k) == Repeat(true, q) + [false] + BitsOf(r, k)
  {
    CodeShape(q, r, k);
    assert Repeat(false, 0) + BitsOf(r, k) == BitsOf(r, k);
  }

  lemma CombineBack(v: Word, k: nat)
    ensures Combine(Quot(v, k), Rem(v, k), k) == v
  {
    Rejoin(v, k);
    CombineSmall(Quot(v, k), Rem(v, k), k);
  }

  /** A number whose quotient is at most 32 is read back, whatever follows. */
  lemma ReadBack(v: Word, k: nat, rest: seq<bool>)
    requires Quot(v, k) <= 32
    ensures ReadOne(Code(v, k) + rest, k) == Some((v, rest))
  {
    ShortCode(Quot(v, k), Rem(v, k), k);
    ReadOneOf(Quot(v, k), BitsOf(Rem(v, k), k), rest);
    ValueOfBits(Rem(v, k), k);
    CombineBack(v, k);
  }

  /** The ones at the start of a code. */
  lemma CodeOnes(q: nat, r: nat, k: nat, tail: seq<bool>)
    requires q + 1 < WORD
    ensures LeadingOnes(CodeOf(q, r, k) + tail) == Min(q, 32)
  {
    CodeShape(q, r, k);
    OnesThenZero(Min(q, 32), Repeat(false, q - Min(q, 32)) + BitsOf(r, k), tail);
  }

  lemma EncodeSplit(deltas: seq<Word>, k: nat, pad: seq<bool>)
    requires |deltas| > 0
    ensures EncodeBits(deltas, k) + pad == Code(deltas[0], k) + (EncodeBits(deltas[1..], k) + pad)
  {
  }

  /** No code starts with more than 32 ones, so no decoded quotient is larger. */
  lemma {:induction false} AtMost32(deltas: seq<Word>, k: nat, pad: nat)
    ensures LeadingOnes(EncodeBits(deltas, k) + Repeat(false, pad)) <= 32
  {
    if |deltas| == 0 {
      assert [] + Repeat(false, pad) == Repeat(false, pad);
    } else {
      var tail := EncodeBits(deltas[1..], k) + Repeat(false, pad);
      EncodeSplit(deltas, k, Repeat(false, pad));
      if Quot(deltas[0], k) + 1 < WORD {
        CodeOnes(Quot(deltas[0], k), Rem(deltas[0], k), k, tail);
      } else {
        WrapMeansNoBits(deltas[0], k);
        assert Code(deltas[0], k) + tail == tail;
        AtMost32(deltas[1..], k, pad);
      }
    }
  }

  /** q + 1 wraps around only for the largest word with parameter 0. */
  lemma WrapMeansNoBits(v: Word, k: nat)
    requires Quot(v, k) + 1 == WORD
    ensures k == 0 && Code(v, k) == []
  {
    SplitFacts(v, k);
    Pow2Monotone(Min(1, k), k);
    assert Pow2(1) == 2;
    GrowsBy(Pow2(k), Quot(v, k));
  }

  /** A value below 33 * 2^k is not one whose quotient is larger than 32. */
  lemma SmallerQuotient(q: nat, r: nat, v: Word, k: nat)
    requires q <= 32 && r < Pow2(k) && Quot(v, k) > 32
    ensures 0 <= q * Pow2(k) + r < v
  {
    Rejoin(v, k);
    SmallerSum(q, Quot(v, k), Pow2(k), r, Rem(v, k));
  }

  lemma SmallerSum(a: nat, b: nat, p: nat, r: nat, r': nat)
    requires a < b && r < p
    ensures 0 <= a * p + r < b * p + r'
  {
    var more: nat := b - a - 1;
    assert b * p == a * p + p + more * p;
  }

  /** A number whose quotient is larger than 32 is never read back. */
  lemma NotReadBack(deltas: seq<Word>, k: nat, pad: nat)
    requires |deltas| > 0 && Quot(deltas[0], k) > 32
    ensures var r := ReadOne(EncodeBits(deltas, k) + Repeat(false, pad), k);
            r.Some? ==> r.value.0 != deltas[0]
  {
    var bits := EncodeBits(deltas, k) + Repeat(false, pad);
    AtMost32(deltas, k, pad);
    if ReadOne(bits, k).Some? {
      var q := LeadingOnes(bits);
      var r := ValueOf(bits[q + 1..][..k]);
      ValueBound(bits[q + 1..][..k]);
      SmallerQuotient(q, r, deltas[0], k);
      CombineSmall(q, r, k);
    }
  }

  // ----- Lists -----

  /** The list can be read back exactly when no quotient is larger than 32. */
  ghost predicate Encodable(deltas: seq<Word>, k: nat) {
    forall i | 0 <= i < |deltas| :: Quot(deltas[i], k) <= 32
  }

  lemma ReadAllCons(bits: seq<bool>, k: nat, count: nat, d: Word, rest: seq<bool>)
    requires count > 0 && ReadOne(bits, k) == Some((d, rest)) && ReadAll(rest, k, count - 1).Some?
    ensures var (ds, left) := ReadAll(rest, k, count - 1).value; ReadAll(bits, k, count) == Some(([d] + ds, left))
  {
  }

  /** Numbers that can be read back are, whatever follows. */
  lemma {:induction false} ReadAllBack(deltas: seq<Word>, k: nat, tail: seq<bool>)
    requires Encodable(deltas, k)
    ensures ReadAll(EncodeBits(deltas, k) + tail, k, |deltas|) == Some((deltas, tail))
  {
    if |deltas| == 0 {
      assert EncodeBits(deltas, k) + tail == tail;
    } else {
      var rest := EncodeBits(deltas[1..], k) + tail;
      ReadAllBack(deltas[1..], k, tail);
      EncodeSplit(deltas, k, tail);
      ReadBack(deltas[0], k, rest);
      ReadAllCons(Code(deltas[0], k) + rest, k, |deltas|, deltas[0], rest);
      assert deltas == [deltas[0]] + deltas[1..];
    }
  }

  lemma {:induction false} ReadAllExactly(deltas: seq<Word>, k: nat, pad: nat)
    ensures var r := ReadAll(EncodeBits(deltas, k) + Repeat(false, pad), k, |deltas|);
            r.Some? && r.value.0 == deltas <==> Encodable(deltas, k)
  {
    if Encodable(deltas, k) {
      ReadAllBack(deltas, k, Repeat(false, pad));
    } else {
      var rest := EncodeBits(deltas[1..], k) + Repeat(false, pad);
      assert EncodeBits(deltas, k) + Repeat(false, pad) == Code(deltas[0], k) + rest;
      if Quot(deltas[0], k) > 32 {
        NotReadBack(deltas, k, pad);
      } else {
        ReadBack(deltas[0], k, rest);
        ReadAllExactly(deltas[1..], k, pad);
        assert !Encodable(deltas[1..], k) by {
          var i :| 0 <= i < |deltas| && Quot(deltas[i], k) > 32;
          assert deltas[1..][i - 1] == deltas[i];
        }
      }
    }
  }
}
