/** The parameter that the encoder chooses for a list, the size of what it writes, and
    which lists survive the choice. */
module RiceSize {
  import opened Options
  import opened Permutations
  import opened Powers
  import opened RiceCode
  import opened Rice

  predicate Sorted(values: seq<Word>) {
    forall i, j | 0 <= i < j < |values| :: values[i] <= values[j]
  }

  /** The largest k with b * 2^k <= a. */
  function FloorLog(a: nat, b: nat): (k: nat)
    requires 1 <= b <= a
    ensures b * Pow2(k) <= a < b * Pow2(k + 1)
    decreases a
  {
    if a < 2 * b then
      assert Pow2(0) == 1 && Pow2(1) == 2;
      0
    else
      var k := FloorLog(a / 2, b);
      FloorLogStep(a, b, k);
      k + 1
  }

  lemma FloorLogStep(a: nat, b: nat, k: nat)
    requires b * Pow2(k) <= a / 2 < b * Pow2(k + 1)
    ensures b * Pow2(k + 1) <= a < b * Pow2(k + 2)
  {
    assert b * Pow2(k + 1) == 2 * (b * Pow2(k));
    assert b * Pow2(k + 2) == 2 * (b * Pow2(k + 1));
  }

  lemma FloorLogBound(a: nat, b: nat)
    requires 1 <= b <= a < WORD
    ensures FloorLog(a, b) <= 31
  {
    var k := FloorLog(a, b);
    GrowsBy(b, Pow2(k));
    if k >= 32 {
      Pow2Of32();
      Pow2Monotone(32, k);
      assert false;
    }
  }

  /** The difference of the last and the first value, in 32-bit arithmetic. */
  function Range(values: seq<Word>): Word
    requires |values| >= 1
  {
    Minus(values[|values| - 1], values[0])
  }

  /** The logarithm of range / length, cut off towards zero; 1 for an empty range. A length
      is below 2^63, so the logarithm is never below -63. */
  function Parameter(range: Word, n: nat): (k: Int32)
    requires n >= 1
  {
    if range == 0 then 1
    else if range >= n then
      FloorLogBound(range, n);
      FloorLog(range, n)
    else
      var k: int := Min(FloorLog(n, range), 63);
      -k
  }

  /** The parameter is the logarithm of range / length to base 2, cut off towards zero. */
  lemma ParameterIs(range: Word, n: nat)
    requires n >= 1
    ensures var k := Parameter(range, n);
            && (range == 0 ==> k == 1)
            && (range >= n ==> k >= 0 && n * Pow2(k) <= range < n * Pow2(k + 1))
            && (0 < range < n ==> k <= 0 && range * Pow2(0 - k) <= n && (k > -63 ==> n < range * Pow2(1 - k)))
  {
    if 0 < range < n {
      var m := FloorLog(n, range);
      Pow2Monotone(Min(m, 63), m);
      Product(range, Pow2(Min(m, 63)), Pow2(m));
    }
  }

  lemma Product(a: nat, p: nat, q: nat)
    requires p <= q
    ensures a * p <= a * q
  {
  }

  /** EncodeRiceIntegers; there is no encoding of an empty list. */
  function EncodeList(values: seq<Word>): Option<Encoded> {
    if |values| == 0 then None else Some(Encode(values, Parameter(Range(values), |values|)))
  }

  method EncodeRice(values: seq<Word>) returns (e: Option<Encoded>)
    ensures e == EncodeList(values)
  {
    if |values| == 0 {
      return None;
    }
    var k := Parameter(Minus(values[|values| - 1], values[0]), |values|);
    var r := EncodeWithParam(values, k);
    e := Some(r);
  }

  /** The chosen parameter is usable exactly when the values are not too dense. */
  lemma ParameterSign(range: Word, n: nat)
    requires n >= 1
    ensures Parameter(range, n) >= 0 <==> range == 0 || 2 * range > n
    ensures Parameter(range, n) <= 31
    ensures Parameter(range, n) >= 0 ==> range < n * Pow2(Parameter(range, n) + 1)
  {
    assert Pow2(0) == 1 && Pow2(1) == 2 && Pow2(2) == 4;
    if range == 0 {
    } else if range >= n {
      FloorLogBound(range, n);
    } else {
      var k := FloorLog(n, range);
      if k > 0 {
        Pow2Monotone(1, k);
        Scale(range, 2, Pow2(k));
      }
    }
  }

  lemma Scale(a: nat, x: nat, y: nat)
    requires x <= y
    ensures a * x <= a * y
  {
    assert a * y == a * x + a * (y - x);
  }

  // ----- Sums -----

  function Total(s: seq<nat>): nat {
    if |s| == 0 then 0 else Total(s[..|s| - 1]) + s[|s| - 1]
  }

  function Quotients(deltas: seq<Word>, k: nat): (r: seq<nat>)
    ensures |r| == |deltas|
  {
    seq(|deltas|, i requires 0 <= i < |deltas| => Quot(deltas[i], k))
  }

  lemma {:induction false} MemberBelowTotal(s: seq<nat>, i: nat)
    requires i < |s|
    ensures s[i] <= Total(s)
  {
    if i < |s| - 1 {
      MemberBelowTotal(s[..|s| - 1], i);
    }
  }

  /** The differences of a sorted list add up to its range. */
  lemma {:induction false} TotalOfDeltas(values: seq<Word>)
    requires |values| >= 1 && Sorted(values)
    ensures Total(Deltas(values)) == values[|values| - 1] - values[0]
  {
    if |values| > 1 {
      var n := |values| - 1;
      TotalOfDeltas(values[..n]);
      assert Deltas(values)[..n - 1] == Deltas(values[..n]);
    }
  }

  lemma RangeOf(values: seq<Word>)
    requires |values| >= 1 && Sorted(values)
    ensures Range(values) == values[|values| - 1] - values[0] == Total(Deltas(values))
  {
    TotalOfDeltas(values);
  }

  lemma {:induction false} TotalOfQuotients(deltas: seq<Word>, k: nat)
    ensures Total(Quotients(deltas, k)) * Pow2(k) <= Total(deltas)
  {
    if |deltas| > 0 {
      var n := |deltas| - 1;
      TotalOfQuotients(deltas[..n], k);
      assert Quotients(deltas, k)[..n] == Quotients(deltas[..n], k);
      Rejoin(deltas[n], k);
      Distribute(Total(Quotients(deltas[..n], k)), Quot(deltas[n], k), Pow2(k));
    }
  }

  lemma Distribute(a: nat, b: nat, p: nat)
    ensures (a + b) * p == a * p + b * p
  {
  }

  lemma Cancel(a: nat, b: nat, p: nat)
    ensures a * p < b * p ==> a < b
  {
    if b <= a {
      assert a * p == b * p + (a - b) * p;
    }
  }

  lemma DoubleStep(n: nat, k: nat)
    ensures n * Pow2(k + 1) == (2 * n) * Pow2(k)
  {
  }

  /** The quotients of a list add up to less than twice its length. */
  lemma QuotientsBelow(values: seq<Word>, k: nat)
    requires |values| >= 1 && Sorted(values) && Range(values) < |values| * Pow2(k + 1)
    ensures Total(Quotients(Deltas(values), k)) < 2 * |values|
  {
    RangeOf(values);
    TotalOfQuotients(Deltas(values), k);
    DoubleStep(|values|, k);
    Cancel(Total(Quotients(Deltas(values), k)), 2 * |values|, Pow2(k));
  }

  lemma CodeLength(v: Word, k: nat)
    requires Quot(v, k) + 1 < WORD
    ensures |Code(v, k)| == Quot(v, k) + 1 + k
  {
    UnarySize(Quot(v, k));
  }

  lemma QuotientsCons(deltas: seq<Word>, k: nat)
    requires |deltas| > 0
    ensures Quotients(deltas, k) == [Quot(deltas[0], k)] + Quotients(deltas[1..], k)
  {
  }

  /** One number takes its quotient, a zero and k bits. */
  lemma {:induction false} BitsWritten(deltas: seq<Word>, k: nat)
    requires Total(Quotients(deltas, k)) + 1 < WORD
    ensures |EncodeBits(deltas, k)| == Total(Quotients(deltas, k)) + |deltas| * (k + 1)
  {
    var qs := Quotients(deltas, k);
    if |deltas| > 0 {
      QuotientsCons(deltas, k);
      TotalCons(qs[0], Quotients(deltas[1..], k));
      BitsWritten(deltas[1..], k);
      CodeLength(deltas[0], k);
      Distribute(|deltas| - 1, 1, k + 1);
    }
  }

  lemma {:induction false} TotalCons(x: nat, s: seq<nat>)
    ensures Total([x] + s) == x + Total(s)
  {
    if |s| == 0 {
      assert [x] + s == [x];
      assert [x][..0] == [];
    } else {
      assert ([x] + s)[..|s|] == [x] + s[..|s| - 1];
      TotalCons(x, s[..|s| - 1]);
    }
  }

  // ----- Results -----

  /** The size of an encoded sorted list of n values with a usable parameter k: every
      quotient is below 2n, the bits are fewer than 2n + (n - 1)(k + 1), and the data is
      those bits rounded up to bytes. */
  lemma SizeBound(values: seq<Word>)
    requires 2 <= |values| && 2 * |values| < WORD && Sorted(values)
    requires Parameter(Range(values), |values|) >= 0
    ensures var n, k := |values|, Parameter(Range(values), |values|);
            var bits := |EncodeBits(Deltas(values), k)|;
            && (forall i | 0 <= i < n - 1 :: Quot(Deltas(values)[i], k) < 2 * n)
            && bits < 2 * n + (n - 1) * (k + 1)
            && |EncodeList(values).value.data| == (bits + 7) / 8
  {
    var n, k := |values|, Parameter(Range(values), |values|);
    ParameterSign(Range(values), n);
    QuotientsBelow(values, k);
    BitsWritten(Deltas(values), k);
    forall i | 0 <= i < n - 1
      ensures Quot(Deltas(values)[i], k) < 2 * n
    {
      MemberBelowTotal(Quotients(Deltas(values), k), i);
    }
  }

  /** Of a sorted list of 2 to 16 values the encoding with the chosen parameter is decoded
      to the list exactly when the parameter is usable. */
  lemma ShortListRoundTrip(values: seq<Word>)
    requires 2 <= |values| <= 16 && Sorted(values)
    ensures Decode(EncodeList(values).value) == Some(values)
       <==> Range(values) == 0 || 2 * Range(values) > |values|
  {
    var k := Parameter(Range(values), |values|);
    ParameterSign(Range(values), |values|);
    RoundTrip(values, k);
    if k >= 0 {
      SizeBound(values);
    }
  }

  /** Of a sorted list of any length it is decoded to the list exactly when, besides, the list
      is not longer than 2^31 and no difference reaches 33 * 2^k. */
  lemma ListRoundTrip(values: seq<Word>)
    requires 2 <= |values| && Sorted(values)
    ensures Decode(EncodeList(values).value) == Some(values)
       <==> && |values| <= MAX_LIST
            && (Range(values) == 0 || 2 * Range(values) > |values|)
            && var k := Parameter(Range(values), |values|);
               forall i | 0 <= i < |values| - 1 :: values[i + 1] - values[i] < 33 * Pow2(k)
  {
    var k := Parameter(Range(values), |values|);
    ParameterSign(Range(values), |values|);
    RoundTrip(values, k);
    if k >= 0 {
      SmallSteps(values, k);
    }
  }

  lemma SmallSteps(values: seq<Word>, k: nat)
    requires |values| >= 1 && Sorted(values)
    ensures Encodable(Deltas(values), k)
       <==> forall i | 0 <= i < |values| - 1 :: values[i + 1] - values[i] < 33 * Pow2(k)
  {
    forall i | 0 <= i < |values| - 1
      ensures Quot(Deltas(values)[i], k) <= 32 <==> values[i + 1] - values[i] < 33 * Pow2(k)
    {
      assert Deltas(values)[i] == values[i + 1] - values[i];
      QuotientAtMost32(Deltas(values)[i], k);
    }
  }

  lemma QuotientAtMost32(d: Word, k: nat)
    ensures Quot(d, k) <= 32 <==> d < 33 * Pow2(k)
  {
    Rejoin(d, k);
    if Quot(d, k) <= 32 {
      Scale(Pow2(k), Quot(d, k), 32);
    } else {
      Scale(Pow2(k), 33, Quot(d, k));
    }
  }

  /** n - 1 zeros and a last value. */
  function Jump(n: nat, last: Word): (values: seq<Word>)
    requires n >= 1
    ensures |values| == n
  {
    seq(n, i requires 0 <= i < n => if i == n - 1 then last else 0)
  }

  lemma FirstLog(a: nat, b: nat)
    requires 1 <= b <= a < 2 * b
    ensures FloorLog(a, b) == 0
  {
  }

  lemma FirstParameter(range: Word, n: nat)
    requires 1 <= n <= range < 2 * n
    ensures Parameter(range, n) == 0
  {
    FirstLog(range, n);
  }

  lemma JumpShape(n: nat, last: Word)
    requires n >= 2
    ensures Sorted(Jump(n, last)) && Range(Jump(n, last)) == last
    ensures Jump(n, last)[n - 2 + 1] - Jump(n, last)[n - 2] == last
  {
  }

  /** Sixteen is the limit: of every larger length there is a list with a usable parameter
      that is lost. */
  lemma LongListsFail(n: nat, last: Word)
    requires 17 <= n <= last < 2 * n && last >= 33
    ensures Sorted(Jump(n, last)) && 2 * Range(Jump(n, last)) > n
    ensures Decode(EncodeList(Jump(n, last)).value) != Some(Jump(n, last))
  {
    JumpShape(n, last);
    FirstParameter(last, n);
    assert Pow2(0) == 1;
    ListRoundTrip(Jump(n, last));
  }
}
