/** Private reads with a distributed point function: each server XORs the rows that its
    key selects, and the two answers XOR to the row. */
module DpfPir {
  import opened Rows
  import opened Bits
  import opened Powers
  import opened Dpf
  import opened DpfKeys

  /** The XOR of the first `n` rows whose bit is set. */
  function Product(table: seq<Row>, bits: seq<bv8>, n: nat): Row
    requires n <= |table| && n <= 8 * |bits|
  {
    if n == 0 then ZERO
    else if BitAt(bits, n - 1) then Xor(Product(table, bits, n - 1), table[n - 1])
    else Product(table, bits, n - 1)
  }

  lemma XorCommonLast(a: Row, b: Row, c: Row)
    ensures Xor(Xor(a, c), Xor(b, c)) == Xor(a, b)
    ensures Xor(Xor(a, c), b) == Xor(Xor(a, b), c) == Xor(a, Xor(b, c))
  {
    assert forall i | 0 <= i < ROW_LEN :: (a[i] ^ c[i]) ^ (b[i] ^ c[i]) == a[i] ^ b[i];
    assert forall i | 0 <= i < ROW_LEN :: (a[i] ^ c[i]) ^ b[i] == (a[i] ^ b[i]) ^ c[i] == a[i] ^ (b[i] ^ c[i]);
  }

  ghost predicate DifferOnlyAt(a: seq<bv8>, b: seq<bv8>, idx: nat, n: nat)
    requires n <= 8 * |a| && n <= 8 * |b|
  {
    forall j | 0 <= j < n :: (BitAt(a, j) != BitAt(b, j)) == (j == idx)
  }

  /** Over the first `n` rows the two products differ by row `idx`, once it is among them. */
  ghost predicate DifferBy(table: seq<Row>, a: seq<bv8>, b: seq<bv8>, idx: nat, n: nat)
    requires n <= |table| && n <= 8 * |a| && n <= 8 * |b|
  {
    Xor(Product(table, a, n), Product(table, b, n)) == if idx < n then table[idx] else ZERO
  }

  lemma DifferNext(table: seq<Row>, a: seq<bv8>, b: seq<bv8>, idx: nat, n: nat)
    requires n < |table| && n < 8 * |a| && n < 8 * |b|
    requires (BitAt(a, n) != BitAt(b, n)) == (n == idx) && DifferBy(table, a, b, idx, n)
    ensures DifferBy(table, a, b, idx, n + 1)
  {
    XorCommonLast(Product(table, a, n), Product(table, b, n), table[n]);
    XorZero(table[n]);
  }

  /** Linearity: bit vectors that differ in exactly one place select exactly that row. */
  lemma {:induction false} ProductsDiffer(table: seq<Row>, a: seq<bv8>, b: seq<bv8>, idx: nat, n: nat)
    requires n <= |table| && n <= 8 * |a| && n <= 8 * |b|
    requires DifferOnlyAt(a, b, idx, n)
    ensures DifferBy(table, a, b, idx, n)
  {
    if n == 0 {
      XorZero(ZERO);
    } else {
      ProductsDiffer(table, a, b, idx, n - 1);
      DifferNext(table, a, b, idx, n - 1);
    }
  }

  /** matVecProduct with the plain loop over the bits. */
  method ProductByBits(table: seq<Row>, bits: seq<bv8>) returns (out: Row)
    requires |table| <= 8 * |bits|
    ensures out == Product(table, bits, |table|)
  {
    out := ZERO;
    for j := 0 to |table|
      invariant out == Product(table, bits, j)
    {
      BitOfByte(bits, j);
      if bits[j / 8] & Mask(j % 8) != 0 {
        out := Xor(out, table[j]);
      }
    }
  }

  // ----- The kernel for rows of 32 bytes -----

  /** What lane `k` of the kernel has accumulated over the first `n` rows. */
  function Lane(table: seq<Row>, bits: seq<bv8>, n: nat, k: nat): Row
    requires n <= |table| && n <= 8 * |bits|
  {
    if n == 0 then ZERO
    else if (n - 1) % 8 == k && BitAt(bits, n - 1) then Xor(Lane(table, bits, n - 1, k), table[n - 1])
    else Lane(table, bits, n - 1, k)
  }

  function Lanes(table: seq<Row>, bits: seq<bv8>, n: nat): (r: seq<Row>)
    requires n <= |table| && n <= 8 * |bits|
    ensures |r| == 8
  {
    seq(8, k requires 0 <= k < 8 => Lane(table, bits, n, k))
  }

  lemma XorIntoLane(all: Row, lane: Row, row: Row)
    ensures Xor(Xor(all, lane), Xor(lane, row)) == Xor(all, row)
  {
    assert forall i | 0 <= i < ROW_LEN :: (all[i] ^ lane[i]) ^ (lane[i] ^ row[i]) == all[i] ^ row[i];
  }

  lemma {:induction false} ZeroLanes(s: seq<Row>)
    requires forall k | 0 <= k < |s| :: s[k] == ZERO
    ensures XorAll(s) == ZERO
  {
    if |s| > 0 {
      ZeroLanes(s[..|s| - 1]);
      XorZero(ZERO);
    }
  }

  lemma LaneStep(table: seq<Row>, bits: seq<bv8>, n: nat)
    requires n < |table| && n < 8 * |bits|
    ensures var before := Lanes(table, bits, n);
            Lanes(table, bits, n + 1)
            == if BitAt(bits, n) then before[n % 8 := Xor(before[n % 8], table[n])] else before
  {
  }

  lemma LaneFold(lanes: seq<Row>, k: nat, row: Row)
    requires k < |lanes|
    ensures XorAll(lanes[k := Xor(lanes[k], row)]) == Xor(XorAll(lanes), row)
  {
    XorAllUpdate(lanes, k, Xor(lanes[k], row));
    XorIntoLane(XorAll(lanes), lanes[k], row);
  }

  /** The eight lanes together hold the product of the first `n` rows. */
  ghost predicate LanesHold(table: seq<Row>, bits: seq<bv8>, n: nat)
    requires n <= |table| && n <= 8 * |bits|
  {
    XorAll(Lanes(table, bits, n)) == Product(table, bits, n)
  }

  lemma LanesNext(table: seq<Row>, bits: seq<bv8>, n: nat)
    requires n < |table| && n < 8 * |bits| && LanesHold(table, bits, n)
    ensures LanesHold(table, bits, n + 1)
  {
    LaneStep(table, bits, n);
    LaneFold(Lanes(table, bits, n), n % 8, table[n]);
  }

  lemma {:induction false} LanesFold(table: seq<Row>, bits: seq<bv8>, n: nat)
    requires n <= |table| && n <= 8 * |bits|
    ensures LanesHold(table, bits, n)
  {
    if n == 0 {
      ZeroLanes(Lanes(table, bits, 0));
    } else {
      LanesFold(table, bits, n - 1);
      LanesNext(table, bits, n - 1);
    }
  }

  /** One accumulation: the lane's first register is a dummy that takes unselected rows. */
  method Accumulate(dummy: array<Row>, acc: array<Row>, k: nat, bit: bool, row: Row)
    requires dummy.Length == acc.Length == 8 && dummy != acc && k < 8
    modifies dummy, acc
    ensures acc[..] == if bit then old(acc[..])[k := Xor(old(acc[k]), row)] else old(acc[..])
  {
    if bit {
      acc[k] := Xor(acc[k], row);
    } else {
      dummy[k] := Xor(acc[k], row);
    }
  }

  lemma BitInByte(bits: seq<bv8>, i: nat, k: nat)
    requires i % 8 == 0 && k < 8 && i + 8 <= 8 * |bits|
    ensures (i + k) % 8 == k && BitAt(bits, i + k) == (bits[i / 8] & Mask(k) != 0)
  {
    assert (i + k) / 8 == i / 8;
  }

  method AccumulateBit(table: seq<Row>, bits: seq<bv8>, i: nat, k: nat, tmp: bv8, dummy: array<Row>, acc: array<Row>)
    requires dummy.Length == acc.Length == 8 && dummy != acc && k < 8
    requires i % 8 == 0 && i + 8 <= |table| <= 8 * |bits| && tmp == bits[i / 8] && acc[..] == Lanes(table, bits, i + k)
    modifies dummy, acc
    ensures acc[..] == Lanes(table, bits, i + k + 1)
  {
    LaneStep(table, bits, i + k);
    BitInByte(bits, i, k);
    Accumulate(dummy, acc, k, tmp & Mask(k) != 0, table[i + k]);
  }

  /** The rows of one byte of the bit vector, one for each lane. */
  method AccumulateByte(table: seq<Row>, bits: seq<bv8>, i: nat, dummy: array<Row>, acc: array<Row>)
    requires dummy.Length == acc.Length == 8 && dummy != acc && |table| <= 8 * |bits|
    requires i % 8 == 0 && i + 8 <= |table| && acc[..] == Lanes(table, bits, i)
    modifies dummy, acc
    ensures acc[..] == Lanes(table, bits, i + 8)
  {
    var tmp := bits[i / 8];
    for k := 0 to 8
      invariant acc[..] == Lanes(table, bits, i + k)
    {
      AccumulateBit(table, bits, i, k, tmp, dummy, acc);
    }
  }

  /** The final xor of the eight registers. */
  method FoldLanes(acc: array<Row>) returns (out: Row)
    requires acc.Length == 8
    ensures out == XorAll(acc[..])
  {
    out := acc[0];
    XorZero(acc[0]);
    assert acc[..1][..0] == [];
    assert XorAll(acc[..1]) == Xor(XorAll(acc[..0]), acc[0]);
    for k := 1 to 8
      invariant out == XorAll(acc[..k])
    {
      assert acc[..k + 1][..k] == acc[..k];
      out := Xor(out, acc[k]);
    }
    assert acc[..8] == acc[..];
  }

  method AccumulateFull(table: seq<Row>, bits: seq<bv8>, fullRows: nat, dummy: array<Row>, acc: array<Row>)
    requires dummy.Length == acc.Length == 8 && dummy != acc && fullRows <= |table| <= 8 * |bits|
    requires fullRows % 8 == 0 && acc[..] == Lanes(table, bits, 0)
    modifies dummy, acc
    ensures acc[..] == Lanes(table, bits, fullRows)
  {
    var i := 0;
    while i < fullRows
      invariant i % 8 == 0 && 0 <= i <= fullRows
      invariant acc[..] == Lanes(table, bits, i)
    {
      AccumulateByte(table, bits, i, dummy, acc);
      i := i + 8;
    }
  }

  /** xor_hashes_by_bit_vector: eight lanes, full bytes first, then the rest. */
  method ProductByLanes(table: seq<Row>, bits: seq<bv8>) returns (out: Row)
    requires |table| <= 8 * |bits|
    ensures out == Product(table, bits, |table|)
  {
    var dummy := new Row[8](_ => ZERO);
    var acc := new Row[8](_ => ZERO);
    var fullRows := |table| / 8 * 8;
    assert acc[..] == Lanes(table, bits, 0);
    AccumulateFull(table, bits, fullRows, dummy, acc);
    for j := fullRows to |table|
      invariant acc[..] == Lanes(table, bits, j)
    {
      LaneStep(table, bits, j);
      BitOfByte(bits, j);
      Accumulate(dummy, acc, j % 8, bits[j / 8] & Mask(j % 8) != 0, table[j]);
    }
    out := FoldLanes(acc);
    LanesFold(table, bits, |table|);
  }

  method MatVecProduct(table: seq<Row>, bits: seq<bv8>) returns (out: Row)
    requires |table| <= 8 * |bits|
    ensures out == Product(table, bits, |table|)
  {
    if ROW_LEN == 32 {
      out := ProductByLanes(table, bits);
    } else {
      out := ProductByBits(table, bits);
    }
  }

  // ----- A whole read -----

  function NumBits(n: nat): nat
    requires n >= 1
  {
    CeilLog2(n)
  }

  /** The bits of a full evaluation, one for each row. */
  lemma FullBits(f: Prf, k: Key, n: nat, j: nat)
    requires n >= 1 && |k.cws| == Levels(NumBits(n)) && j < n
    ensures n <= 8 * |Leaves(f, k.root, k.cws, k.final)|
    ensures BitAt(Leaves(f, k.root, k.cws, k.final), j) == EvalKey(f, k, j)
  {
    var m := |k.cws|;
    Pow2Monotone(NumBits(n), 7 + m);
    LeavesBit(f, k.root, k.cws, k.final, j);
    ModSmall(j, Pow2(7 + m));
  }

  /** What one server answers to a key. */
  function Answer(f: Prf, table: seq<Row>, k: Key): Row
    requires |table| >= 1 && |k.cws| == Levels(NumBits(|table|))
  {
    FullBits(f, k, |table|, 0);
    Product(table, Leaves(f, k.root, k.cws, k.final), |table|)
  }

  /** The theorem: whatever seeds are drawn, the two answers XOR to the row. */
  lemma ReadCorrect(f: Prf, table: seq<Row>, idx: nat, seed0: Block, seed1: Block)
    requires idx < |table|
    ensures var (ka, kb) := GenKeys(f, idx, NumBits(|table|), seed0, seed1);
            Xor(Xor(ZERO, Answer(f, table, ka)), Answer(f, table, kb)) == table[idx]
  {
    var logN := NumBits(|table|);
    var (ka, kb) := GenKeys(f, idx, logN, seed0, seed1);
    var a, b := Leaves(f, ka.root, ka.cws, ka.final), Leaves(f, kb.root, kb.cws, kb.final);
    FullBits(f, ka, |table|, 0);
    FullBits(f, kb, |table|, 0);
    forall j | 0 <= j < |table|
      ensures (BitAt(a, j) != BitAt(b, j)) == (j == idx)
    {
      FullBits(f, ka, |table|, j);
      FullBits(f, kb, |table|, j);
      PointFunction(f, idx, j, logN, seed0, seed1);
    }
    ProductsDiffer(table, a, b, idx, |table|);
    XorZero(Answer(f, table, ka));
  }

  method Process(f: Prf, table: seq<Row>, k: seq<bv8>, ghost key: Key) returns (answer: Row)
    requires 1 <= |table| && NumBits(|table|) <= 63
    requires k == Serialize(key) && |key.cws| == Levels(NumBits(|table|))
    ensures answer == Answer(f, table, key)
  {
    FullBits(f, key, |table|, 0);
    var bitVec := EvalFull(f, k, key, NumBits(|table|));
    answer := MatVecProduct(table, bitVec);
  }

  /** Query, both servers and reconstruct, on byte keys. */
  method Read(f: Prf, table: seq<Row>, idx: nat, seed0: Block, seed1: Block) returns (out: Row)
    requires idx < |table| && NumBits(|table|) <= 63
    ensures out == table[idx]
  {
    var numBits := NumBits(|table|);
    ghost var keys := GenKeys(f, idx, numBits, seed0, seed1);
    var qL, qR := Gen(f, idx, numBits, seed0, seed1);
    var left := Process(f, table, qL, keys.0);
    var right := Process(f, table, qR, keys.1);
    out := Xor(ZERO, left);
    out := Xor(out, right);
    ReadCorrect(f, table, idx, seed0, seed1);
  }
}
