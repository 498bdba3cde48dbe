/** Database rows: byte strings of one common length under pointwise XOR, and
    the folds that every scheme of the library is built from. */
module Rows {

  /** The length of a row. It is arbitrary: every theorem holds for each value. */
  const ROW_LEN: nat

  function Zeros(len: nat): (z: seq<bv8>)
    ensures |z| == len
  {
    seq(len, _ => 0)
  }

  type Row = r: seq<bv8> | |r| == ROW_LEN witness Zeros(ROW_LEN)

  const ZERO: Row := Zeros(ROW_LEN)

  function Xor(a: Row, b: Row): Row {
    seq(ROW_LEN, i requires 0 <= i < ROW_LEN => a[i] ^ b[i])
  }

  lemma XorZero(a: Row)
    ensures Xor(a, ZERO) == a == Xor(ZERO, a)
  {
    assert forall i | 0 <= i < ROW_LEN :: a[i] ^ 0 == a[i] && 0 ^ a[i] == a[i];
  }

  lemma XorSame(a: Row, b: Row)
    ensures Xor(a, b) == a <==> b == ZERO
  {
    XorZero(a);
    if Xor(a, b) == a {
      assert forall i | 0 <= i < ROW_LEN :: Xor(a, b)[i] == a[i] ^ b[i] && (a[i] ^ b[i] == a[i] ==> b[i] == 0);
    }
  }

  /** Folding in the same row twice cancels. */
  lemma XorCancel(a: Row, b: Row)
    ensures Xor(Xor(a, b), b) == a
  {
    assert forall i | 0 <= i < ROW_LEN :: (a[i] ^ b[i]) ^ b[i] == a[i];
  }

  /** The XOR of a list of rows. */
  function XorAll(s: seq<Row>): Row {
    if |s| == 0 then ZERO else Xor(XorAll(s[..|s| - 1]), s[|s| - 1])
  }

  lemma XorSwapLast(a: Row, b: Row, c: Row)
    ensures Xor(Xor(a, b), c) == Xor(Xor(a, c), b)
  {
    assert forall i | 0 <= i < ROW_LEN :: (a[i] ^ b[i]) ^ c[i] == (a[i] ^ c[i]) ^ b[i];
  }

  /** Replacing one row of a list changes the fold by the old and the new row. */
  lemma {:induction false} XorAllUpdate(s: seq<Row>, k: nat, v: Row)
    requires k < |s|
    ensures XorAll(s[k := v]) == Xor(Xor(XorAll(s), s[k]), v)
  {
    var n := |s| - 1;
    if k == n {
      assert s[k := v][..n] == s[..n];
      XorCancel(XorAll(s[..n]), s[n]);
    } else {
      assert s[k := v][..n] == s[..n][k := v];
      XorAllUpdate(s[..n], k, v);
      XorSwapLast(Xor(XorAll(s[..n]), s[k]), v, s[n]);
      XorSwapLast(XorAll(s[..n]), s[k], s[n]);
    }
  }

  function XorLists(a: seq<Row>, b: seq<Row>): (r: seq<Row>)
    requires |a| == |b|
    ensures |r| == |a|
  {
    seq(|a|, i requires 0 <= i < |a| => Xor(a[i], b[i]))
  }

  lemma XorPairs(a: Row, b: Row, c: Row, d: Row)
    ensures Xor(Xor(a, b), Xor(c, d)) == Xor(Xor(a, c), Xor(b, d))
  {
    assert forall i | 0 <= i < ROW_LEN :: (a[i] ^ b[i]) ^ (c[i] ^ d[i]) == (a[i] ^ c[i]) ^ (b[i] ^ d[i]);
  }

  /** The fold of two lists added row by row. */
  lemma {:induction false} XorAllLists(a: seq<Row>, b: seq<Row>)
    requires |a| == |b|
    ensures XorAll(XorLists(a, b)) == Xor(XorAll(a), XorAll(b))
  {
    if |a| == 0 {
      XorZero(ZERO);
    } else {
      var n := |a| - 1;
      assert XorLists(a, b)[..n] == XorLists(a[..n], b[..n]);
      XorAllLists(a[..n], b[..n]);
      XorPairs(XorAll(a[..n]), XorAll(b[..n]), a[n], b[n]);
    }
  }

  /** Leaving out one position removes exactly that row from the fold. */
  lemma {:induction false} XorAllRemove(s: seq<Row>, k: nat)
    requires k < |s|
    ensures XorAll(s[..k] + s[k + 1..]) == Xor(XorAll(s), s[k])
  {
    var n := |s| - 1;
    if k == n {
      assert s[..k] + s[k + 1..] == s[..n];
      XorCancel(XorAll(s[..n]), s[n]);
    } else {
      var rest := s[..k] + s[k + 1..];
      assert rest[..|rest| - 1] == s[..n][..k] + s[..n][k + 1..];
      XorAllRemove(s[..n], k);
      XorSwapLast(XorAll(s[..n]), s[k], s[n]);
    }
  }

  lemma XorAllSnoc(s: seq<Row>, v: Row)
    ensures XorAll(s + [v]) == Xor(XorAll(s), v)
  {
    assert (s + [v])[..|s|] == s;
  }

  /** The accumulation kernel: one pass over the rows into a cleared buffer. */
  method XorAllRows(rows: seq<Row>) returns (out: Row)
    ensures out == XorAll(rows)
  {
    out := ZERO;
    for i := 0 to |rows|
      invariant out == XorAll(rows[..i])
    {
      assert rows[..i + 1][..i] == rows[..i];
      out := Xor(out, rows[i]);
    }
    assert rows[..|rows|] == rows;
  }
}
