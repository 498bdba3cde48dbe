/** The distributed point function: two keys, each useless alone, whose evaluations
    differ in exactly one point. The two pseudorandom functions are arbitrary. */
module Dpf {
  import opened Bits
  import opened Powers

  type Block = b: seq<bv8> | |b| == 16 witness [0, 0, 0, 0, 0, 0, 0, 0, 0, 0, 0, 0, 0, 0, 0, 0]

  /** The fixed-key ciphers keyL and keyR in Matyas-Meyer-Oseas mode, as total functions. */
  datatype Prf = Prf(left: Block -> Block, right: Block -> Block)

  function Xor16(a: Block, b: Block): Block {
    seq(16, i requires 0 <= i < 16 => a[i] ^ b[i])
  }

  function GetT(b: Block): bool {
    Bit(b[0], 0)
  }

  function Clr(b: Block): Block {
    b[0 := b[0] & 0xFE]
  }

  /** Clearing takes the lowest bit away, which GetT reads, and no other. */
  lemma ClrAt(b: Block, j: nat)
    requires j < 128
    ensures BitAt(Clr(b), j) == (j != 0 && BitAt(b, j))
    ensures GetT(b) == BitAt(b, 0)
  {
    if j < 8 {
      var s: seq<bv8> := [1, 2, 4, 8, 16, 32, 64, 128];
      ClrByte(b[0], s[j], j);
    }
  }

  lemma ClrByte(x: bv8, m: bv8, j: nat)
    requires j < 8 && m == Mask(j)
    ensures Bit(x & 0xFE, j) == (j != 0 && Bit(x, j))
  {
    assert (x & 0xFE) & m == x & (0xFE & m);
    assert j == 0 ==> x & (0xFE & m) == 0;
    assert j != 0 ==> 0xFE & m == m;
  }

  // ----- The tree -----

  datatype CW = CW(s: Block, tL: bool, tR: bool)

  datatype Node = Node(s: Block, t: bool)

  datatype Key = Key(root: Node, cws: seq<CW>, final: Block)

  /** The corrected child of a node. */
  function Child(f: Prf, n: Node, cw: CW, right: bool): Node {
    var raw := if right then f.right(n.s) else f.left(n.s);
    var cwT := if right then cw.tR else cw.tL;
    if n.t then Node(Xor16(Clr(raw), cw.s), GetT(raw) != cwT) else Node(Clr(raw), GetT(raw))
  }

  /** The correction word for one level: the children off the path cancel. */
  function MakeCW(f: Prf, n0: Node, n1: Node, right: bool): CW {
    var (l0, r0, l1, r1) := (f.left(n0.s), f.right(n0.s), f.left(n1.s), f.right(n1.s));
    if right then CW(Xor16(Clr(l0), Clr(l1)), GetT(l0) != GetT(l1), (GetT(r0) != GetT(r1)) != true)
    else CW(Xor16(Clr(r0), Clr(r1)), (GetT(l0) != GetT(l1)) != true, GetT(r0) != GetT(r1))
  }

  /** The correction words of the `m` levels below a pair of nodes on the path to `alpha`,
      and the pair they lead to. The bit of a level with `m` levels left is 6 + m. */
  function MakeCWs(f: Prf, n0: Node, n1: Node, alpha: nat, m: nat): (r: (seq<CW>, Node, Node))
    ensures |r.0| == m
    decreases m
  {
    if m == 0 then ([], n0, n1)
    else
      var bit := BitOf(alpha, 6 + m);
      var cw := MakeCW(f, n0, n1, bit);
      var rest := MakeCWs(f, Child(f, n0, cw, bit), Child(f, n1, cw, bit), alpha, m - 1);
      ([cw] + rest.0, rest.1, rest.2)
  }

  function Levels(logN: nat): nat {
    if logN >= 7 then logN - 7 else 0
  }

  function FlipBit(b: Block, j: nat): Block
    requires j < 128
  {
    b[j / 8 := b[j / 8] ^ Mask(j % 8)]
  }

  /** Gen, for given random seeds. */
  function GenKeys(f: Prf, alpha: nat, logN: nat, seed0: Block, seed1: Block): (Key, Key) {
    var t0 := GetT(seed0);
    var n0, n1 := Node(Clr(seed0), t0), Node(Clr(seed1), !t0);
    var (cws, e0, e1) := MakeCWs(f, n0, n1, alpha, Levels(logN));
    var final := FlipBit(Xor16(f.left(e0.s), f.left(e1.s)), alpha % 128);
    (Key(n0, cws, final), Key(n1, cws, final))
  }

  function Walk(f: Prf, n: Node, cws: seq<CW>, x: nat): Node
    decreases |cws|
  {
    if |cws| == 0 then n else Walk(f, Child(f, n, cws[0], BitOf(x, 6 + |cws|)), cws[1..], x)
  }

  /** The 128 output bits below a leaf node. */
  function Output(f: Prf, n: Node, final: Block): Block {
    if n.t then Xor16(f.left(n.s), final) else f.left(n.s)
  }

  function EvalKey(f: Prf, k: Key, x: nat): bool {
    BitAt(Output(f, Walk(f, k.root, k.cws, x), k.final), x % 128)
  }

  /** A child, bit by bit: the function's output without its lowest bit, which is the control
      bit, and both corrected if the parent's control bit is set. */
  lemma ChildBits(f: Prf, n: Node, cw: CW, right: bool, j: nat)
    requires j < 128
    ensures var raw, c := if right then f.right(n.s) else f.left(n.s), Child(f, n, cw, right);
            && BitAt(c.s, j) == ((j != 0 && BitAt(raw, j)) != (n.t && BitAt(cw.s, j)))
            && c.t == (BitAt(raw, 0) != (n.t && (if right then cw.tR else cw.tL)))
  {
    var raw := if right then f.right(n.s) else f.left(n.s);
    ClrAt(raw, j);
    ClrAt(raw, 0);
    Xor16Bit(Clr(raw), cw.s, j);
  }

  /** The value at a point below a leaf node: the bit of the converted seed, corrected by
      the final word if the control bit is set. */
  lemma LeafValue(f: Prf, k: Key, x: nat)
    ensures var n := Walk(f, k.root, k.cws, x);
            EvalKey(f, k, x) == (BitAt(f.left(n.s), x % 128) != (n.t && BitAt(k.final, x % 128)))
  {
    var n := Walk(f, k.root, k.cws, x);
    Xor16Bit(f.left(n.s), k.final, x % 128);
  }

  /** What the two parties hold: their own seeds without the lowest bit, opposite control
      bits, of which the first is that lowest bit, and the same words. */
  lemma KeysShape(f: Prf, alpha: nat, logN: nat, seed0: Block, seed1: Block, j: nat)
    requires j < 128
    ensures var (ka, kb) := GenKeys(f, alpha, logN, seed0, seed1);
            && ka.cws == kb.cws && ka.final == kb.final && |ka.cws| == (if logN >= 7 then logN - 7 else 0)
            && BitAt(ka.root.s, j) == (j != 0 && BitAt(seed0, j)) && BitAt(kb.root.s, j) == (j != 0 && BitAt(seed1, j))
            && ka.root.t == BitAt(seed0, 0) && kb.root.t != ka.root.t
  {
    ClrAt(seed0, j);
    ClrAt(seed1, j);
  }

  // ----- Correctness -----

  lemma XorBothSides(a: Block, b: Block)
    ensures Xor16(a, Xor16(a, b)) == b && Xor16(b, Xor16(a, b)) == a
  {
    assert forall i | 0 <= i < 16 :: a[i] ^ (a[i] ^ b[i]) == b[i] && b[i] ^ (a[i] ^ b[i]) == a[i];
  }

  /** On the path the control bits differ again; off the path both children coincide. */
  lemma ChildPair(f: Prf, n0: Node, n1: Node, bit: bool, right: bool)
    requires n0.t != n1.t
    ensures var cw := MakeCW(f, n0, n1, bit);
            var c0, c1 := Child(f, n0, cw, right), Child(f, n1, cw, right);
            if right == bit then c0.t != c1.t else c0 == c1
  {
    if right != bit {
      var raw0 := if right then f.right(n0.s) else f.left(n0.s);
      var raw1 := if right then f.right(n1.s) else f.left(n1.s);
      XorBothSides(Clr(raw0), Clr(raw1));
    }
  }

  predicate SamePath(a: nat, x: nat, m: nat) {
    m > 0 ==> BitOf(a, 6 + m) == BitOf(x, 6 + m) && SamePath(a, x, m - 1)
  }

  /** Down the tree: the two walks towards `x` end in the nodes of Gen, with different
      control bits, when `x` is on the path to `alpha`, and in the same node otherwise. */
  lemma {:induction false} WalkPair(f: Prf, n0: Node, n1: Node, alpha: nat, x: nat, m: nat)
    requires n0.t != n1.t
    ensures var (cws, e0, e1) := MakeCWs(f, n0, n1, alpha, m);
            && e0.t != e1.t
            && if SamePath(alpha, x, m) then Walk(f, n0, cws, x) == e0 && Walk(f, n1, cws, x) == e1
               else Walk(f, n0, cws, x) == Walk(f, n1, cws, x)
    decreases m
  {
    if m > 0 {
      var bit := BitOf(alpha, 6 + m);
      var cw := MakeCW(f, n0, n1, bit);
      var (cws, e0, e1) := MakeCWs(f, n0, n1, alpha, m);
      assert cws[0] == cw;
      ChildPair(f, n0, n1, bit, BitOf(x, 6 + m));
      ChildPair(f, n0, n1, bit, bit);
      WalkPair(f, Child(f, n0, cw, bit), Child(f, n1, cw, bit), alpha, x, m - 1);
    }
  }

  /** Two points take the same path exactly when they share a leaf of 128 points. */
  lemma {:induction false} SamePathMeans(a: nat, x: nat, m: nat)
    ensures SamePath(a, x, m) <==> a % Pow2(7 + m) / 128 == x % Pow2(7 + m) / 128
  {
    if m == 0 {
      assert Pow2(7) == 128;
      LeafOf(a % 128, 1);
      LeafOf(x % 128, 1);
    } else {
      SamePathMeans(a, x, m - 1);
      LeafStep(a, m);
      LeafStep(x, m);
    }
  }

  /** The leaf of a point below `m` levels, from its top bit and its leaf below. */
  lemma LeafStep(a: nat, m: nat)
    requires m > 0
    ensures a % Pow2(7 + m) / 128 == (if BitOf(a, 6 + m) then Pow2(m - 1) else 0) + a % Pow2(6 + m) / 128
    ensures a % Pow2(6 + m) / 128 < Pow2(m - 1)
  {
    TopBitOf(a, 6 + m);
    assert Pow2(7) == 128;
    Pow2Split(7, m - 1);
    LeafOf(a % Pow2(6 + m), Pow2(m - 1));
  }

  lemma LeafOf(r: nat, p: nat)
    requires r < 128 * p
    ensures (128 * p + r) / 128 == p + r / 128 && r / 128 < p
  {
  }

  lemma Xor16Bit(a: Block, b: Block, j: nat)
    requires j < 128
    ensures BitAt(Xor16(a, b), j) == (BitAt(a, j) != BitAt(b, j))
  {
    XorBit(a[j / 8], b[j / 8], j % 8);
  }

  lemma FlipBitAt(b: Block, i: nat, j: nat)
    requires i < 128 && j < 128
    ensures BitAt(FlipBit(b, i), j) == (BitAt(b, j) != (i == j))
  {
    if i / 8 == j / 8 {
      XorMask(b[j / 8], i % 8, j % 8);
    }
  }

  /** The theorem: for every point and every seed the two evaluations differ exactly at alpha. */
  lemma PointFunction(f: Prf, alpha: nat, x: nat, logN: nat, seed0: Block, seed1: Block)
    requires alpha < Pow2(logN) && x < Pow2(logN)
    ensures var (ka, kb) := GenKeys(f, alpha, logN, seed0, seed1);
            (EvalKey(f, ka, x) != EvalKey(f, kb, x)) == (x == alpha)
  {
    var (ka, kb) := GenKeys(f, alpha, logN, seed0, seed1);
    var m := Levels(logN);
    var (cws, e0, e1) := MakeCWs(f, ka.root, kb.root, alpha, m);
    WalkPair(f, ka.root, kb.root, alpha, x, m);
    SamePathMeans(alpha, x, m);
    Pow2Monotone(logN, 7 + m);
    ModSmall(alpha, Pow2(7 + m));
    ModSmall(x, Pow2(7 + m));
    if SamePath(alpha, x, m) {
      var a, b := f.left(e0.s), f.left(e1.s);
      var j := x % 128;
      Xor16Bit(a, b, j);
      FlipBitAt(Xor16(a, b), alpha % 128, j);
      Xor16Bit(a, ka.final, j);
      Xor16Bit(b, ka.final, j);
    }
  }

  lemma ModSmall(x: nat, p: nat)
    requires x < p
    ensures x % p == x
  {
  }
}
