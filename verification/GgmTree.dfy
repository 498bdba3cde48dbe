/** Puncturable pseudorandom sets from a binary tree of keys (Goldreich, Goldwasser and
    Micali): full evaluation layer by layer, puncturing at a position, and evaluation
    from a punctured key. The block cipher is arbitrary. */
module GgmTree {
  import opened Permutations
  import opened Powers

  /** A 128-bit block as four 32-bit words. */
  datatype Block = Block(w0: bv32, w1: bv32, w2: bv32, w3: bv32)

  function WordOf(b: Block, j: nat): bv32
    requires j < 4
  {
    match j
    case 0 => b.w0
    case 1 => b.w1
    case 2 => b.w2
    case 3 => b.w3
  }

  function ClearWord(b: Block, j: nat): Block
    requires j < 4
  {
    match j
    case 0 => b.(w0 := 0)
    case 1 => b.(w1 := 0)
    case 2 => b.(w2 := 0)
    case 3 => b.(w3 := 0)
  }

  /** One word is zero afterwards, the others are as before. */
  lemma ClearWordAt(b: Block, j: nat, k: nat)
    requires j < 4 && k < 4
    ensures WordOf(ClearWord(b, j), k) == if k == j then 0 else WordOf(b, k)
  {
  }

  /** A block is its four words. */
  lemma SameWords(a: Block, b: Block)
    requires forall j | 0 <= j < 4 :: WordOf(a, j) == WordOf(b, j)
    ensures a == b
  {
    assert WordOf(a, 0) == WordOf(b, 0) && WordOf(a, 1) == WordOf(b, 1);
    assert WordOf(a, 2) == WordOf(b, 2) && WordOf(a, 3) == WordOf(b, 3);
  }

  function XorBlock(a: Block, b: Block): Block {
    Block(a.w0 ^ b.w0, a.w1 ^ b.w1, a.w2 ^ b.w2, a.w3 ^ b.w3)
  }

  const ONE := Block(0, 0, 0, 1)

  lemma ToggleTwice(b: Block)
    ensures XorBlock(XorBlock(b, ONE), ONE) == b
  {
  }

  /** Toggling changes one bit of the last word. */
  lemma ToggledIs(b: Block)
    ensures XorBlock(b, ONE) == b.(w3 := b.w3 ^ 1) && XorBlock(b, ONE) != b
  {
    assert b.w3 ^ 1 != b.w3;
  }

  type Cipher = Block -> Block

  function ChildKey(e: Cipher, key: Block, right: bool): Block {
    var t := if right then XorBlock(key, ONE) else key;
    XorBlock(e(t), t)
  }

  /** The children are the cipher's images of the key and of its toggled copy, each with
      its input folded in. They differ unless two inputs have the same such image. */
  lemma ChildrenAre(e: Cipher, key: Block)
    ensures ChildKey(e, key, false) == XorBlock(e(key), key)
    ensures var toggled := key.(w3 := key.w3 ^ 1);
            toggled != key && ChildKey(e, key, true) == XorBlock(e(toggled), toggled)
    ensures (forall a, b | a != b :: XorBlock(e(a), a) != XorBlock(e(b), b)) ==>
              ChildKey(e, key, false) != ChildKey(e, key, true)
  {
    ToggledIs(key);
  }

  /** The key of node `i` at a depth below the seed. */
  function NodeKey(e: Cipher, seed: Block, depth: nat, i: nat): Block {
    if depth == 0 then seed else ChildKey(e, NodeKey(e, seed, depth - 1, i / 2), i % 2 == 1)
  }

  /** Node `i` has node 2i as its left and node 2i + 1 as its right child. */
  lemma NodeKeyIs(e: Cipher, seed: Block, depth: nat, i: nat)
    ensures NodeKey(e, seed, 0, 0) == seed
    ensures NodeKey(e, seed, depth + 1, 2 * i) == ChildKey(e, NodeKey(e, seed, depth, i), false)
    ensures NodeKey(e, seed, depth + 1, 2 * i + 1) == ChildKey(e, NodeKey(e, seed, depth, i), true)
  {
    assert 2 * i / 2 == i && 2 * i % 2 == 0 && (2 * i + 1) / 2 == i && (2 * i + 1) % 2 == 1;
  }

  /** get_height: for a set of at least one element. */
  function Height(n: nat): (h: nat)
    requires n >= 1
    ensures h >= 1 && n <= Pow2(h)
  {
    var k := CeilLog2(n);
    assert Pow2(1) == 2;
    if k == 0 then 1 else k
  }

  lemma CeilLog2Unique(n: nat, k: nat)
    requires n >= 1 && n <= Pow2(k) && (k > 0 ==> Pow2(k - 1) < n)
    ensures CeilLog2(n) == k
  {
    var c := CeilLog2(n);
    if c < k {
      Pow2Monotone(c, k - 1);
    } else if k < c {
      Pow2Monotone(k, c - 1);
    }
  }

  method GetHeight(v: nat) returns (r: nat)
    requires v >= 1
    ensures r == Height(v)
  {
    r := 0;
    var u := (v - 1) / 2;
    while u != 0
      invariant Halvings(v, u, r)
      decreases u
    {
      HalveAgain(v, u, r);
      u := u / 2;
      r := r + 1;
    }
    HalvedAway(v, r);
    r := r + 1;
  }

  /** `u` is what r + 1 halvings leave of v - 1, and r of them left something. */
  ghost predicate Halvings(v: nat, u: int, r: nat)
    requires v >= 1
  {
    u == (v - 1) / Pow2(r + 1) && (r > 0 ==> Pow2(r) < v)
  }

  lemma HalveAgain(v: nat, u: int, r: nat)
    requires v >= 1 && Halvings(v, u, r) && u != 0
    ensures Halvings(v, u / 2, r + 1)
  {
    HalveQuotient(v - 1, Pow2(r + 1));
  }

  lemma HalvedAway(v: nat, r: nat)
    requires v >= 1 && Halvings(v, 0, r)
    ensures Height(v) == r + 1
  {
    DivMod(v - 1, Pow2(r + 1));
    if r > 0 || v == 2 {
      CeilLog2Unique(v, r + 1);
    }
  }

  lemma HalveQuotient(x: nat, p: nat)
    requires p > 0
    ensures x / (2 * p) == x / p / 2
    ensures x / p != 0 ==> p <= x
  {
    TopBit(x, p);
    DivMod(x, p);
  }

  /** The number of layers that are expanded below the seed. */
  function Layers(n: nat): nat
    requires n >= 1
  {
    if Height(n) >= 2 then Height(n) - 2 else 0
  }

  /** Four elements come from each key of the last layer. */
  lemma LayerWidth(n: nat, i: nat)
    requires n >= 1 && i < n
    ensures i / 4 < Pow2(Layers(n))
  {
    var h := Height(n);
    if h >= 2 {
      Pow2Split(2, h - 2);
      assert Pow2(2) == 4;
    } else {
      assert Pow2(1) == 2;
    }
  }

  function ToRange(w: bv32, univ: Word): Word
    requires univ > 0
  {
    FastMod(w as int, univ)
  }

  /** Element `i` of the set that a seed stands for. */
  function Element(e: Cipher, seed: Block, univ: Word, n: nat, i: nat): Word
    requires univ > 0 && n >= 1
  {
    ToRange(WordOf(NodeKey(e, seed, Layers(n), i / 4), i % 4), univ)
  }

  /** An element is the multiply-and-shift reduction of its word. */
  lemma ElementIs(e: Cipher, seed: Block, univ: Word, n: nat, i: nat)
    requires univ > 0 && i < n
    ensures var w, x := WordOf(NodeKey(e, seed, Layers(n), i / 4), i % 4) as int, Element(e, seed, univ, n, i);
            x * WORD <= w * univ < (x + 1) * WORD
  {
  }

  function FullEval(e: Cipher, seed: Block, univ: Word, n: nat): (r: seq<Word>)
    requires univ > 0 && n >= 1
    ensures |r| == n
  {
    seq(n, i requires 0 <= i < n => Element(e, seed, univ, n, i))
  }

  // ----- Puncturing -----

  function Sibling(i: nat): nat {
    if i % 2 == 0 then i + 1 else i - 1
  }

  /** The ancestor of position `pos` at a depth, in a tree of height `h` over positions. */
  function Path(pos: nat, h: nat, depth: nat): nat
    requires depth <= h
  {
    QuotientNat(pos, Pow2(h - depth));
    pos / Pow2(h - depth)
  }

  lemma PathStep(pos: nat, h: nat, depth: nat)
    requires depth < h
    ensures Path(pos, h, depth + 1) / 2 == Path(pos, h, depth)
    ensures (Path(pos, h, depth + 1) % 2 == 1) == BitOf(pos, h - depth - 1)
  {
    TopBit(pos, Pow2(h - depth - 1));
  }

  lemma PathRoot(pos: nat, h: nat)
    requires pos < Pow2(h)
    ensures Path(pos, h, 0) == 0
  {
    DivModUnique(pos, Pow2(h), 0, pos);
  }

  lemma {:induction false} PathBound(pos: nat, h: nat, depth: nat)
    requires pos < Pow2(h) && depth <= h
    ensures Path(pos, h, depth) < Pow2(depth)
    ensures depth > 0 ==> Sibling(Path(pos, h, depth)) < Pow2(depth)
  {
    if depth == 0 {
      PathRoot(pos, h);
    } else {
      PathBound(pos, h, depth - 1);
      PathStep(pos, h, depth - 1);
    }
  }

  /** The two children of a key on the path. */
  lemma PathChildren(e: Cipher, seed: Block, pos: nat, h: nat, depth: nat)
    requires depth < h
    ensures var key, right := NodeKey(e, seed, depth, Path(pos, h, depth)), BitOf(pos, h - depth - 1);
            && ChildKey(e, key, right) == NodeKey(e, seed, depth + 1, Path(pos, h, depth + 1))
            && ChildKey(e, key, !right) == NodeKey(e, seed, depth + 1, Sibling(Path(pos, h, depth + 1)))
  {
    PathStep(pos, h, depth);
    SiblingParent(Sibling(Path(pos, h, depth + 1)), Path(pos, h, depth + 1));
  }

  /** The siblings of the first `k` keys on the path below the seed. */
  function Siblings(e: Cipher, seed: Block, h: nat, pos: nat, k: nat): (r: seq<Block>)
    requires k <= h
    ensures |r| == k
  {
    seq(k, d requires 0 <= d < k => NodeKey(e, seed, d + 1, Sibling(Path(pos, h, d + 1))))
  }

  lemma SiblingsSnoc(e: Cipher, seed: Block, h: nat, pos: nat, k: nat)
    requires k < h
    ensures Siblings(e, seed, h, pos, k + 1)
         == Siblings(e, seed, h, pos, k) + [NodeKey(e, seed, k + 1, Sibling(Path(pos, h, k + 1)))]
  {
  }

  /** The blocks of a punctured key: one sibling a layer, then the last key on the path
      with the punctured word cleared. */
  function PuncKeys(e: Cipher, seed: Block, n: nat, pos: nat): (r: seq<Block>)
    requires n >= 1
    ensures |r| == Layers(n) + 1
  {
    var h := Height(n);
    Siblings(e, seed, h, pos, Layers(n)) + [ClearWord(NodeKey(e, seed, Layers(n), Path(pos, h, Layers(n))), pos % 4)]
  }

  /** The size of the buffer for a punctured key, in bytes. */
  function BufferSize(n: nat): nat
    requires n >= 1
  {
    if Height(n) < 2 then 16 else 16 * (Height(n) - 1)
  }

  /** The key of a node off the path, from a punctured key. */
  function PuncNode(e: Cipher, pset: seq<Block>, h: nat, pos: nat, depth: nat, i: nat): Block
    requires depth <= h && depth <= |pset| && pos < Pow2(h) && i < Pow2(depth) && i != Path(pos, h, depth)
  {
    PathRoot(pos, h);
    if i == Sibling(Path(pos, h, depth)) then pset[depth - 1]
    else
      PathStep(pos, h, depth - 1);
      SiblingParent(i, Path(pos, h, depth));
      ChildKey(e, PuncNode(e, pset, h, pos, depth - 1, i / 2), i % 2 == 1)
  }

  lemma SiblingParent(i: nat, p: nat)
    ensures i / 2 == p / 2 <==> i == p || i == Sibling(p)
  {
  }

  function RemoveAt<T>(s: seq<T>, k: nat): (r: seq<T>)
    requires k < |s|
    ensures |r| == |s| - 1
  {
    s[..k] + s[k + 1..]
  }

  /** The last-layer key that an element other than the hole comes from. */
  function PuncLeaf(e: Cipher, pset: seq<Block>, n: nat, pos: nat, i: nat): Block
    requires n >= 1 && |pset| == Layers(n) + 1 && pos < n && i < n
  {
    LayerWidth(n, i);
    LeafPath(n, pos);
    if i / 4 == pos / 4 then pset[Layers(n)]
    else PuncNode(e, pset, Height(n), pos, Layers(n), i / 4)
  }

  /** The last key on the path is the key that the hole comes from. */
  lemma LeafPath(n: nat, pos: nat)
    requires n >= 1 && pos < n
    ensures pos < Pow2(Height(n)) && Layers(n) <= Height(n)
    ensures Path(pos, Height(n), Layers(n)) == pos / 4
  {
    assert Pow2(2) == 4 && Pow2(1) == 2;
  }

  function PuncElement(e: Cipher, pset: seq<Block>, univ: Word, n: nat, pos: nat, i: nat): Word
    requires univ > 0 && n >= 1 && |pset| == Layers(n) + 1 && pos < n && i < n
  {
    ToRange(WordOf(PuncLeaf(e, pset, n, pos, i), i % 4), univ)
  }

  /** The elements that a punctured key stands for, in order, the hole left out. */
  function EvalPunc(e: Cipher, pset: seq<Block>, univ: Word, n: nat, pos: nat): (r: seq<Word>)
    requires univ > 0 && n >= 1 && |pset| == Layers(n) + 1 && pos < n
    ensures |r| == n - 1
  {
    RemoveAt(seq(n, i requires 0 <= i < n => PuncElement(e, pset, univ, n, pos, i)), pos)
  }

  /** Off the path a punctured key gives every key of the tree. */
  lemma {:induction false} PuncNodeIsKey(e: Cipher, seed: Block, n: nat, pos: nat, depth: nat, i: nat)
    requires n >= 1 && pos < n && depth <= Layers(n)
    requires pos < Pow2(Height(n)) && i < Pow2(depth) && i != Path(pos, Height(n), depth)
    ensures PuncNode(e, PuncKeys(e, seed, n, pos), Height(n), pos, depth, i) == NodeKey(e, seed, depth, i)
  {
    var h := Height(n);
    PathRoot(pos, h);
    if i != Sibling(Path(pos, h, depth)) {
      PathStep(pos, h, depth - 1);
      SiblingParent(i, Path(pos, h, depth));
      PuncNodeIsKey(e, seed, n, pos, depth - 1, i / 2);
    }
  }

  /** Every element but the hole is the one of the whole set. */
  lemma PuncElementRight(e: Cipher, seed: Block, univ: Word, n: nat, pos: nat, i: nat)
    requires univ > 0 && pos < n && i < n && i != pos
    ensures PuncElement(e, PuncKeys(e, seed, n, pos), univ, n, pos, i) == Element(e, seed, univ, n, i)
  {
    LeafPath(n, pos);
    LayerWidth(n, i);
    if i / 4 == pos / 4 {
      ClearWordAt(NodeKey(e, seed, Layers(n), pos / 4), pos % 4, i % 4);
    } else {
      PuncNodeIsKey(e, seed, n, pos, Layers(n), i / 4);
    }
  }

  lemma RemoveSame(a: seq<Word>, b: seq<Word>, pos: nat)
    requires pos < |a| == |b| && forall i | 0 <= i < |a| && i != pos :: a[i] == b[i]
    ensures RemoveAt(a, pos) == RemoveAt(b, pos)
  {
  }

  /** The theorem: evaluating a punctured key gives the set with position `pos` removed. */
  lemma PuncturedEval(e: Cipher, seed: Block, univ: Word, n: nat, pos: nat)
    requires univ > 0 && pos < n
    ensures EvalPunc(e, PuncKeys(e, seed, n, pos), univ, n, pos) == RemoveAt(FullEval(e, seed, univ, n), pos)
    ensures 16 * |PuncKeys(e, seed, n, pos)| == BufferSize(n)
  {
    var pset := PuncKeys(e, seed, n, pos);
    var all := seq(n, i requires 0 <= i < n => PuncElement(e, pset, univ, n, pos, i));
    forall i | 0 <= i < n && i != pos
      ensures all[i] == FullEval(e, seed, univ, n)[i]
    {
      PuncElementRight(e, seed, univ, n, pos, i);
    }
    RemoveSame(all, FullEval(e, seed, univ, n), pos);
  }

  // ----- What a punctured key leaves out -----

  /** The last block: the punctured word is zero, the others are those of the key that the
      hole comes from. */
  ghost predicate LastPunctured(e: Cipher, seed: Block, n: nat, pos: nat, last: Block)
    requires pos < n
  {
    && WordOf(last, pos % 4) == 0
    && forall j | 0 <= j < 4 && j != pos % 4 :: WordOf(last, j) == WordOf(NodeKey(e, seed, Layers(n), pos / 4), j)
  }

  /** Block `d` is the key of a node beside the path: a child of the hole's ancestor, but
      not itself an ancestor of the hole. */
  ghost predicate BesidePath(e: Cipher, seed: Block, n: nat, pos: nat, d: nat, key: Block)
    requires pos < n && d < Layers(n)
  {
    var h := Height(n);
    exists x: nat :: && x / 2 == pos / Pow2(h - d) && x != pos / Pow2(h - d - 1)
                     && key == NodeKey(e, seed, d + 1, x)
  }

  /** A punctured key holds nothing but keys beside the path and the unpunctured words. */
  ghost predicate LeavesOut(e: Cipher, seed: Block, n: nat, pos: nat, pset: seq<Block>)
    requires pos < n
  {
    && |pset| == Layers(n) + 1 && LastPunctured(e, seed, n, pos, pset[Layers(n)])
    && forall d | 0 <= d < Layers(n) :: BesidePath(e, seed, n, pos, d, pset[d])
  }

  lemma LastIs(e: Cipher, seed: Block, n: nat, pos: nat)
    requires pos < n
    ensures LastPunctured(e, seed, n, pos, PuncKeys(e, seed, n, pos)[Layers(n)])
  {
    LeafPath(n, pos);
    var key := NodeKey(e, seed, Layers(n), pos / 4);
    forall j | 0 <= j < 4
      ensures WordOf(ClearWord(key, pos % 4), j) == if j == pos % 4 then 0 else WordOf(key, j)
    {
      ClearWordAt(key, pos % 4, j);
    }
  }

  lemma BlockBeside(e: Cipher, seed: Block, n: nat, pos: nat, d: nat)
    requires pos < n && d < Layers(n)
    ensures BesidePath(e, seed, n, pos, d, PuncKeys(e, seed, n, pos)[d])
  {
    var h := Height(n);
    var p := Path(pos, h, d + 1);
    PathStep(pos, h, d);
    SiblingParent(Sibling(p), p);
  }

  lemma PuncLeavesOut(e: Cipher, seed: Block, n: nat, pos: nat)
    requires pos < n
    ensures LeavesOut(e, seed, n, pos, PuncKeys(e, seed, n, pos))
  {
    LastIs(e, seed, n, pos);
    forall d | 0 <= d < Layers(n)
      ensures BesidePath(e, seed, n, pos, d, PuncKeys(e, seed, n, pos)[d])
    {
      BlockBeside(e, seed, n, pos, d);
    }
  }

  /** The keys that the hole comes from differ in the punctured word at most. */
  ghost predicate AgreeButFor(a: Block, b: Block, word: nat) {
    forall j | 0 <= j < 4 && j != word :: WordOf(a, j) == WordOf(b, j)
  }

  lemma ClearedSame(a: Block, b: Block, word: nat)
    requires word < 4 && AgreeButFor(a, b, word)
    ensures ClearWord(a, word) == ClearWord(b, word)
  {
    forall j | 0 <= j < 4
      ensures WordOf(ClearWord(a, word), j) == WordOf(ClearWord(b, word), j)
    {
      ClearWordAt(a, word, j);
      ClearWordAt(b, word, j);
    }
    SameWords(ClearWord(a, word), ClearWord(b, word));
  }

  /** The punctured key does not depend on the punctured word: seeds with the same keys
      beside the path and the same other words have the same punctured key. */
  lemma PuncForgets(e: Cipher, a: Block, b: Block, n: nat, pos: nat)
    requires pos < n
    requires Siblings(e, a, Height(n), pos, Layers(n)) == Siblings(e, b, Height(n), pos, Layers(n))
    requires AgreeButFor(NodeKey(e, a, Layers(n), pos / 4), NodeKey(e, b, Layers(n), pos / 4), pos % 4)
    ensures PuncKeys(e, a, n, pos) == PuncKeys(e, b, n, pos)
  {
    LeafPath(n, pos);
    ClearedSame(NodeKey(e, a, Layers(n), pos / 4), NodeKey(e, b, Layers(n), pos / 4), pos % 4);
  }
}
