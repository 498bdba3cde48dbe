/** The client's own form of the puncturable sets: depth-first evaluation in one buffer of
    path keys, and punctured evaluation from the keys beside the path. */
module GgmDepthFirst {
  import opened Permutations
  import opened Powers
  import opened GgmTree

  const FLIPPED := Block(1, 0, 0, 0)

  /** leftChild and rightChild: the right one flips the lowest bit of the first byte. */
  function Child(e: Cipher, key: Block, right: bool): Block {
    var t := if right then XorBlock(key, FLIPPED) else key;
    XorBlock(e(t), t)
  }

  lemma FlippedIs(b: Block)
    ensures XorBlock(b, FLIPPED) == b.(w0 := b.w0 ^ 1) && XorBlock(b, FLIPPED) != b
  {
    assert b.w0 ^ 1 != b.w0;
  }

  /** The children are the cipher's images of the key and of its flipped copy, each with
      its input folded in; flipping changes one bit of the first word. */
  lemma ChildrenAre(e: Cipher, key: Block)
    ensures Child(e, key, false) == XorBlock(e(key), key)
    ensures var flipped := key.(w0 := key.w0 ^ 1);
            flipped != key && Child(e, key, true) == XorBlock(e(flipped), flipped)
  {
    FlippedIs(key);
  }

  function Leaf(key: Block, univ: Word): Word
    requires univ > 0
  {
    (key.w0 as int) % univ
  }

  /** A leaf is the remainder of the key's first word by the size of the universe. */
  lemma LeafIs(key: Block, univ: Word)
    requires univ > 0
    ensures var w := key.w0 as int;
            w == univ * (w / univ) + Leaf(key, univ) && 0 <= Leaf(key, univ) < univ
  {
    DivMod(key.w0 as int, univ);
  }

  /** pos with bit `k` cleared. */
  function Cleared(pos: nat, k: nat): nat {
    if BitOf(pos, k) then BitBelow(pos, k); pos - Pow2(k) else pos
  }

  lemma BitBelow(pos: nat, k: nat)
    ensures BitOf(pos, k) ==> pos >= Pow2(k)
    ensures pos < Pow2(k + 1) ==> (BitOf(pos, k) <==> pos >= Pow2(k))
  {
    DivMod(pos, Pow2(k));
    QuotientNat(pos, Pow2(k));
    if pos >= Pow2(k) && pos < Pow2(k + 1) {
      DivModUnique(pos, Pow2(k), 1, pos - Pow2(k));
    } else if pos < Pow2(k) {
      DivModUnique(pos, Pow2(k), 0, pos);
    }
  }

  /** treeEval: walks from the root to one leaf. */
  function TreeEval(e: Cipher, key: Block, height: nat, univ: Word, pos: nat): Word
    requires univ > 0
    decreases height
  {
    if height == 0 then Leaf(key, univ)
    else TreeEval(e, Child(e, key, pos >= Pow2(height - 1)), height - 1, univ, Cleared(pos, height - 1))
  }

  method TreeEvalLoop(e: Cipher, key: Block, height: nat, univ: Word, pos: nat) returns (r: Word)
    requires univ > 0
    ensures r == TreeEval(e, key, height, univ, pos)
  {
    var k: Block, h: nat, p: nat := key, height, pos;
    while h > 0
      invariant TreeEval(e, k, h, univ, p) == TreeEval(e, key, height, univ, pos)
    {
      k := Child(e, k, p >= Pow2(h - 1));
      p := Cleared(p, h - 1);
      h := h - 1;
    }
    r := Leaf(k, univ);
  }

  /** All leaves in order. */
  function Leaves(e: Cipher, key: Block, height: nat, univ: Word): (r: seq<Word>)
    requires univ > 0
    ensures |r| == Pow2(height)
  {
    seq(Pow2(height), p requires 0 <= p < Pow2(height) => TreeEval(e, key, height, univ, p))
  }

  // ----- The keys on a path -----

  /** Node `i` of a layer, from its parent. */
  function NodeAt(e: Cipher, seed: Block, depth: nat, i: nat): Block {
    if depth == 0 then seed else Child(e, NodeAt(e, seed, depth - 1, i / 2), i % 2 == 1)
  }

  /** Node `i` has node 2i as its left and node 2i + 1 as its right child. */
  lemma NodeAtIs(e: Cipher, seed: Block, depth: nat, i: nat)
    ensures NodeAt(e, seed, 0, 0) == seed
    ensures NodeAt(e, seed, depth + 1, 2 * i) == Child(e, NodeAt(e, seed, depth, i), false)
    ensures NodeAt(e, seed, depth + 1, 2 * i + 1) == Child(e, NodeAt(e, seed, depth, i), true)
  {
    HalfOf(i, false);
    HalfOf(i, true);
  }

  lemma HalfOf(node: nat, right: bool)
    ensures var child: nat := 2 * node + if right then 1 else 0; child / 2 == node && (child % 2 == 1) == right
  {
  }

  /** Nodes of two trees on the same side of parents with the same key have the same key. */
  lemma SameParents(e: Cipher, seed: Block, seed': Block, depth: nat, i: nat, i': nat, parent': nat)
    requires depth > 0 && i' / 2 == parent' && i' % 2 == i % 2
    requires NodeAt(e, seed, depth, i / 2) == NodeAt(e, seed', depth - 1, parent')
    ensures NodeAt(e, seed, depth + 1, i) == NodeAt(e, seed', depth, i')
  {
  }

  /** The place of `i` in its half of 2p nodes. */
  function InHalf(i: nat, p: nat): nat {
    if i >= p then i - p else i
  }

  /** From the top: a node lies in the half that its leading bit says. */
  lemma {:induction false} NodeFromTop(e: Cipher, seed: Block, depth: nat, i: nat)
    requires 1 <= depth && i < Pow2(depth)
    ensures NodeAt(e, seed, depth, i) == NodeAt(e, Child(e, seed, i >= Pow2(depth - 1)), depth - 1, InHalf(i, Pow2(depth - 1)))
    decreases depth
  {
    if depth == 1 {
      NodeBelowSeed(e, seed, i);
    } else {
      HalfMinus(i, Pow2(depth - 2));
      NodeFromTop(e, seed, depth - 1, i / 2);
      SameParents(e, seed, Child(e, seed, i >= Pow2(depth - 1)), depth - 1, i,
                  InHalf(i, Pow2(depth - 1)), InHalf(i / 2, Pow2(depth - 2)));
    }
  }

  lemma NodeBelowSeed(e: Cipher, seed: Block, i: nat)
    requires i < 2
    ensures NodeAt(e, seed, 1, i) == NodeAt(e, Child(e, seed, i >= Pow2(0)), 0, InHalf(i, Pow2(0)))
  {
    assert Pow2(0) == 1;
    assert NodeAt(e, seed, 0, i / 2) == seed;
  }

  lemma HalfMinus(i: nat, p: nat)
    ensures i / 2 >= p <==> i >= 2 * p
    ensures InHalf(i, 2 * p) / 2 == InHalf(i / 2, p) && InHalf(i, 2 * p) % 2 == i % 2
  {
  }

  lemma ClearedBound(pos: nat, k: nat)
    requires pos < Pow2(k + 1)
    ensures Cleared(pos, k) < Pow2(k)
    ensures Cleared(pos, k) == InHalf(pos, Pow2(k))
  {
    BitBelow(pos, k);
  }

  lemma {:induction false} TreeEvalIsLeaf(e: Cipher, seed: Block, height: nat, univ: Word, pos: nat)
    requires univ > 0 && pos < Pow2(height)
    ensures TreeEval(e, seed, height, univ, pos) == Leaf(NodeAt(e, seed, height, pos), univ)
    decreases height
  {
    if height > 0 {
      ClearedBound(pos, height - 1);
      NodeFromTop(e, seed, height, pos);
      TreeEvalIsLeaf(e, Child(e, seed, pos >= Pow2(height - 1)), height - 1, univ, Cleared(pos, height - 1));
    }
  }

  /** The buffer holds the keys from the root to a node. */
  ghost predicate OnPath(e: Cipher, keys: seq<Block>, depth: nat, node: nat)
    requires depth < |keys|
  {
    if depth == 0 then node == 0
    else keys[depth] == Child(e, keys[depth - 1], node % 2 == 1) && OnPath(e, keys, depth - 1, node / 2)
  }

  lemma {:induction false} PathKey(e: Cipher, keys: seq<Block>, depth: nat, node: nat)
    requires depth < |keys| && OnPath(e, keys, depth, node)
    ensures keys[depth] == NodeAt(e, keys[0], depth, node) && node < Pow2(depth)
  {
    if depth > 0 {
      PathKey(e, keys, depth - 1, node / 2);
    }
  }

  lemma {:induction false} PathFrame(e: Cipher, keys: seq<Block>, keys': seq<Block>, depth: nat, node: nat)
    requires depth < |keys| && |keys'| == |keys| && (forall j | 0 <= j <= depth :: keys[j] == keys'[j])
    requires OnPath(e, keys, depth, node)
    ensures OnPath(e, keys', depth, node)
  {
    if depth > 0 {
      PathFrame(e, keys, keys', depth - 1, node / 2);
    }
  }

  lemma PathDown(e: Cipher, keys: seq<Block>, depth: nat, node: nat, right: bool)
    requires depth + 1 < |keys| && OnPath(e, keys, depth, node)
    ensures var keys' := keys[depth + 1 := Child(e, keys[depth], right)];
            OnPath(e, keys', depth + 1, 2 * node + if right then 1 else 0) && keys'[0] == keys[0]
  {
    var keys' := keys[depth + 1 := Child(e, keys[depth], right)];
    PathFrame(e, keys, keys', depth, node);
    HalfOf(node, right);
  }

  // ----- Full evaluation -----

  /** After a subtree is done: up to the first ancestor entered from the left. */
  method Climb(e: Cipher, ghost keys: seq<Block>, height: nat, leaf: nat) returns (h: nat, pos: int, node: nat)
    requires height < |keys| && OnPath(e, keys, height, leaf)
    ensures pos == height - h && 1 <= h <= height + 1
    ensures h == height + 1 ==> leaf + 1 == Pow2(height)
    ensures h <= height ==> OnPath(e, keys, pos, node) && leaf + 1 == (2 * node + 1) * Pow2(h - 1)
  {
    h, pos, node := 0, height, leaf;
    var isRight := true;
    while isRight
      invariant pos == height - h && 0 <= h <= height + 1
      invariant isRight ==> h <= height && OnPath(e, keys, pos, node) && leaf + 1 == (node + 1) * Pow2(h)
      invariant !isRight ==> h >= 1 && (h == height + 1 ==> leaf + 1 == Pow2(height))
      invariant !isRight && h <= height ==> OnPath(e, keys, pos, node) && leaf + 1 == (2 * node + 1) * Pow2(h - 1)
      decreases isRight, pos
    {
      ClimbStep(node, h);
      isRight := node % 2 == 1;
      h := h + 1;
      pos := pos - 1;
      node := node / 2;
    }
  }

  lemma ClimbStep(node: nat, h: nat)
    ensures node % 2 == 1 ==> (node + 1) * Pow2(h) == (node / 2 + 1) * Pow2(h + 1)
    ensures node % 2 == 0 ==> node == 2 * (node / 2)
  {
    if node % 2 == 1 {
      assert node + 1 == 2 * (node / 2 + 1);
    }
  }

  /** The leaves written so far. */
  ghost predicate Written(e: Cipher, seed: Block, height: nat, univ: Word, out: seq<Word>, base: nat, done: nat)
    requires univ > 0 && base + done <= |out|
  {
    forall p | 0 <= p < done :: out[base + p] == TreeEval(e, seed, height, univ, p)
  }

  ghost predicate SameOutside(before: seq<Word>, after: seq<Word>, base: nat, n: nat)
    requires base + n <= |before|
  {
    |after| == |before| && after[..base] == before[..base] && after[base + n..] == before[base + n..]
  }

  /** The next leaf of the walk is inside the output. */
  lemma DoneBound(e: Cipher, keys: seq<Block>, node: nat, depth: nat, h: nat, height: nat)
    requires depth < |keys| && OnPath(e, keys, depth, node) && depth + h == height
    ensures node * Pow2(h) < Pow2(height)
  {
    PathKey(e, keys, depth, node);
    Pow2Split(depth, h);
    BelowProduct(node, Pow2(depth), Pow2(h));
  }

  lemma BelowProduct(a: nat, b: nat, p: nat)
    requires a < b && p > 0
    ensures a * p < b * p
  {
    var more: nat := b - a - 1;
    assert b * p == a * p + p + more * p;
  }

  /** The first leaf below a node. */
  ghost predicate StartsAt(node: nat, h: nat, height: nat, done: nat) {
    done == node * Pow2(h) < Pow2(height)
  }

  lemma LeftChildStart(node: nat, h: nat, height: nat, done: nat)
    requires h > 0 && StartsAt(node, h, height, done)
    ensures StartsAt(2 * node, h - 1, height, done)
  {
  }

  lemma LeafStart(node: nat, height: nat, done: nat)
    requires StartsAt(node, 0, height, done)
    ensures done == node < Pow2(height)
  {
    assert Pow2(0) == 1;
  }

  lemma WriteLeaf(e: Cipher, keys: seq<Block>, height: nat, univ: Word,
                  before: seq<Word>, out: seq<Word>, base: nat, node: nat)
    requires univ > 0 && height < |keys| && OnPath(e, keys, height, node) && base + Pow2(height) <= |out|
    requires SameOutsideOf(before, out, base, height) && node < Pow2(height)
    requires Written(e, keys[0], height, univ, out, base, node)
    ensures var out' := out[base + node := Leaf(keys[height], univ)];
            Written(e, keys[0], height, univ, out', base, node + 1) && SameOutsideOf(before, out', base, height)
  {
    PathKey(e, keys, height, node);
    TreeEvalIsLeaf(e, keys[0], height, univ, node);
  }

  ghost predicate SameOutsideOf(before: seq<Word>, after: seq<Word>, base: nat, height: nat) {
    base + Pow2(height) <= |before| && SameOutside(before, after, base, Pow2(height))
  }

  /** The buffer from the path's keys: one level down. */
  method Descend(e: Cipher, path: array<Block>, pos: nat, right: bool, ghost node: nat)
    requires pos + 1 < path.Length && OnPath(e, path[..], pos, node)
    modifies path
    ensures OnPath(e, path[..], pos + 1, 2 * node + if right then 1 else 0) && path[0] == old(path[0])
  {
    PathDown(e, path[..], pos, node, right);
    path[pos + 1] := Child(e, path[pos], right);
  }

  method PutLeaf(e: Cipher, path: array<Block>, height: nat, univ: Word,
                 ghost before: seq<Word>, out: array<Word>, base: nat, node: nat)
    requires univ > 0 && height < path.Length && OnPath(e, path[..], height, node) && node < Pow2(height)
    requires SameOutsideOf(before, out[..], base, height) && Written(e, path[0], height, univ, out[..], base, node)
    modifies out
    ensures SameOutsideOf(before, out[..], base, height) && Written(e, path[0], height, univ, out[..], base, node + 1)
  {
    WriteLeaf(e, path[..], height, univ, before, out[..], base, node);
    out[base + node] := Leaf(path[height], univ);
  }

  /** A sequence with the elements of `x` from position `base` on. */
  function Overwrite(s: seq<Word>, base: nat, x: seq<Word>): (r: seq<Word>)
    requires base + |x| <= |s|
    ensures |r| == |s|
  {
    s[..base] + x + s[base + |x|..]
  }

  /** From a written leaf to the next subtree on the right, if there is one. */
  method NextSubtree(e: Cipher, path: array<Block>, height: nat, leaf: nat) returns (h: nat, pos: int, node: nat)
    requires height < path.Length && OnPath(e, path[..], height, leaf)
    modifies path
    ensures path[0] == old(path[0]) && (h <= height || h == height + 1)
    ensures h > height ==> leaf + 1 == Pow2(height)
    ensures h <= height ==> && pos == height - h && OnPath(e, path[..], pos, node)
                            && StartsAt(node, h, height, leaf + 1)
  {
    h, pos, node := Climb(e, path[..], height, leaf);
    if h <= height {
      Descend(e, path, pos, true, node);
      node := 2 * node + 1;
      h, pos := h - 1, pos + 1;
      DoneBound(e, path[..], node, pos, h, height);
    }
  }

  lemma AllWritten(e: Cipher, seed: Block, height: nat, univ: Word, before: seq<Word>, out: seq<Word>, base: nat)
    requires univ > 0 && SameOutsideOf(before, out, base, height)
    requires Written(e, seed, height, univ, out, base, Pow2(height))
    ensures out == Overwrite(before, base, Leaves(e, seed, height, univ))
  {
    assert out == out[..base] + out[base..base + Pow2(height)] + out[base + Pow2(height)..];
    assert out[base..base + Pow2(height)] == Leaves(e, seed, height, univ);
  }

  /** treeEvalAll: one walk over the tree, in place. */
  method TreeEvalAll(e: Cipher, path: array<Block>, height: nat, univ: Word, out: array<Word>, base: nat)
    requires univ > 0 && height < path.Length && base + Pow2(height) <= out.Length
    modifies path, out
    ensures out[..] == Overwrite(old(out[..]), base, Leaves(e, old(path[0]), height, univ))
  {
    var h: nat, pos: int, node: nat := height, 0, 0;
    ghost var before := out[..];
    ghost var done: nat := 0;
    while true
      invariant h <= height && pos == height - h && OnPath(e, path[..], pos, node)
      invariant path[0] == old(path[0]) && StartsAt(node, h, height, done)
      invariant SameOutsideOf(before, out[..], base, height) && Written(e, path[0], height, univ, out[..], base, done)
      decreases Pow2(height) - done, h
    {
      if h == 0 {
        LeafStart(node, height, done);
        PutLeaf(e, path, height, univ, before, out, base, node);
        done := node + 1;
        h, pos, node := NextSubtree(e, path, height, node);
        if h > height {
          break;
        }
        continue;
      }
      LeftChildStart(node, h, height, done);
      Descend(e, path, pos, false, node);
      node := 2 * node;
      h, pos := h - 1, pos + 1;
    }
    AllWritten(e, path[0], height, univ, before, out[..], base);
  }
}
