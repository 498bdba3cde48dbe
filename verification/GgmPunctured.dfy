/** Puncturing in the client's own form: the keys beside the path to the hole, and the
    recursive evaluation from them. */
module GgmPunctured {
  import opened Permutations
  import opened Powers
  import opened GgmTree
  import opened GgmDepthFirst

  datatype GgmSet = GgmSet(key: Block, setSize: nat, univ: Word)
  datatype PuncturedGgmSet = PuncturedGgmSet(keys: seq<Block>, hole: nat, setSize: nat, univ: Word, height: nat)

  predicate ValidSet(s: GgmSet) {
    s.univ > 0 && s.setSize >= 1
  }

  // ----- What sets stand for -----

  /** The elements of a set: the first leaves of its tree. */
  function Elements(e: Cipher, s: GgmSet): (r: seq<Word>)
    requires ValidSet(s)
    ensures |r| == s.setSize
  {
    Leaves(e, s.key, CeilLog2(s.setSize), s.univ)[..s.setSize]
  }

  /** The keys beside the path to `pos`, from the root down. */
  function Copath(e: Cipher, key: Block, height: nat, pos: nat): (r: seq<Block>)
    ensures |r| == height
    decreases height
  {
    if height == 0 then []
    else
      var right := pos >= Pow2(height - 1);
      [Child(e, key, !right)] + Copath(e, Child(e, key, right), height - 1, Cleared(pos, height - 1))
  }

  /** puncturedTreeEvalAll: what it writes. */
  function PunctLeaves(e: Cipher, keys: seq<Block>, hole: nat, height: nat, univ: Word): (r: seq<Word>)
    requires univ > 0 && |keys| == height && hole < Pow2(height)
    ensures |r| == Pow2(height) - 1
    decreases height
  {
    if height == 0 then []
    else if hole < Pow2(height - 1) then
      PunctLeaves(e, keys[1..], hole, height - 1, univ) + Leaves(e, keys[0], height - 1, univ)
    else
      Leaves(e, keys[0], height - 1, univ) + PunctLeaves(e, keys[1..], hole - Pow2(height - 1), height - 1, univ)
  }

  // ----- Correctness -----

  lemma TreeEvalSplit(e: Cipher, key: Block, height: nat, univ: Word, p: nat)
    requires univ > 0 && height >= 1 && p < Pow2(height)
    ensures TreeEval(e, key, height, univ, p) ==
            if p < Pow2(height - 1) then TreeEval(e, Child(e, key, false), height - 1, univ, p)
            else TreeEval(e, Child(e, key, true), height - 1, univ, p - Pow2(height - 1))
  {
    ClearedBound(p, height - 1);
  }

  /** The leaves of a tree are those of its left half and those of its right half. */
  lemma LeavesSplit(e: Cipher, key: Block, height: nat, univ: Word)
    requires univ > 0 && height >= 1
    ensures Leaves(e, key, height, univ)
         == Leaves(e, Child(e, key, false), height - 1, univ) + Leaves(e, Child(e, key, true), height - 1, univ)
  {
    var left := Leaves(e, Child(e, key, false), height - 1, univ);
    var right := Leaves(e, Child(e, key, true), height - 1, univ);
    forall p | 0 <= p < Pow2(height)
      ensures Leaves(e, key, height, univ)[p] == (left + right)[p]
    {
      TreeEvalSplit(e, key, height, univ, p);
    }
  }

  lemma RemoveLeft<T>(a: seq<T>, b: seq<T>, k: nat)
    requires k < |a|
    ensures RemoveAt(a + b, k) == RemoveAt(a, k) + b
  {
  }

  lemma RemoveRight<T>(a: seq<T>, b: seq<T>, k: nat, at: nat)
    requires k < |b| && at == |a| + k
    ensures RemoveAt(a + b, at) == a + RemoveAt(b, k)
  {
  }

  /** One level: the half without the hole comes from its key, the other from below. */
  lemma PunctUnfold(e: Cipher, key: Block, height: nat, univ: Word, hole: nat)
    requires univ > 0 && height >= 1 && hole < Pow2(height)
    ensures Cleared(hole, height - 1) < Pow2(height - 1)
    ensures var right, sub := hole >= Pow2(height - 1), Cleared(hole, height - 1);
            var below := PunctLeaves(e, Copath(e, Child(e, key, right), height - 1, sub), sub, height - 1, univ);
            PunctLeaves(e, Copath(e, key, height, hole), hole, height, univ)
            == if right then Leaves(e, Child(e, key, false), height - 1, univ) + below
               else below + Leaves(e, Child(e, key, true), height - 1, univ)
  {
    ClearedBound(hole, height - 1);
    var keys := Copath(e, key, height, hole);
    assert keys[1..] == Copath(e, Child(e, key, hole >= Pow2(height - 1)), height - 1, Cleared(hole, height - 1));
  }

  /** From the keys beside the path come all leaves but the hole's, in order. */
  ghost predicate PunctRight(e: Cipher, key: Block, height: nat, univ: Word, hole: nat)
    requires univ > 0 && hole < Pow2(height)
  {
    PunctLeaves(e, Copath(e, key, height, hole), hole, height, univ) == RemoveAt(Leaves(e, key, height, univ), hole)
  }

  lemma PunctNext(e: Cipher, key: Block, height: nat, univ: Word, hole: nat, sub: nat)
    requires univ > 0 && height > 0 && hole < Pow2(height) && sub == Cleared(hole, height - 1) < Pow2(height - 1)
    requires PunctRight(e, Child(e, key, hole >= Pow2(height - 1)), height - 1, univ, sub)
    ensures PunctRight(e, key, height, univ, hole)
  {
    var left := Leaves(e, Child(e, key, false), height - 1, univ);
    LeavesSplit(e, key, height, univ);
    ClearedBound(hole, height - 1);
    PunctUnfold(e, key, height, univ, hole);
    if hole >= Pow2(height - 1) {
      RemoveRight(left, Leaves(e, Child(e, key, true), height - 1, univ), sub, hole);
    } else {
      RemoveLeft(left, Leaves(e, Child(e, key, true), height - 1, univ), hole);
    }
  }

  lemma {:induction false} PunctLeavesRight(e: Cipher, key: Block, height: nat, univ: Word, hole: nat)
    requires univ > 0 && hole < Pow2(height)
    ensures PunctRight(e, key, height, univ, hole)
    decreases height
  {
    if height > 0 {
      ClearedBound(hole, height - 1);
      PunctLeavesRight(e, Child(e, key, hole >= Pow2(height - 1)), height - 1, univ, Cleared(hole, height - 1));
      PunctNext(e, key, height, univ, hole, Cleared(hole, height - 1));
    }
  }

  /** The theorem for sets: puncturing at a position and evaluating gives the set without
      that element. */
  lemma PuncturedSetEval(e: Cipher, s: GgmSet, hole: nat)
    requires ValidSet(s) && hole < s.setSize
    ensures var h := CeilLog2(s.setSize);
            PunctLeaves(e, Copath(e, s.key, h, hole), hole, h, s.univ)[..s.setSize - 1] == RemoveAt(Elements(e, s), hole)
  {
    PunctLeavesRight(e, s.key, CeilLog2(s.setSize), s.univ, hole);
  }

  // ----- What a punctured set leaves out -----

  /** Node `x` of layer d + 1 is a child of the ancestor of `pos`, but not itself an ancestor. */
  ghost predicate BesideIndex(pos: nat, height: nat, d: nat, x: nat)
    requires d < height
  {
    x / 2 == pos / Pow2(height - d) && x != pos / Pow2(height - d - 1) && x < Pow2(d + 1)
  }

  /** Key `d` is that of a node beside the path to `pos`. */
  ghost predicate Beside(e: Cipher, key: Block, height: nat, pos: nat, d: nat, beside: Block)
    requires d < height
  {
    exists x: nat :: BesideIndex(pos, height, d, x) && beside == NodeAt(e, key, d + 1, x)
  }

  lemma HalfPath(pos: nat, p: nat)
    requires p > 0 && pos < 2 * p
    ensures pos / p == if pos >= p then 1 else 0
    ensures pos / (2 * p) == 0
  {
    if pos >= p {
      DivModUnique(pos, p, 1, pos - p);
    } else {
      DivModUnique(pos, p, 0, pos);
    }
    DivModUnique(pos, 2 * p, 0, pos);
  }

  lemma FirstBeside(e: Cipher, key: Block, height: nat, pos: nat)
    requires 0 < height && pos < Pow2(height)
    ensures Beside(e, key, height, pos, 0, Child(e, key, pos < Pow2(height - 1)))
  {
    HalfPath(pos, Pow2(height - 1));
    var x: nat := if pos < Pow2(height - 1) then 1 else 0;
    assert Pow2(0) == 1 && Pow2(1) == 2;
    assert NodeAt(e, key, 1, x) == Child(e, NodeAt(e, key, 0, x / 2), x % 2 == 1);
    assert NodeAt(e, key, 0, x / 2) == key;
    assert BesideIndex(pos, height, 0, x);
  }

  /** Quotients of a position in the upper half, by those of its place in that half. */
  lemma UpperQuotient(pos: nat, sub: nat, a: nat, b: nat)
    requires pos == Pow2(a + b) + sub
    ensures pos / Pow2(b) == Pow2(a) + sub / Pow2(b)
  {
    Pow2Split(a, b);
    DivMod(sub, Pow2(b));
    QuotientNat(sub, Pow2(b));
    Distributed(Pow2(a), sub / Pow2(b), Pow2(b));
    DivModUnique(pos, Pow2(b), Pow2(a) + sub / Pow2(b), sub % Pow2(b));
  }

  lemma Distributed(a: nat, q: nat, p: nat)
    ensures a * p + p * q == p * (a + q)
  {
  }

  lemma UpperHalf(x: nat, p: nat)
    ensures (2 * p + x) / 2 == p + x / 2
  {
  }

  lemma UpperIndex(pos: nat, sub: nat, height: nat, d: nat, y: nat)
    requires 0 < d < height && pos == Pow2(height - 1) + sub && BesideIndex(sub, height - 1, d - 1, y)
    ensures BesideIndex(pos, height, d, Pow2(d) + y)
  {
    UpperQuotient(pos, sub, d - 1, height - d);
    UpperQuotient(pos, sub, d, height - d - 1);
    UpperHalf(y, Pow2(d - 1));
  }

  lemma LowerIndex(pos: nat, height: nat, d: nat, y: nat)
    requires 0 < d < height && BesideIndex(pos, height - 1, d - 1, y)
    ensures BesideIndex(pos, height, d, y)
  {
  }

  /** A node of one half is a node of the tree. */
  lemma HalfNode(e: Cipher, key: Block, d: nat, y: nat, right: bool)
    requires y < Pow2(d)
    ensures NodeAt(e, key, d + 1, if right then Pow2(d) + y else y) == NodeAt(e, Child(e, key, right), d, y)
  {
    NodeFromTop(e, key, d + 1, if right then Pow2(d) + y else y);
  }

  /** A key beside the path in the lower or upper half is beside the path in the tree. */
  lemma NextBeside(e: Cipher, key: Block, height: nat, pos: nat, sub: nat, d: nat, beside: Block)
    requires 0 < d < height && pos < Pow2(height) && sub == InHalf(pos, Pow2(height - 1))
    requires Beside(e, Child(e, key, pos >= Pow2(height - 1)), height - 1, sub, d - 1, beside)
    ensures Beside(e, key, height, pos, d, beside)
  {
    var right := pos >= Pow2(height - 1);
    var y: nat :| BesideIndex(sub, height - 1, d - 1, y) && beside == NodeAt(e, Child(e, key, right), d, y);
    HalfNode(e, key, d, y, right);
    if right {
      UpperIndex(pos, sub, height, d, y);
    } else {
      LowerIndex(pos, height, d, y);
    }
  }

  /** A punctured set holds nothing but keys beside the path to the hole. */
  lemma {:induction false} CopathBeside(e: Cipher, key: Block, height: nat, pos: nat, d: nat)
    requires d < height && pos < Pow2(height)
    ensures Beside(e, key, height, pos, d, Copath(e, key, height, pos)[d])
    decreases height
  {
    if d == 0 {
      FirstBeside(e, key, height, pos);
    } else {
      ClearedBound(pos, height - 1);
      CopathBeside(e, Child(e, key, pos >= Pow2(height - 1)), height - 1, Cleared(pos, height - 1), d - 1);
      NextBeside(e, key, height, pos, Cleared(pos, height - 1), d, Copath(e, key, height, pos)[d]);
    }
  }

  lemma CopathAllBeside(e: Cipher, key: Block, height: nat, pos: nat)
    requires pos < Pow2(height)
    ensures forall d | 0 <= d < height :: Beside(e, key, height, pos, d, Copath(e, key, height, pos)[d])
  {
    forall d | 0 <= d < height
      ensures Beside(e, key, height, pos, d, Copath(e, key, height, pos)[d])
    {
      CopathBeside(e, key, height, pos, d);
    }
  }

  // ----- Methods -----

  /** Eval: with a buffer of one key a level. */
  method Eval(e: Cipher, s: GgmSet) returns (elems: seq<Word>)
    requires ValidSet(s)
    ensures elems == Elements(e, s)
  {
    var height := CeilLog2(s.setSize);
    var out := new Word[Pow2(height)];
    var path := new Block[height + 1](i => s.key);
    TreeEvalAll(e, path, height, s.univ, out, 0);
    elems := out[..s.setSize];
  }

  /** The first position of an element; -1 if there is none. */
  method FindPos(e: Cipher, s: GgmSet, idx: Word) returns (pos: int)
    requires ValidSet(s)
    ensures pos == -1 <==> idx !in Elements(e, s)
    ensures pos != -1 ==> 0 <= pos < s.setSize && Elements(e, s)[pos] == idx && idx !in Elements(e, s)[..pos]
  {
    var elems := Eval(e, s);
    for i := 0 to |elems|
      invariant idx !in elems[..i]
    {
      if elems[i] == idx {
        return i;
      }
    }
    pos := -1;
  }

  /** Punc: None when the element is not in the set. */
  method Punc(e: Cipher, s: GgmSet, idx: Word) returns (ok: bool, r: PuncturedGgmSet)
    requires ValidSet(s)
    ensures ok <==> idx in Elements(e, s)
    ensures ok ==> && r.hole < s.setSize && Elements(e, s)[r.hole] == idx && idx !in Elements(e, s)[..r.hole]
                   && r == PuncturedGgmSet(Copath(e, s.key, CeilLog2(s.setSize), r.hole), r.hole,
                                           s.setSize - 1, s.univ, CeilLog2(s.setSize))
    ensures ok ==> |r.keys| == r.height && r.hole < Pow2(r.height)
    ensures ok ==> forall d | 0 <= d < r.height :: Beside(e, s.key, r.height, r.hole, d, r.keys[d])
  {
    var hole := FindPos(e, s, idx);
    if hole < 0 {
      return false, PuncturedGgmSet([], 0, 0, s.univ, 0);
    }
    var keys := CopathKeys(e, s.key, CeilLog2(s.setSize), hole);
    CopathAllBeside(e, s.key, CeilLog2(s.setSize), hole);
    return true, PuncturedGgmSet(keys, hole, s.setSize - 1, s.univ, CeilLog2(s.setSize));
  }

  /** The keys collected so far, with those beside the rest of the path. */
  ghost predicate Collected(e: Cipher, key: Block, height: nat, hole: nat, keys: seq<Block>, k: Block, h: nat, pos: nat) {
    keys + Copath(e, k, h, pos) == Copath(e, key, height, hole)
  }

  lemma CollectNone(e: Cipher, key: Block, height: nat, hole: nat)
    ensures Collected(e, key, height, hole, [], key, height, hole)
  {
    assert [] + Copath(e, key, height, hole) == Copath(e, key, height, hole);
  }

  lemma CollectNext(e: Cipher, key: Block, height: nat, hole: nat, keys: seq<Block>, k: Block, h: nat, pos: nat)
    requires h > 0 && Collected(e, key, height, hole, keys, k, h, pos)
    ensures var right := pos >= Pow2(h - 1);
            Collected(e, key, height, hole, keys + [Child(e, k, !right)], Child(e, k, right), h - 1, Cleared(pos, h - 1))
  {
    var right := pos >= Pow2(h - 1);
    var rest := Copath(e, Child(e, k, right), h - 1, Cleared(pos, h - 1));
    assert keys + ([Child(e, k, !right)] + rest) == (keys + [Child(e, k, !right)]) + rest;
  }

  lemma CollectAll(e: Cipher, key: Block, height: nat, hole: nat, keys: seq<Block>, k: Block, pos: nat)
    requires Collected(e, key, height, hole, keys, k, 0, pos)
    ensures keys == Copath(e, key, height, hole)
  {
    assert keys + [] == keys;
  }

  /** One level of Punc: the key beside the path, and the key and position to go on with. */
  method CopathLevel(e: Cipher, key: Block, h: nat, pos: nat) returns (copathKey: Block, pathKey: Block, rest: nat)
    requires h > 0
    ensures var right := pos >= Pow2(h - 1);
            copathKey == Child(e, key, !right) && pathKey == Child(e, key, right) && rest == Cleared(pos, h - 1)
  {
    if pos < Pow2(h - 1) {
      pathKey, copathKey := Child(e, key, false), Child(e, key, true);
    } else {
      copathKey, pathKey := Child(e, key, false), Child(e, key, true);
    }
    rest := Cleared(pos, h - 1);
  }

  method CopathKeys(e: Cipher, key: Block, height: nat, hole: nat) returns (keys: seq<Block>)
    ensures keys == Copath(e, key, height, hole)
  {
    keys := [];
    var k: Block, pos: nat, h: nat := key, hole, height;
    CollectNone(e, key, height, hole);
    while h > 0
      invariant Collected(e, key, height, hole, keys, k, h, pos)
      decreases h
    {
      CollectNext(e, key, height, hole, keys, k, h, pos);
      var copathKey;
      copathKey, k, pos := CopathLevel(e, k, h, pos);
      keys := keys + [copathKey];
      h := h - 1;
    }
    CollectAll(e, key, height, hole, keys, k, pos);
  }

  /** Two writes, one right behind the other, are one. */
  lemma TwoWrites(s: seq<Word>, base: nat, x: seq<Word>, y: seq<Word>, behind: nat, both: seq<Word>)
    requires base + |x| + |y| <= |s| && behind == base + |x| && both == x + y
    ensures Overwrite(Overwrite(s, base, x), behind, y) == Overwrite(s, base, both)
  {
  }

  lemma NoWrite(s: seq<Word>, base: nat)
    requires base <= |s|
    ensures Overwrite(s, base, []) == s
  {
  }

  method FromKey(e: Cipher, key: Block, height: nat, univ: Word, out: array<Word>, base: nat)
    requires univ > 0 && base + Pow2(height) <= out.Length
    modifies out
    ensures out[..] == Overwrite(old(out[..]), base, Leaves(e, key, height, univ))
  {
    var path := new Block[height + 2](i => key);
    TreeEvalAll(e, path, height, univ, out, base);
  }

  /** puncturedTreeEvalAll: writes the leaves from position `base` on. */
  method PuncturedTreeEvalAll(e: Cipher, keys: seq<Block>, hole: nat, height: nat, univ: Word,
                              out: array<Word>, base: nat)
    requires univ > 0 && |keys| == height && hole < Pow2(height) && base + Pow2(height) - 1 <= out.Length
    modifies out
    ensures out[..] == Overwrite(old(out[..]), base, PunctLeaves(e, keys, hole, height, univ))
    decreases height, 1
  {
    if height == 0 {
      NoWrite(out[..], base);
    } else if hole < Pow2(height - 1) {
      HoleOnLeft(e, keys, hole, height, univ, out, base);
    } else {
      HoleOnRight(e, keys, hole, height, univ, out, base);
    }
  }

  method HoleOnLeft(e: Cipher, keys: seq<Block>, hole: nat, height: nat, univ: Word, out: array<Word>, base: nat)
    requires univ > 0 && |keys| == height > 0 && hole < Pow2(height - 1) && base + Pow2(height) - 1 <= out.Length
    modifies out
    ensures out[..] == Overwrite(old(out[..]), base, PunctLeaves(e, keys, hole, height, univ))
    decreases height, 0
  {
    var behind: nat := base + Pow2(height - 1) - 1;
    LeftThenRight(out[..], base, behind, e, keys, hole, height, univ);
    PuncturedTreeEvalAll(e, keys[1..], hole, height - 1, univ, out, base);
    FromKey(e, keys[0], height - 1, univ, out, behind);
  }

  /** The two writes for a hole on the left. */
  lemma LeftThenRight(before: seq<Word>, base: nat, behind: nat,
                      e: Cipher, keys: seq<Block>, hole: nat, height: nat, univ: Word)
    requires univ > 0 && |keys| == height > 0 && hole < Pow2(height - 1)
    requires base + Pow2(height) - 1 <= |before| && behind == base + Pow2(height - 1) - 1
    ensures behind + Pow2(height - 1) <= |before|
    ensures Overwrite(Overwrite(before, base, PunctLeaves(e, keys[1..], hole, height - 1, univ)), behind,
                      Leaves(e, keys[0], height - 1, univ))
         == Overwrite(before, base, PunctLeaves(e, keys, hole, height, univ))
  {
    TwoWrites(before, base, PunctLeaves(e, keys[1..], hole, height - 1, univ), Leaves(e, keys[0], height - 1, univ),
              behind, PunctLeaves(e, keys, hole, height, univ));
  }

  method HoleOnRight(e: Cipher, keys: seq<Block>, hole: nat, height: nat, univ: Word, out: array<Word>, base: nat)
    requires univ > 0 && |keys| == height > 0 && Pow2(height - 1) <= hole < Pow2(height)
    requires base + Pow2(height) - 1 <= out.Length
    modifies out
    ensures out[..] == Overwrite(old(out[..]), base, PunctLeaves(e, keys, hole, height, univ))
    decreases height, 0
  {
    var behind: nat := base + Pow2(height - 1);
    var rest: nat := hole - Pow2(height - 1);
    RightThenLeft(out[..], base, behind, e, keys, hole, height, univ);
    FromKey(e, keys[0], height - 1, univ, out, base);
    PuncturedTreeEvalAll(e, keys[1..], rest, height - 1, univ, out, behind);
  }

  /** The two writes for a hole on the right. */
  lemma RightThenLeft(before: seq<Word>, base: nat, behind: nat,
                      e: Cipher, keys: seq<Block>, hole: nat, height: nat, univ: Word)
    requires univ > 0 && |keys| == height > 0 && Pow2(height - 1) <= hole < Pow2(height)
    requires base + Pow2(height) - 1 <= |before| && behind == base + Pow2(height - 1)
    ensures behind + Pow2(height - 1) - 1 <= |before|
    ensures Overwrite(Overwrite(before, base, Leaves(e, keys[0], height - 1, univ)), behind,
                      PunctLeaves(e, keys[1..], hole - Pow2(height - 1), height - 1, univ))
         == Overwrite(before, base, PunctLeaves(e, keys, hole, height, univ))
  {
    TwoWrites(before, base, Leaves(e, keys[0], height - 1, univ),
              PunctLeaves(e, keys[1..], hole - Pow2(height - 1), height - 1, univ), behind,
              PunctLeaves(e, keys, hole, height, univ));
  }

  /** Eval of a punctured set. */
  method EvalPunctured(e: Cipher, s: PuncturedGgmSet) returns (elems: seq<Word>)
    requires s.univ > 0 && |s.keys| == s.height && s.hole < Pow2(s.height) && s.setSize < Pow2(s.height)
    ensures elems == PunctLeaves(e, s.keys, s.hole, s.height, s.univ)[..s.setSize]
  {
    var out := new Word[Pow2(s.height)];
    PuncturedTreeEvalAll(e, s.keys, s.hole, s.height, s.univ, out, 0);
    elems := out[..s.setSize];
  }

  /** From end to end: what a server sees of a set punctured at an element is the set with
      the first occurrence of the element left out. */
  method PuncAndEval(e: Cipher, s: GgmSet, idx: Word) returns (ok: bool, elems: seq<Word>)
    requires ValidSet(s)
    ensures ok <==> idx in Elements(e, s)
    ensures ok ==> exists hole | 0 <= hole < s.setSize ::
              && Elements(e, s)[hole] == idx && idx !in Elements(e, s)[..hole]
              && elems == RemoveAt(Elements(e, s), hole)
  {
    var r;
    ok, r := Punc(e, s, idx);
    if !ok {
      return false, [];
    }
    PuncturedSetEval(e, s, r.hole);
    elems := EvalPunctured(e, r);
  }
}
