/** The in-place kernels of the set generator: both evaluations expand the tree layer by
    layer in the `keys` buffer, through the `tmp` buffer, whatever these held before. */
module GgmSets {
  import opened Permutations
  import opened Powers
  import opened GgmTree

  class Generator {
    const univSize: Word
    const setSize: nat
    const keys: array<Block>
    const tmp: array<Block>

    ghost predicate Valid() {
      && univSize > 0 && setSize >= 1
      && keys.Length == tmp.Length == Pow2(Height(setSize)) && keys != tmp
    }

    /** pset_ggm_init: two buffers of 2^height blocks, with arbitrary contents. */
    constructor (univSize: Word, setSize: nat)
      requires univSize > 0 && setSize >= 1
      ensures Valid() && this.univSize == univSize && this.setSize == setSize
      ensures fresh(keys) && fresh(tmp)
    {
      this.univSize, this.setSize := univSize, setSize;
      var height := GetHeight(setSize);
      keys := new Block[Pow2(height)](_ => ONE);
      tmp := new Block[Pow2(height)](_ => ONE);
    }

    /** The keys of a layer, each followed by its toggled copy. */
    method Duplicate(width: nat)
      requires Valid() && 2 * width <= keys.Length
      modifies tmp
      ensures tmp[..2 * width] == Doubled(keys[..width])
    {
      for i := 0 to width
        invariant tmp[..2 * i] == Doubled(keys[..i])
      {
        var key := keys[i];
        tmp[2 * i] := key;
        key := XorBlock(key, ONE);
        tmp[2 * i + 1] := key;
        DoubledSnoc(keys[..i], keys[i]);
        assert keys[..i + 1] == keys[..i] + [keys[i]];
        assert tmp[..2 * (i + 1)] == tmp[..2 * i] + [tmp[2 * i], tmp[2 * i + 1]];
      }
    }

    method EncryptEcb(e: Cipher, count: nat)
      requires Valid() && count <= keys.Length
      modifies keys
      ensures forall i | 0 <= i < count :: keys[i] == e(tmp[i])
    {
      for i := 0 to count
        invariant forall j | 0 <= j < i :: keys[j] == e(tmp[j])
      {
        keys[i] := e(tmp[i]);
      }
    }

    /** encryptECBBlocks followed by the xor with the input. */
    method Encrypt(e: Cipher, count: nat)
      requires Valid() && count <= keys.Length
      modifies keys
      ensures forall i | 0 <= i < count :: keys[i] == XorBlock(e(tmp[i]), tmp[i])
    {
      EncryptEcb(e, count);
      for i := 0 to count
        invariant forall j | 0 <= j < i :: keys[j] == XorBlock(e(tmp[j]), tmp[j])
        invariant forall j | i <= j < count :: keys[j] == e(tmp[j])
      {
        keys[i] := XorBlock(keys[i], tmp[i]);
      }
    }

    /** Replaces the keys of a layer by their children. */
    method ExpandLayer(e: Cipher, width: nat)
      requires Valid() && 2 * width <= keys.Length
      modifies keys, tmp
      ensures keys[..2 * width] == Expanded(e, old(keys[..width]))
    {
      Duplicate(width);
      Encrypt(e, 2 * width);
    }

    /** Word `i` of the buffer, mapped into the universe. */
    function ElementAt(i: nat): Word
      requires Valid() && i < setSize
      reads keys
    {
      LayerWidth(setSize, i);
      Pow2Monotone(Layers(setSize), Height(setSize));
      ToRange(WordOf(keys[i / 4], i % 4), univSize)
    }

    method ReadElements() returns (elems: seq<Word>)
      requires Valid()
      ensures |elems| == setSize && forall i | 0 <= i < setSize :: elems[i] == ElementAt(i)
    {
      elems := [];
      for i := 0 to setSize
        invariant |elems| == i && forall j | 0 <= j < i :: elems[j] == ElementAt(j)
      {
        elems := elems + [ElementAt(i)];
      }
    }

    method ReadElementsExcept(pos: nat) returns (elems: seq<Word>)
      requires Valid() && pos < setSize
      ensures |elems| == setSize - 1
      ensures forall j | 0 <= j < setSize - 1 :: elems[j] == ElementAt(if j < pos then j else j + 1)
    {
      elems := [];
      for i := 0 to setSize
        invariant |elems| == if i <= pos then i else i - 1
        invariant forall j | 0 <= j < |elems| :: elems[j] == ElementAt(if j < pos then j else j + 1)
      {
        if i == pos {
          continue;
        }
        elems := elems + [ElementAt(i)];
      }
    }

    method ExpandNext(e: Cipher, ghost seed: Block, depth: nat)
      requires Valid() && depth < Height(setSize) && Pow2(depth) <= keys.Length
      requires keys[..Pow2(depth)] == LayerKeys(e, seed, depth)
      modifies keys, tmp
      ensures Pow2(depth + 1) <= keys.Length && keys[..Pow2(depth + 1)] == LayerKeys(e, seed, depth + 1)
    {
      Pow2Monotone(depth + 1, Height(setSize));
      ExpandLayer(e, Pow2(depth));
      LayerKeysStep(e, seed, depth);
    }

    /** All layers from the seed. */
    method ExpandAll(e: Cipher, seed: Block)
      requires Valid()
      modifies keys, tmp
      ensures Pow2(Layers(setSize)) <= keys.Length
      ensures keys[..Pow2(Layers(setSize))] == LayerKeys(e, seed, Layers(setSize))
    {
      var height := GetHeight(setSize);
      keys[0] := seed;
      var depth := 0;
      while depth < height - 2
        invariant 0 <= depth <= Layers(setSize) && Pow2(depth) <= keys.Length
        invariant keys[..Pow2(depth)] == LayerKeys(e, seed, depth)
      {
        ExpandNext(e, seed, depth);
        depth := depth + 1;
      }
    }

    /** tree_eval_all2. */
    method Eval(e: Cipher, seed: Block) returns (elems: seq<Word>)
      requires Valid()
      modifies keys, tmp
      ensures elems == FullEval(e, seed, univSize, setSize)
    {
      ExpandAll(e, seed);
      ghost var layer := keys[..Pow2(Layers(setSize))];
      elems := ReadElements();
      forall i | 0 <= i < setSize
        ensures elems[i] == Element(e, seed, univSize, setSize, i)
      {
        LayerWidth(setSize, i);
        assert keys[i / 4] == layer[i / 4];
      }
    }

    /** One level of the path: the key kept for the other side, and the key to go on with. */
    method PuncStep(e: Cipher, key: Block, right: bool) returns (kept: Block, next: Block)
      ensures kept == ChildKey(e, key, !right) && next == ChildKey(e, key, right)
    {
      var k := key;
      var child0 := e(k);
      k := XorBlock(k, ONE);
      var child1 := XorBlock(e(k), k);
      ToggleTwice(key);
      k := XorBlock(k, ONE);
      child0 := XorBlock(child0, k);
      if right {
        kept, next := child0, child1;
      } else {
        kept, next := child1, child0;
      }
    }

    /** pset_ggm_punc: down the path to `pos`, keeping the sibling of every key. */
    method Punc(e: Cipher, seed: Block, pos: nat) returns (pset: seq<Block>)
      requires Valid() && pos < setSize
      ensures pset == PuncKeys(e, seed, setSize, pos)
      ensures 16 * |pset| == BufferSize(setSize)
      ensures LeavesOut(e, seed, setSize, pos, pset)
    {
      var key;
      pset, key := PuncLoop(e, seed, pos);
      LeafPath(setSize, pos);
      pset := pset + [ClearWord(key, pos % 4)];
      PuncturedEval(e, seed, univSize, setSize, pos);
      PuncLeavesOut(e, seed, setSize, pos);
    }

    method PuncLevel(e: Cipher, ghost seed: Block, pos: nat, h: nat, depth: nat, key: Block)
      returns (kept: Block, next: Block)
      requires depth < h && key == NodeKey(e, seed, depth, Path(pos, h, depth))
      ensures kept == NodeKey(e, seed, depth + 1, Sibling(Path(pos, h, depth + 1)))
      ensures next == NodeKey(e, seed, depth + 1, Path(pos, h, depth + 1))
    {
      PathChildren(e, seed, pos, h, depth);
      kept, next := PuncStep(e, key, BitOf(pos, h - depth - 1));
    }

    method PuncLoop(e: Cipher, seed: Block, pos: nat) returns (pset: seq<Block>, key: Block)
      requires Valid() && pos < setSize
      ensures pset == Siblings(e, seed, Height(setSize), pos, Layers(setSize))
      ensures key == NodeKey(e, seed, Layers(setSize), Path(pos, Height(setSize), Layers(setSize)))
    {
      var height := GetHeight(setSize);
      var h := height;
      var depth := 0;
      key := seed;
      LeafPath(setSize, pos);
      PathRoot(pos, h);
      pset := [];
      while height > 2
        invariant 0 <= depth <= Layers(setSize) && depth + height == h
        invariant pset == Siblings(e, seed, h, pos, depth)
        invariant key == NodeKey(e, seed, depth, Path(pos, h, depth))
        decreases height
      {
        var kept, next := PuncLevel(e, seed, pos, h, depth, key);
        SiblingsSnoc(e, seed, h, pos, depth);
        pset := pset + [kept];
        key := next;
        depth := depth + 1;
        height := height - 1;
      }
    }

    /** One layer of pset_ggm_eval_punc: expand everything, then put in the sibling of the
        path; the key on the path itself stays garbage. */
    method EvalPuncStep(e: Cipher, width: nat, sibling: nat, known: Block)
      requires Valid() && sibling < 2 * width <= keys.Length
      modifies keys, tmp
      ensures keys[..2 * width] == Expanded(e, old(keys[..width]))[sibling := known]
    {
      ExpandLayer(e, width);
      keys[sibling] := known;
    }

    method LoadStep(e: Cipher, pset: seq<Block>, pos: nat, depth: nat, height: nat)
      requires Valid() && pos < setSize && depth < |pset| && pos < Pow2(Height(setSize))
      requires depth + 1 + height == Height(setSize) && Pow2(depth) <= keys.Length
      requires PuncLayer(e, pset, Height(setSize), pos, depth, keys[..Pow2(depth)])
      modifies keys, tmp
      ensures Pow2(depth + 1) <= keys.Length
      ensures PuncLayer(e, pset, Height(setSize), pos, depth + 1, keys[..Pow2(depth + 1)])
    {
      Pow2Monotone(depth + 1, Height(setSize));
      PuncLayerStep(e, pset, Height(setSize), pos, depth, keys[..Pow2(depth)]);
      QuotientNat(pos, Pow2(height));
      var node: nat := pos / Pow2(height);
      assert node == Path(pos, Height(setSize), depth + 1);
      EvalPuncStep(e, Pow2(depth), Sibling(node), pset[depth]);
    }

    /** All layers from a punctured key, whatever the buffer held before. */
    method LoadLayers(e: Cipher, pset: seq<Block>, pos: nat) returns (height: nat)
      requires Valid() && pos < setSize && |pset| == Layers(setSize) + 1 && pos < Pow2(Height(setSize))
      modifies keys, tmp
      ensures Pow2(Layers(setSize)) <= keys.Length && Layers(setSize) + height == Height(setSize)
      ensures PuncLayer(e, pset, Height(setSize), pos, Layers(setSize), keys[..Pow2(Layers(setSize))])
    {
      height := GetHeight(setSize);
      ghost var h := height;
      var depth := 0;
      PathRoot(pos, h);
      while height > 2
        invariant 0 <= depth <= Layers(setSize) && depth + height == h
        invariant Pow2(depth) <= keys.Length
        invariant PuncLayer(e, pset, h, pos, depth, keys[..Pow2(depth)])
        decreases height
      {
        height := height - 1;
        LoadStep(e, pset, pos, depth, height);
        depth := depth + 1;
      }
    }

    /** All layers, then the last key of the path. */
    method LoadPunctured(e: Cipher, pset: seq<Block>, pos: nat)
      requires Valid() && pos < setSize && |pset| == Layers(setSize) + 1
      modifies keys, tmp
      ensures forall i | 0 <= i < setSize && i != pos :: ElementAt(i) == PuncElement(e, pset, univSize, setSize, pos, i)
    {
      LeafPath(setSize, pos);
      var height := LoadLayers(e, pset, pos);
      LayerWidth(setSize, pos);
      ghost var layer := keys[..Pow2(Layers(setSize))];
      keys[pos / Pow2(height)] := pset[Layers(setSize)];
      forall i | 0 <= i < setSize
        ensures ElementAt(i) == PuncElement(e, pset, univSize, setSize, pos, i)
      {
        LayerWidth(setSize, i);
        if i / 4 != pos / 4 {
          assert layer[i / 4] == PuncNode(e, pset, Height(setSize), pos, Layers(setSize), i / 4);
        }
      }
    }

    /** pset_ggm_eval_punc. */
    method EvalPunctured(e: Cipher, pset: seq<Block>, pos: nat) returns (elems: seq<Word>)
      requires Valid() && pos < setSize && |pset| == Layers(setSize) + 1
      modifies keys, tmp
      ensures elems == EvalPunc(e, pset, univSize, setSize, pos)
    {
      LoadPunctured(e, pset, pos);
      elems := ReadElementsExcept(pos);
      ghost var all := seq(setSize, i requires 0 <= i < setSize => PuncElement(e, pset, univSize, setSize, pos, i));
      Except(elems, all, pos);
    }
  }

  lemma Except(elems: seq<Word>, all: seq<Word>, pos: nat)
    requires pos < |all| == |elems| + 1
    requires forall j | 0 <= j < |elems| :: elems[j] == all[if j < pos then j else j + 1]
    ensures elems == RemoveAt(all, pos)
  {
  }

  function Doubled(ks: seq<Block>): (r: seq<Block>)
    ensures |r| == 2 * |ks|
  {
    seq(2 * |ks|, j requires 0 <= j < 2 * |ks| => if j % 2 == 1 then XorBlock(ks[j / 2], ONE) else ks[j / 2])
  }

  lemma DoubledSnoc(ks: seq<Block>, k: Block)
    ensures Doubled(ks + [k]) == Doubled(ks) + [k, XorBlock(k, ONE)]
  {
  }

  /** The next layer of keys. */
  function Expanded(e: Cipher, ks: seq<Block>): (r: seq<Block>)
    ensures |r| == 2 * |ks|
  {
    seq(2 * |ks|, j requires 0 <= j < 2 * |ks| => ChildKey(e, ks[j / 2], j % 2 == 1))
  }

  ghost function LayerKeys(e: Cipher, seed: Block, depth: nat): (r: seq<Block>)
    ensures |r| == Pow2(depth)
  {
    seq(Pow2(depth), i requires 0 <= i < Pow2(depth) => NodeKey(e, seed, depth, i))
  }

  lemma LayerKeysStep(e: Cipher, seed: Block, depth: nat)
    ensures Expanded(e, LayerKeys(e, seed, depth)) == LayerKeys(e, seed, depth + 1)
  {
  }

  /** Every key of a layer except the one on the path. */
  ghost predicate PuncLayer(e: Cipher, pset: seq<Block>, h: nat, pos: nat, depth: nat, ks: seq<Block>)
    requires depth <= h && depth <= |pset| && pos < Pow2(h)
  {
    |ks| == Pow2(depth) && forall i | 0 <= i < |ks| && i != Path(pos, h, depth) :: ks[i] == PuncNode(e, pset, h, pos, depth, i)
  }

  lemma PuncChild(e: Cipher, pset: seq<Block>, h: nat, pos: nat, depth: nat, ks: seq<Block>, i: nat)
    requires depth < h && depth < |pset| && pos < Pow2(h) && PuncLayer(e, pset, h, pos, depth, ks)
    requires i < Pow2(depth + 1) && i != Path(pos, h, depth + 1)
    ensures PuncNode(e, pset, h, pos, depth + 1, i)
         == if i == Sibling(Path(pos, h, depth + 1)) then pset[depth] else ChildKey(e, ks[i / 2], i % 2 == 1)
  {
    PathStep(pos, h, depth);
    SiblingParent(i, Path(pos, h, depth + 1));
    if i != Sibling(Path(pos, h, depth + 1)) {
      assert ks[i / 2] == PuncNode(e, pset, h, pos, depth, i / 2);
    }
  }

  lemma PuncLayerStep(e: Cipher, pset: seq<Block>, h: nat, pos: nat, depth: nat, ks: seq<Block>)
    requires depth < h && depth < |pset| && pos < Pow2(h) && PuncLayer(e, pset, h, pos, depth, ks)
    ensures Sibling(Path(pos, h, depth + 1)) < Pow2(depth + 1)
    ensures PuncLayer(e, pset, h, pos, depth + 1, Expanded(e, ks)[Sibling(Path(pos, h, depth + 1)) := pset[depth]])
  {
    PathBound(pos, h, depth + 1);
    var next := Expanded(e, ks)[Sibling(Path(pos, h, depth + 1)) := pset[depth]];
    forall i | 0 <= i < |next| && i != Path(pos, h, depth + 1)
      ensures next[i] == PuncNode(e, pset, h, pos, depth + 1, i)
    {
      PuncChild(e, pset, h, pos, depth, ks, i);
    }
  }
}
