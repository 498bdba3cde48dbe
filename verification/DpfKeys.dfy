/** The DPF on byte strings: key layout, the loops of Gen and Eval, and the recursive
    full evaluation into a shared buffer. */
module DpfKeys {
  import opened Bits
  import opened Powers
  import opened Dpf

  /** A control bit as the byte 0 or 1. */
  function ByteOf(t: bool): bv8 {
    if t then 1 else 0
  }

  lemma ByteXor(a: bool, b: bool)
    ensures ByteOf(a) ^ ByteOf(b) == ByteOf(a != b)
  {
    assert (0 as bv8) ^ 0 == 0 && (0 as bv8) ^ 1 == 1 && (1 as bv8) ^ 0 == 1 && (1 as bv8) ^ 1 == 0;
  }

  // ----- Key layout: seed, control bit, 18 bytes per level, final block -----

  function CWBytes(cw: CW): (r: seq<bv8>)
    ensures |r| == 18
  {
    cw.s + [ByteOf(cw.tL), ByteOf(cw.tR)]
  }

  function FlatCWs(cws: seq<CW>): (r: seq<bv8>)
    ensures |r| == 18 * |cws|
  {
    if |cws| == 0 then [] else FlatCWs(cws[..|cws| - 1]) + CWBytes(cws[|cws| - 1])
  }

  function Serialize(k: Key): (r: seq<bv8>)
    ensures |r| == 33 + 18 * |k.cws|
  {
    k.root.s + [ByteOf(k.root.t)] + FlatCWs(k.cws) + k.final
  }

  lemma {:induction false} FlatCWAt(cws: seq<CW>, i: nat)
    requires i < |cws|
    ensures FlatCWs(cws)[18 * i..18 * i + 18] == CWBytes(cws[i])
  {
    var n := |cws| - 1;
    if i < n {
      FlatCWAt(cws[..n], i);
      FlatPart(FlatCWs(cws), [], FlatCWs(cws[..n]), CWBytes(cws[n]), 18 * i, 18 * i + 18);
    }
  }

  lemma FlatPart(b: seq<bv8>, head: seq<bv8>, middle: seq<bv8>, tail: seq<bv8>, lo: nat, hi: nat)
    requires b == head + middle + tail && lo <= hi <= |middle|
    ensures b[|head| + lo..|head| + hi] == middle[lo..hi]
  {
  }

  /** Every field of a key is where Eval looks for it. */
  lemma Layout(k: Key, i: nat)
    requires i < |k.cws|
    ensures var b := Serialize(k);
            && b[17 + i * 18..17 + i * 18 + 16] == k.cws[i].s
            && b[17 + i * 18 + 16] == ByteOf(k.cws[i].tL) && b[17 + i * 18 + 17] == ByteOf(k.cws[i].tR)
  {
    FlatCWAt(k.cws, i);
    var b := Serialize(k);
    FlatPart(b, k.root.s + [ByteOf(k.root.t)], FlatCWs(k.cws), k.final, 18 * i, 18 * i + 18);
    assert b[17 + i * 18..17 + i * 18 + 16] == b[17 + i * 18..17 + i * 18 + 18][..16];
    assert b[17 + i * 18 + 16] == b[17 + i * 18..17 + i * 18 + 18][16];
    assert b[17 + i * 18 + 17] == b[17 + i * 18..17 + i * 18 + 18][17];
  }

  lemma LayoutEnds(k: Key)
    ensures var b := Serialize(k);
            b[..16] == k.root.s && b[16] == ByteOf(k.root.t) && b[|b| - 16..] == k.final
  {
  }

  // ----- Gen -----

  method Prg(f: Prf, seed: Block) returns (s0: Block, s1: Block, t0: bv8, t1: bv8)
    ensures s0 == Clr(f.left(seed)) && s1 == Clr(f.right(seed))
    ensures t0 == ByteOf(GetT(f.left(seed))) && t1 == ByteOf(GetT(f.right(seed)))
  {
    s0, s1 := f.left(seed), f.right(seed);
    t0, t1 := s0[0] & 1, s1[0] & 1;
    OneBit(s0[0], 0);
    OneBit(s1[0], 0);
    s0, s1 := Clr(s0), Clr(s1);
  }

  /** One corrected seed and control bit. */
  method Correct(s: Block, t: bv8, raw: Block, rawT: bv8, scw: Block, tcw: bv8, ghost rt: bool, ghost ct: bool)
    returns (s': Block, t': bv8)
    requires (t == 0 || t == 1) && rawT == ByteOf(rt) && tcw == ByteOf(ct)
    ensures s' == if t != 0 then Xor16(raw, scw) else raw
    ensures t' == ByteOf(if t != 0 then rt != ct else rt)
  {
    ByteXor(rt, ct);
    s' := raw;
    if t != 0 {
      s' := Xor16(s', scw);
    }
    if t != 0 {
      t' := rawT ^ tcw;
    } else {
      t' := rawT;
    }
  }

  /** One level of Gen: the correction word and the two nodes on the path. */
  method GenLevel(f: Prf, s0: Block, t0: bv8, s1: Block, t1: bv8, bit: bool, ghost n0: Node, ghost n1: Node)
    returns (cw: seq<bv8>, s0': Block, t0': bv8, s1': Block, t1': bv8)
    requires n0.s == s0 && t0 == ByteOf(n0.t) && n1.s == s1 && t1 == ByteOf(n1.t)
    ensures cw == CWBytes(MakeCW(f, n0, n1, bit))
    ensures var c0 := Child(f, n0, MakeCW(f, n0, n1, bit), bit); s0' == c0.s && t0' == ByteOf(c0.t)
    ensures var c1 := Child(f, n1, MakeCW(f, n0, n1, bit), bit); s1' == c1.s && t1' == ByteOf(c1.t)
  {
    var s0L, s0R, t0L, t0R := Prg(f, s0);
    var s1L, s1R, t1L, t1R := Prg(f, s1);
    ghost var l, r := GetT(f.left(s0)) != GetT(f.left(s1)), GetT(f.right(s0)) != GetT(f.right(s1));
    ByteXor(GetT(f.left(s0)), GetT(f.left(s1)));
    ByteXor(GetT(f.right(s0)), GetT(f.right(s1)));
    if bit {
      var scw := Xor16(s0L, s1L);
      var tLCW := t0L ^ t1L;
      var tRCW := t0R ^ t1R ^ 1;
      ByteXor(r, true);
      cw := scw + [tLCW, tRCW];
      s0', t0' := Correct(s0, t0, s0R, t0R, scw, tRCW, GetT(f.right(s0)), r != true);
      s1', t1' := Correct(s1, t1, s1R, t1R, scw, tRCW, GetT(f.right(s1)), r != true);
    } else {
      var scw := Xor16(s0R, s1R);
      var tLCW := t0L ^ t1L ^ 1;
      var tRCW := t0R ^ t1R;
      ByteXor(l, true);
      cw := scw + [tLCW, tRCW];
      s0', t0' := Correct(s0, t0, s0L, t0L, scw, tLCW, GetT(f.left(s0)), l != true);
      s1', t1' := Correct(s1, t1, s1L, t1L, scw, tLCW, GetT(f.left(s1)), l != true);
    }
  }

  function Prepended(made: seq<CW>, rest: (seq<CW>, Node, Node)): (seq<CW>, Node, Node) {
    (made + rest.0, rest.1, rest.2)
  }

  /** One more correction word made. */
  lemma MadeOne(f: Prf, n0: Node, n1: Node, alpha: nat, m: nat, made: seq<CW>, all: (seq<CW>, Node, Node))
    requires m > 0 && all == Prepended(made, MakeCWs(f, n0, n1, alpha, m))
    ensures var bit := BitOf(alpha, 6 + m);
            var word := MakeCW(f, n0, n1, bit);
            var c0, c1 := Child(f, n0, word, bit), Child(f, n1, word, bit);
            && all == Prepended(made + [word], MakeCWs(f, c0, c1, alpha, m - 1))
            && FlatCWs(made + [word]) == FlatCWs(made) + CWBytes(word)
  {
    var word := MakeCW(f, n0, n1, BitOf(alpha, 6 + m));
    assert (made + [word])[..|made|] == made;
    ghost var rest := MakeCWs(f, n0, n1, alpha, m).0;
    assert made + rest == (made + [word]) + rest[1..];
  }

  /** The levels of Gen: all correction words and the pair of nodes at the end of the path. */
  method GenLevels(f: Prf, alpha: nat, logN: nat, stop: nat, r0: Node, r1: Node)
    returns (cw: seq<bv8>, s0: Block, s1: Block)
    requires stop == Levels(logN)
    ensures var all := MakeCWs(f, r0, r1, alpha, stop);
            cw == FlatCWs(all.0) && s0 == all.1.s && s1 == all.2.s
  {
    var t0, t1 := ByteOf(r0.t), ByteOf(r1.t);
    s0, s1 := r0.s, r1.s;
    ghost var all := MakeCWs(f, r0, r1, alpha, stop);
    ghost var n0, n1, made: seq<CW> := r0, r1, [];
    cw := [];
    assert all.0 == [] + all.0;
    for i := 0 to stop
      invariant n0.s == s0 && t0 == ByteOf(n0.t) && n1.s == s1 && t1 == ByteOf(n1.t)
      invariant all == Prepended(made, MakeCWs(f, n0, n1, alpha, stop - i))
      invariant cw == FlatCWs(made)
    {
      var bit := BitOf(alpha, logN - 1 - i);
      MadeOne(f, n0, n1, alpha, stop - i, made, all);
      ghost var word := MakeCW(f, n0, n1, bit);
      var level;
      level, s0, t0, s1, t1 := GenLevel(f, s0, t0, s1, t1, bit, n0, n1);
      n0, n1, made := Child(f, n0, word, bit), Child(f, n1, word, bit), made + [word];
      cw := cw + level;
    }
    assert made + [] == made;
  }

  method Gen(f: Prf, alpha: nat, logN: nat, seed0: Block, seed1: Block) returns (ka: seq<bv8>, kb: seq<bv8>)
    requires alpha < Pow2(logN) && logN <= 63
    ensures ka == Serialize(GenKeys(f, alpha, logN, seed0, seed1).0)
    ensures kb == Serialize(GenKeys(f, alpha, logN, seed0, seed1).1)
  {
    OneBit(seed0[0], 0);
    var t0 := seed0[0] & 1;
    var t1 := t0 ^ 1;
    ByteXor(GetT(seed0), true);
    ka, kb := Clr(seed0) + [t0], Clr(seed1) + [t1];
    var stop := if logN >= 7 then logN - 7 else 0;
    var cw, s0, s1 := GenLevels(f, alpha, logN, stop, Node(Clr(seed0), t0 != 0), Node(Clr(seed1), t1 != 0));
    s0, s1 := f.left(s0), f.left(s1);
    var scw := Xor16(s0, s1);
    scw := FlipBit(scw, alpha % 128);
    cw := cw + scw;
    ka, kb := ka + cw, kb + cw;
    ghost var keys := GenKeys(f, alpha, logN, seed0, seed1);
    FinalBytes(keys.0.root, keys.0.cws, scw);
    FinalBytes(keys.1.root, keys.1.cws, scw);
  }

  lemma FinalBytes(root: Node, cws: seq<CW>, final: Block)
    ensures Serialize(Key(root, cws, final)) == (root.s + [ByteOf(root.t)]) + (FlatCWs(cws) + final)
  {
  }

  // ----- Eval -----

  /** The corrected children of a node, read from the bytes of a key. */
  method Children(f: Prf, k: seq<bv8>, ghost key: Key, s: Block, t: bv8, lvl: nat, ghost n: Node)
    returns (sL: Block, sR: Block, tL: bv8, tR: bv8)
    requires k == Serialize(key) && lvl < |key.cws| && n.s == s && t == ByteOf(n.t)
    ensures var c := Child(f, n, key.cws[lvl], false); sL == c.s && tL == ByteOf(c.t)
    ensures var c := Child(f, n, key.cws[lvl], true); sR == c.s && tR == ByteOf(c.t)
  {
    Layout(key, lvl);
    sL, sR, tL, tR := Prg(f, s);
    if t != 0 {
      var sCW := k[17 + lvl * 18..17 + lvl * 18 + 16];
      var tLCW := k[17 + lvl * 18 + 16];
      var tRCW := k[17 + lvl * 18 + 17];
      sL := Xor16(sL, sCW);
      sR := Xor16(sR, sCW);
      tL := tL ^ tLCW;
      tR := tR ^ tRCW;
      ByteXor(GetT(f.left(s)), key.cws[lvl].tL);
      ByteXor(GetT(f.right(s)), key.cws[lvl].tR);
    }
  }

  lemma WalkNext(f: Prf, n: Node, cws: seq<CW>, i: nat, x: nat, bit: nat, right: bool)
    requires i < |cws| && bit == 6 + |cws| - i && right == BitOf(x, bit)
    ensures Walk(f, n, cws[i..], x) == Walk(f, Child(f, n, cws[i], right), cws[i + 1..], x)
  {
    assert cws[i..][1..] == cws[i + 1..];
  }

  /** The loop of Eval: down the path to `x`, one correction word a level. */
  method EvalWalk(f: Prf, k: seq<bv8>, ghost key: Key, x: nat, logN: nat) returns (s: Block, t: bv8)
    requires k == Serialize(key) && |key.cws| == Levels(logN)
    ensures var n := Walk(f, key.root, key.cws, x); s == n.s && t == ByteOf(n.t)
  {
    LayoutEnds(key);
    s, t := k[..16], k[16];
    var stop := if logN >= 7 then logN - 7 else 0;
    ghost var n := key.root;
    for i := 0 to stop
      invariant n.s == s && t == ByteOf(n.t)
      invariant Walk(f, n, key.cws[i..], x) == Walk(f, key.root, key.cws, x)
    {
      var sL, sR, tL, tR := Children(f, k, key, s, t, i, n);
      var right := BitOf(x, logN - 1 - i);
      WalkNext(f, n, key.cws, i, x, logN - 1 - i, right);
      n := Child(f, n, key.cws[i], right);
      if right {
        s, t := sR, tR;
      } else {
        s, t := sL, tL;
      }
    }
  }

  method Eval(f: Prf, k: seq<bv8>, ghost key: Key, x: nat, logN: nat) returns (r: bv8)
    requires k == Serialize(key) && |key.cws| == Levels(logN)
    ensures r == ByteOf(EvalKey(f, key, x))
  {
    LayoutEnds(key);
    var s, t := EvalWalk(f, k, key, x, logN);
    s := f.left(s);
    if t != 0 {
      s := Xor16(s, k[|k| - 16..]);
    }
    r := if BitAt(s, x % 128) then 1 else 0;
  }

  // ----- EvalFull -----

  /** The outputs of all leaves below a node, left to right. */
  function Leaves(f: Prf, n: Node, cws: seq<CW>, final: Block): (r: seq<bv8>)
    ensures |r| == 16 * Pow2(|cws|)
    decreases |cws|
  {
    if |cws| == 0 then Output(f, n, final)
    else Leaves(f, Child(f, n, cws[0], false), cws[1..], final) + Leaves(f, Child(f, n, cws[0], true), cws[1..], final)
  }

  lemma BitOfAppend(a: seq<bv8>, b: seq<bv8>, j: nat)
    requires j < 8 * (|a| + |b|)
    ensures BitAt(a + b, j) == if j < 8 * |a| then BitAt(a, j) else BitAt(b, j - 8 * |a|)
  {
    if j >= 8 * |a| {
      assert j / 8 - |a| == (j - 8 * |a|) / 8 && j % 8 == (j - 8 * |a|) % 8;
    }
  }

  /** The top bit of a position chooses the half of a buffer. */
  lemma HalfBit(left: seq<bv8>, right: seq<bv8>, x: nat, k: nat)
    requires 8 * |left| == 8 * |right| == Pow2(k)
    ensures BitAt(left + right, x % Pow2(k + 1)) == if BitOf(x, k) then BitAt(right, x % Pow2(k)) else BitAt(left, x % Pow2(k))
  {
    TopBitOf(x, k);
    BitOfAppend(left, right, x % Pow2(k + 1));
  }

  lemma LeavesLength(f: Prf, n: Node, cws: seq<CW>, final: Block)
    ensures 8 * |Leaves(f, n, cws, final)| == Pow2(7 + |cws|)
  {
    Pow2Split(7, |cws|);
    assert Pow2(7) == 128;
  }

  /** Bit x of the full evaluation is the evaluation at x. */
  lemma {:induction false} LeavesBit(f: Prf, n: Node, cws: seq<CW>, final: Block, x: nat)
    ensures 8 * |Leaves(f, n, cws, final)| == Pow2(7 + |cws|)
    ensures BitAt(Leaves(f, n, cws, final), x % Pow2(7 + |cws|)) == BitAt(Output(f, Walk(f, n, cws, x), final), x % 128)
    decreases |cws|
  {
    LeavesLength(f, n, cws, final);
    if |cws| == 0 {
      assert Pow2(7) == 128;
    } else {
      var nL, nR, rest := Child(f, n, cws[0], false), Child(f, n, cws[0], true), cws[1..];
      assert Leaves(f, n, cws, final) == Leaves(f, nL, rest, final) + Leaves(f, nR, rest, final);
      LeavesBit(f, nL, rest, final, x);
      LeavesBit(f, nR, rest, final, x);
      LeavesLength(f, nL, rest, final);
      LeavesLength(f, nR, rest, final);
      HalfBit(Leaves(f, nL, rest, final), Leaves(f, nR, rest, final), x, 6 + |cws|);
    }
  }

  class ByteArr {
    const data: array<bv8>
    var index: nat

    constructor (data: array<bv8>)
      ensures this.data == data && index == 0
    {
      this.data, index := data, 0;
    }
  }

  method WriteBlock(data: array<bv8>, at: nat, b: Block)
    requires at + 16 <= data.Length
    modifies data
    ensures data[..] == old(data[..at]) + b + old(data[at + 16..])
  {
    for i := 0 to 16
      invariant data[..] == old(data[..at]) + b[..i] + old(data[at + i..])
    {
      data[at + i] := b[i];
    }
    assert b[..16] == b;
  }

  ghost predicate ZeroFrom(data: array<bv8>, i: nat)
    reads data
  {
    forall j | i <= j < data.Length :: data[j] == 0
  }

  /** Writes the output of one leaf at the buffer's index. */
  method WriteLeaf(ss: Block, t: bv8, final: Block, res: ByteArr)
    requires res.index + 16 <= res.data.Length && ZeroFrom(res.data, res.index)
    modifies res, res.data
    ensures res.index == old(res.index) + 16 && ZeroFrom(res.data, res.index)
    ensures res.data[..res.index] == old(res.data[..res.index]) + if t != 0 then Xor16(ss, final) else ss
  {
    if t != 0 {
      WriteBlock(res.data, res.index, Xor16(ss, final));
    } else {
      ZeroBlock(res.data[res.index..res.index + 16], ss);
      WriteBlock(res.data, res.index, Xor16(ss, res.data[res.index..res.index + 16]));
    }
    forall j | res.index + 16 <= j < res.data.Length
      ensures res.data[j] == 0
    {
      assert res.data[j] == res.data[..][j];
    }
    res.index := res.index + 16;
  }

  /** The recursion's end: one leaf. */
  method AtLeaf(f: Prf, stackL: array<Block>, k: seq<bv8>, ghost key: Key, s: Block, t: bv8, lvl: nat,
                res: ByteArr, ghost n: Node)
    requires k == Serialize(key) && |key.cws| == lvl < stackL.Length && stackL as object != res.data
    requires n.s == s && t == ByteOf(n.t)
    requires res.index + 16 <= res.data.Length && ZeroFrom(res.data, res.index)
    modifies stackL, res, res.data
    ensures res.index == old(res.index) + 16 && ZeroFrom(res.data, res.index)
    ensures res.data[..res.index] == old(res.data[..res.index]) + Leaves(f, n, [], key.final)
    ensures forall l | 0 <= l < lvl :: stackL[l] == old(stackL[l])
  {
    LayoutEnds(key);
    stackL[lvl] := s;
    stackL[lvl] := f.left(stackL[lvl]);
    WriteLeaf(stackL[lvl], t, k[|k| - 16..], res);
  }

  /** The leaves below a node have been written behind `before`. */
  ghost predicate LeavesWritten(f: Prf, n: Node, key: Key, lvl: nat, before: seq<bv8>, after: seq<bv8>)
    requires lvl <= |key.cws|
  {
    after == before + Leaves(f, n, key.cws[lvl..], key.final)
  }

  /** The leaves below the two children, one behind the other. */
  lemma LeavesJoined(f: Prf, n: Node, key: Key, lvl: nat, a: seq<bv8>, b: seq<bv8>, c: seq<bv8>)
    requires lvl < |key.cws|
    requires LeavesWritten(f, Child(f, n, key.cws[lvl], false), key, lvl + 1, a, b)
    requires LeavesWritten(f, Child(f, n, key.cws[lvl], true), key, lvl + 1, b, c)
    ensures LeavesWritten(f, n, key, lvl, a, c)
  {
    assert key.cws[lvl..][1..] == key.cws[lvl + 1..];
  }

  lemma LeavesCount(stop: nat, lvl: nat)
    requires lvl < stop
    ensures Pow2(stop - lvl) == 2 * Pow2(stop - (lvl + 1))
  {
  }

  /** Writes the outputs of all leaves below a node at the buffer's index. `stackL[l]`
      and `stackR[l]` hold the two children while level `l` is being expanded. */
  method EvalFullRecursive(f: Prf, stackL: array<Block>, stackR: array<Block>, k: seq<bv8>, ghost key: Key,
                           s: Block, t: bv8, lvl: nat, stop: nat, res: ByteArr, ghost n: Node)
    requires k == Serialize(key) && |key.cws| == stop && lvl <= stop < stackL.Length == stackR.Length && stackL != stackR
    requires stackL as object != res.data && stackR as object != res.data
    requires n.s == s && t == ByteOf(n.t)
    requires res.index + 16 * Pow2(stop - lvl) <= res.data.Length && ZeroFrom(res.data, res.index)
    modifies stackL, stackR, res, res.data
    ensures res.index == old(res.index) + 16 * Pow2(stop - lvl) && ZeroFrom(res.data, res.index)
    ensures LeavesWritten(f, n, key, lvl, old(res.data[..res.index]), res.data[..res.index])
    ensures forall l | 0 <= l < lvl :: stackL[l] == old(stackL[l]) && stackR[l] == old(stackR[l])
    decreases stop - lvl, 1
  {
    if lvl == stop {
      AtLeaf(f, stackL, k, key, s, t, lvl, res, n);
      return;
    }
    var sL, sR, tL, tR := Children(f, k, key, s, t, lvl, n);
    stackL[lvl], stackR[lvl] := sL, sR;
    EvalChildren(f, stackL, stackR, k, key, tL, tR, lvl, stop, res, n);
  }

  /** The two recursive calls. */
  method EvalChildren(f: Prf, stackL: array<Block>, stackR: array<Block>, k: seq<bv8>, ghost key: Key,
                      tL: bv8, tR: bv8, lvl: nat, stop: nat, res: ByteArr, ghost n: Node)
    requires k == Serialize(key) && |key.cws| == stop && lvl < stop < stackL.Length == stackR.Length && stackL != stackR
    requires stackL as object != res.data && stackR as object != res.data
    requires var c := Child(f, n, key.cws[lvl], false); c.s == stackL[lvl] && tL == ByteOf(c.t)
    requires var c := Child(f, n, key.cws[lvl], true); c.s == stackR[lvl] && tR == ByteOf(c.t)
    requires res.index + 16 * Pow2(stop - lvl) <= res.data.Length && ZeroFrom(res.data, res.index)
    modifies stackL, stackR, res, res.data
    ensures res.index == old(res.index) + 16 * Pow2(stop - lvl) && ZeroFrom(res.data, res.index)
    ensures LeavesWritten(f, n, key, lvl, old(res.data[..res.index]), res.data[..res.index])
    ensures forall l | 0 <= l < lvl :: stackL[l] == old(stackL[l]) && stackR[l] == old(stackR[l])
    decreases stop - lvl, 0
  {
    ghost var nL, nR := Child(f, n, key.cws[lvl], false), Child(f, n, key.cws[lvl], true);
    ghost var before := res.data[..res.index];
    LeavesCount(stop, lvl);
    EvalFullRecursive(f, stackL, stackR, k, key, stackL[lvl], tL, lvl + 1, stop, res, nL);
    ghost var between := res.data[..res.index];
    EvalFullRecursive(f, stackL, stackR, k, key, stackR[lvl], tR, lvl + 1, stop, res, nR);
    LeavesJoined(f, n, key, lvl, before, between, res.data[..res.index]);
  }

  lemma ZeroBlock(zero: seq<bv8>, b: Block)
    requires |zero| == 16 && forall i | 0 <= i < 16 :: zero[i] == 0
    ensures Xor16(b, zero) == b
  {
    assert forall i | 0 <= i < 16 :: b[i] ^ 0 == b[i];
  }

  method EvalFull(f: Prf, k: seq<bv8>, ghost key: Key, logN: nat) returns (bits: seq<bv8>)
    requires k == Serialize(key) && |key.cws| == Levels(logN) && logN <= 63
    ensures bits == Leaves(f, key.root, key.cws, key.final)
  {
    LayoutEnds(key);
    var stop := 0;
    var buf := new bv8[16](_ => 0);
    if logN >= 7 {
      stop := logN - 7;
      Pow2Split(4, logN - 7);
      assert Pow2(4) == 16;
      buf := new bv8[Pow2(logN - 3)](_ => 0);
    }
    var b := new ByteArr(buf);
    var zero: Block := [0, 0, 0, 0, 0, 0, 0, 0, 0, 0, 0, 0, 0, 0, 0, 0];
    var stackL := new Block[63](_ => zero);
    var stackR := new Block[63](_ => zero);
    assert key.cws[0..] == key.cws;
    EvalFullRecursive(f, stackL, stackR, k, key, k[..16], k[16], 0, stop, b, key.root);
    bits := b.data[..];
    assert b.data[..] == b.data[..b.index];
  }
}
