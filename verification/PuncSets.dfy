/** Shifted pseudorandom sets: a set is a key (an id and a shift), its elements are
    regenerated on demand, and it can be punctured at any of its elements. */
module PuncSets {
  import opened Rows
  import opened Permutations
  import opened SinglePass
  import opened Powers
  import opened GgmTree
  import opened GgmSets
  import opened Distinct

  /** A set generator: `seedOf` and `drawOf` are the master key's cipher on the blocks
      tagged 0xAA and 0xBB, as total functions of the id. */
  datatype Gen = Gen(cipher: Cipher, seedOf: nat -> Block, drawOf: nat -> nat, univ: Word, setSize: nat)

  datatype SetKey = SetKey(id: nat, shift: nat)

  /** The bound under which the 32-bit additions of the client do not wrap around. */
  const MAX_UNIVERSE := 0x8000_0000

  ghost predicate GenValid(g: Gen) {
    0 < g.univ <= MAX_UNIVERSE && 2 <= g.setSize <= g.univ && g.setSize <= MAX_SET
  }

  function Base(g: Gen, id: nat): (r: seq<Word>)
    requires GenValid(g)
    ensures |r| == g.setSize
  {
    FullEval(g.cipher, g.seedOf(id), g.univ, g.setSize)
  }

  /** The client's 32-bit arithmetic. */
  function ShiftBy(x: nat, shift: nat, univ: Word): (r: nat)
    requires univ > 0
    ensures r < univ
  {
    (x + shift) % WORD % univ
  }

  /** EvalInPlace: the elements that a set key stands for. */
  function Eval(g: Gen, key: SetKey): (r: seq<nat>)
    requires GenValid(g)
    ensures |r| == g.setSize && forall i | 0 <= i < |r| :: r[i] < g.univ
  {
    BaseBelow(g, key.id);
    seq(g.setSize, i requires 0 <= i < g.setSize =>
      if key.shift == 0 then Base(g, key.id)[i] as nat else ShiftBy(Base(g, key.id)[i], key.shift, g.univ))
  }

  lemma BaseBelow(g: Gen, id: nat)
    requires GenValid(g)
    ensures forall i | 0 <= i < g.setSize :: Base(g, id)[i] < g.univ
  {
  }

  lemma NoWrap(x: nat, shift: nat, univ: Word)
    requires 0 < univ <= MAX_UNIVERSE && x < univ && shift < univ
    ensures ShiftBy(x, shift, univ) == (x + shift) % univ
    ensures shift == 0 ==> (x + shift) % univ == x
  {
    ModOnce(x + shift, WORD);
    ModOnce(x, univ);
  }

  /** Without wrap-around the shift is addition modulo the universe, also for shift 0. */
  lemma EvalAt(g: Gen, key: SetKey, i: nat)
    requires GenValid(g) && key.shift < g.univ && i < g.setSize
    ensures Eval(g, key)[i] == (Base(g, key.id)[i] + key.shift) % g.univ
  {
    BaseBelow(g, key.id);
    NoWrap(Base(g, key.id)[i], key.shift, g.univ);
  }

  // ----- Generation -----

  /** Gen: a fresh set with a shift below the set size. */
  function GenKey(g: Gen, id: nat): SetKey
    requires GenValid(g)
  {
    SetKey(id, g.drawOf(id) % WORD % g.setSize)
  }

  /** The shift is what is drawn, reduced to the set size. */
  lemma GenKeyIs(g: Gen, id: nat)
    requires GenValid(g)
    ensures GenKey(g, id).id == id && GenKey(g, id).shift < g.setSize
    ensures g.drawOf(id) < g.setSize ==> GenKey(g, id).shift == g.drawOf(id)
  {
    ModOnce(g.drawOf(id), WORD);
    ModOnce(g.drawOf(id), g.setSize);
  }

  /** GenWith: a fresh set shifted so that it holds `val`. */
  function GenWithKey(g: Gen, id: nat, val: nat): SetKey
    requires GenValid(g)
  {
    SetKey(id, MathMod(val - Base(g, id)[g.drawOf(id) % g.setSize], g.univ))
  }

  lemma AddBack(val: nat, x: nat, m: nat)
    requires m > 0 && val < m && x < m
    ensures (x + MathMod(val - x, m)) % m == val
  {
    MathModNear(val - x, m);
    ModOnce(val, m);
    ModOnce(val + m, m);
  }

  lemma MathModNear(d: int, m: nat)
    requires 0 < m && 0 - m < d < m
    ensures MathMod(d, m) == if d >= 0 then d else d + m
  {
    if d >= 0 {
      ModOnce(d, m);
    } else {
      ModOnce(-d, m);
    }
  }

  /** The set that GenWith makes holds the wanted element, at the position drawn. */
  lemma GenWithHolds(g: Gen, id: nat, val: nat)
    requires GenValid(g) && val < g.univ
    ensures GenWithKey(g, id, val).id == id && GenWithKey(g, id, val).shift < g.univ
    ensures Eval(g, GenWithKey(g, id, val))[g.drawOf(id) % g.setSize] == val
    ensures val in Eval(g, GenWithKey(g, id, val))
  {
    var pos := g.drawOf(id) % g.setSize;
    BaseBelow(g, id);
    AddBack(val, Base(g, id)[pos], g.univ);
    EvalAt(g, GenWithKey(g, id, val), pos);
    assert Eval(g, GenWithKey(g, id, val))[pos] == val;
  }

  /** Ids are tried in turn until one has distinct elements; there always is one. */
  ghost predicate Productive(g: Gen) {
    GenValid(g) && forall n: nat :: SomeIdFrom(g, n)
  }

  ghost predicate GoodId(g: Gen, id: nat)
    requires GenValid(g)
  {
    DuplicateFree(Base(g, id))
  }

  ghost predicate SomeIdFrom(g: Gen, n: nat)
    requires GenValid(g)
  {
    exists id: nat :: n <= id && GoodId(g, id)
  }

  ghost predicate IsNextId(g: Gen, num: nat, id: nat) {
    GenValid(g) && num <= id && GoodId(g, id) && forall k | num <= k < id :: !GoodId(g, k)
  }

  /** The rejection loop of gen: the first id from `num` on with distinct elements. */
  method NextId(g: Gen, num: nat) returns (id: nat)
    requires Productive(g)
    ensures IsNextId(g, num, id)
  {
    assert SomeIdFrom(g, num);
    ghost var last: nat :| num <= last && GoodId(g, last);
    var base := new Generator(g.univ, g.setSize);
    var tmp := new nat[4 * Pow2(Height(g.setSize))](_ => 0);
    id := num;
    while true
      invariant num <= id <= last && forall k | num <= k < id :: !GoodId(g, k)
      invariant base.Valid() && fresh(base.keys) && fresh(base.tmp)
      decreases last - id
    {
      var elems := base.Eval(g.cipher, g.seedOf(id));
      var ok := AllDistinct(elems, tmp);
      if ok {
        return;
      }
      id := id + 1;
    }
  }

  /** EvalInPlace: the native evaluation, then the shift in 32-bit arithmetic. */
  method EvalSet(g: Gen, key: SetKey) returns (elems: seq<nat>)
    requires GenValid(g)
    ensures elems == Eval(g, key)
  {
    var gen := new Generator(g.univ, g.setSize);
    var base := gen.Eval(g.cipher, g.seedOf(key.id));
    elems := base;
    if key.shift == 0 {
      return;
    }
    for i := 0 to |base|
      invariant |elems| == |base| && forall j | 0 <= j < |base| ::
        elems[j] == if j < i then ShiftBy(base[j], key.shift, g.univ) else base[j]
    {
      elems := elems[i := ShiftBy(base[i], key.shift, g.univ)];
    }
  }

  // ----- Puncturing -----

  datatype Punctured = Punctured(univ: Word, setSize: nat, keys: seq<GgmTree.Block>, hole: nat, shift: nat)

  /** The first position of an element. */
  function FirstPos(s: seq<nat>, x: nat): (p: nat)
    requires x in s
    ensures p < |s| && s[p] == x && x !in s[..p]
  {
    if s[0] == x then 0
    else
      assert x in s[1..];
      var p := 1 + FirstPos(s[1..], x);
      assert s[..p] == [s[0]] + s[1..][..p - 1];
      p
  }

  function Punc(g: Gen, key: SetKey, x: nat): Punctured
    requires GenValid(g) && x in Eval(g, key)
  {
    var pos := FirstPos(Eval(g, key), x);
    Punctured(g.univ, g.setSize - 1, PuncKeys(g.cipher, g.seedOf(key.id), g.setSize, pos), pos, key.shift)
  }

  /** Punc: the first position of the element, then the native puncturing. */
  method PunctureAt(g: Gen, key: SetKey, x: nat) returns (p: Punctured)
    requires GenValid(g) && x in Eval(g, key)
    ensures p == Punc(g, key, x)
  {
    var elems := EvalSet(g, key);
    var gen := new Generator(g.univ, g.setSize);
    var pos := FirstPos(elems, x);
    var keys := gen.Punc(g.cipher, g.seedOf(key.id), pos);
    p := Punctured(g.univ, g.setSize - 1, keys, pos, key.shift);
  }

  ghost predicate PuncturedValid(p: Punctured) {
    p.univ > 0 && p.hole < p.setSize + 1 && |p.keys| == Layers(p.setSize + 1) + 1
  }

  /** The server's shift of a punctured list. */
  function ServerShift(elems: seq<Word>, shift: nat, univ: Word): (r: seq<nat>)
    requires univ > 0
    ensures |r| == |elems| && forall i | 0 <= i < |r| :: r[i] < univ
  {
    seq(|elems|, i requires 0 <= i < |elems| => (elems[i] + shift) % univ)
  }

  /** The elements that the server regenerates from a punctured set. */
  function ServerElems(e: Cipher, p: Punctured): (r: seq<nat>)
    requires PuncturedValid(p)
    ensures |r| == p.setSize && forall i | 0 <= i < |r| :: r[i] < p.univ
  {
    ServerShift(EvalPunc(e, p.keys, p.univ, p.setSize + 1, p.hole), p.shift, p.univ)
  }

  lemma ShiftRemove(base: seq<Word>, shift: nat, univ: Word, pos: nat)
    requires univ > 0 && pos < |base|
    ensures ServerShift(RemoveAt(base, pos), shift, univ) == RemoveAt(ServerShift(base, shift, univ), pos)
  {
  }

  /** The client's elements are the server's shift of the whole list. */
  lemma EvalShifted(g: Gen, key: SetKey)
    requires GenValid(g) && key.shift < g.univ
    ensures Eval(g, key) == ServerShift(Base(g, key.id), key.shift, g.univ)
  {
    forall i | 0 <= i < g.setSize
      ensures Eval(g, key)[i] == (Base(g, key.id)[i] + key.shift) % g.univ
    {
      EvalAt(g, key, i);
    }
  }

  lemma HoleRemoved(g: Gen, id: nat, pos: nat)
    requires GenValid(g) && pos < g.setSize
    ensures EvalPunc(g.cipher, PuncKeys(g.cipher, g.seedOf(id), g.setSize, pos), g.univ, g.setSize, pos)
         == RemoveAt(Base(g, id), pos)
  {
    PuncturedEval(g.cipher, g.seedOf(id), g.univ, g.setSize, pos);
  }

  lemma PuncFields(g: Gen, key: SetKey, x: nat)
    requires GenValid(g) && x in Eval(g, key)
    ensures var p, pos := Punc(g, key, x), FirstPos(Eval(g, key), x);
            && PuncturedValid(p) && pos < g.setSize
            && ServerElems(g.cipher, p) == ServerShift(RemoveAt(Base(g, key.id), pos), key.shift, g.univ)
  {
    HoleRemoved(g, key.id, FirstPos(Eval(g, key), x));
  }

  /** The server sees the set without the hole. */
  lemma ServerSees(g: Gen, key: SetKey, x: nat)
    requires GenValid(g) && key.shift < g.univ && x in Eval(g, key)
    ensures PuncturedValid(Punc(g, key, x))
    ensures ServerElems(g.cipher, Punc(g, key, x)) == RemoveAt(Eval(g, key), FirstPos(Eval(g, key), x))
  {
    PuncFields(g, key, x);
    EvalShifted(g, key);
    ShiftRemove(Base(g, key.id), key.shift, g.univ, FirstPos(Eval(g, key), x));
  }

  /** An element other than the punctured one is still among those that the server sees. */
  lemma StillSeen(g: Gen, key: SetKey, x: nat, other: nat)
    requires GenValid(g) && key.shift < g.univ && x in Eval(g, key) && other in Eval(g, key) && other != x
    ensures PuncturedValid(Punc(g, key, x)) && other in ServerElems(g.cipher, Punc(g, key, x))
  {
    ServerSees(g, key, x);
    StillIn(Eval(g, key), FirstPos(Eval(g, key), x), other);
  }

  lemma StillIn(s: seq<nat>, pos: nat, other: nat)
    requires pos < |s| && other in s && other != s[pos]
    ensures other in RemoveAt(s, pos)
  {
    var k :| 0 <= k < |s| && s[k] == other;
    assert RemoveAt(s, pos)[if k < pos then k else k - 1] == other;
  }

  // ----- Parities -----

  function RowsAt(table: seq<Row>, elems: seq<nat>): (r: seq<Row>)
    ensures |r| == |elems|
  {
    seq(|elems|, i requires 0 <= i < |elems| => At(table, elems[i]))
  }

  function Parity(table: seq<Row>, elems: seq<nat>): Row {
    XorAll(RowsAt(table, elems))
  }

  /** The server's answer to a punctured set. */
  function AnswerPunc(e: Cipher, table: seq<Row>, p: Punctured): Row
    requires PuncturedValid(p)
  {
    Parity(table, ServerElems(e, p))
  }

  lemma ParityRemove(table: seq<Row>, elems: seq<nat>, pos: nat)
    requires pos < |elems|
    ensures Parity(table, RemoveAt(elems, pos)) == Xor(Parity(table, elems), At(table, elems[pos]))
  {
    assert RowsAt(table, RemoveAt(elems, pos)) == RowsAt(table, elems)[..pos] + RowsAt(table, elems)[pos + 1..];
    XorAllRemove(RowsAt(table, elems), pos);
  }

  /** xor_rows: elements beyond the table are skipped. */
  method XorRows(table: seq<Row>, elems: seq<nat>) returns (out: Row)
    ensures out == Parity(table, elems)
  {
    out := ZERO;
    for i := 0 to |elems|
      invariant out == XorAll(RowsAt(table, elems)[..i])
    {
      assert RowsAt(table, elems)[..i + 1][..i] == RowsAt(table, elems)[..i];
      if elems[i] >= |table| {
        XorZero(out);
        continue;
      }
      out := Xor(out, table[elems[i]]);
    }
    assert RowsAt(table, elems)[..|elems|] == RowsAt(table, elems);
  }

  /** The server's shift, in wide arithmetic. */
  method ShiftAll(base: seq<Word>, shift: nat, univ: Word) returns (elems: seq<nat>)
    requires univ > 0
    ensures elems == ServerShift(base, shift, univ)
  {
    elems := [];
    for i := 0 to |base|
      invariant |elems| == i && forall j | 0 <= j < i :: elems[j] == (base[j] + shift) % univ
    {
      elems := elems + [(base[i] + shift) % univ];
    }
  }

  /** answer: regenerate the punctured set with the native evaluation, shift, fold. */
  method AnswerNative(e: Cipher, table: seq<Row>, p: Punctured) returns (out: Row)
    requires PuncturedValid(p)
    ensures out == AnswerPunc(e, table, p)
  {
    var gen := new Generator(p.univ, p.setSize + 1);
    var base := gen.EvalPunctured(e, p.keys, p.hole);
    var elems := ShiftAll(base, p.shift, p.univ);
    out := XorRows(table, elems);
  }

  /** The answer is the parity of the set less the row of the punctured element, even
      when the set holds that element twice. */
  lemma AnswerIsParity(g: Gen, key: SetKey, x: nat, table: seq<Row>)
    requires GenValid(g) && key.shift < g.univ && x in Eval(g, key)
    ensures PuncturedValid(Punc(g, key, x))
    ensures AnswerPunc(g.cipher, table, Punc(g, key, x)) == Xor(Parity(table, Eval(g, key)), At(table, x))
  {
    ServerSees(g, key, x);
    var elems := Eval(g, key);
    var pos := FirstPos(elems, x);
    ParityRemove(table, elems, pos);
  }
}
