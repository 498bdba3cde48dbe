/** The puncturable-set client: one parity per set, a reverse index from rows to sets,
    and a read that replaces the set it uses up. */
module PuncClients {
  import opened Rows
  import opened SinglePass
  import opened GgmTree
  import opened PuncSets

  /** Sets with an id below `origNum` come from the generator shared with the server at
      the start, later ones from the client's own. */
  datatype Gens = Gens(orig: Gen, own: Gen, origNum: nat)

  datatype State = State(nRows: nat, gens: Gens, sets: seq<SetKey>, hints: seq<Row>, idxToSetIdx: seq<int>, num: nat)

  ghost predicate GensValid(g: Gens) {
    && GenValid(g.orig) && GenValid(g.own)
    && g.orig.univ == g.own.univ && g.orig.setSize == g.own.setSize && g.orig.cipher == g.own.cipher
  }

  function GenFor(g: Gens, key: SetKey): Gen {
    if key.id < g.origNum then g.orig else g.own
  }

  /** eval: the elements that a key stands for. */
  function Elems(g: Gens, key: SetKey): (r: seq<nat>)
    requires GensValid(g)
    ensures |r| == g.own.setSize && forall i | 0 <= i < |r| :: r[i] < g.own.univ
  {
    Eval(GenFor(g, key), key)
  }

  /** The elements of all stored sets. */
  function AllElems(g: Gens, sets: seq<SetKey>): (r: seq<seq<nat>>)
    requires GensValid(g)
    ensures |r| == |sets| && AllBelow(r, g.own.univ)
  {
    seq(|sets|, j requires 0 <= j < |sets| => Elems(g, sets[j]))
  }

  lemma AllElemsUpdate(g: Gens, sets: seq<SetKey>, s: nat, key: SetKey)
    requires GensValid(g) && s < |sets|
    ensures AllElems(g, sets[s := key]) == AllElems(g, sets)[s := Elems(g, key)]
  {
  }

  ghost predicate Below(elems: seq<nat>, n: nat) {
    forall i | 0 <= i < |elems| :: elems[i] < n
  }

  ghost predicate AllBelow(all: seq<seq<nat>>, n: nat) {
    forall j | 0 <= j < |all| :: Below(all[j], n)
  }

  /** A pointer of the reverse index is invalid or points to a set that holds the row. */
  ghost predicate PointerSound(all: seq<seq<nat>>, pointer: int, v: nat) {
    pointer == -1 || (0 <= pointer < |all| && v in all[pointer])
  }

  ghost predicate IndexSound(all: seq<seq<nat>>, idx: seq<int>) {
    forall v | 0 <= v < |idx| :: PointerSound(all, idx[v], v)
  }

  /** Every hint is the parity of its set. */
  ghost predicate HintsRight(all: seq<seq<nat>>, hints: seq<Row>, table: seq<Row>) {
    |hints| == |all| && forall j | 0 <= j < |all| :: hints[j] == Parity(table, all[j])
  }

  ghost predicate Shaped(c: State) {
    && GensValid(c.gens) && c.nRows == c.gens.own.univ
    && |c.hints| == |c.sets| > 0 && |c.idxToSetIdx| == c.nRows
    && c.gens.origNum <= c.num
    && forall j | 0 <= j < |c.sets| :: c.sets[j].shift < c.nRows
  }

  /** The elements of the client's sets. */
  function SetsOf(c: State): seq<seq<nat>>
    requires GensValid(c.gens)
  {
    AllElems(c.gens, c.sets)
  }

  ghost predicate Valid(c: State, table: seq<Row>) {
    Shaped(c) && HintsRight(SetsOf(c), c.hints, table) && IndexSound(SetsOf(c), c.idxToSetIdx)
  }

  // ----- Reverse index -----

  /** Points the first `k` elements at set `j`. */
  function SetPointers(idx: seq<int>, elems: seq<nat>, j: int, k: nat): (r: seq<int>)
    requires k <= |elems| && Below(elems, |idx|)
    ensures |r| == |idx|
  {
    if k == 0 then idx else SetPointers(idx, elems, j, k - 1)[elems[k - 1] := j]
  }

  /** Invalidates the first `k` elements' pointers to set `j`. */
  function ClearPointers(idx: seq<int>, elems: seq<nat>, j: int, k: nat): (r: seq<int>)
    requires k <= |elems| && Below(elems, |idx|)
    ensures |r| == |idx|
  {
    if k == 0 then idx
    else
      var r := ClearPointers(idx, elems, j, k - 1);
      if r[elems[k - 1]] == j then r[elems[k - 1] := -1] else r
  }

  lemma {:induction false} SetPointersAt(idx: seq<int>, elems: seq<nat>, j: int, k: nat, v: nat)
    requires k <= |elems| && v < |idx| && Below(elems, |idx|)
    ensures SetPointers(idx, elems, j, k)[v] == if v in elems[..k] then j else idx[v]
  {
    if k > 0 {
      SetPointersAt(idx, elems, j, k - 1, v);
      assert elems[..k] == elems[..k - 1] + [elems[k - 1]];
    }
  }

  lemma {:induction false} ClearPointersAt(idx: seq<int>, elems: seq<nat>, j: int, k: nat, v: nat)
    requires k <= |elems| && v < |idx| && j != -1 && Below(elems, |idx|)
    ensures ClearPointers(idx, elems, j, k)[v] == if v in elems[..k] && idx[v] == j then -1 else idx[v]
  {
    if k > 0 {
      ClearPointersAt(idx, elems, j, k - 1, v);
      assert elems[..k] == elems[..k - 1] + [elems[k - 1]];
    }
  }

  // ----- findIndex -----

  /** Scans the elements of set `j` from position `k` on: the pointers upgraded on the way,
      and whether row `i` was met. */
  function ScanSet(idx: seq<int>, elems: seq<nat>, j: nat, i: nat, k: nat): (r: (seq<int>, bool))
    requires k <= |elems| && Below(elems, |idx|)
    ensures |r.0| == |idx|
    decreases |elems| - k
  {
    if k == |elems| then (idx, false)
    else if elems[k] == i then (idx, true)
    else ScanSet(idx[elems[k] := j], elems, j, i, k + 1)
  }

  /** Scans the sets from `j` on: the upgraded index and the first set that holds row `i`,
      or -1. */
  function ScanSets(all: seq<seq<nat>>, idx: seq<int>, i: nat, j: nat): (r: (seq<int>, int))
    requires AllBelow(all, |idx|) && j <= |all|
    ensures |r.0| == |idx| && -1 <= r.1 < |all|
    decreases |all| - j
  {
    if j == |all| then (idx, -1)
    else
      var (idx', found) := ScanSet(idx, all[j], j, i, 0);
      if found then (idx', j) else ScanSets(all, idx', i, j + 1)
  }

  /** findIndex: the upgraded index and a set that holds row `i`, or -1. */
  function FindIndex(c: State, i: nat): (r: (seq<int>, int))
    requires Shaped(c)
    ensures |r.0| == c.nRows
  {
    if i >= c.nRows then (c.idxToSetIdx, -1)
    else if c.idxToSetIdx[i] >= 0 then (c.idxToSetIdx, c.idxToSetIdx[i])
    else ScanSets(SetsOf(c), c.idxToSetIdx, i, 0)
  }

  lemma {:induction false} ScanSetRight(all: seq<seq<nat>>, idx: seq<int>, j: nat, i: nat, k: nat)
    requires AllBelow(all, |idx|) && IndexSound(all, idx) && j < |all| && k <= |all[j]|
    ensures var (idx', found) := ScanSet(idx, all[j], j, i, k);
            IndexSound(all, idx') && (found <==> i in all[j][k..])
    decreases |all[j]| - k
  {
    var elems := all[j];
    if k < |elems| {
      assert elems[k..] == [elems[k]] + elems[k + 1..];
      if elems[k] != i {
        assert PointerSound(all, j, elems[k]);
        ScanSetRight(all, idx[elems[k] := j], j, i, k + 1);
      }
    }
  }

  lemma {:induction false} ScanSetsRight(all: seq<seq<nat>>, idx: seq<int>, i: nat, j: nat)
    requires AllBelow(all, |idx|) && IndexSound(all, idx) && j <= |all|
    ensures var (idx', s) := ScanSets(all, idx, i, j);
            && IndexSound(all, idx')
            && (s >= 0 ==> i in all[s])
            && (s < 0 ==> forall k | j <= k < |all| :: i !in all[k])
    decreases |all| - j
  {
    if j < |all| {
      ScanSetRight(all, idx, j, i, 0);
      var (idx', found) := ScanSet(idx, all[j], j, i, 0);
      assert all[j][0..] == all[j];
      if !found {
        ScanSetsRight(all, idx', i, j + 1);
      }
    }
  }

  /** Some stored set holds the row. */
  ghost predicate Covered(c: State, i: nat)
    requires Shaped(c)
  {
    exists j | 0 <= j < |c.sets| :: i in SetsOf(c)[j]
  }

  /** Lookup is sound and complete, and repairs to the index on the way are sound. */
  lemma FindIndexRight(c: State, i: nat)
    requires Shaped(c) && IndexSound(SetsOf(c), c.idxToSetIdx) && i < c.nRows
    ensures var (idx, s) := FindIndex(c, i);
            && IndexSound(SetsOf(c), idx)
            && (s >= 0 <==> Covered(c, i))
            && (s >= 0 ==> s < |c.sets| && i in SetsOf(c)[s])
  {
    assert PointerSound(SetsOf(c), c.idxToSetIdx[i], i);
    if c.idxToSetIdx[i] < 0 {
      ScanSetsRight(SetsOf(c), c.idxToSetIdx, i, 0);
    }
  }

  /** A scan of a set that does not hold the row points all its elements at the set. */
  lemma {:induction false} ScanSetRepairs(idx: seq<int>, elems: seq<nat>, j: nat, i: nat, k: nat, v: nat)
    requires k <= |elems| && Below(elems, |idx|) && v < |idx| && i !in elems[k..]
    ensures ScanSet(idx, elems, j, i, k).0[v] == if v in elems[k..] then j else idx[v]
    decreases |elems| - k
  {
    if k < |elems| {
      assert elems[k..] == [elems[k]] + elems[k + 1..];
      ScanSetRepairs(idx[elems[k] := j], elems, j, i, k + 1, v);
    }
  }

  /** Scanning a set never takes a valid pointer away. */
  lemma {:induction false} ScanSetKeeps(idx: seq<int>, elems: seq<nat>, j: nat, i: nat, k: nat, v: nat)
    requires k <= |elems| && Below(elems, |idx|) && v < |idx| && idx[v] >= 0
    ensures ScanSet(idx, elems, j, i, k).0[v] >= 0
    decreases |elems| - k
  {
    if k < |elems| && elems[k] != i {
      ScanSetKeeps(idx[elems[k] := j], elems, j, i, k + 1, v);
    }
  }

  /** One of the sets from `j` on, before the one that the scan finds, holds row `v`. */
  ghost predicate Passed(all: seq<seq<nat>>, found: int, j: nat, v: nat) {
    exists m | j <= m < |all| && (found < 0 || m < found) :: v in all[m]
  }

  /** The scan leaves a valid pointer for every row of the sets that it has passed over. */
  lemma {:induction false} ScanSetsRepairs(all: seq<seq<nat>>, idx: seq<int>, i: nat, j: nat, v: nat)
    requires AllBelow(all, |idx|) && IndexSound(all, idx) && j <= |all| && v < |idx|
    ensures var (idx', s) := ScanSets(all, idx, i, j);
            idx[v] >= 0 || Passed(all, s, j, v) ==> idx'[v] >= 0
    decreases |all| - j
  {
    if j < |all| {
      var (idx1, found) := ScanSet(idx, all[j], j, i, 0);
      ScanSetRight(all, idx, j, i, 0);
      assert all[j][0..] == all[j];
      if idx[v] >= 0 {
        ScanSetKeeps(idx, all[j], j, i, 0, v);
      }
      if !found {
        ScanSetRepairs(idx, all[j], j, i, 0, v);
        ScanSetsRepairs(all, idx1, i, j + 1, v);
        var s := ScanSets(all, idx, i, j).1;
        assert Passed(all, s, j, v) ==> v in all[j] || Passed(all, s, j + 1, v);
      }
    }
  }

  // ----- replaceSet -----

  /** The index after set `s`, which held `was`, has been replaced by one that holds `now`. */
  function Repointed(idx: seq<int>, was: seq<nat>, now: seq<nat>, s: nat): (r: seq<int>)
    requires Below(was, |idx|) && Below(now, |idx|)
    ensures |r| == |idx|
  {
    SetPointers(ClearPointers(idx, was, s, |was|), now, s, |now|)
  }

  function Replaced(c: State, s: nat, key: SetKey): (c': State)
    requires Shaped(c) && s < |c.sets|
  {
    c.(sets := c.sets[s := key], idxToSetIdx := Repointed(c.idxToSetIdx, Elems(c.gens, c.sets[s]), Elems(c.gens, key), s))
  }

  /** Replacing a set leaves no pointer to it that is wrong. */
  lemma ReplacedSound(all: seq<seq<nat>>, idx: seq<int>, s: nat, now: seq<nat>)
    requires AllBelow(all, |idx|) && Below(now, |idx|) && IndexSound(all, idx) && s < |all|
    ensures IndexSound(all[s := now], Repointed(idx, all[s], now, s))
  {
    var was := all[s];
    var cleared, idx' := ClearPointers(idx, was, s, |was|), Repointed(idx, was, now, s);
    assert was[..|was|] == was && now[..|now|] == now;
    forall v | 0 <= v < |idx|
      ensures PointerSound(all[s := now], idx'[v], v)
    {
      assert PointerSound(all, idx[v], v);
      ClearPointersAt(idx, was, s, |was|, v);
      SetPointersAt(cleared, now, s, |now|, v);
    }
  }

  /** Afterwards every row of the new set points to it. */
  lemma ReplacedPoints(c: State, s: nat, key: SetKey, v: nat)
    requires Shaped(c) && s < |c.sets| && v in Elems(c.gens, key)
    ensures Replaced(c, s, key).idxToSetIdx[v] == s
  {
    var was, now := Elems(c.gens, c.sets[s]), Elems(c.gens, key);
    SetPointersAt(ClearPointers(c.idxToSetIdx, was, s, |was|), now, s, |now|, v);
    assert now[..|now|] == now;
  }

  // ----- A read -----

  /** The random draws of a read: which of the three cases, the id of the fresh set, and
      the extra elements. */
  datatype Choices = Choices(randCase: nat, newId: nat, extraL: nat, extraR: nat)

  function NewKey(c: State, i: nat, ch: Choices): SetKey
    requires Shaped(c)
  {
    GenWithKey(c.gens.own, ch.newId, i)
  }

  /** The draws are possible: an id not used before, and members other than the excluded one. */
  ghost predicate ChoicesValid(c: State, i: nat, s: nat, ch: Choices)
    requires Shaped(c) && s < |c.sets|
  {
    var made := Eval(c.gens.own, NewKey(c, i, ch));
    && ch.randCase < 3 && c.num <= ch.newId
    && match ch.randCase
       case 0 => ch.extraL in made && ch.extraL != i && ch.extraR in Elems(c.gens, c.sets[s]) && ch.extraR != i
       case 1 => ch.extraR in made && ch.extraR != i && ch.extraL in made && ch.extraL != ch.extraR
       case _ => ch.extraL in made && ch.extraL != i && ch.extraR in made && ch.extraR != ch.extraL
  }

  datatype Request = Request(punctured: Punctured, extra: nat)

  /** A read that can go ahead: set `s` holds row `i` and the draws are possible. */
  ghost predicate Ready(c: State, i: nat, s: nat, ch: Choices) {
    Shaped(c) && s < |c.sets| && i < c.nRows && i in Elems(c.gens, c.sets[s]) && ChoicesValid(c, i, s, ch)
  }

  /** The two requests: to the left and to the right server. */
  function Queries(c: State, i: nat, s: nat, ch: Choices): (Request, Request)
    requires Ready(c, i, s, ch)
  {
    var key := NewKey(c, i, ch);
    GenWithHolds(c.gens.own, ch.newId, i);
    match ch.randCase
    case 0 => (Request(Punc(c.gens.own, key, i), ch.extraL),
               Request(Punc(GenFor(c.gens, c.sets[s]), c.sets[s], i), ch.extraR))
    case 1 => (Request(Punc(c.gens.own, key, ch.extraR), ch.extraL), Request(Punc(c.gens.own, key, i), ch.extraR))
    case _ => (Request(Punc(c.gens.own, key, i), ch.extraL), Request(Punc(c.gens.own, key, ch.extraL), ch.extraR))
  }

  /** What is asked of one server: a set of the shared kind without `x`, and beside it an
      element that the server can see in that set, so not `x`. */
  ghost predicate AsksWithout(c: State, q: Request, x: nat)
    requires Shaped(c)
  {
    && PuncturedValid(q.punctured) && PuncturesOne(c.gens, q.punctured, x)
    && q.extra in ServerElems(c.gens.own.cipher, q.punctured) && q.extra != x
  }

  /** The punctured set stands for a set that holds `x`, less its first occurrence. */
  ghost predicate PuncturesOne(g: Gens, p: Punctured, x: nat)
    requires GensValid(g)
  {
    exists gen: Gen, key: SetKey | (gen == g.orig || gen == g.own) && key.shift < gen.univ && x in Eval(gen, key) ::
      p == Punc(gen, key, x)
  }

  lemma Punctures(c: State, gen: Gen, key: SetKey, x: nat, extra: nat)
    requires Shaped(c) && (gen == c.gens.orig || gen == c.gens.own) && key.shift < gen.univ
    requires x in Eval(gen, key) && extra in Eval(gen, key) && extra != x
    ensures AsksWithout(c, Request(Punc(gen, key, x), extra), x)
  {
    StillSeen(gen, key, x, extra);
  }

  /** In every case each request carries an extra element of its own punctured set. In the
      first case and in one request of the other two the element left out is the queried
      row; in the remaining request it is the extra element of the other server. */
  ghost predicate RequestsRight(c: State, i: nat, ch: Choices, qL: Request, qR: Request)
    requires Shaped(c)
  {
    && AsksWithout(c, qL, if ch.randCase == 1 then qR.extra else i)
    && AsksWithout(c, qR, if ch.randCase == 2 then qL.extra else i)
  }

  lemma QueriesAsk(c: State, i: nat, s: nat, ch: Choices)
    requires Ready(c, i, s, ch)
    ensures RequestsRight(c, i, ch, Queries(c, i, s, ch).0, Queries(c, i, s, ch).1)
  {
    var own, key := c.gens.own, NewKey(c, i, ch);
    GenWithHolds(own, ch.newId, i);
    match ch.randCase
    case 0 =>
      Punctures(c, own, key, i, ch.extraL);
      Punctures(c, GenFor(c.gens, c.sets[s]), c.sets[s], i, ch.extraR);
    case 1 =>
      Punctures(c, own, key, ch.extraR, ch.extraL);
      Punctures(c, own, key, i, ch.extraR);
    case _ =>
      Punctures(c, own, key, i, ch.extraL);
      Punctures(c, own, key, ch.extraL, ch.extraR);
  }

  /** The client after sending a query. */
  function Queried(c: State, i: nat, s: nat, ch: Choices): State
    requires Shaped(c) && s < |c.sets|
  {
    var c1 := if ch.randCase == 0 then Replaced(c, s, NewKey(c, i, ch)) else c;
    c1.(num := ch.newId + 1)
  }

  /** The row and the hints after both answers; each answer is a parity and one extra row. */
  function Reconstructed(hints: seq<Row>, s: nat, ch: Choices, left: (Row, Row), right: (Row, Row)): (seq<Row>, Row)
    requires s < |hints|
  {
    match ch.randCase
    case 0 =>
      var out := Xor(Xor(ZERO, hints[s]), right.0);
      (hints[s := Xor(Xor(Xor(hints[s], hints[s]), left.0), out)], out)
    case 1 => (hints, Xor(Xor(Xor(Xor(ZERO, ZERO), left.0), right.0), right.1))
    case _ => (hints, Xor(Xor(Xor(Xor(ZERO, ZERO), left.0), right.0), left.1))
  }

  function AnswerQuery(e: Cipher, table: seq<Row>, q: Request): (Row, Row)
    requires PuncturedValid(q.punctured)
  {
    (AnswerPunc(e, table, q.punctured), At(table, q.extra))
  }

  /** What the two servers answer: parities of the fresh or the old set, one row short. */
  lemma AnswersAre(c: State, table: seq<Row>, i: nat, s: nat, ch: Choices)
    requires Ready(c, i, s, ch)
    ensures var (qL, qR) := Queries(c, i, s, ch);
            && PuncturedValid(qL.punctured) && PuncturedValid(qR.punctured)
            && var e, made, was := c.gens.own.cipher,
                                   Parity(table, Eval(c.gens.own, NewKey(c, i, ch))), Parity(table, Elems(c.gens, c.sets[s]));
               && AnswerPunc(e, table, qL.punctured) == Xor(made, At(table, if ch.randCase == 1 then ch.extraR else i))
               && AnswerPunc(e, table, qR.punctured)
                  == if ch.randCase == 0 then Xor(was, At(table, i))
                     else Xor(made, At(table, if ch.randCase == 1 then i else ch.extraL))
  {
    var own, key := c.gens.own, NewKey(c, i, ch);
    GenWithHolds(own, ch.newId, i);
    AnswerIsParity(own, key, i, table);
    match ch.randCase
    case 0 => AnswerIsParity(GenFor(c.gens, c.sets[s]), c.sets[s], i, table);
    case 1 => AnswerIsParity(own, key, ch.extraR, table);
    case _ => AnswerIsParity(own, key, ch.extraL, table);
  }

  /** A whole read of row `i` from set `s`. */
  function ReadFrom(c: State, table: seq<Row>, i: nat, s: nat, ch: Choices): (State, Row)
    requires Ready(c, i, s, ch)
  {
    AnswersAre(c, table, i, s, ch);
    var (qL, qR) := Queries(c, i, s, ch);
    var e := c.gens.own.cipher;
    var (hints, out) := Reconstructed(c.hints, s, ch, AnswerQuery(e, table, qL), AnswerQuery(e, table, qR));
    (Queried(c, i, s, ch).(hints := hints), out)
  }

  lemma CaseZeroAlgebra(hint: Row, parity: Row, row: Row)
    ensures Xor(Xor(ZERO, hint), Xor(hint, row)) == row
    ensures Xor(Xor(Xor(hint, hint), Xor(parity, row)), row) == parity
  {
    assert forall i | 0 <= i < ROW_LEN :: (0 ^ hint[i]) ^ (hint[i] ^ row[i]) == row[i];
    assert forall i | 0 <= i < ROW_LEN :: ((hint[i] ^ hint[i]) ^ (parity[i] ^ row[i])) ^ row[i] == parity[i];
  }

  lemma OtherCasesAlgebra(parity: Row, a: Row, b: Row)
    ensures Xor(Xor(Xor(Xor(ZERO, ZERO), Xor(parity, a)), Xor(parity, b)), a) == b
    ensures Xor(Xor(Xor(Xor(ZERO, ZERO), Xor(parity, b)), Xor(parity, a)), a) == b
  {
    assert forall i | 0 <= i < ROW_LEN ::
        ((((0 as bv8) ^ 0) ^ (parity[i] ^ a[i])) ^ (parity[i] ^ b[i])) ^ a[i] == b[i];
    assert forall i | 0 <= i < ROW_LEN ::
        ((((0 as bv8) ^ 0) ^ (parity[i] ^ b[i])) ^ (parity[i] ^ a[i])) ^ a[i] == b[i];
  }

  /** Whichever case is drawn: the row, and the hints of the stored sets. */
  lemma ReadFromResult(c: State, table: seq<Row>, i: nat, s: nat, ch: Choices)
    requires Ready(c, i, s, ch) && HintsRight(SetsOf(c), c.hints, table)
    ensures var (c', row) := ReadFrom(c, table, i, s, ch);
            && row == At(table, i)
            && c' == Queried(c, i, s, ch).(hints := c'.hints)
            && c'.hints == if ch.randCase == 0 then c.hints[s := Parity(table, Eval(c.gens.own, NewKey(c, i, ch)))] else c.hints
  {
    AnswersAre(c, table, i, s, ch);
    var made := Parity(table, Eval(c.gens.own, NewKey(c, i, ch)));
    var x := At(table, if ch.randCase == 1 then ch.extraR else ch.extraL);
    CaseZeroAlgebra(c.hints[s], made, At(table, i));
    OtherCasesAlgebra(made, x, At(table, i));
  }

  /** The client with the fresh set in place of the old one, and its parity. */
  lemma FreshValid(c: State, table: seq<Row>, i: nat, s: nat, ch: Choices)
    requires Valid(c, table) && Ready(c, i, s, ch) && ch.randCase == 0
    ensures Valid(Queried(c, i, s, ch).(hints := c.hints[s := Parity(table, Eval(c.gens.own, NewKey(c, i, ch)))]), table)
  {
    GenWithHolds(c.gens.own, ch.newId, i);
    ReplacedSound(SetsOf(c), c.idxToSetIdx, s, Elems(c.gens, NewKey(c, i, ch)));
    AllElemsUpdate(c.gens, c.sets, s, NewKey(c, i, ch));
  }

  /** A read returns the row and keeps the client right. */
  lemma ReadFromCorrect(c: State, table: seq<Row>, i: nat, s: nat, ch: Choices)
    requires Valid(c, table) && Ready(c, i, s, ch)
    ensures ReadFrom(c, table, i, s, ch).1 == At(table, i)
    ensures Valid(ReadFrom(c, table, i, s, ch).0, table)
  {
    ReadFromResult(c, table, i, s, ch);
    if ch.randCase == 0 {
      FreshValid(c, table, i, s, ch);
    }
  }

  // ----- Runs -----

  datatype ReadReq = ReadReq(i: nat, ch: Choices)

  /** Query looks the row up first; the draws then have to fit the set that is found. */
  ghost predicate Possible(c: State, req: ReadReq)
    requires Shaped(c)
  {
    req.i < c.nRows &&
    var (idx, s) := FindIndex(c, req.i);
    s >= 0 ==> s < |c.sets| && ChoicesValid(c, req.i, s, req.ch)
  }

  /** Query, both answers and reconstruct; false when no stored set holds the row. */
  ghost function Read(c: State, table: seq<Row>, req: ReadReq): (State, bool, Row)
    requires Valid(c, table) && Possible(c, req)
  {
    FindIndexRight(c, req.i);
    var (idx, s) := FindIndex(c, req.i);
    var c1 := c.(idxToSetIdx := idx);
    if s < 0 then (c1, false, ZERO)
    else
      var r := ReadFrom(c1, table, req.i, s, req.ch);
      (r.0, true, r.1)
  }

  /** A read succeeds exactly for covered rows, returns the row whichever case is drawn,
      and keeps every hint and the reverse index right. */
  lemma ReadCorrect(c: State, table: seq<Row>, req: ReadReq)
    requires Valid(c, table) && Possible(c, req)
    ensures var (c', ok, row) := Read(c, table, req);
            && Valid(c', table)
            && (ok <==> Covered(c, req.i))
            && (ok ==> row == At(table, req.i))
  {
    FindIndexRight(c, req.i);
    var (idx, s) := FindIndex(c, req.i);
    if s >= 0 {
      ReadFromCorrect(c.(idxToSetIdx := idx), table, req.i, s, req.ch);
    }
  }

  /** A run of reads with possible draws. */
  ghost predicate PossibleRun(c: State, table: seq<Row>, reqs: seq<ReadReq>)
    requires Valid(c, table)
    decreases |reqs|
  {
    |reqs| > 0 ==>
      Possible(c, reqs[0]) && (ReadCorrect(c, table, reqs[0]); PossibleRun(Read(c, table, reqs[0]).0, table, reqs[1..]))
  }

  ghost function Run(c: State, table: seq<Row>, reqs: seq<ReadReq>): (r: (State, seq<(bool, Row)>))
    requires Valid(c, table) && PossibleRun(c, table, reqs)
    ensures |r.1| == |reqs|
    decreases |reqs|
  {
    if |reqs| == 0 then (c, [])
    else
      ReadCorrect(c, table, reqs[0]);
      var (c', ok, row) := Read(c, table, reqs[0]);
      var rest := Run(c', table, reqs[1..]);
      (rest.0, [(ok, row)] + rest.1)
  }

  /** The client before each read of a run. */
  ghost function States(c: State, table: seq<Row>, reqs: seq<ReadReq>): (r: seq<State>)
    requires Valid(c, table) && PossibleRun(c, table, reqs)
    ensures |r| == |reqs|
    decreases |reqs|
  {
    if |reqs| == 0 then []
    else
      ReadCorrect(c, table, reqs[0]);
      [c] + States(Read(c, table, reqs[0]).0, table, reqs[1..])
  }

  /** What read number `k` of a run promises: it starts from a client whose hints and
      reverse index are right, succeeds exactly for a covered row, and returns that row. */
  ghost predicate ReadRight(before: State, table: seq<Row>, i: nat, result: (bool, Row)) {
    && Valid(before, table)
    && (result.0 <==> Covered(before, i))
    && (result.0 ==> result.1 == At(table, i))
  }

  ghost function After(c: State, table: seq<Row>, req: ReadReq): State
    requires Valid(c, table) && Possible(c, req)
  {
    Read(c, table, req).0
  }

  /** The rest of a run is a run of the client after the first read. */
  lemma RunRest(c: State, table: seq<Row>, reqs: seq<ReadReq>)
    requires Valid(c, table) && PossibleRun(c, table, reqs) && |reqs| > 0
    ensures Possible(c, reqs[0]) && Valid(After(c, table, reqs[0]), table)
    ensures PossibleRun(After(c, table, reqs[0]), table, reqs[1..])
    ensures States(c, table, reqs) == [c] + States(After(c, table, reqs[0]), table, reqs[1..])
    ensures Run(c, table, reqs).0 == Run(After(c, table, reqs[0]), table, reqs[1..]).0
    ensures var r := Read(c, table, reqs[0]);
            Run(c, table, reqs).1 == [(r.1, r.2)] + Run(After(c, table, reqs[0]), table, reqs[1..]).1
  {
    ReadCorrect(c, table, reqs[0]);
  }

  lemma RunNext(c: State, table: seq<Row>, reqs: seq<ReadReq>, k: nat)
    requires Valid(c, table) && PossibleRun(c, table, reqs) && 0 < k < |reqs|
    ensures Possible(c, reqs[0]) && Valid(After(c, table, reqs[0]), table)
    ensures PossibleRun(After(c, table, reqs[0]), table, reqs[1..])
    ensures reqs[k] == reqs[1..][k - 1]
    ensures States(c, table, reqs)[k] == States(After(c, table, reqs[0]), table, reqs[1..])[k - 1]
    ensures Run(c, table, reqs).1[k] == Run(After(c, table, reqs[0]), table, reqs[1..]).1[k - 1]
  {
    RunRest(c, table, reqs);
  }

  lemma {:induction false} RunValid(c: State, table: seq<Row>, reqs: seq<ReadReq>)
    requires Valid(c, table) && PossibleRun(c, table, reqs)
    ensures Valid(Run(c, table, reqs).0, table)
    decreases |reqs|
  {
    if |reqs| > 0 {
      RunRest(c, table, reqs);
      RunValid(After(c, table, reqs[0]), table, reqs[1..]);
    }
  }

  lemma FirstRight(c: State, table: seq<Row>, reqs: seq<ReadReq>)
    requires Valid(c, table) && PossibleRun(c, table, reqs) && |reqs| > 0
    ensures ReadRight(States(c, table, reqs)[0], table, reqs[0].i, Run(c, table, reqs).1[0])
  {
    RunRest(c, table, reqs);
    ReadCorrect(c, table, reqs[0]);
  }

  lemma {:induction false} RunRightAt(c: State, table: seq<Row>, reqs: seq<ReadReq>, k: nat)
    requires Valid(c, table) && PossibleRun(c, table, reqs) && k < |reqs|
    ensures ReadRight(States(c, table, reqs)[k], table, reqs[k].i, Run(c, table, reqs).1[k])
    decreases |reqs|
  {
    if k == 0 {
      FirstRight(c, table, reqs);
    } else {
      RunNext(c, table, reqs, k);
      RunRightAt(After(c, table, reqs[0]), table, reqs[1..], k - 1);
    }
  }

  /** The main theorem: over any run, every read succeeds exactly when its row is covered
      at that point and then returns it, and the hints and the reverse index stay right. */
  lemma RunCorrect(c: State, table: seq<Row>, reqs: seq<ReadReq>)
    requires Valid(c, table) && PossibleRun(c, table, reqs)
    ensures Valid(Run(c, table, reqs).0, table)
    ensures forall k | 0 <= k < |reqs| ::
      ReadRight(States(c, table, reqs)[k], table, reqs[k].i, Run(c, table, reqs).1[k])
  {
    RunValid(c, table, reqs);
    forall k | 0 <= k < |reqs|
      ensures ReadRight(States(c, table, reqs)[k], table, reqs[k].i, Run(c, table, reqs).1[k])
    {
      RunRightAt(c, table, reqs, k);
    }
  }

  // ----- Ids -----

  /** No stored set has an id that may still be drawn. */
  ghost predicate IdsBelow(c: State) {
    forall j | 0 <= j < |c.sets| :: c.sets[j].id < c.num
  }

  /** The read finds a set for its row, so it draws a fresh one. */
  ghost predicate Draws(c: State, req: ReadReq) {
    Shaped(c) && req.i < c.nRows && FindIndex(c, req.i).1 >= 0
  }

  /** A read that draws a set takes an id that no stored set has, and none up to it can be
      drawn again. */
  lemma ReadIds(c: State, table: seq<Row>, req: ReadReq)
    requires Valid(c, table) && Possible(c, req) && IdsBelow(c)
    ensures IdsBelow(After(c, table, req)) && c.num <= After(c, table, req).num
    ensures Draws(c, req) ==> c.num <= req.ch.newId < After(c, table, req).num
    ensures Draws(c, req) ==> forall j | 0 <= j < |c.sets| :: c.sets[j].id != req.ch.newId
  {
    FindIndexRight(c, req.i);
    var (idx, s) := FindIndex(c, req.i);
    if s >= 0 {
      var c1 := c.(idxToSetIdx := idx);
      ReadFromResult(c1, table, req.i, s, req.ch);
      QueriedIds(c1, req.i, s, req.ch);
    }
  }

  lemma QueriedIds(c: State, i: nat, s: nat, ch: Choices)
    requires Ready(c, i, s, ch) && IdsBelow(c)
    ensures var c' := Queried(c, i, s, ch); IdsBelow(c') && c.num <= ch.newId < c'.num
  {
    GenWithHolds(c.gens.own, ch.newId, i);
  }

  /** The ids that a run draws, in order. */
  ghost function Ids(c: State, table: seq<Row>, reqs: seq<ReadReq>): seq<nat>
    requires Valid(c, table) && PossibleRun(c, table, reqs)
    decreases |reqs|
  {
    if |reqs| == 0 then []
    else
      RunRest(c, table, reqs);
      (if Draws(c, reqs[0]) then [reqs[0].ch.newId] else []) + Ids(After(c, table, reqs[0]), table, reqs[1..])
  }

  ghost predicate Increasing(lo: nat, ids: seq<nat>)
    decreases |ids|
  {
    |ids| > 0 ==> lo <= ids[0] && Increasing(ids[0] + 1, ids[1..])
  }

  lemma IncreasingFrom(lo: nat, lo': nat, ids: seq<nat>)
    requires lo <= lo' && Increasing(lo', ids)
    ensures Increasing(lo, ids)
  {
  }

  lemma IncreasingCons(lo: nat, id: nat, hi: nat, ids: seq<nat>)
    requires lo <= id < hi && Increasing(hi, ids)
    ensures Increasing(lo, [id] + ids)
  {
    IncreasingFrom(id + 1, hi, ids);
    assert ([id] + ids)[1..] == ids;
  }

  lemma {:induction false} RunIncreases(c: State, table: seq<Row>, reqs: seq<ReadReq>)
    requires Valid(c, table) && PossibleRun(c, table, reqs) && IdsBelow(c)
    ensures Increasing(c.num, Ids(c, table, reqs))
    decreases |reqs|
  {
    if |reqs| > 0 {
      RunRest(c, table, reqs);
      ReadIds(c, table, reqs[0]);
      var c' := After(c, table, reqs[0]);
      RunIncreases(c', table, reqs[1..]);
      IncreasingFrom(c.num, c'.num, Ids(c', table, reqs[1..]));
      if Draws(c, reqs[0]) {
        IncreasingCons(c.num, reqs[0].ch.newId, c'.num, Ids(c', table, reqs[1..]));
      } else {
        assert [] + Ids(c', table, reqs[1..]) == Ids(c', table, reqs[1..]);
      }
    }
  }

  lemma {:induction false} IncreasingMeans(lo: nat, ids: seq<nat>, k: nat, l: nat)
    requires Increasing(lo, ids) && k < l < |ids|
    ensures lo <= ids[k] < ids[l]
    decreases |ids|
  {
    assert ids[l] == ids[1..][l - 1];
    if k == 0 {
      IncreasingMember(ids[0] + 1, ids[1..], l - 1);
    } else {
      assert ids[k] == ids[1..][k - 1];
      IncreasingMeans(ids[0] + 1, ids[1..], k - 1, l - 1);
    }
  }

  lemma {:induction false} IncreasingMember(lo: nat, ids: seq<nat>, l: nat)
    requires Increasing(lo, ids) && l < |ids|
    ensures lo <= ids[l]
    decreases |ids|
  {
    if l > 0 {
      assert ids[l] == ids[1..][l - 1];
      IncreasingMember(ids[0] + 1, ids[1..], l - 1);
    }
  }

  /** Over a run the ids of the sets drawn increase strictly: no id is used twice. */
  lemma RunIds(c: State, table: seq<Row>, reqs: seq<ReadReq>, k: nat, l: nat)
    requires Valid(c, table) && PossibleRun(c, table, reqs) && IdsBelow(c) && k < l < |Ids(c, table, reqs)|
    ensures c.num <= Ids(c, table, reqs)[k] < Ids(c, table, reqs)[l]
  {
    RunIncreases(c, table, reqs);
    IncreasingMeans(c.num, Ids(c, table, reqs), k, l);
  }
}
