/** The offline phase of the puncturable-set scheme and the client object, proved
    against the state functions of PuncClients. */
module PuncObjects {
  import opened Rows
  import opened GgmTree
  import SP = SinglePass
  import opened PuncSets
  import opened PuncClients

  // ----- The sets that both sides generate -----

  /** The ids that repeated calls of Gen use, from id `num` on. */
  ghost predicate GeneratedIds(g: Gen, num: nat, ids: seq<nat>)
    decreases |ids|
  {
    |ids| > 0 ==> IsNextId(g, num, ids[0]) && GeneratedIds(g, ids[0] + 1, ids[1..])
  }

  /** Server and client generate the same sets from the same key. */
  lemma {:induction false} GeneratedSame(g: Gen, num: nat, a: seq<nat>, b: seq<nat>)
    requires GeneratedIds(g, num, a) && GeneratedIds(g, num, b) && |a| == |b|
    ensures a == b
    decreases |a|
  {
    if |a| > 0 {
      GeneratedSame(g, a[0] + 1, a[1..], b[1..]);
      assert a == [a[0]] + a[1..] && b == [b[0]] + b[1..];
    }
  }

  function NumAfter(num: nat, ids: seq<nat>): nat {
    if |ids| == 0 then num else ids[|ids| - 1] + 1
  }

  lemma {:induction false} GeneratedSnoc(g: Gen, num: nat, ids: seq<nat>, id: nat)
    requires GeneratedIds(g, num, ids) && IsNextId(g, NumAfter(num, ids), id)
    ensures GeneratedIds(g, num, ids + [id])
    decreases |ids|
  {
    if |ids| > 0 {
      GeneratedSnoc(g, ids[0] + 1, ids[1..], id);
      assert (ids + [id])[1..] == ids[1..] + [id];
    }
  }

  lemma {:induction false} GeneratedBelow(g: Gen, num: nat, ids: seq<nat>)
    requires GeneratedIds(g, num, ids)
    ensures num <= NumAfter(num, ids) && forall j | 0 <= j < |ids| :: ids[j] < NumAfter(num, ids)
    decreases |ids|
  {
    if |ids| > 0 {
      GeneratedBelow(g, ids[0] + 1, ids[1..]);
      assert NumAfter(num, ids) == NumAfter(ids[0] + 1, ids[1..]);
      forall j | 0 <= j < |ids|
        ensures ids[j] < NumAfter(num, ids)
      {
        if j > 0 {
          assert ids[j] == ids[1..][j - 1];
        }
      }
    }
  }

  function KeysOf(g: Gen, ids: seq<nat>): (r: seq<SetKey>)
    requires GenValid(g)
    ensures |r| == |ids|
  {
    seq(|ids|, j requires 0 <= j < |ids| => GenKey(g, ids[j]))
  }

  /** The elements of the generated sets. */
  function ElemsOf(g: Gen, ids: seq<nat>): (r: seq<seq<nat>>)
    requires GenValid(g)
    ensures |r| == |ids| && AllBelow(r, g.univ)
  {
    seq(|ids|, j requires 0 <= j < |ids| => Eval(g, GenKey(g, ids[j])))
  }

  /** The hints that the server computes: one parity per generated set. */
  function ParitiesOf(all: seq<seq<nat>>, table: seq<Row>): (r: seq<Row>)
    ensures |r| == |all|
  {
    seq(|all|, j requires 0 <= j < |all| => Parity(table, all[j]))
  }

  /** The reverse index after pointing the elements of the first `k` sets at them. */
  function InitPointers(all: seq<seq<nat>>, n: nat, k: nat): (r: seq<int>)
    requires AllBelow(all, n) && k <= |all|
    ensures |r| == n
  {
    if k == 0 then seq(n, _ => -1)
    else SetPointers(InitPointers(all, n, k - 1), all[k - 1], k - 1, |all[k - 1]|)
  }

  function Initial(gens: Gens, ids: seq<nat>, hints: seq<Row>): PuncClients.State
    requires GensValid(gens)
  {
    PuncClients.State.State(gens.orig.univ, gens, KeysOf(gens.orig, ids), hints,
                            InitPointers(ElemsOf(gens.orig, ids), gens.orig.univ, |ids|), NumAfter(0, ids))
  }

  lemma {:induction false} InitPointersSound(all: seq<seq<nat>>, n: nat, k: nat)
    requires AllBelow(all, n) && k <= |all|
    ensures IndexSound(all, InitPointers(all, n, k))
  {
    if k > 0 {
      InitPointersSound(all, n, k - 1);
      var before, after, elems := InitPointers(all, n, k - 1), InitPointers(all, n, k), all[k - 1];
      assert elems[..|elems|] == elems;
      forall v | 0 <= v < n
        ensures PointerSound(all, after[v], v)
      {
        assert PointerSound(all, before[v], v);
        SetPointersAt(before, elems, k - 1, |elems|, v);
      }
    }
  }

  /** At first every row of a set has a pointer, so that no lookup of a covered row scans. */
  lemma {:induction false} InitPointersComplete(all: seq<seq<nat>>, n: nat, k: nat, j: nat, v: nat)
    requires AllBelow(all, n) && j < k <= |all| && v < n && v in all[j]
    ensures InitPointers(all, n, k)[v] >= 0
  {
    var elems := all[k - 1];
    assert elems[..|elems|] == elems;
    SetPointersAt(InitPointers(all, n, k - 1), elems, k - 1, |elems|, v);
    if j < k - 1 {
      InitPointersComplete(all, n, k - 1, j, v);
    }
  }

  lemma InitialShaped(gens: Gens, ids: seq<nat>, hints: seq<Row>)
    requires GensValid(gens) && |hints| == |ids| > 0
    requires GeneratedIds(gens.orig, 0, ids) && gens.origNum == NumAfter(0, ids)
    ensures Shaped(Initial(gens, ids, hints)) && SetsOf(Initial(gens, ids, hints)) == ElemsOf(gens.orig, ids)
  {
    GeneratedBelow(gens.orig, 0, ids);
  }

  lemma ParitiesRight(all: seq<seq<nat>>, table: seq<Row>)
    ensures HintsRight(all, ParitiesOf(all, table), table)
  {
  }

  /** The client that the offline phase sets up is right from the start. */
  lemma InitialValid(gens: Gens, ids: seq<nat>, table: seq<Row>)
    requires GensValid(gens) && |ids| > 0 && GeneratedIds(gens.orig, 0, ids) && gens.origNum == NumAfter(0, ids)
    ensures Valid(Initial(gens, ids, ParitiesOf(ElemsOf(gens.orig, ids), table)), table)
    ensures IdsBelow(Initial(gens, ids, ParitiesOf(ElemsOf(gens.orig, ids), table)))
  {
    GeneratedBelow(gens.orig, 0, ids);
    var all := ElemsOf(gens.orig, ids);
    InitialShaped(gens, ids, ParitiesOf(all, table));
    ParitiesRight(all, table);
    InitPointersSound(all, gens.orig.univ, |ids|);
  }

  lemma NextIdUnique(g: Gen, num: nat, a: nat, b: nat)
    requires IsNextId(g, num, a) && IsNextId(g, num, b)
    ensures a == b
  {
  }

  lemma ElemsOfSnoc(g: Gen, ids: seq<nat>, id: nat, table: seq<Row>)
    requires GenValid(g)
    ensures ElemsOf(g, ids + [id]) == ElemsOf(g, ids) + [Eval(g, GenKey(g, id))]
    ensures KeysOf(g, ids + [id]) == KeysOf(g, ids) + [GenKey(g, id)]
    ensures ParitiesOf(ElemsOf(g, ids + [id]), table)
         == ParitiesOf(ElemsOf(g, ids), table) + [Parity(table, Eval(g, GenKey(g, id)))]
  {
  }

  /** The server's side: generate the sets in turn and fold each into a parity. */
  method ProcessHint(g: Gen, nHints: nat, table: seq<Row>) returns (hints: seq<Row>)
    requires Productive(g)
    ensures exists ids | GeneratedIds(g, 0, ids) :: |ids| == nHints && hints == ParitiesOf(ElemsOf(g, ids), table)
  {
    hints := [];
    ghost var ids: seq<nat> := [];
    var num := 0;
    for i := 0 to nHints
      invariant |ids| == i && GeneratedIds(g, 0, ids) && num == NumAfter(0, ids)
      invariant hints == ParitiesOf(ElemsOf(g, ids), table)
    {
      var id := NextId(g, num);
      GeneratedSnoc(g, 0, ids, id);
      ElemsOfSnoc(g, ids, id, table);
      var elems := EvalSet(g, GenKey(g, id));
      var parity := XorRows(table, elems);
      ids := ids + [id];
      hints := hints + [parity];
      num := id + 1;
    }
  }

  lemma {:induction false} InitPointersPrefix(all: seq<seq<nat>>, elems: seq<nat>, n: nat, k: nat)
    requires AllBelow(all, n) && Below(elems, n) && k <= |all|
    ensures InitPointers(all + [elems], n, k) == InitPointers(all, n, k)
  {
    if k > 0 {
      InitPointersPrefix(all, elems, n, k - 1);
    }
  }

  lemma PointersNext(all: seq<seq<nat>>, elems: seq<nat>, n: nat)
    requires AllBelow(all, n) && Below(elems, n)
    ensures InitPointers(all + [elems], n, |all| + 1) == SetPointers(InitPointers(all, n, |all|), elems, |all|, |elems|)
  {
    InitPointersPrefix(all, elems, n, |all|);
  }

  /** What initSets has built from the sets with ids `ids`. */
  ghost predicate SetsMade(g: Gen, ids: seq<nat>, num: nat, keys: seq<SetKey>, pointers: seq<int>)
    requires GenValid(g)
  {
    && GeneratedIds(g, 0, ids) && num == NumAfter(0, ids) && keys == KeysOf(g, ids)
    && pointers == InitPointers(ElemsOf(g, ids), g.univ, |ids|)
  }

  lemma SetMade(g: Gen, ids: seq<nat>, num: nat, keys: seq<SetKey>, pointers: seq<int>, id: nat)
    requires GenValid(g) && SetsMade(g, ids, num, keys, pointers) && IsNextId(g, num, id)
    ensures var elems := Eval(g, GenKey(g, id));
            && Below(elems, |pointers|)
            && SetsMade(g, ids + [id], id + 1, keys + [GenKey(g, id)], SetPointers(pointers, elems, |ids|, |elems|))
  {
    GeneratedSnoc(g, 0, ids, id);
    ElemsOfSnoc(g, ids, id, []);
    PointersNext(ElemsOf(g, ids), Eval(g, GenKey(g, id)), g.univ);
  }

  class PuncClient {
    const nRows: nat
    const orig: Gen
    const own: Gen
    const origNum: nat
    var num: nat
    var sets: seq<SetKey>
    var hints: seq<Row>
    var idxToSetIdx: seq<int>

    ghost function View(): PuncClients.State
      reads this
    {
      PuncClients.State.State(nRows, Gens(orig, own, origNum), sets, hints, idxToSetIdx, num)
    }

    /** initSets: regenerate the server's sets and build the reverse index. */
    constructor (orig: Gen, own: Gen, hints: seq<Row>, ghost ids: seq<nat>)
      requires Productive(orig) && GenValid(own) && |ids| == |hints| && GeneratedIds(orig, 0, ids)
      requires orig.univ == own.univ && orig.setSize == own.setSize && orig.cipher == own.cipher
      ensures View() == Initial(Gens(orig, own, NumAfter(0, ids)), ids, hints)
      ensures this.orig == orig && this.own == own
    {
      var nextNum := 0;
      var keys: seq<SetKey> := [];
      var pointers: seq<int> := seq(orig.univ, _ => -1);
      ghost var made: seq<nat> := [];
      for i := 0 to |hints|
        invariant |made| == i && SetsMade(orig, made, nextNum, keys, pointers)
      {
        var id := NextId(orig, nextNum);
        var elems := EvalSet(orig, GenKey(orig, id));
        SetMade(orig, made, nextNum, keys, pointers, id);
        pointers := PointAll(pointers, elems, i);
        keys := keys + [GenKey(orig, id)];
        made := made + [id];
        nextNum := id + 1;
      }
      GeneratedSame(orig, 0, made, ids);
      this.nRows, this.orig, this.own, this.hints := orig.univ, orig, own, hints;
      sets, idxToSetIdx, num, origNum := keys, pointers, nextNum, nextNum;
    }

    /** eval: regenerates the elements of a stored set. */
    method ElementsOf(j: nat) returns (r: seq<nat>)
      requires Shaped(View()) && j < |sets|
      ensures r == SetsOf(View())[j]
    {
      r := EvalSet(if sets[j].id < origNum then orig else own, sets[j]);
    }

    /** findIndex: a valid pointer, or a scan of all sets that repairs pointers on the way. */
    method Find(i: nat) returns (setIdx: int)
      requires Shaped(View())
      modifies this`idxToSetIdx
      ensures (idxToSetIdx, setIdx) == FindIndex(old(View()), i)
    {
      if i >= nRows {
        return -1;
      }
      if idxToSetIdx[i] >= 0 {
        return idxToSetIdx[i];
      }
      ghost var all := SetsOf(View());
      for j := 0 to |sets|
        invariant |idxToSetIdx| == nRows && Shaped(View()) && SetsOf(View()) == all
        invariant ScanSets(all, idxToSetIdx, i, j) == ScanSets(all, old(idxToSetIdx), i, 0)
      {
        var elems := ElementsOf(j);
        var found := Scan(elems, j, i);
        if found {
          return j;
        }
      }
      return -1;
    }

    method Scan(elems: seq<nat>, j: nat, i: nat) returns (found: bool)
      requires Below(elems, |idxToSetIdx|)
      modifies this`idxToSetIdx
      ensures (idxToSetIdx, found) == ScanSet(old(idxToSetIdx), elems, j, i, 0)
    {
      for k := 0 to |elems|
        invariant Below(elems, |idxToSetIdx|)
        invariant ScanSet(idxToSetIdx, elems, j, i, k) == ScanSet(old(idxToSetIdx), elems, j, i, 0)
      {
        if elems[k] == i {
          return true;
        }
        idxToSetIdx := idxToSetIdx[elems[k] := j];
      }
      return false;
    }

    /** replaceSet: unpoint the old elements, store the new key, point the new elements. */
    method ReplaceSet(s: nat, key: SetKey)
      requires Shaped(View()) && s < |sets|
      modifies this`sets, this`idxToSetIdx
      ensures View() == Replaced(old(View()), s, key)
    {
      var was := ElementsOf(s);
      var now := EvalSet(if key.id < origNum then orig else own, key);
      var idx := UnpointAll(idxToSetIdx, was, s);
      sets := sets[s := key];
      idxToSetIdx := PointAll(idx, now, s);
    }

    /** The two requests, once the fresh set is drawn. */
    method Requests(i: nat, s: nat, ch: Choices, key: SetKey) returns (qL: Request, qR: Request)
      requires Ready(View(), i, s, ch) && key == NewKey(View(), i, ch)
      ensures (qL, qR) == Queries(View(), i, s, ch)
    {
      GenWithHolds(own, ch.newId, i);
      var oldKey := sets[s];
      var oldGen := if oldKey.id < origNum then orig else own;
      var left, right;
      match ch.randCase {
        case 0 =>
          left := PunctureAt(own, key, i);
          right := PunctureAt(oldGen, oldKey, i);
        case 1 =>
          left := PunctureAt(own, key, ch.extraR);
          right := PunctureAt(own, key, i);
        case _ =>
          left := PunctureAt(own, key, i);
          right := PunctureAt(own, key, ch.extraL);
      }
      qL, qR := Request(left, ch.extraL), Request(right, ch.extraR);
    }

    /** The rest of a query once set `s` is known to hold the row: draw a fresh set that
        holds it too, puncture, and in the refreshing case put the fresh set in place. */
    method Draw(i: nat, s: nat, ch: Choices) returns (qL: Request, qR: Request)
      requires Ready(View(), i, s, ch) && Productive(own) && IsNextId(own, num, ch.newId)
      modifies this
      ensures View() == Queried(old(View()), i, s, ch) && (qL, qR) == Queries(old(View()), i, s, ch)
      ensures RequestsRight(old(View()), i, ch, qL, qR)
    {
      QueriesAsk(View(), i, s, ch);
      var id := NextId(own, num);
      NextIdUnique(own, num, id, ch.newId);
      var key := GenWithKey(own, id, i);
      qL, qR := Requests(i, s, ch, key);
      if ch.randCase == 0 {
        ReplaceSet(s, key);
      }
      num := id + 1;
    }

    /** Query: look the row up; a row in no set cannot be read. */
    method Query(i: nat, ch: Choices) returns (setIdx: int, qL: Request, qR: Request)
      requires Shaped(View()) && IndexSound(SetsOf(View()), idxToSetIdx) && Possible(View(), ReadReq(i, ch))
      requires Productive(own) && IsNextId(own, num, ch.newId)
      modifies this
      ensures setIdx == FindIndex(old(View()), i).1
      ensures var c1 := old(View()).(idxToSetIdx := FindIndex(old(View()), i).0);
              if setIdx < 0 then View() == c1
              else Ready(c1, i, setIdx, ch) && View() == Queried(c1, i, setIdx, ch) && (qL, qR) == Queries(c1, i, setIdx, ch)
      ensures var c1 := old(View()).(idxToSetIdx := FindIndex(old(View()), i).0);
              setIdx >= 0 ==> RequestsRight(c1, i, ch, qL, qR)
    {
      FindIndexRight(View(), i);
      setIdx := Find(i);
      qL, qR := Request(Punctured(1, 0, [], 0, 0), 0), Request(Punctured(1, 0, [], 0, 0), 0);
      if setIdx >= 0 {
        qL, qR := Draw(i, setIdx, ch);
      }
    }

    /** reconstruct: the row, and in the refreshing case the hint of the replaced set. */
    method Reconstruct(s: nat, ch: Choices, left: (Row, Row), right: (Row, Row)) returns (out: Row)
      requires s < |hints|
      modifies this`hints
      ensures (hints, out) == Reconstructed(old(hints), s, ch, left, right)
    {
      out := ZERO;
      match ch.randCase {
        case 0 =>
          var hint := hints[s];
          out := Xor(out, hint);
          out := Xor(out, right.0);
          hint := Xor(hint, hint);
          hint := Xor(hint, left.0);
          hint := Xor(hint, out);
          hints := hints[s := hint];
        case 1 =>
          out := Xor(out, out);
          out := Xor(out, left.0);
          out := Xor(out, right.0);
          out := Xor(out, right.1);
        case _ =>
          out := Xor(out, out);
          out := Xor(out, left.0);
          out := Xor(out, right.0);
          out := Xor(out, left.1);
      }
    }
  }

  /** Invalidates the pointers of a set's elements that still point at it. */
  method UnpointAll(pointers: seq<int>, elems: seq<nat>, j: nat) returns (r: seq<int>)
    requires Below(elems, |pointers|)
    ensures r == ClearPointers(pointers, elems, j, |elems|)
  {
    r := pointers;
    for k := 0 to |elems|
      invariant r == ClearPointers(pointers, elems, j, k)
    {
      if r[elems[k]] == j {
        r := r[elems[k] := -1];
      }
    }
  }

  /** Points every element of a set at it. */
  method PointAll(pointers: seq<int>, elems: seq<nat>, j: nat) returns (r: seq<int>)
    requires Below(elems, |pointers|)
    ensures r == SetPointers(pointers, elems, j, |elems|)
  {
    r := pointers;
    for k := 0 to |elems|
      invariant r == SetPointers(pointers, elems, j, k)
    {
      r := r[elems[k] := j];
    }
  }

  /** The server's answer to one request: regenerate the punctured set, fold its rows, and
      return the extra row beside it. */
  method ProcessQuery(e: Cipher, table: seq<Row>, q: Request) returns (answer: Row, extra: Row)
    requires PuncturedValid(q.punctured)
    ensures (answer, extra) == AnswerQuery(e, table, q)
  {
    answer := AnswerNative(e, table, q.punctured);
    extra := SP.At(table, q.extra);
  }
}
