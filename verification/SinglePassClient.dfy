/** The SinglePass client object and the server's two handlers, each proved against
    the state functions of SinglePass and SinglePassUpdates. */
module SinglePassClients {
  import opened Rows
  import opened Permutations
  import opened StaticDb
  import opened SinglePass
  import opened DynamicDb
  import opened SinglePassHint
  import opened SinglePassUpdates

  datatype HintResp = HintResp(
    nRows: nat, setSize: nat, nHints: nat, hints: seq<Row>,
    permutations: seq<nat>, inverses: seq<nat>, version: nat)

  /** The server's answer to a hint request. */
  method ProcessHint(db: StaticDB, requested: nat, words: seq<seq<Word>>) returns (resp: HintResp)
    requires db.Valid() && EffectiveSetSize(requested, db.NumRows) > 0
    requires var setSize := EffectiveSetSize(requested, db.NumRows);
             Splits(db.Table(), setSize, db.NumRows / setSize, words)
    ensures var setSize := EffectiveSetSize(requested, db.NumRows);
            var s := HintState(db.Table(), db.Version, setSize, db.NumRows / setSize, words);
            resp == HintResp(s.nRows, s.setSize, s.nHints, s.hints, Flat(s.perms), Flat(s.invs), s.version)
  {
    var setSize := EffectiveSetSize(requested, db.NumRows);
    var nHints := db.NumRows / setSize;
    var hints := new Row[nHints](_ => ZERO);
    var permutations := new nat[db.NumRows];
    var inverses := new nat[db.NumRows];
    AnswerSinglePass(db.Table(), setSize, nHints, hints, permutations, inverses, words);
    resp := HintResp(db.NumRows, setSize, nHints, hints[..], permutations[..], inverses[..], db.Version);
  }

  /** The server's answer to a query: it only copies the requested rows. */
  method ProcessQuery(db: StaticDB, prSet: seq<nat>, setSize: nat) returns (answer: seq<Row>)
    requires db.Valid() && |prSet| == setSize > 0
    requires forall c | 0 <= c < setSize :: ChunkIndex(db.NumRows / setSize, c, prSet[c]) < db.NumRows
    ensures answer == Answer(db.Table(), prSet, setSize)
  {
    answer := FetchRows(db, prSet, db.NumRows / setSize);
  }

  method FetchRows(db: StaticDB, prSet: seq<nat>, offset: nat) returns (answer: seq<Row>)
    requires db.Valid() && forall c | 0 <= c < |prSet| :: ChunkIndex(offset, c, prSet[c]) < db.NumRows
    ensures |answer| == |prSet|
    ensures forall c | 0 <= c < |prSet| :: answer[c] == ChunkRow(db.Table(), offset, c, prSet[c])
  {
    answer := [];
    for i := 0 to |prSet|
      invariant |answer| == i && forall c | 0 <= c < i :: answer[c] == ChunkRow(db.Table(), offset, c, prSet[c])
    {
      var present, row := db.Row(ChunkIndex(offset, i, prSet[i]));
      answer := answer + [row];
    }
  }

  function ChunkIndex(n: nat, c: nat, r: nat): nat {
    c * n + r
  }

  lemma SwapStep(s: State, pos: nat, swaps: seq<nat>, i: nat)
    requires WellFormed(s) && SwapsInRange(s, swaps) && pos < s.nHints && i < s.setSize
    ensures SwapPerms(s, pos, swaps, i)[i] == s.perms[i] && SwapInvs(s, pos, swaps, i)[i] == s.invs[i]
    ensures SwapPerms(s, pos, swaps, i + 1) == SwapPerms(s, pos, swaps, i)[i := Swap(s.perms[i], pos, swaps[i])]
    ensures SwapInvs(s, pos, swaps, i + 1)
         == SwapInvs(s, pos, swaps, i)[i := SwapInverse(s.perms[i], s.invs[i], pos, swaps[i])]
  {
  }

  lemma SwapNone(s: State, pos: nat, swaps: seq<nat>)
    requires WellFormed(s) && SwapsInRange(s, swaps) && pos < s.nHints
    ensures SwapPerms(s, pos, swaps, 0) == s.perms && SwapInvs(s, pos, swaps, 0) == s.invs
  {
  }

  class SinglePassClient {
    var nRows: nat
    var setSize: nat
    var hints: seq<Row>
    const nHints: nat
    var idxToSetIdx: seq<seq<nat>>
    var setIdxToIdx: seq<seq<nat>>
    var currVersion: nat

    ghost function View(): State
      reads this
    {
      State(nRows, setSize, nHints, hints, idxToSetIdx, setIdxToIdx, currVersion)
    }

    constructor InitClient(resp: HintResp, ghost perms: seq<seq<nat>>, ghost invs: seq<seq<nat>>)
      requires resp.nHints > 0 && resp.permutations == Flat(perms) && resp.inverses == Flat(invs)
      requires forall c | 0 <= c < |perms| :: |perms[c]| == resp.nHints
      requires forall c | 0 <= c < |invs| :: |invs[c]| == resp.nHints
      ensures View() == State(resp.nRows, resp.setSize, resp.nHints, resp.hints, perms, invs, resp.version)
    {
      nRows, setSize, nHints := resp.nRows, resp.setSize, resp.nHints;
      hints, currVersion := resp.hints, resp.version;
      var cutPerms := InitState(resp.permutations, resp.nHints, perms);
      var cutInvs := InitState(resp.inverses, resp.nHints, invs);
      idxToSetIdx, setIdxToIdx := cutPerms, cutInvs;
    }

    /** Builds the offline and the online request for row `i`. */
    method Query(i: int, randSwaps: seq<nat>) returns (offline: seq<nat>, online: seq<nat>, chunk: nat, pos: nat)
      requires WellFormed(View()) && setSize > 0 && SwapsInRange(View(), randSwaps)
      ensures nRows > 0 && (chunk, pos) == FindIndex(View(), MathMod(i, nRows))
      ensures offline == Offline(View(), randSwaps) && online == Online(View(), chunk, pos, randSwaps)
    {
      RowsPositive(View());
      var index := MathMod(i, nRows);
      QuotientBound(index, nHints, setSize);
      chunk := index / nHints;
      pos := setIdxToIdx[chunk][index - chunk * nHints];
      online, offline := [], [];
      for j := 0 to setSize
        invariant |online| == |offline| == j
        invariant forall c | 0 <= c < j :: online[c] == idxToSetIdx[c][pos] && offline[c] == idxToSetIdx[c][randSwaps[c]]
      {
        online := online + [idxToSetIdx[j][pos]];
        offline := offline + [idxToSetIdx[j][randSwaps[j]]];
      }
      online := online[chunk := idxToSetIdx[chunk][randSwaps[chunk]]];
    }

    /** Swaps two slots of one permutation and updates its inverse. */
    method SwapSlots(i: nat, pos: nat, x: nat)
      requires i < |idxToSetIdx| && i < |setIdxToIdx| && pos < |idxToSetIdx[i]| && x < |idxToSetIdx[i]|
      requires idxToSetIdx[i][pos] < |setIdxToIdx[i]| && idxToSetIdx[i][x] < |setIdxToIdx[i]|
      modifies this`idxToSetIdx, this`setIdxToIdx
      ensures idxToSetIdx == old(idxToSetIdx)[i := Swap(old(idxToSetIdx)[i], pos, x)]
      ensures setIdxToIdx == old(setIdxToIdx)[i := SwapInverse(old(idxToSetIdx)[i], old(setIdxToIdx)[i], pos, x)]
    {
      var temp1 := idxToSetIdx[i][pos];
      var temp2 := idxToSetIdx[i][x];
      var perm: seq<nat> := idxToSetIdx[i][pos := temp2];
      perm := perm[x := temp1];
      var inv: seq<nat> := setIdxToIdx[i][temp1 := x];
      inv := inv[temp2 := pos];
      idxToSetIdx, setIdxToIdx := idxToSetIdx[i := perm], setIdxToIdx[i := inv];
    }

    /** The state after `i` rounds of reconstruct's loop. */
    ghost predicate AtRound(s: State, start: seq<Row>, resp0: seq<Row>, resp1: seq<Row>, pos: nat, swaps: seq<nat>, i: nat)
      reads this
    {
      && WellFormed(s) && SwapsInRange(s, swaps) && pos < s.nHints == |start| && i <= s.setSize == |resp0| == |resp1|
      && hints == RepairHints(start, swaps, resp0, resp1, i)
      && idxToSetIdx == SwapPerms(s, pos, swaps, i) && setIdxToIdx == SwapInvs(s, pos, swaps, i)
    }

    /** The loop of reconstruct: one swap and one repair a chunk. */
    method SwapAndRepair(ghost s: State, resp0: seq<Row>, resp1: seq<Row>, pos: nat, randSwaps: seq<nat>)
      requires setSize == s.setSize && AtRound(s, hints, resp0, resp1, pos, randSwaps, 0)
      modifies this`hints, this`idxToSetIdx, this`setIdxToIdx
      ensures AtRound(s, old(hints), resp0, resp1, pos, randSwaps, setSize)
    {
      for i := 0 to setSize
        invariant AtRound(s, old(hints), resp0, resp1, pos, randSwaps, i)
      {
        SwapChunk(s, old(hints), resp0, resp1, pos, randSwaps, i);
      }
    }

    /** One chunk. */
    method SwapChunk(ghost s: State, ghost start: seq<Row>, resp0: seq<Row>, resp1: seq<Row>, pos: nat,
                     randSwaps: seq<nat>, i: nat)
      requires i < s.setSize && AtRound(s, start, resp0, resp1, pos, randSwaps, i)
      modifies this`hints, this`idxToSetIdx, this`setIdxToIdx
      ensures AtRound(s, start, resp0, resp1, pos, randSwaps, i + 1)
    {
      var x := randSwaps[i];
      hints := hints[x := Xor(hints[x], resp0[i])];
      hints := hints[x := Xor(hints[x], resp1[i])];
      SwapStep(s, pos, randSwaps, i);
      SwapSlots(i, pos, x);
    }

    method Recover(resp1: seq<Row>, chunk: nat, pos: nat) returns (out: Row)
      requires WellFormed(View()) && chunk < setSize && pos < nHints && |resp1| == setSize
      ensures out == Recovered(View(), resp1, chunk, pos)
    {
      var xorResp1 := XorAllRows(resp1);
      out := Xor(ZERO, xorResp1);
      out := Xor(out, hints[pos]);
      out := Xor(out, resp1[chunk]);
    }

    /** The queried slot takes the parity of the offline rows. */
    method SetQueried(resp0: seq<Row>, ghost resp1: seq<Row>, pos: nat, ghost swaps: seq<nat>)
      requires WellFormed(View()) && SwapsInRange(View(), swaps) && pos < nHints && |resp0| == |resp1| == setSize
      modifies this`hints
      ensures hints == old(hints)[pos := XorAll(resp0)]
      ensures AtRound(old(View()), hints, resp0, resp1, pos, swaps, 0)
    {
      SwapNone(View(), pos, swaps);
      var xorResp0 := XorAllRows(resp0);
      hints := hints[pos := xorResp0];
    }

    /** After the loop, the queried chunk's own slot. */
    method RepairQueried(ghost s: State, ghost resp0: seq<Row>, resp1: seq<Row>, chunk: nat, ghost pos: nat,
                         randSwaps: seq<nat>, out: Row)
      requires WellFormed(s) && SwapsInRange(s, randSwaps) && chunk < s.setSize && pos < s.nHints
      requires |resp0| == |resp1| == s.setSize && out == Recovered(s, resp1, chunk, pos)
      requires AtRound(s, s.hints[pos := XorAll(resp0)], resp0, resp1, pos, randSwaps, s.setSize)
      requires View() == s.(hints := hints, perms := idxToSetIdx, invs := setIdxToIdx)
      modifies this`hints
      ensures View() == Reconstructed(s, resp0, resp1, chunk, pos, randSwaps)
    {
      var x := randSwaps[chunk];
      hints := hints[x := Xor(hints[x], resp1[chunk])];
      hints := hints[x := Xor(hints[x], out)];
    }

    /** Recovers the row, then swaps two slots of every permutation and repairs the hints. */
    method Reconstruct(resp0: seq<Row>, resp1: seq<Row>, chunk: nat, pos: nat, randSwaps: seq<nat>) returns (out: Row)
      requires WellFormed(View()) && SwapsInRange(View(), randSwaps) && chunk < setSize && pos < nHints
      requires |resp0| == |resp1| == setSize
      modifies this
      ensures out == Recovered(old(View()), resp1, chunk, pos)
      ensures View() == Reconstructed(old(View()), resp0, resp1, chunk, pos, randSwaps)
    {
      ghost var s := View();
      out := Recover(resp1, chunk, pos);
      SetQueried(resp0, resp1, pos, randSwaps);
      SwapAndRepair(s, resp0, resp1, pos, randSwaps);
      RepairQueried(s, resp0, resp1, chunk, pos, randSwaps, out);
    }

    /** Appends a freshly drawn permutation and its inverse. */
    method Grow(words: seq<Word>)
      requires EnoughWords(nHints, words)
      modifies this
      ensures View() == Grown(old(View()), old(nRows), words)
    {
      nRows := nRows + nHints;
      setSize := setSize + 1;
      var newPerm := new nat[nHints];
      var newInvPerm := new nat[nHints];
      Permute(newPerm, 0, nHints, words);
      InvertPermutation(newPerm, 0, nHints, newInvPerm, DrawInverse(nHints, words));
      idxToSetIdx := idxToSetIdx + [newPerm[..]];
      setIdxToIdx := setIdxToIdx + [newInvPerm[..]];
      assert newPerm[..] == newPerm[0..nHints] && newInvPerm[..] == newInvPerm[0..nHints];
    }

    /** Applies one logged operation. */
    method Apply(op: UpdateOp, words: seq<Word>)
      requires WellFormed(View()) && EnoughWords(nHints, words) && op.index < nRows + nHints
      modifies this
      ensures View() == ApplyOp(old(View()), op, words)
    {
      GrownWellFormed(View(), op.index, words);
      if op.index >= nRows {
        Grow(words);
      }
      var pos := SlotOf(op.index);
      hints := hints[pos := Xor(hints[pos], op.oldData)];
      hints := hints[pos := Xor(hints[pos], op.newData)];
    }

    /** findIndex, the slot only. */
    method SlotOf(index: nat) returns (pos: nat)
      requires WellFormed(View()) && index < nRows
      ensures pos == FindIndex(View(), index).1
    {
      QuotientBound(index, nHints, setSize);
      var chunk := index / nHints;
      pos := setIdxToIdx[chunk][index - chunk * nHints];
    }

    /** Replays the operations since the client's version and takes over the new version. */
    method UpdateState(newVersion: nat, updates: seq<UpdateOp>, words: seq<seq<Word>>)
      requires WellFormed(View()) && WordsFor(View(), updates, words) && InReach(nHints, setSize, updates)
      modifies this
      ensures View() == Updated(old(View()), newVersion, updates, words)
    {
      for k := 0 to |updates|
        invariant WellFormed(View()) && WordsFor(View(), updates[k..], words[k..]) && InReach(nHints, setSize, updates[k..])
        invariant ReplayOps(View(), updates[k..], words[k..]) == ReplayOps(old(View()), updates, words)
      {
        ghost var before := View();
        GrownWellFormed(before, updates[k].index, words[k]);
        assert updates[k..][1..] == updates[k + 1..] && words[k..][1..] == words[k + 1..];
        Apply(updates[k], words[k]);
        assert setSize == GrowCount(nHints, before.setSize, updates[k].index);
      }
      currVersion := newVersion;
    }
  }
}
