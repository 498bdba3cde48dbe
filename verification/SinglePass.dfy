/** The SinglePass client: one permutation and its inverse per database chunk and
    one parity per permutation slot. A read recovers a row, swaps two slots of
    every permutation and repairs the parities in place. */
module SinglePass {
  import opened Rows
  import opened Permutations

  /** A table row; the server pads its table with zero rows, so a row beyond the
      end counts as zero. */
  function At(table: seq<Row>, i: nat): Row {
    if i < |table| then table[i] else ZERO
  }

  /** Row `r` of chunk `c` when every chunk has `n` rows. */
  function ChunkRow(table: seq<Row>, n: nat, c: nat, r: nat): Row {
    At(table, c * n + r)
  }

  /** The client's fields. `perms[c]` is idxToSetIdx[c], `invs[c]` is setIdxToIdx[c]. */
  datatype State = State(
    nRows: nat, setSize: nat, nHints: nat, hints: seq<Row>,
    perms: seq<seq<nat>>, invs: seq<seq<nat>>, version: nat)

  ghost predicate WellFormed(s: State) {
    && s.nHints > 0
    && s.nRows == s.setSize * s.nHints
    && |s.hints| == s.nHints
    && |s.perms| == |s.invs| == s.setSize
    && forall c | 0 <= c < s.setSize :: MutuallyInverse(s.perms[c], s.invs[c], s.nHints)
  }

  /** The rows that slot `h` of the permutations selects, one per chunk. */
  ghost function Column(s: State, table: seq<Row>, h: nat): (col: seq<Row>)
    requires WellFormed(s) && h < s.nHints
    ensures |col| == s.setSize
  {
    seq(s.setSize, c requires 0 <= c < s.setSize => ChunkRow(table, s.nHints, c, s.perms[c][h]))
  }

  /** The two invariants of the scheme: the permutations are inverse pairs and
      every hint is the parity of its slot. */
  ghost predicate Valid(s: State, table: seq<Row>) {
    && WellFormed(s)
    && forall h | 0 <= h < s.nHints :: s.hints[h] == XorAll(Column(s, table, h))
  }

  // ----- Query -----

  /** Go's % on ints followed by the sign fix. */
  function MathMod(x: int, m: nat): (r: nat)
    requires m > 0
    ensures r < m
  {
    var out := if x >= 0 then x % m else -((-x) % m);
    if out < 0 then out + m else out
  }

  /** The result is congruent to `x`, for negative `x` too. */
  lemma MathModIs(x: int, m: nat) returns (q: int)
    requires m > 0
    ensures x == q * m + MathMod(x, m)
  {
    if x >= 0 {
      q := x / m;
    } else {
      var y := 0 - x;
      assert y == y / m * m + y % m;
      q := if y % m == 0 then 0 - y / m else 0 - y / m - 1;
      Negated(y / m, m);
    }
  }

  lemma Negated(a: int, m: nat)
    ensures (0 - a) * m == 0 - a * m && (0 - a - 1) * m == 0 - a * m - m
  {
  }

  ghost predicate SwapsInRange(s: State, swaps: seq<nat>) {
    |swaps| == s.setSize && forall c | 0 <= c < s.setSize :: swaps[c] < s.nHints
  }

  /** The chunk of row `i` and the slot that holds it. */
  function FindIndex(s: State, i: nat): (r: (nat, nat))
    requires WellFormed(s) && i < s.nRows
    ensures r.0 < s.setSize && r.1 < s.nHints
    ensures i == r.0 * s.nHints + s.perms[r.0][r.1]
  {
    QuotientBound(i, s.nHints, s.setSize);
    var chunk, inChunk := i / s.nHints, InChunk(i, s.nHints);
    (chunk, s.invs[chunk][inChunk])
  }

  /** What is left of an index behind its whole chunks. */
  function InChunk(i: nat, n: nat): int
    requires n > 0
  {
    i - i / n * n
  }

  lemma QuotientBound(i: nat, n: nat, m: nat)
    requires n > 0 && i < m * n
    ensures 0 <= i / n < m && 0 <= InChunk(i, n) < n
  {
    var q := i / n;
    assert i == q * n + i % n;
    MulMonotone(m, q, n);
  }

  lemma MulMonotone(m: nat, q: nat, n: nat)
    ensures m <= q ==> m * n <= q * n
  {
    if m <= q {
      assert q * n == m * n + (q - m) * n;
    }
  }

  function Offline(s: State, swaps: seq<nat>): (r: seq<nat>)
    requires WellFormed(s) && SwapsInRange(s, swaps)
    ensures |r| == s.setSize
  {
    seq(s.setSize, c requires 0 <= c < s.setSize => s.perms[c][swaps[c]])
  }

  function Online(s: State, chunk: nat, pos: nat, swaps: seq<nat>): (r: seq<nat>)
    requires WellFormed(s) && SwapsInRange(s, swaps) && chunk < s.setSize && pos < s.nHints
    ensures |r| == s.setSize
  {
    seq(s.setSize, c requires 0 <= c < s.setSize =>
      if c == chunk then s.perms[c][swaps[c]] else s.perms[c][pos])
  }

  /** Both servers are asked for one row of the queried chunk, and it is the queried row
      only if the swap slot drawn for that chunk is the queried slot itself. */
  lemma QueriedRowHidden(s: State, i: nat, swaps: seq<nat>)
    requires WellFormed(s) && SwapsInRange(s, swaps) && i < s.nRows
    ensures var (chunk, pos) := FindIndex(s, i);
            && chunk == i / s.nHints
            && Offline(s, swaps)[chunk] == Online(s, chunk, pos, swaps)[chunk] < s.nHints
            && (chunk * s.nHints + Online(s, chunk, pos, swaps)[chunk] == i <==> swaps[chunk] == pos)
  {
    var (chunk, pos) := FindIndex(s, i);
    var p, q := s.perms[chunk], s.invs[chunk];
    assert q[p[swaps[chunk]]] == swaps[chunk] && q[p[pos]] == pos;
  }

  // ----- Answer -----

  /** What the server returns: the requested row of every chunk. */
  function Answer(table: seq<Row>, prSet: seq<nat>, setSize: nat): (r: seq<Row>)
    requires |prSet| == setSize > 0
    ensures |r| == setSize
  {
    var offset := |table| / setSize;
    seq(setSize, c requires 0 <= c < setSize => ChunkRow(table, offset, c, prSet[c]))
  }

  // ----- Reconstruct -----

  function Recovered(s: State, resp1: seq<Row>, chunk: nat, pos: nat): Row
    requires pos < |s.hints| && chunk < |resp1|
  {
    Xor(Xor(Xor(ZERO, XorAll(resp1)), s.hints[pos]), resp1[chunk])
  }

  /** The hints after the first `k` rounds of the repair loop. */
  function RepairHints(hints: seq<Row>, swaps: seq<nat>, resp0: seq<Row>, resp1: seq<Row>, k: nat): (r: seq<Row>)
    requires k <= |swaps| == |resp0| == |resp1|
    requires forall c | 0 <= c < |swaps| :: swaps[c] < |hints|
    ensures |r| == |hints|
  {
    if k == 0 then hints
    else
      var h := RepairHints(hints, swaps, resp0, resp1, k - 1);
      var x := swaps[k - 1];
      h[x := Xor(Xor(h[x], resp0[k - 1]), resp1[k - 1])]
  }

  function SwapPerms(s: State, pos: nat, swaps: seq<nat>, k: nat): (r: seq<seq<nat>>)
    requires WellFormed(s) && SwapsInRange(s, swaps) && pos < s.nHints
    ensures |r| == s.setSize
  {
    seq(s.setSize, c requires 0 <= c < s.setSize =>
      if c < k then Swap(s.perms[c], pos, swaps[c]) else s.perms[c])
  }

  function SwapInvs(s: State, pos: nat, swaps: seq<nat>, k: nat): (r: seq<seq<nat>>)
    requires WellFormed(s) && SwapsInRange(s, swaps) && pos < s.nHints
    ensures |r| == s.setSize
  {
    seq(s.setSize, c requires 0 <= c < s.setSize =>
      if c < k then SwapInverse(s.perms[c], s.invs[c], pos, swaps[c]) else s.invs[c])
  }

  /** The state after a reconstruct. */
  function Reconstructed(s: State, resp0: seq<Row>, resp1: seq<Row>, chunk: nat, pos: nat, swaps: seq<nat>): State
    requires WellFormed(s) && SwapsInRange(s, swaps) && chunk < s.setSize && pos < s.nHints
    requires |resp0| == |resp1| == s.setSize
  {
    var out := Recovered(s, resp1, chunk, pos);
    var hints := RepairHints(s.hints[pos := XorAll(resp0)], swaps, resp0, resp1, s.setSize);
    var x := swaps[chunk];
    s.(hints := hints[x := Xor(Xor(hints[x], resp1[chunk]), out)],
       perms := SwapPerms(s, pos, swaps, s.setSize),
       invs := SwapInvs(s, pos, swaps, s.setSize))
  }

  /** A whole read: query, both answers, reconstruct. */
  function Read(s: State, table: seq<Row>, i: int, swaps: seq<nat>): (State, Row)
    requires WellFormed(s) && SwapsInRange(s, swaps) && s.setSize > 0
  {
    RowsPositive(s);
    var (chunk, pos) := FindIndex(s, MathMod(i, s.nRows));
    var resp0 := Answer(table, Offline(s, swaps), s.setSize);
    var resp1 := Answer(table, Online(s, chunk, pos, swaps), s.setSize);
    (Reconstructed(s, resp0, resp1, chunk, pos, swaps), Recovered(s, resp1, chunk, pos))
  }

  lemma RowsPositive(s: State)
    requires WellFormed(s) && s.setSize > 0
    ensures s.nRows > 0
  {
    assert s.setSize * s.nHints >= 1 * s.nHints;
  }

  // ----- Correctness of one read -----

  /** An up-to-date server splits its table where the client does. */
  ghost predicate Aligned(s: State, table: seq<Row>) {
    s.setSize > 0 && |table| / s.setSize == s.nHints
  }

  lemma RecoverAlgebra(x: Row, was: Row, e: Row)
    ensures Xor(Xor(Xor(ZERO, Xor(Xor(x, was), e)), x), e) == was
  {
    assert forall i | 0 <= i < ROW_LEN :: ((0 ^ ((x[i] ^ was[i]) ^ e[i])) ^ x[i]) ^ e[i] == was[i];
  }

  /** The read returns the row that was asked for. */
  lemma RecoveredIsRow(s: State, table: seq<Row>, chunk: nat, pos: nat, swaps: seq<nat>)
    requires Valid(s, table) && Aligned(s, table) && SwapsInRange(s, swaps)
    requires chunk < s.setSize && pos < s.nHints
    ensures Recovered(s, Answer(table, Online(s, chunk, pos, swaps), s.setSize), chunk, pos)
         == ChunkRow(table, s.nHints, chunk, s.perms[chunk][pos])
  {
    var resp1 := Answer(table, Online(s, chunk, pos, swaps), s.setSize);
    var col := Column(s, table, pos);
    assert resp1 == col[chunk := resp1[chunk]];
    XorAllUpdate(col, chunk, resp1[chunk]);
    RecoverAlgebra(XorAll(col), col[chunk], resp1[chunk]);
  }

  // ----- Reading from a table that has changed -----

  /** What has changed in the rows that slot `h` selects. */
  ghost function Changes(s: State, seen: seq<Row>, table: seq<Row>, h: nat): (r: seq<Row>)
    requires WellFormed(s) && h < s.nHints
    ensures |r| == s.setSize
  {
    XorLists(Column(s, seen, h), Column(s, table, h))
  }

  /** The changes outside the queried chunk. */
  ghost function OtherChanges(s: State, seen: seq<Row>, table: seq<Row>, chunk: nat, h: nat): (r: seq<Row>)
    requires WellFormed(s) && h < s.nHints && chunk < s.setSize
  {
    Changes(s, seen, table, h)[chunk := ZERO]
  }

  lemma StaleAlgebra(was: Row, now: Row, x: Row, y: Row, e: Row)
    ensures var out := Xor(Xor(Xor(ZERO, Xor(Xor(y, now), e)), x), e);
            && out == Xor(now, Xor(x, y))
            && out == Xor(was, Xor(Xor(Xor(x, y), Xor(was, now)), ZERO))
  {
    assert forall i | 0 <= i < ROW_LEN ::
      var out := ((0 ^ ((y[i] ^ now[i]) ^ e[i])) ^ x[i]) ^ e[i];
      out == now[i] ^ (x[i] ^ y[i]) && out == was[i] ^ (((x[i] ^ y[i]) ^ (was[i] ^ now[i])) ^ 0);
  }

  /** Parities of one table and answers from another give the row as it was, plus the
      parity of what has changed in the other chunks; or the row as it is now, plus the
      parity of all that has changed in its column. */
  lemma StaleRow(s: State, seen: seq<Row>, table: seq<Row>, chunk: nat, pos: nat, swaps: seq<nat>)
    requires Valid(s, seen) && Aligned(s, table) && SwapsInRange(s, swaps)
    requires chunk < s.setSize && pos < s.nHints
    ensures var out, r := Recovered(s, Answer(table, Online(s, chunk, pos, swaps), s.setSize), chunk, pos), s.perms[chunk][pos];
            && out == Xor(ChunkRow(seen, s.nHints, chunk, r), XorAll(OtherChanges(s, seen, table, chunk, pos)))
            && out == Xor(ChunkRow(table, s.nHints, chunk, r), XorAll(Changes(s, seen, table, pos)))
  {
    var resp1 := Answer(table, Online(s, chunk, pos, swaps), s.setSize);
    var was, now := Column(s, seen, pos), Column(s, table, pos);
    assert resp1 == now[chunk := resp1[chunk]];
    XorAllUpdate(now, chunk, resp1[chunk]);
    XorAllUpdate(Changes(s, seen, table, pos), chunk, ZERO);
    XorAllLists(was, now);
    StaleAlgebra(was[chunk], now[chunk], XorAll(was), XorAll(now), resp1[chunk]);
  }

  /** A read that is answered from a table other than the one the parities are of. */
  lemma StaleReadIs(s: State, seen: seq<Row>, table: seq<Row>, i: int, swaps: seq<nat>)
    requires Valid(s, seen) && Aligned(s, table) && SwapsInRange(s, swaps)
    ensures s.nRows > 0
    ensures var row := MathMod(i, s.nRows);
            var (chunk, pos) := FindIndex(s, row);
            var out := Read(s, table, i, swaps).1;
            && (out == At(seen, row) <==> XorAll(OtherChanges(s, seen, table, chunk, pos)) == ZERO)
            && (out == At(table, row) <==> XorAll(Changes(s, seen, table, pos)) == ZERO)
  {
    RowsPositive(s);
    var row := MathMod(i, s.nRows);
    var (chunk, pos) := FindIndex(s, row);
    StaleRow(s, seen, table, chunk, pos, swaps);
    XorSame(At(seen, row), XorAll(OtherChanges(s, seen, table, chunk, pos)));
    XorSame(At(table, row), XorAll(Changes(s, seen, table, pos)));
  }

  /** A column in which the first `k` rounds have put the online rows. */
  ghost function Patched(before: seq<Row>, swaps: seq<nat>, resp1: seq<Row>, chunk: nat, h: nat, k: nat): (col: seq<Row>)
    requires |before| == |swaps| == |resp1|
    ensures |col| == |before|
  {
    seq(|before|, c requires 0 <= c < |before| =>
      if c < k && c != chunk && swaps[c] == h then resp1[c] else before[c])
  }

  lemma RepairStep(hints: seq<Row>, swaps: seq<nat>, resp0: seq<Row>, resp1: seq<Row>, h: nat, k: nat)
    requires k < |swaps| == |resp0| == |resp1| && h < |hints|
    requires forall c | 0 <= c < |swaps| :: swaps[c] < |hints|
    ensures var now := RepairHints(hints, swaps, resp0, resp1, k)[h];
            RepairHints(hints, swaps, resp0, resp1, k + 1)[h]
            == if swaps[k] == h then Xor(Xor(now, resp0[k]), resp1[k]) else now
  {
  }

  lemma PatchedStep(before: seq<Row>, swaps: seq<nat>, resp1: seq<Row>, chunk: nat, h: nat, c: nat)
    requires c < |before| == |swaps| == |resp1|
    ensures var now := Patched(before, swaps, resp1, chunk, h, c);
            Patched(before, swaps, resp1, chunk, h, c + 1)
            == if swaps[c] == h && c != chunk then now[c := resp1[c]] else now
    ensures Patched(before, swaps, resp1, chunk, h, c)[c] == before[c]
  {
  }

  /** After `k` rounds the slot holds the parity of the column patched so far. */
  ghost predicate SlotFollows(hints: seq<Row>, swaps: seq<nat>, resp0: seq<Row>, resp1: seq<Row>,
                              before: seq<Row>, chunk: nat, h: nat, k: nat)
    requires k <= |swaps| == |resp0| == |resp1| == |before| && h < |hints|
    requires forall c | 0 <= c < |swaps| :: swaps[c] < |hints|
  {
    RepairHints(hints, swaps, resp0, resp1, k)[h] == XorAll(Patched(before, swaps, resp1, chunk, h, k))
  }

  lemma SlotNext(hints: seq<Row>, swaps: seq<nat>, resp0: seq<Row>, resp1: seq<Row>,
                 before: seq<Row>, chunk: nat, h: nat, c: nat)
    requires c < |swaps| == |resp0| == |resp1| == |before| && h < |hints|
    requires forall c | 0 <= c < |swaps| :: swaps[c] < |hints|
    requires swaps[c] == h ==> resp0[c] == if c == chunk then resp1[c] else before[c]
    requires SlotFollows(hints, swaps, resp0, resp1, before, chunk, h, c)
    ensures SlotFollows(hints, swaps, resp0, resp1, before, chunk, h, c + 1)
  {
    var now := Patched(before, swaps, resp1, chunk, h, c);
    PatchedStep(before, swaps, resp1, chunk, h, c);
    RepairStep(hints, swaps, resp0, resp1, h, c);
    if swaps[c] == h && c != chunk {
      XorAllUpdate(now, c, resp1[c]);
    } else {
      XorCancel(XorAll(now), resp0[c]);
    }
  }

  /** The repair loop, round by round: a slot follows its column chunk by chunk. */
  lemma {:induction false} RepairSlot(hints: seq<Row>, swaps: seq<nat>, resp0: seq<Row>, resp1: seq<Row>,
                                      before: seq<Row>, chunk: nat, h: nat, k: nat)
    requires k <= |swaps| == |resp0| == |resp1| == |before| && h < |hints|
    requires forall c | 0 <= c < |swaps| :: swaps[c] < |hints|
    requires forall c | 0 <= c < |swaps| && swaps[c] == h :: resp0[c] == if c == chunk then resp1[c] else before[c]
    requires hints[h] == XorAll(before)
    ensures SlotFollows(hints, swaps, resp0, resp1, before, chunk, h, k)
  {
    if k == 0 {
      assert Patched(before, swaps, resp1, chunk, h, 0) == before;
    } else {
      RepairSlot(hints, swaps, resp0, resp1, before, chunk, h, k - 1);
      SlotNext(hints, swaps, resp0, resp1, before, chunk, h, k - 1);
    }
  }

  /** A slot whose rounds all fold in equal rows is left as it was. */
  lemma {:induction false} RepairKeeps(hints: seq<Row>, swaps: seq<nat>, resp0: seq<Row>, resp1: seq<Row>, h: nat, k: nat)
    requires k <= |swaps| == |resp0| == |resp1| && h < |hints|
    requires forall c | 0 <= c < |swaps| :: swaps[c] < |hints|
    requires forall c | 0 <= c < |swaps| && swaps[c] == h :: resp0[c] == resp1[c]
    ensures RepairHints(hints, swaps, resp0, resp1, k)[h] == hints[h]
  {
    if k > 0 {
      RepairKeeps(hints, swaps, resp0, resp1, h, k - 1);
      XorCancel(hints[h], resp0[k - 1]);
    }
  }

  lemma ReconstructedWellFormed(s: State, resp0: seq<Row>, resp1: seq<Row>, chunk: nat, pos: nat, swaps: seq<nat>)
    requires WellFormed(s) && SwapsInRange(s, swaps) && chunk < s.setSize && pos < s.nHints
    requires |resp0| == |resp1| == s.setSize
    ensures WellFormed(Reconstructed(s, resp0, resp1, chunk, pos, swaps))
  {
    forall c | 0 <= c < s.setSize
      ensures MutuallyInverse(Swap(s.perms[c], pos, swaps[c]), SwapInverse(s.perms[c], s.invs[c], pos, swaps[c]), s.nHints)
    {
      SwapKeepsInverse(s.perms[c], s.invs[c], s.nHints, pos, swaps[c]);
    }
  }

  /** What the two answers hold, chunk by chunk. */
  lemma AnswerRows(s: State, table: seq<Row>, chunk: nat, pos: nat, swaps: seq<nat>)
    requires WellFormed(s) && Aligned(s, table) && SwapsInRange(s, swaps)
    requires chunk < s.setSize && pos < s.nHints
    ensures forall c | 0 <= c < s.setSize ::
      Answer(table, Offline(s, swaps), s.setSize)[c] == ChunkRow(table, s.nHints, c, s.perms[c][swaps[c]])
    ensures forall c | 0 <= c < s.setSize ::
      Answer(table, Online(s, chunk, pos, swaps), s.setSize)[c]
      == ChunkRow(table, s.nHints, c, s.perms[c][if c == chunk then swaps[c] else pos])
  {
  }

  /** The columns of the swapped permutations, in terms of the old ones. */
  lemma ColumnAfter(s: State, s': State, table: seq<Row>, pos: nat, swaps: seq<nat>, h: nat)
    requires WellFormed(s) && WellFormed(s') && s'.setSize == s.setSize && s'.nHints == s.nHints
    requires SwapsInRange(s, swaps) && pos < s.nHints && h < s.nHints
    requires s'.perms == SwapPerms(s, pos, swaps, s.setSize)
    ensures forall c | 0 <= c < s.setSize ::
      Column(s', table, h)[c]
      == ChunkRow(table, s.nHints, c, s.perms[c][if h == pos then swaps[c] else if h == swaps[c] then pos else h])
  {
  }

  /** The correction of the queried chunk touches one hint. */
  lemma ReconstructedHint(s: State, resp0: seq<Row>, resp1: seq<Row>, chunk: nat, pos: nat, swaps: seq<nat>, h: nat)
    requires WellFormed(s) && SwapsInRange(s, swaps) && chunk < s.setSize && pos < s.nHints && h < s.nHints
    requires |resp0| == |resp1| == s.setSize
    ensures var hint := RepairHints(s.hints[pos := XorAll(resp0)], swaps, resp0, resp1, s.setSize)[h];
            Reconstructed(s, resp0, resp1, chunk, pos, swaps).hints[h]
            == if swaps[chunk] == h then Xor(Xor(hint, resp1[chunk]), Recovered(s, resp1, chunk, pos)) else hint
  {
  }

  lemma RepairedQueried(s: State, table: seq<Row>, chunk: nat, pos: nat, swaps: seq<nat>)
    requires Valid(s, table) && Aligned(s, table) && SwapsInRange(s, swaps)
    requires chunk < s.setSize && pos < s.nHints
    ensures var s' := Reconstructed(s, Answer(table, Offline(s, swaps), s.setSize),
                                    Answer(table, Online(s, chunk, pos, swaps), s.setSize), chunk, pos, swaps);
            WellFormed(s') && s'.hints[pos] == XorAll(Column(s', table, pos))
  {
    var resp0 := Answer(table, Offline(s, swaps), s.setSize);
    var resp1 := Answer(table, Online(s, chunk, pos, swaps), s.setSize);
    ReconstructedWellFormed(s, resp0, resp1, chunk, pos, swaps);
    var s' := Reconstructed(s, resp0, resp1, chunk, pos, swaps);
    var hints := s.hints[pos := XorAll(resp0)];
    assert RepairHints(hints, swaps, resp0, resp1, s.setSize)[pos] == XorAll(resp0) by {
      AnswerRows(s, table, chunk, pos, swaps);
      RepairKeeps(hints, swaps, resp0, resp1, pos, s.setSize);
    }
    assert Column(s', table, pos) == resp0 by {
      AnswerRows(s, table, chunk, pos, swaps);
      ColumnAfter(s, s', table, pos, swaps, pos);
    }
    ReconstructedHint(s, resp0, resp1, chunk, pos, swaps, pos);
    if swaps[chunk] == pos {
      assert resp1[chunk] == Recovered(s, resp1, chunk, pos) by {
        AnswerRows(s, table, chunk, pos, swaps);
        RecoveredIsRow(s, table, chunk, pos, swaps);
      }
      XorCancel(XorAll(resp0), resp1[chunk]);
    }
  }

  /** A column away from the queried slot: outside the queried chunk the repair loop has
      patched it to the column after the swaps. */
  lemma OtherColumn(s: State, s': State, table: seq<Row>, chunk: nat, pos: nat, swaps: seq<nat>, h: nat)
    requires WellFormed(s) && WellFormed(s') && Aligned(s, table) && SwapsInRange(s, swaps)
    requires chunk < s.setSize && pos < s.nHints && h < s.nHints && h != pos
    requires s'.setSize == s.setSize && s'.nHints == s.nHints && s'.perms == SwapPerms(s, pos, swaps, s.setSize)
    ensures var resp1 := Answer(table, Online(s, chunk, pos, swaps), s.setSize);
            var patched := Patched(Column(s, table, h), swaps, resp1, chunk, h, s.setSize);
            var after := Column(s', table, h);
            && after == patched[chunk := after[chunk]]
            && (swaps[chunk] == h ==> resp1[chunk] == patched[chunk])
            && after[chunk] == if swaps[chunk] == h then ChunkRow(table, s.nHints, chunk, s.perms[chunk][pos]) else patched[chunk]
  {
    AnswerRows(s, table, chunk, pos, swaps);
    ColumnAfter(s, s', table, pos, swaps, h);
  }

  /** The repair loop turns the parity of such a column into that of the patched one. */
  lemma OtherHint(s: State, table: seq<Row>, chunk: nat, pos: nat, swaps: seq<nat>, h: nat)
    requires Valid(s, table) && Aligned(s, table) && SwapsInRange(s, swaps)
    requires chunk < s.setSize && pos < s.nHints && h < s.nHints && h != pos
    ensures var resp0 := Answer(table, Offline(s, swaps), s.setSize);
            var resp1 := Answer(table, Online(s, chunk, pos, swaps), s.setSize);
            RepairHints(s.hints[pos := XorAll(resp0)], swaps, resp0, resp1, s.setSize)[h]
            == XorAll(Patched(Column(s, table, h), swaps, resp1, chunk, h, s.setSize))
  {
    var resp0 := Answer(table, Offline(s, swaps), s.setSize);
    var resp1 := Answer(table, Online(s, chunk, pos, swaps), s.setSize);
    AnswerRows(s, table, chunk, pos, swaps);
    RepairSlot(s.hints[pos := XorAll(resp0)], swaps, resp0, resp1, Column(s, table, h), chunk, h, s.setSize);
  }

  lemma LastCorrection(patched: seq<Row>, after: seq<Row>, chunk: nat, hit: bool, was: Row, now: Row)
    requires chunk < |patched| == |after| && after == patched[chunk := after[chunk]]
    requires hit ==> was == patched[chunk] && now == after[chunk]
    requires !hit ==> after[chunk] == patched[chunk]
    ensures XorAll(after) == if hit then Xor(Xor(XorAll(patched), was), now) else XorAll(patched)
  {
    if hit {
      XorAllUpdate(patched, chunk, now);
    } else {
      assert after == patched;
    }
  }

  lemma RepairedOther(s: State, table: seq<Row>, chunk: nat, pos: nat, swaps: seq<nat>, h: nat)
    requires Valid(s, table) && Aligned(s, table) && SwapsInRange(s, swaps)
    requires chunk < s.setSize && pos < s.nHints && h < s.nHints && h != pos
    ensures var s' := Reconstructed(s, Answer(table, Offline(s, swaps), s.setSize),
                                    Answer(table, Online(s, chunk, pos, swaps), s.setSize), chunk, pos, swaps);
            WellFormed(s') && s'.hints[h] == XorAll(Column(s', table, h))
  {
    var resp0 := Answer(table, Offline(s, swaps), s.setSize);
    var resp1 := Answer(table, Online(s, chunk, pos, swaps), s.setSize);
    ReconstructedWellFormed(s, resp0, resp1, chunk, pos, swaps);
    var s' := Reconstructed(s, resp0, resp1, chunk, pos, swaps);
    ReconstructedHint(s, resp0, resp1, chunk, pos, swaps, h);
    OtherHint(s, table, chunk, pos, swaps, h);
    OtherColumn(s, s', table, chunk, pos, swaps, h);
    RecoveredIsRow(s, table, chunk, pos, swaps);
    LastCorrection(Patched(Column(s, table, h), swaps, resp1, chunk, h, s.setSize), Column(s', table, h), chunk,
                   swaps[chunk] == h, resp1[chunk], Recovered(s, resp1, chunk, pos));
  }

  /** One read keeps both invariants and returns the row, whatever the swap slots. */
  lemma ReadCorrect(s: State, table: seq<Row>, i: int, swaps: seq<nat>)
    requires Valid(s, table) && Aligned(s, table) && SwapsInRange(s, swaps)
    ensures s.nRows > 0
    ensures Read(s, table, i, swaps).1 == At(table, MathMod(i, s.nRows))
    ensures Valid(Read(s, table, i, swaps).0, table) && SameShape(Read(s, table, i, swaps).0, s)
  {
    RowsPositive(s);
    var (chunk, pos) := FindIndex(s, MathMod(i, s.nRows));
    RecoveredIsRow(s, table, chunk, pos, swaps);
    ReconstructedWellFormed(s, Answer(table, Offline(s, swaps), s.setSize),
                            Answer(table, Online(s, chunk, pos, swaps), s.setSize), chunk, pos, swaps);
    var s' := Read(s, table, i, swaps).0;
    forall h | 0 <= h < s.nHints
      ensures s'.hints[h] == XorAll(Column(s', table, h))
    {
      if h == pos {
        RepairedQueried(s, table, chunk, pos, swaps);
      } else {
        RepairedOther(s, table, chunk, pos, swaps, h);
      }
    }
  }

  ghost predicate SameShape(s: State, t: State) {
    s.nRows == t.nRows && s.setSize == t.setSize && s.nHints == t.nHints && s.version == t.version
  }

  // ----- Runs -----

  datatype ReadReq = ReadReq(i: int, swaps: seq<nat>)

  ghost predicate RunInRange(s: State, reqs: seq<ReadReq>) {
    forall k | 0 <= k < |reqs| :: SwapsInRange(s, reqs[k].swaps)
  }

  /** The rows that a run of reads returns, and the state it ends in. */
  ghost function ReadRun(s: State, table: seq<Row>, reqs: seq<ReadReq>): (State, seq<Row>)
    requires Valid(s, table) && Aligned(s, table) && RunInRange(s, reqs)
    decreases |reqs|
  {
    if |reqs| == 0 then (s, [])
    else
      ReadCorrect(s, table, reqs[0].i, reqs[0].swaps);
      var step := Read(s, table, reqs[0].i, reqs[0].swaps);
      assert RunInRange(step.0, reqs[1..]);
      var rest := ReadRun(step.0, table, reqs[1..]);
      (rest.0, [step.1] + rest.1)
  }

  /** The rows that were asked for, in order. */
  ghost predicate RowsRight(rows: seq<Row>, table: seq<Row>, nRows: nat, reqs: seq<ReadReq>)
    requires nRows > 0
  {
    |rows| == |reqs| && forall k | 0 <= k < |reqs| :: rows[k] == At(table, MathMod(reqs[k].i, nRows))
  }

  lemma RowsRightCons(row: Row, rest: seq<Row>, table: seq<Row>, nRows: nat, reqs: seq<ReadReq>)
    requires |reqs| > 0 && nRows > 0 && row == At(table, MathMod(reqs[0].i, nRows))
    requires RowsRight(rest, table, nRows, reqs[1..])
    ensures RowsRight([row] + rest, table, nRows, reqs)
  {
    forall k | 0 <= k < |reqs|
      ensures ([row] + rest)[k] == At(table, MathMod(reqs[k].i, nRows))
    {
      if k > 0 {
        assert reqs[1..][k - 1] == reqs[k];
      }
    }
  }

  /** Over runs of any length every read is right and both invariants survive. */
  lemma {:induction false} ReadRunCorrect(s: State, table: seq<Row>, reqs: seq<ReadReq>)
    requires Valid(s, table) && Aligned(s, table) && RunInRange(s, reqs)
    ensures s.nRows > 0
    ensures Valid(ReadRun(s, table, reqs).0, table)
    ensures RowsRight(ReadRun(s, table, reqs).1, table, s.nRows, reqs)
    decreases |reqs|
  {
    RowsPositive(s);
    if |reqs| > 0 {
      ReadCorrect(s, table, reqs[0].i, reqs[0].swaps);
      var s' := Read(s, table, reqs[0].i, reqs[0].swaps).0;
      assert RunInRange(s', reqs[1..]);
      ReadRunCorrect(s', table, reqs[1..]);
      RowsRightCons(Read(s, table, reqs[0].i, reqs[0].swaps).1, ReadRun(s', table, reqs[1..]).1, table, s.nRows, reqs);
    }
  }
}
