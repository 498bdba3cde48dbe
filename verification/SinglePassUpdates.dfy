/** How a SinglePass client catches up with the database: it replays the log from
    its own version on, patching one parity per operation and growing by one
    chunk whenever an operation lands beyond its last chunk. */
module SinglePassUpdates {
  import opened Rows
  import opened Permutations
  import opened SinglePass
  import opened DynamicDb

  /** The server's answer to an update request. A log that was never written to is
      answered with a value of another type, which the client rejects. */
  datatype Updates = TooOld | WrongType | Since(newVersion: nat, ops: seq<UpdateOp>)

  function GetUpdates(d: Ddb, clientVersion: nat): Updates
    requires clientVersion <= d.opInitVersion + |d.ops|
  {
    if clientVersion < d.opInitVersion then TooOld
    else if |d.ops| == 0 then WrongType
    else Since(d.currVersion, d.ops[clientVersion - d.opInitVersion..])
  }

  ghost predicate EnoughWords(n: nat, words: seq<Word>) {
    0 < n <= |words| && n < WORD
  }

  /** The client grows by one chunk when the operation lies beyond its last one. */
  ghost function Grown(s: State, index: nat, words: seq<Word>): State
    requires EnoughWords(s.nHints, words)
  {
    if index < s.nRows then s
    else s.(nRows := s.nRows + s.nHints, setSize := s.setSize + 1,
            perms := s.perms + [Draw(s.nHints, words)], invs := s.invs + [DrawInverse(s.nHints, words)])
  }

  lemma GrownWellFormed(s: State, index: nat, words: seq<Word>)
    requires WellFormed(s) && EnoughWords(s.nHints, words)
    ensures WellFormed(Grown(s, index, words))
  {
  }

  /** Any permutation may be drawn for a chunk that is grown. */
  lemma GrownReaches(s: State, index: nat, perm: seq<nat>, inv: seq<nat>) returns (words: seq<Word>)
    requires WellFormed(s) && s.nRows <= index && s.nHints < WORD && MutuallyInverse(perm, inv, s.nHints)
    ensures EnoughWords(s.nHints, words)
    ensures var g := Grown(s, index, words); g.setSize == s.setSize + 1 && g.perms == s.perms + [perm]
  {
    words := DrawReaches(perm, inv);
  }

  /** One operation of the log, applied to the client. */
  ghost function ApplyOp(s: State, op: UpdateOp, words: seq<Word>): State
    requires WellFormed(s) && EnoughWords(s.nHints, words) && op.index < s.nRows + s.nHints
  {
    GrownWellFormed(s, op.index, words);
    var g := Grown(s, op.index, words);
    var pos := FindIndex(g, op.index).1;
    g.(hints := g.hints[pos := Xor(Xor(g.hints[pos], op.oldData), op.newData)])
  }

  // ----- Tables that are zero beyond their end -----

  ghost predicate SameTable(t: seq<Row>, u: seq<Row>) {
    forall i: nat :: At(t, i) == At(u, i)
  }

  ghost function SetAt(t: seq<Row>, i: nat, row: Row): (u: seq<Row>)
    ensures forall j: nat :: At(u, j) == if j == i then row else At(t, j)
  {
    if i < |t| then t[i := row] else t + seq(i - |t|, _ => ZERO) + [row]
  }

  lemma ColumnSame(s: State, t: seq<Row>, u: seq<Row>, h: nat)
    requires WellFormed(s) && h < s.nHints && SameTable(t, u)
    ensures Column(s, t, h) == Column(s, u, h)
  {
    forall c | 0 <= c < s.setSize
      ensures ChunkRow(t, s.nHints, c, s.perms[c][h]) == ChunkRow(u, s.nHints, c, s.perms[c][h])
    {
      SameRow(t, u, s.nHints, c, s.perms[c][h]);
    }
  }

  lemma SameRow(t: seq<Row>, u: seq<Row>, n: nat, c: nat, r: nat)
    requires SameTable(t, u)
    ensures ChunkRow(t, n, c, r) == ChunkRow(u, n, c, r)
  {
    var i: nat := c * n + r;
    assert At(t, i) == At(u, i);
  }

  lemma ValidSame(s: State, t: seq<Row>, u: seq<Row>)
    requires Valid(s, t) && SameTable(t, u)
    ensures Valid(s, u)
  {
    forall h | 0 <= h < s.nHints
      ensures Column(s, t, h) == Column(s, u, h)
    {
      ColumnSame(s, t, u, h);
    }
  }

  /** The client's chunks reach up to the last row that is not zero. */
  ghost predicate Covers(s: State, table: seq<Row>) {
    forall i: nat | s.nRows <= i :: At(table, i) == ZERO
  }

  // ----- One operation -----

  lemma GrownValid(s: State, table: seq<Row>, index: nat, words: seq<Word>)
    requires Valid(s, table) && Covers(s, table) && EnoughWords(s.nHints, words)
    ensures Valid(Grown(s, index, words), table) && Covers(Grown(s, index, words), table)
  {
    var g := Grown(s, index, words);
    GrownWellFormed(s, index, words);
    if index >= s.nRows {
      forall h | 0 <= h < s.nHints
        ensures g.hints[h] == XorAll(Column(g, table, h))
      {
        assert ChunkRow(table, s.nHints, s.setSize, g.perms[s.setSize][h]) == ZERO;
        assert Column(g, table, h) == Column(s, table, h) + [ZERO];
        XorAllSnoc(Column(s, table, h), ZERO);
        XorZero(XorAll(Column(s, table, h)));
      }
    }
  }

  /** Two rows of a chunked table are the same row only in the same place. */
  lemma ChunkRowUnique(n: nat, c: nat, r: nat, c': nat, r': nat)
    requires r < n && r' < n
    ensures c * n + r == c' * n + r' <==> c == c' && r == r'
  {
    if c < c' {
      MulMonotone(c + 1, c', n);
    } else if c' < c {
      MulMonotone(c' + 1, c, n);
    }
  }

  /** Folding the old and the new row into the parity of the row's slot keeps every parity. */
  lemma PatchValid(s: State, table: seq<Row>, i: nat, row: Row)
    requires Valid(s, table) && i < s.nRows
    ensures var pos := FindIndex(s, i).1;
            Valid(s.(hints := s.hints[pos := Xor(Xor(s.hints[pos], At(table, i)), row)]), SetAt(table, i, row))
  {
    var (chunk, pos) := FindIndex(s, i);
    var s' := s.(hints := s.hints[pos := Xor(Xor(s.hints[pos], At(table, i)), row)]);
    var table' := SetAt(table, i, row);
    forall h | 0 <= h < s.nHints
      ensures s'.hints[h] == XorAll(Column(s', table', h))
    {
      PatchColumn(s, s', table, i, row, chunk, pos, h);
    }
  }

  /** A row of the table is selected by one slot of one chunk only. */
  lemma SelectedOnce(s: State, c: nat, h: nat, chunk: nat, pos: nat)
    requires WellFormed(s) && c < s.setSize && h < s.nHints && chunk < s.setSize && pos < s.nHints
    ensures c * s.nHints + s.perms[c][h] == chunk * s.nHints + s.perms[chunk][pos] <==> c == chunk && h == pos
  {
    ChunkRowUnique(s.nHints, c, s.perms[c][h], chunk, s.perms[chunk][pos]);
    assert s.invs[c][s.perms[c][h]] == h && s.invs[chunk][s.perms[chunk][pos]] == pos;
  }

  lemma PatchColumn(s: State, s': State, table: seq<Row>, i: nat, row: Row, chunk: nat, pos: nat, h: nat)
    requires Valid(s, table) && WellFormed(s') && s'.perms == s.perms && s'.nHints == s.nHints && s'.setSize == s.setSize
    requires chunk < s.setSize && pos < s.nHints && h < s.nHints
    requires i == chunk * s.nHints + s.perms[chunk][pos]
    requires s'.hints == s.hints[pos := Xor(Xor(s.hints[pos], At(table, i)), row)]
    ensures s'.hints[h] == XorAll(Column(s', SetAt(table, i, row), h))
  {
    var before := Column(s, table, h);
    var after := Column(s', SetAt(table, i, row), h);
    PatchEntries(s, table, i, row, chunk, pos, h);
    if h == pos {
      assert before[chunk] == At(table, i);
      assert after == before[chunk := row];
      XorAllUpdate(before, chunk, row);
    } else {
      assert after == before;
    }
  }

  lemma PatchEntry(s: State, table: seq<Row>, i: nat, row: Row, chunk: nat, pos: nat, h: nat, c: nat)
    requires WellFormed(s) && c < s.setSize && chunk < s.setSize && pos < s.nHints && h < s.nHints
    requires i == chunk * s.nHints + s.perms[chunk][pos]
    ensures ChunkRow(SetAt(table, i, row), s.nHints, c, s.perms[c][h])
         == if c == chunk && h == pos then row else ChunkRow(table, s.nHints, c, s.perms[c][h])
  {
    SelectedOnce(s, c, h, chunk, pos);
    var j: nat := c * s.nHints + s.perms[c][h];
    assert At(SetAt(table, i, row), j) == if j == i then row else At(table, j);
  }

  lemma PatchEntries(s: State, table: seq<Row>, i: nat, row: Row, chunk: nat, pos: nat, h: nat)
    requires WellFormed(s) && chunk < s.setSize && pos < s.nHints && h < s.nHints
    requires i == chunk * s.nHints + s.perms[chunk][pos]
    ensures forall c | 0 <= c < s.setSize ::
      ChunkRow(SetAt(table, i, row), s.nHints, c, s.perms[c][h])
      == if c == chunk && h == pos then row else ChunkRow(table, s.nHints, c, s.perms[c][h])
  {
    forall c | 0 <= c < s.setSize
      ensures ChunkRow(SetAt(table, i, row), s.nHints, c, s.perms[c][h])
           == if c == chunk && h == pos then row else ChunkRow(table, s.nHints, c, s.perms[c][h])
    {
      PatchEntry(s, table, i, row, chunk, pos, h, c);
    }
  }

  /** One logged operation carries the client from the table before it to the table after it. */
  lemma ApplyOpValid(s: State, table: seq<Row>, op: UpdateOp, words: seq<Word>)
    requires Valid(s, table) && Covers(s, table) && EnoughWords(s.nHints, words)
    requires op.index < s.nRows + s.nHints && op.oldData == At(table, op.index)
    ensures Valid(ApplyOp(s, op, words), SetAt(table, op.index, op.newData))
    ensures Covers(ApplyOp(s, op, words), SetAt(table, op.index, op.newData))
  {
    GrownValid(s, table, op.index, words);
    PatchValid(Grown(s, op.index, words), table, op.index, op.newData);
  }

  // ----- A whole log -----

  function GrowCount(n: nat, c: nat, index: nat): nat {
    if index < c * n then c else c + 1
  }

  /** The end of the chunk behind the first `c` chunks. */
  function NextEnd(n: nat, c: nat): nat {
    c * n + n
  }

  /** Replaying `ops` carries a client with `c` chunks that holds `t` to one with
      `c'` chunks that holds `t'`: every operation records the row just before it
      and lands in an existing chunk or in the next one. */
  ghost predicate Replayable(n: nat, c: nat, t: seq<Row>, ops: seq<UpdateOp>, c': nat, t': seq<Row>)
    decreases |ops|
  {
    if |ops| == 0 then c == c' && SameTable(t, t')
    else
      && ops[0].oldData == At(t, ops[0].index)
      && ops[0].index < NextEnd(n, c)
      && Replayable(n, GrowCount(n, c, ops[0].index), SetAt(t, ops[0].index, ops[0].newData), ops[1..], c', t')
  }

  lemma {:induction false} ReplayableSame(n: nat, c: nat, t: seq<Row>, ops: seq<UpdateOp>,
                                          c': nat, t': seq<Row>, u': seq<Row>)
    requires Replayable(n, c, t, ops, c', t') && SameTable(t', u')
    ensures Replayable(n, c, t, ops, c', u')
    decreases |ops|
  {
    if |ops| > 0 {
      ReplayableSame(n, GrowCount(n, c, ops[0].index), SetAt(t, ops[0].index, ops[0].newData), ops[1..], c', t', u');
    }
  }

  /** Logging one more operation keeps the log replayable. */
  lemma {:induction false} ReplayableSnoc(n: nat, c: nat, t: seq<Row>, ops: seq<UpdateOp>, c': nat, t': seq<Row>,
                                          i: nat, row: Row, u: seq<Row>)
    requires Replayable(n, c, t, ops, c', t') && i < NextEnd(n, c') && SameTable(SetAt(t', i, row), u)
    ensures Replayable(n, c, t, ops + [UpdateOp(i, At(t', i), row)], GrowCount(n, c', i), u)
    decreases |ops|
  {
    var op := UpdateOp(i, At(t', i), row);
    if |ops| == 0 {
      assert (ops + [op])[1..] == [];
      assert SameTable(SetAt(t, i, row), u);
    } else {
      assert (ops + [op])[1..] == ops[1..] + [op];
      ReplayableSnoc(n, GrowCount(n, c, ops[0].index), SetAt(t, ops[0].index, ops[0].newData), ops[1..], c', t',
                     i, row, u);
    }
  }

  ghost predicate WordsFor(s: State, ops: seq<UpdateOp>, words: seq<seq<Word>>) {
    |words| == |ops| && forall k | 0 <= k < |words| :: EnoughWords(s.nHints, words[k])
  }

  /** Every operation lands in an existing chunk or in the next one. */
  ghost predicate InReach(n: nat, c: nat, ops: seq<UpdateOp>)
    decreases |ops|
  {
    |ops| > 0 ==> ops[0].index < NextEnd(n, c) && InReach(n, GrowCount(n, c, ops[0].index), ops[1..])
  }

  lemma ReplayableInReach(n: nat, c: nat, t: seq<Row>, ops: seq<UpdateOp>, c': nat, t': seq<Row>)
    requires Replayable(n, c, t, ops, c', t')
    ensures InReach(n, c, ops)
    decreases |ops|
  {
  }

  /** The client after the loop of updateState. */
  ghost function ReplayOps(s: State, ops: seq<UpdateOp>, words: seq<seq<Word>>): (s': State)
    requires WellFormed(s) && WordsFor(s, ops, words) && InReach(s.nHints, s.setSize, ops)
    ensures WellFormed(s') && s'.nHints == s.nHints && s'.version == s.version
    decreases |ops|
  {
    if |ops| == 0 then s
    else
      GrownWellFormed(s, ops[0].index, words[0]);
      ReplayOps(ApplyOp(s, ops[0], words[0]), ops[1..], words[1..])
  }

  /** Replaying the pending log makes the client's parities those of the current table. */
  lemma {:induction false} ReplayValid(s: State, ops: seq<UpdateOp>, words: seq<seq<Word>>,
                                       t: seq<Row>, c': nat, t': seq<Row>)
    requires Valid(s, t) && Covers(s, t) && WordsFor(s, ops, words)
    requires Replayable(s.nHints, s.setSize, t, ops, c', t') && InReach(s.nHints, s.setSize, ops)
    ensures var s' := ReplayOps(s, ops, words);
            Valid(s', t') && Covers(s', t') && s'.setSize == c'
    decreases |ops|
  {
    if |ops| == 0 {
      ValidSame(s, t, t');
    } else {
      ApplyOpValid(s, t, ops[0], words[0]);
      ReplayValid(ApplyOp(s, ops[0], words[0]), ops[1..], words[1..], SetAt(t, ops[0].index, ops[0].newData), c', t');
    }
  }

  /** updateState: replay, then take over the server's version. */
  ghost function Updated(s: State, newVersion: nat, ops: seq<UpdateOp>, words: seq<seq<Word>>): State
    requires WellFormed(s) && WordsFor(s, ops, words) && InReach(s.nHints, s.setSize, ops)
  {
    ReplayOps(s, ops, words).(version := newVersion)
  }
}
