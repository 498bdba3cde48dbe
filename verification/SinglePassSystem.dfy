/** One updatable database and one SinglePass client, over arbitrary runs of edits,
    appends, client updates, reads and fresh hints. */
module SinglePassSystem {
  import opened Rows
  import opened Permutations
  import opened SinglePass
  import opened SinglePassHint
  import opened SinglePassUpdates
  import opened DynamicDb

  /** The two parties, with what the proof remembers: the table the client last
      caught up with, the chunks it will have after the next update, and the
      chunks of the table. */
  datatype Sys = Sys(d: Ddb, s: State, base: seq<Row>, c: nat, e: nat)

  ghost function Pending(y: Sys): seq<UpdateOp>
    requires y.d.opInitVersion <= y.s.version <= y.d.opInitVersion + |y.d.ops|
  {
    y.d.ops[y.s.version - y.d.opInitVersion..]
  }

  /** The database was built from n*n rows and has grown by whole chunks of n rows,
      each before it was needed. */
  ghost predicate ServerValid(d: Ddb, e: nat) {
    && 0 < d.extendSize < WORD
    && VersionsAgree(d)
    && |d.table| == e * d.extendSize && d.extendSize <= e
    && d.realSize <= |d.table| <= d.realSize + d.extendSize
    && (e == d.extendSize ==> d.realSize == |d.table|)
    && (e > d.extendSize ==> d.realSize > d.extendSize * d.extendSize)
  }

  /** The client is right about the table it last saw, and its pending log leads
      from there to the current table. */
  ghost predicate ClientValid(y: Sys) {
    && y.s.nHints == y.d.extendSize && y.s.setSize > 0
    && y.d.opInitVersion <= y.s.version <= y.d.opInitVersion + |y.d.ops|
    && Valid(y.s, y.base) && Covers(y.s, y.base)
    && Replayable(y.s.nHints, y.s.setSize, y.base, Pending(y), y.c, y.d.table)
    && y.d.realSize <= y.c * y.s.nHints && y.c <= y.e
  }

  ghost predicate Inv(y: Sys) {
    ServerValid(y.d, y.e) && ClientValid(y)
  }

  /** The client has replayed the whole log. */
  ghost predicate InSync(y: Sys) {
    y.d.opInitVersion + |y.d.ops| == y.s.version
  }

  // ----- Edits and appends -----

  function GrowChunks(n: nat, c: nat, indices: seq<nat>, k: nat): nat
    requires k <= |indices|
  {
    if k == 0 then c else GrowCount(n, GrowChunks(n, c, indices, k - 1), indices[k - 1])
  }

  /** One logged edit, seen from a position in the log. */
  lemma EditOpLog(d: Ddb, v: nat, i: nat, row: Row)
    requires v <= |d.ops| && i < |d.table|
    ensures EditOp(d, i, row).ops[v..] == d.ops[v..] + [UpdateOp(i, At(d.table, i), row)]
    ensures SameTable(SetAt(d.table, i, row), EditOp(d, i, row).table)
  {
  }

  /** Each of the first `k` edits is inside the table and reaches at most one chunk further. */
  ghost predicate Reaches(n: nat, c: nat, indices: seq<nat>, size: nat, k: nat)
    requires k <= |indices|
  {
    forall j | 0 <= j < k :: ReachesAt(n, c, indices, size, j)
  }

  ghost predicate ReachesAt(n: nat, c: nat, indices: seq<nat>, size: nat, j: nat)
    requires j < |indices|
  {
    indices[j] < size && indices[j] < NextEnd(n, GrowChunks(n, c, indices, j))
  }

  lemma ReachesLess(n: nat, c: nat, indices: seq<nat>, size: nat, k: nat)
    requires k < |indices| && Reaches(n, c, indices, size, k + 1)
    ensures Reaches(n, c, indices, size, k)
  {
  }

  lemma ReachesLast(n: nat, c: nat, indices: seq<nat>, size: nat, k: nat)
    requires k < |indices| && Reaches(n, c, indices, size, k + 1)
    ensures indices[k] < size && indices[k] < NextEnd(n, GrowChunks(n, c, indices, k))
  {
    assert ReachesAt(n, c, indices, size, k);
  }

  lemma EditOpReplayable(n: nat, c0: nat, base: seq<Row>, v: nat, c: nat,
                         d: Ddb, indices: seq<nat>, k: nat, row: Row)
    requires v <= |d.ops| && k < |indices| && Reaches(n, c, indices, |d.table|, k + 1)
    requires Replayable(n, c0, base, d.ops[v..], GrowChunks(n, c, indices, k), d.table)
    ensures var d' := EditOp(d, indices[k], row);
            Replayable(n, c0, base, d'.ops[v..], GrowChunks(n, c, indices, k + 1), d'.table)
  {
    ReachesLast(n, c, indices, |d.table|, k);
    EditOpLog(d, v, indices[k], row);
    ReplayableSnoc(n, c0, base, d.ops[v..], GrowChunks(n, c, indices, k), d.table, indices[k], row,
                   EditOp(d, indices[k], row).table);
  }

  /** The log from position `v` on is replayable after the first `k` edits of a batch. */
  ghost predicate EditsReplay(n: nat, c0: nat, base: seq<Row>, v: nat, c: nat,
                              d: Ddb, indices: seq<nat>, rows: seq<Row>, k: nat)
    requires k <= |indices| == |rows| && v <= |d.ops|
  {
    var d' := EditAll(d, indices, rows, k);
    Replayable(n, c0, base, d'.ops[v..], GrowChunks(n, c, indices, k), d'.table)
  }

  lemma EditNextReplayable(n: nat, c0: nat, base: seq<Row>, v: nat, c: nat,
                           d: Ddb, indices: seq<nat>, rows: seq<Row>, k: nat)
    requires k < |indices| == |rows| && v <= |d.ops| && Reaches(n, c, indices, |d.table|, k + 1)
    requires EditsReplay(n, c0, base, v, c, d, indices, rows, k)
    ensures EditsReplay(n, c0, base, v, c, d, indices, rows, k + 1)
  {
    EditOpReplayable(n, c0, base, v, c, EditAll(d, indices, rows, k), indices, k, rows[k]);
  }

  /** A batch of logged edits keeps the log replayable. */
  lemma {:induction false} EditAllReplayable(n: nat, c0: nat, base: seq<Row>, v: nat, c: nat,
                                             d: Ddb, indices: seq<nat>, rows: seq<Row>, k: nat)
    requires k <= |indices| == |rows| && v <= |d.ops|
    requires Replayable(n, c0, base, d.ops[v..], c, d.table)
    requires Reaches(n, c, indices, |d.table|, k)
    ensures EditsReplay(n, c0, base, v, c, d, indices, rows, k)
  {
    if k == 0 {
      assert EditAll(d, indices, rows, 0) == d && GrowChunks(n, c, indices, 0) == c;
    } else {
      ReachesLess(n, c, indices, |d.table|, k - 1);
      EditAllReplayable(n, c0, base, v, c, d, indices, rows, k - 1);
      EditNextReplayable(n, c0, base, v, c, d, indices, rows, k - 1);
    }
  }

  lemma ChunkBound(n: nat, c: nat, e: nat)
    requires c * n < e * n
    ensures c < e
  {
    MulMonotone(e, c, n);
  }

  /** Growing for rows inside the table never takes the client past the table. */
  lemma {:induction false} GrowChunksBound(n: nat, c: nat, e: nat, indices: seq<nat>, k: nat)
    requires k <= |indices| && c <= e && forall j | 0 <= j < k :: indices[j] < e * n
    ensures c <= GrowChunks(n, c, indices, k) <= e
  {
    if k > 0 {
      GrowChunksBound(n, c, e, indices, k - 1);
      var g := GrowChunks(n, c, indices, k - 1);
      if indices[k - 1] >= g * n {
        ChunkBound(n, g, e);
      }
    }
  }

  lemma NextChunk(g: nat, n: nat)
    ensures (g + 1) * n == g * n + n
  {
  }

  /** Appended rows are consecutive, so the client keeps up with them. */
  lemma {:induction false} AppendReach(n: nat, c: nat, lo: nat, len: nat, k: nat)
    requires n > 0 && lo <= c * n && k <= len
    ensures lo + k <= GrowChunks(n, c, RangeArray(lo, len), k) * n
  {
    if k > 0 {
      AppendReach(n, c, lo, len, k - 1);
      var g := GrowChunks(n, c, RangeArray(lo, len), k - 1);
      NextChunk(g, n);
    }
  }

  function StepEdit(y: Sys, indices: seq<nat>, rows: seq<Row>): Sys {
    y.(d := EditedRows(y.d, indices, rows).0,
       c := if |indices| == |rows| then GrowChunks(y.d.extendSize, y.c, indices, |indices|) else y.c)
  }

  lemma TrailsBy(n: nat, c: nat, e: nat, realSize: nat)
    requires n > 0 && realSize <= c * n && c <= e && e * n <= realSize + n
    ensures c == e || c + 1 == e
    ensures (c + 1) * n == c * n + n
  {
    assert (c + 2) * n == c * n + n + n;
    if c + 1 < e {
      MulMonotone(c + 2, e, n);
    }
  }

  /** The client's next chunk count is the table's or one less. */
  lemma Trails(y: Sys)
    requires Inv(y)
    ensures y.c == y.e || y.c + 1 == y.e
    ensures |y.d.table| <= y.c * y.s.nHints + y.s.nHints
  {
    TrailsBy(y.s.nHints, y.c, y.e, y.d.realSize);
  }

  lemma EditReaches(y: Sys, indices: seq<nat>)
    requires Inv(y) && forall j | 0 <= j < |indices| :: indices[j] < |y.d.table|
    ensures Reaches(y.s.nHints, y.c, indices, |y.d.table|, |indices|)
  {
    var n := y.s.nHints;
    Trails(y);
    forall j | 0 <= j < |indices|
      ensures ReachesAt(n, y.c, indices, |y.d.table|, j)
    {
      GrowChunksBound(n, y.c, y.e, indices, j);
      MulMonotone(y.c, GrowChunks(n, y.c, indices, j), n);
    }
  }

  lemma EditKeeps(y: Sys, indices: seq<nat>, rows: seq<Row>)
    requires Inv(y) && forall j | 0 <= j < |indices| :: indices[j] < |y.d.table|
    ensures Inv(StepEdit(y, indices, rows))
  {
    if |indices| == |rows| {
      var n := y.s.nHints;
      var v := y.s.version - y.d.opInitVersion;
      EditReaches(y, indices);
      EditAllReplayable(n, y.s.setSize, y.base, v, y.c, y.d, indices, rows, |indices|);
      GrowChunksBound(n, y.c, y.e, indices, |indices|);
      MulMonotone(y.c, GrowChunks(n, y.c, indices, |indices|), n);
      VersionsAgreeExactly(y.d, indices, rows);
    }
  }

  function StepAppend(y: Sys, rows: seq<Row>): Sys {
    y.(d := AppendedRows(y.d, rows),
       c := GrowChunks(y.d.extendSize, y.c, RangeArray(y.d.realSize, |rows|), |rows|),
       e := if y.d.realSize + |rows| >= |y.d.table| then y.e + 1 else y.e)
  }

  /** Extending the table by zero rows is invisible to the client. */
  lemma ExtendKeeps(y: Sys, adds: nat)
    requires y.d.opInitVersion <= y.s.version <= y.d.opInitVersion + |y.d.ops|
    requires Replayable(y.s.nHints, y.s.setSize, y.base, Pending(y), y.c, y.d.table)
    ensures Replayable(y.s.nHints, y.s.setSize, y.base, Pending(y), y.c, Extended(y.d, adds).table)
  {
    ReplayableSame(y.s.nHints, y.s.setSize, y.base, Pending(y), y.c, y.d.table, Extended(y.d, adds).table);
  }

  /** The appended rows find room in the table as the append extends it. An empty append
      must not be what takes the table beyond its first n*n rows. */
  predicate AppendFits(d: Ddb, e: nat, rows: seq<Row>) {
    if |rows| == 0 then !(d.realSize == |d.table| && e == d.extendSize)
    else d.realSize + |rows| <= |d.table| + d.extendSize
  }

  lemma ExtendedSize(d: Ddb, adds: nat)
    ensures |Extended(d, adds).table| == |d.table| + if d.realSize + adds >= |d.table| then d.extendSize else 0
    ensures d.realSize + adds <= |Extended(d, adds).table| <==> d.realSize + adds <= |d.table| + d.extendSize
  {
  }

  lemma ExtendedChunks(y: Sys, rows: seq<Row>)
    requires |y.d.table| == y.e * y.d.extendSize
    ensures |StepAppend(y, rows).d.table| == |Extended(y.d, |rows|).table| == StepAppend(y, rows).e * y.d.extendSize
  {
    NextChunk(y.e, y.d.extendSize);
  }

  /** The server's side of an append: its versions agree exactly when the rows fit. */
  lemma AppendVersions(d: Ddb, rows: seq<Row>)
    requires VersionsAgree(d)
    ensures VersionsAgree(AppendedRows(d, rows)) <==> |rows| == 0 || d.realSize + |rows| <= |d.table| + d.extendSize
  {
    var d1 := Extended(d, |rows|);
    var indices := RangeArray(d1.realSize, |rows|);
    ExtendedSize(d, |rows|);
    VersionsAgreeExactly(d1, indices, rows);
    if |rows| > 0 {
      assert indices[|rows| - 1] == d.realSize + |rows| - 1;
    }
  }

  lemma AppendServer(y: Sys, rows: seq<Row>)
    requires ServerValid(y.d, y.e) && |rows| >= 1 && AppendFits(y.d, y.e, rows)
    ensures ServerValid(StepAppend(y, rows).d, StepAppend(y, rows).e)
  {
    var n := y.d.extendSize;
    ExtendedSize(y.d, |rows|);
    ExtendedChunks(y, rows);
    AppendVersions(y.d, rows);
    MulMonotone(n, y.e, n);
  }

  lemma AppendInReach(n: nat, c: nat, lo: nat, k: nat, size: nat)
    requires n > 0 && lo <= c * n && lo + k <= size
    ensures Reaches(n, c, RangeArray(lo, k), size, k)
  {
    forall j | 0 <= j < k
      ensures ReachesAt(n, c, RangeArray(lo, k), size, j)
    {
      AppendReach(n, c, lo, k, j);
    }
  }

  /** The log after an append. */
  lemma AppendReplayable(n: nat, c0: nat, base: seq<Row>, v: nat, c: nat, d: Ddb, rows: seq<Row>, d': Ddb, c': nat)
    requires n == d.extendSize > 0 && v <= |d.ops| && d.realSize <= c * n
    requires d.realSize + |rows| <= |Extended(d, |rows|).table|
    requires Replayable(n, c0, base, d.ops[v..], c, Extended(d, |rows|).table)
    requires d' == AppendedRows(d, rows) && c' == GrowChunks(n, c, RangeArray(d.realSize, |rows|), |rows|)
    ensures v <= |d'.ops| && Replayable(n, c0, base, d'.ops[v..], c', d'.table)
  {
    AppendInReach(n, c, d.realSize, |rows|, |Extended(d, |rows|).table|);
    EditAllReplayable(n, c0, base, v, c, Extended(d, |rows|), RangeArray(d.realSize, |rows|), rows, |rows|);
  }

  /** After an append the client's chunks will cover every row, and are chunks of the table. */
  lemma AppendCovers(n: nat, c: nat, e: nat, lo: nat, k: nat)
    requires n > 0 && lo <= c * n && lo + k <= e * n && c <= e
    ensures lo + k <= GrowChunks(n, c, RangeArray(lo, k), k) * n
    ensures GrowChunks(n, c, RangeArray(lo, k), k) <= e
  {
    GrowChunksBound(n, c, e, RangeArray(lo, k), k);
    AppendReach(n, c, lo, k, k);
  }

  /** A client is not touched by what happens on the server, as long as its log is extended. */
  lemma ClientStays(y: Sys, y': Sys)
    requires ClientValid(y) && y'.s == y.s && y'.base == y.base && y'.d.extendSize == y.d.extendSize
    requires y'.d.opInitVersion == y.d.opInitVersion && |y.d.ops| <= |y'.d.ops|
    requires Replayable(y.s.nHints, y.s.setSize, y.base, Pending(y'), y'.c, y'.d.table)
    requires y'.d.realSize <= y'.c * y.s.nHints && y'.c <= y'.e
    ensures ClientValid(y')
  {
  }

  lemma AppendedShape(d: Ddb, rows: seq<Row>)
    ensures var d' := AppendedRows(d, rows);
            && d'.opInitVersion == d.opInitVersion && d'.extendSize == d.extendSize
            && d'.realSize == d.realSize + |rows| && |d.ops| <= |d'.ops|
  {
  }

  /** The log of a client that will take in an append. */
  lemma AppendPending(y: Sys, rows: seq<Row>)
    requires y.d.opInitVersion <= y.s.version <= y.d.opInitVersion + |y.d.ops|
    requires Replayable(y.s.nHints, y.s.setSize, y.base, Pending(y), y.c, y.d.table)
    requires y.s.nHints == y.d.extendSize > 0 && y.d.realSize <= y.c * y.s.nHints
    requires y.d.realSize + |rows| <= |Extended(y.d, |rows|).table|
    ensures var y' := StepAppend(y, rows);
            && y.s.version <= y'.d.opInitVersion + |y'.d.ops| && y'.d.opInitVersion == y.d.opInitVersion
            && Replayable(y.s.nHints, y.s.setSize, y.base, Pending(y'), y'.c, y'.d.table)
  {
    var y' := StepAppend(y, rows);
    ExtendKeeps(y, |rows|);
    AppendedShape(y.d, rows);
    assert y'.d == AppendedRows(y.d, rows);
    assert Pending(y') == y'.d.ops[y.s.version - y.d.opInitVersion..];
    AppendReplayable(y.s.nHints, y.s.setSize, y.base, y.s.version - y.d.opInitVersion, y.c, y.d, rows, y'.d, y'.c);
  }

  /** The client's side: the grown log is replayable, and the client will hold every appended row. */
  lemma AppendClient(y: Sys, rows: seq<Row>)
    requires ClientValid(y)
    requires |Extended(y.d, |rows|).table| == StepAppend(y, rows).e * y.d.extendSize
    requires y.d.realSize + |rows| <= |Extended(y.d, |rows|).table|
    ensures ClientValid(StepAppend(y, rows))
  {
    AppendPending(y, rows);
    AppendCovers(y.s.nHints, y.c, StepAppend(y, rows).e, y.d.realSize, |rows|);
    AppendedShape(y.d, rows);
    ClientStays(y, StepAppend(y, rows));
  }

  /** An append of no rows may still extend the table. */
  lemma EmptyAppend(y: Sys, rows: seq<Row>)
    requires Inv(y) && |rows| == 0
    ensures ServerValid(StepAppend(y, rows).d, StepAppend(y, rows).e) <==> AppendFits(y.d, y.e, rows)
  {
    ExtendedSize(y.d, 0);
    ExtendedChunks(y, rows);
    AppendVersions(y.d, rows);
  }

  /** Appending keeps both parties right exactly when the rows fit. */
  lemma AppendKeepsExactly(y: Sys, rows: seq<Row>)
    requires Inv(y)
    ensures Inv(StepAppend(y, rows)) <==> AppendFits(y.d, y.e, rows)
  {
    ExtendedSize(y.d, |rows|);
    ExtendedChunks(y, rows);
    if |rows| == 0 {
      EmptyAppend(y, rows);
      AppendClient(y, rows);
    } else if AppendFits(y.d, y.e, rows) {
      AppendServer(y, rows);
      AppendClient(y, rows);
    }
  }

  // ----- Client updates, hints and reads -----

  /** An update request and the client's reaction to each kind of answer. */
  ghost function StepUpdate(y: Sys, words: seq<seq<Word>>): Sys
    requires Inv(y) && WordsFor(y.s, Pending(y), words)
  {
    match GetUpdates(y.d, y.s.version)
    case TooOld => y
    case WrongType => y
    case Since(newVersion, ops) =>
      ReplayableInReach(y.s.nHints, y.s.setSize, y.base, ops, y.c, y.d.table);
      y.(s := Updated(y.s, newVersion, ops, words), base := y.d.table)
  }

  lemma ValidVersion(s: State, s': State, table: seq<Row>)
    requires Valid(s, table) && Covers(s, table) && s' == s.(version := s'.version)
    ensures Valid(s', table) && Covers(s', table)
  {
    forall h | 0 <= h < s.nHints
      ensures Column(s', table, h) == Column(s, table, h)
    {
    }
  }

  lemma ReplayedClient(y: Sys, words: seq<seq<Word>>)
    requires ClientValid(y) && WordsFor(y.s, Pending(y), words)
    ensures InReach(y.s.nHints, y.s.setSize, Pending(y))
    ensures var s := Updated(y.s, y.d.currVersion, Pending(y), words);
            && Valid(s, y.d.table) && Covers(s, y.d.table)
            && s.nHints == y.s.nHints && s.setSize == y.c && s.version == y.d.currVersion
  {
    var ops := Pending(y);
    ReplayableInReach(y.s.nHints, y.s.setSize, y.base, ops, y.c, y.d.table);
    ReplayValid(y.s, ops, words, y.base, y.c, y.d.table);
    ValidVersion(ReplayOps(y.s, ops, words), Updated(y.s, y.d.currVersion, ops, words), y.d.table);
  }

  /** A client with no pending operations and the parities of the current table. */
  lemma SyncedClient(y: Sys)
    requires ServerValid(y.d, y.e) && InSync(y) && y.base == y.d.table
    requires Valid(y.s, y.base) && Covers(y.s, y.base) && y.s.nHints == y.d.extendSize && y.c == y.s.setSize
    requires y.d.realSize <= y.c * y.s.nHints && y.c <= y.e
    ensures Inv(y)
  {
    assert Pending(y) == [];
    if y.c == 0 {
      assert y.c * y.s.nHints == 0;
    }
    MulMonotone(1, y.e, y.s.nHints);
  }

  lemma ReplayedSys(y: Sys, words: seq<seq<Word>>)
    requires Inv(y) && WordsFor(y.s, Pending(y), words)
    ensures InReach(y.s.nHints, y.s.setSize, Pending(y))
    ensures var y' := y.(s := Updated(y.s, y.d.currVersion, Pending(y), words), base := y.d.table);
            Inv(y') && InSync(y')
  {
    ReplayedClient(y, words);
    SyncedClient(y.(s := Updated(y.s, y.d.currVersion, Pending(y), words), base := y.d.table));
  }

  lemma NothingPending(y: Sys, words: seq<seq<Word>>)
    requires Inv(y) && WordsFor(y.s, Pending(y), words) && |y.d.ops| == 0
    ensures StepUpdate(y, words) == y && InSync(y)
  {
  }

  lemma UpdateIs(y: Sys, words: seq<seq<Word>>)
    requires Inv(y) && WordsFor(y.s, Pending(y), words) && |y.d.ops| > 0
    requires InReach(y.s.nHints, y.s.setSize, Pending(y))
    ensures StepUpdate(y, words) == y.(s := Updated(y.s, y.d.currVersion, Pending(y), words), base := y.d.table)
  {
  }

  /** After an update the client is in sync, whatever permutations it drew. */
  lemma UpdateKeeps(y: Sys, words: seq<seq<Word>>)
    requires Inv(y) && WordsFor(y.s, Pending(y), words)
    ensures Inv(StepUpdate(y, words)) && InSync(StepUpdate(y, words))
  {
    if |y.d.ops| == 0 {
      NothingPending(y, words);
    } else {
      ReplayedSys(y, words);
      UpdateIs(y, words);
    }
  }

  /** A fresh client, from a hint whose set size splits the table into chunks of n rows. */
  ghost function StepJoin(y: Sys, words: seq<seq<Word>>): Sys
    requires ServerValid(y.d, y.e) && Splits(y.d.table, y.e, y.d.extendSize, words)
  {
    y.(s := HintState(y.d.table, y.d.staticVersion, y.e, y.d.extendSize, words), base := y.d.table, c := y.e)
  }

  lemma JoinKeeps(y: Sys, words: seq<seq<Word>>)
    requires ServerValid(y.d, y.e) && Splits(y.d.table, y.e, y.d.extendSize, words)
    ensures Inv(StepJoin(y, words)) && InSync(StepJoin(y, words))
  {
    HintValid(y.d.table, y.d.staticVersion, y.e, y.d.extendSize, words);
    assert Pending(StepJoin(y, words)) == [];
  }

  lemma Quotient(len: nat, n: nat, m: nat)
    requires n > 0 && m * n <= len < (m + 1) * n
    ensures len / n == m
  {
    var q := len / n;
    assert q * n <= len < (q + 1) * n by {
      assert len == q * n + len % n;
      assert (q + 1) * n == q * n + n;
    }
    MulMonotone(q + 1, m, n);
    MulMonotone(m + 1, q, n);
  }

  /** With `lag` rows the client does not have, the server's chunk offset is the
      client's chunk length exactly when the lag is below the set size. */
  lemma AlignedExactly(s: State, table: seq<Row>, lag: nat)
    requires WellFormed(s) && s.setSize > 0 && |table| == s.nRows + lag
    ensures Aligned(s, table) <==> lag < s.setSize
  {
    if lag < s.setSize {
      assert (s.nHints + 1) * s.setSize == s.nHints * s.setSize + s.setSize;
      Quotient(|table|, s.setSize, s.nHints);
    } else {
      var q := |table| / s.setSize;
      MulMonotone(q, s.nHints, s.setSize);
      assert |table| == q * s.setSize + |table| % s.setSize;
    }
  }

  /** A client in sync trails the table by nothing or by one chunk, has the server's
      chunk offset, and holds the parities of the current table. */
  lemma SyncedShape(y: Sys)
    requires Inv(y) && InSync(y)
    ensures Valid(y.s, y.d.table) && Aligned(y.s, y.d.table)
    ensures |y.d.table| == y.s.nRows || |y.d.table| == y.s.nRows + y.s.nHints
  {
    var n := y.s.nHints;
    assert Pending(y) == [];
    assert y.s.setSize == y.c && SameTable(y.base, y.d.table);
    ValidSame(y.s, y.base, y.d.table);
    Trails(y);
    assert (y.c + 1) * n == y.c * n + n;
    if y.c < y.e {
      if y.c <= n {
        MulMonotone(y.c, n, n);
        assert false;
      }
      AlignedExactly(y.s, y.d.table, n);
    } else {
      AlignedExactly(y.s, y.d.table, 0);
    }
  }

  ghost function StepRead(y: Sys, i: int, swaps: seq<nat>): Sys
    requires Inv(y) && SwapsInRange(y.s, swaps)
  {
    y.(s := Read(y.s, y.d.table, i, swaps).0, base := y.d.table)
  }

  /** A read by a client in sync: the current row, and the invariants again. */
  lemma ReadKeeps(y: Sys, i: int, swaps: seq<nat>)
    requires Inv(y) && InSync(y) && SwapsInRange(y.s, swaps)
    ensures y.s.nRows > 0 && MathMod(i, y.s.nRows) < |y.d.table|
    ensures Read(y.s, y.d.table, i, swaps).1 == y.d.table[MathMod(i, y.s.nRows)]
    ensures Inv(StepRead(y, i, swaps)) && InSync(StepRead(y, i, swaps))
  {
    SyncedShape(y);
    RowsPositive(y.s);
    ReadCorrect(y.s, y.d.table, i, swaps);
    var y' := StepRead(y, i, swaps);
    assert Pending(y') == [] && Pending(y) == [];
    assert forall j: nat :: At(y.base, j) == At(y.d.table, j);
  }

  // ----- Reading what was written -----

  /** The client catches up with draws `words` and then reads with draws `swaps`. */
  ghost predicate CatchesUp(y: Sys, words: seq<seq<Word>>, swaps: seq<nat>) {
    && Inv(y) && WordsFor(y.s, Pending(y), words)
    && SwapsInRange(StepUpdate(y, words).s, swaps)
  }

  /** What it reads at position `r`. */
  ghost function RowRead(y: Sys, words: seq<seq<Word>>, swaps: seq<nat>, r: nat): Row
    requires CatchesUp(y, words, swaps)
  {
    UpdateKeeps(y, words);
    SyncedShape(StepUpdate(y, words));
    Read(StepUpdate(y, words).s, y.d.table, r, swaps).1
  }

  /** Position `r` lies inside the chunks that the client will have. */
  ghost predicate Reachable(y: Sys, r: nat) {
    r < y.c * y.s.nHints
  }

  /** A client that catches up and reads a position inside its chunks gets the row there. */
  lemma UpdatedRead(y: Sys, words: seq<seq<Word>>, r: nat, swaps: seq<nat>)
    requires CatchesUp(y, words, swaps) && Reachable(y, r)
    ensures RowRead(y, words, swaps, r) == At(y.d.table, r)
  {
    UpdateKeeps(y, words);
    var y' := StepUpdate(y, words);
    ReadKeeps(y', r, swaps);
    assert Pending(y') == [];
    assert y'.s.nRows == y.c * y.s.nHints && y'.d == y.d;
    MathModBelow(r, y'.s.nRows);
  }

  lemma MathModBelow(r: nat, m: nat)
    requires r < m
    ensures MathMod(r, m) == r
  {
  }

  /** After its update a client holds every row that a batch has touched. */
  lemma {:induction false} GrownCovers(n: nat, c: nat, indices: seq<nat>, size: nat, k: nat, j: nat)
    requires j < k <= |indices| && Reaches(n, c, indices, size, k)
    ensures indices[j] < GrowChunks(n, c, indices, k) * n
  {
    ReachesLess(n, c, indices, size, k - 1);
    ReachesLast(n, c, indices, size, k - 1);
    var g := GrowChunks(n, c, indices, k - 1);
    NextChunk(g, n);
    if j < k - 1 {
      GrownCovers(n, c, indices, size, k - 1, j);
    }
  }

  /** After an edit and a client update, reading an edited position returns the row that
      was last passed in for it. */
  lemma EditIsRead(y: Sys, indices: seq<nat>, rows: seq<Row>, j: nat, words: seq<seq<Word>>, swaps: seq<nat>)
    requires Inv(y) && |indices| == |rows| && forall l | 0 <= l < |indices| :: indices[l] < |y.d.table|
    requires j < |indices| && LastWrite(indices, indices[j], j, |indices|)
    requires CatchesUp(StepEdit(y, indices, rows), words, swaps)
    ensures RowRead(StepEdit(y, indices, rows), words, swaps, indices[j]) == rows[j]
  {
    EditReaches(y, indices);
    GrownCovers(y.s.nHints, y.c, indices, |y.d.table|, |indices|, j);
    EditedWrites(y.d, indices, rows);
    var y1 := StepEdit(y, indices, rows);
    assert RowWritten(y.d.table, y1.d.table, indices, rows, |indices|, indices[j]);
    UpdatedRead(y1, words, indices[j], swaps);
  }

  /** Positions that an edit does not name read as before. */
  lemma EditKeepsOthers(y: Sys, indices: seq<nat>, rows: seq<Row>, r: nat, words: seq<seq<Word>>, swaps: seq<nat>)
    requires Inv(y) && |indices| == |rows| && forall l | 0 <= l < |indices| :: indices[l] < |y.d.table|
    requires NotWritten(indices, r, |indices|) && r < y.c * y.s.nHints
    requires CatchesUp(StepEdit(y, indices, rows), words, swaps)
    ensures RowRead(StepEdit(y, indices, rows), words, swaps, r) == At(y.d.table, r)
  {
    var y1 := StepEdit(y, indices, rows);
    EditedWrites(y.d, indices, rows);
    if r < |y.d.table| {
      assert RowWritten(y.d.table, y1.d.table, indices, rows, |indices|, r);
    }
    GrowChunksBound(y.s.nHints, y.c, y.e, indices, |indices|);
    MulMonotone(y.c, y1.c, y.s.nHints);
    UpdatedRead(y1, words, r, swaps);
  }

  lemma AppendReadable(y: Sys, rows: seq<Row>, j: nat)
    requires AppendFits(y.d, y.e, rows) && j < |rows|
    requires StepAppend(y, rows).d.realSize <= StepAppend(y, rows).c * StepAppend(y, rows).s.nHints
    ensures Reachable(StepAppend(y, rows), y.d.realSize + j)
    ensures At(StepAppend(y, rows).d.table, y.d.realSize + j) == rows[j]
  {
    AppendedWrites(y.d, rows);
    AppendedShape(y.d, rows);
    assert At(AppendedRows(y.d, rows).table, y.d.realSize + j) == rows[j];
  }

  /** After an append that fits and a client update, the appended rows are read back in
      order, behind the rows that were in use. */
  lemma AppendIsRead(y: Sys, rows: seq<Row>, j: nat, words: seq<seq<Word>>, swaps: seq<nat>)
    requires Inv(y) && AppendFits(y.d, y.e, rows) && j < |rows|
    requires CatchesUp(StepAppend(y, rows), words, swaps)
    ensures RowRead(StepAppend(y, rows), words, swaps, y.d.realSize + j) == rows[j]
  {
    AppendReadable(y, rows, j);
    UpdatedRead(StepAppend(y, rows), words, y.d.realSize + j, swaps);
  }

  /** A read by a client with pending edits: the row it last saw exactly when the changes
      in the other chunks of the row's column cancel, the current row exactly when all
      changes in the column do. */
  lemma StaleRead(y: Sys, i: int, swaps: seq<nat>)
    requires Inv(y) && Aligned(y.s, y.d.table) && SwapsInRange(y.s, swaps)
    ensures y.s.nRows > 0
    ensures var row := MathMod(i, y.s.nRows);
            var (chunk, pos) := FindIndex(y.s, row);
            var out := Read(y.s, y.d.table, i, swaps).1;
            && (out == At(y.base, row) <==> XorAll(OtherChanges(y.s, y.base, y.d.table, chunk, pos)) == ZERO)
            && (out == At(y.d.table, row) <==> XorAll(Changes(y.s, y.base, y.d.table, pos)) == ZERO)
  {
    StaleReadIs(y.s, y.base, y.d.table, i, swaps);
  }

  // ----- Runs -----

  datatype Event =
    | Edit(indices: seq<nat>, rows: seq<Row>)
    | Append(rows: seq<Row>)
    | Update(words: seq<seq<Word>>)
    | Join(words: seq<seq<Word>>)
    | ReadRow(i: int, swaps: seq<nat>)

  /** In-range edits, appends that fit, reads by a client in sync. */
  ghost predicate Legal(y: Sys, ev: Event)
    requires Inv(y)
  {
    match ev
    case Edit(indices, rows) => forall j | 0 <= j < |indices| :: indices[j] < |y.d.table|
    case Append(rows) => AppendFits(y.d, y.e, rows)
    case Update(words) => WordsFor(y.s, Pending(y), words)
    case Join(words) => Splits(y.d.table, y.e, y.d.extendSize, words)
    case ReadRow(i, swaps) => InSync(y) && SwapsInRange(y.s, swaps)
  }

  ghost function Step(y: Sys, ev: Event): Sys
    requires Inv(y) && Legal(y, ev)
  {
    match ev
    case Edit(indices, rows) => StepEdit(y, indices, rows)
    case Append(rows) => StepAppend(y, rows)
    case Update(words) => StepUpdate(y, words)
    case Join(words) => StepJoin(y, words)
    case ReadRow(i, swaps) => StepRead(y, i, swaps)
  }

  lemma StepKeeps(y: Sys, ev: Event)
    requires Inv(y) && Legal(y, ev)
    ensures Inv(Step(y, ev))
  {
    match ev
    case Edit(indices, rows) => EditKeeps(y, indices, rows);
    case Append(rows) => AppendKeepsExactly(y, rows);
    case Update(words) => UpdateKeeps(y, words);
    case Join(words) => JoinKeeps(y, words);
    case ReadRow(i, swaps) => ReadKeeps(y, i, swaps);
  }

  /** A run in which every event is legal when it happens. */
  ghost predicate LegalRun(y: Sys, evs: seq<Event>)
    requires Inv(y)
    decreases |evs|
  {
    |evs| > 0 ==> Legal(y, evs[0]) && (StepKeeps(y, evs[0]); LegalRun(Step(y, evs[0]), evs[1..]))
  }

  /** Every run of legal events, of any length, keeps the invariant. */
  ghost function Run(y: Sys, evs: seq<Event>): (y': Sys)
    requires Inv(y) && LegalRun(y, evs)
    ensures Inv(y')
    decreases |evs|
  {
    if |evs| == 0 then y
    else
      StepKeeps(y, evs[0]);
      Run(Step(y, evs[0]), evs[1..])
  }

  /** A new database of n*n rows with a client that asked for the default set size. */
  ghost function Start(rows: seq<Row>, n: nat, words: seq<seq<Word>>): Sys
    requires |rows| == n * n && Splits(rows, n, n, words)
  {
    Sys(Ddb(rows, 0, [], 0, 0, |rows|, |rows| / ISqrt(|rows|)), HintState(rows, 0, n, n, words), rows, n, n)
  }

  lemma StartValid(rows: seq<Row>, n: nat, words: seq<seq<Word>>)
    requires |rows| == n * n && Splits(rows, n, n, words)
    ensures EffectiveSetSize(0, |rows|) == n
    ensures Inv(Start(rows, n, words)) && InSync(Start(rows, n, words))
  {
    ISqrtSquare(n);
    assert (n + 1) * n == n * n + n;
    Quotient(|rows|, n, n);
    HintValid(rows, 0, n, n, words);
    assert Pending(Start(rows, n, words)) == [];
  }

  /** A first append of more than n rows: the last of them has no place in the table. */
  lemma FirstAppendOverflows(rows: seq<Row>, n: nat, words: seq<seq<Word>>, more: seq<Row>)
    requires |rows| == n * n && Splits(rows, n, n, words) && |more| > n
    ensures var y := StepAppend(Start(rows, n, words), more);
            y.d.realSize > |y.d.table| && !VersionsAgree(y.d) && !Inv(y)
  {
    StartValid(rows, n, words);
    var y := Start(rows, n, words);
    ExtendedSize(y.d, |more|);
    AppendVersions(y.d, more);
  }

  /** A first append of no rows: the table grows, nothing is logged, and the client's
      chunks are no longer those of the server. */
  lemma FirstAppendEmpty(rows: seq<Row>, n: nat, words: seq<seq<Word>>)
    requires |rows| == n * n && Splits(rows, n, n, words)
    ensures var y := StepAppend(Start(rows, n, words), []);
            |y.d.table| == |rows| + n && !Aligned(y.s, y.d.table) && !Inv(y) && GetUpdates(y.d, y.s.version) == WrongType
  {
    StartValid(rows, n, words);
    var y := Start(rows, n, words);
    ExtendedSize(y.d, 0);
    AppendKeepsExactly(y, []);
    AlignedExactly(y.s, StepAppend(y, []).d.table, n);
  }

  // ----- Other start sizes -----

  /** A new database of r*n rows whose chunks of n rows are not as many as they are long,
      with a client that asked for the default set size. */
  ghost function OblongStart(rows: seq<Row>, r: nat, n: nat, words: seq<seq<Word>>): Sys
    requires |rows| == r * n && Splits(rows, r, n, words)
  {
    Sys(Ddb(rows, 0, [], 0, 0, |rows|, |rows| / ISqrt(|rows|)), HintState(rows, 0, r, n, words), rows, r, r)
  }

  ghost predicate DefaultSizes(rows: seq<Row>, r: nat, n: nat) {
    r > 0 && |rows| == r * n && r == ISqrt(|rows|) && |rows| / r == n
  }

  lemma OblongStartValid(rows: seq<Row>, r: nat, n: nat, words: seq<seq<Word>>)
    requires DefaultSizes(rows, r, n) && Splits(rows, r, n, words)
    ensures ClientValid(OblongStart(rows, r, n, words))
  {
    assert |rows| / ISqrt(|rows|) == n;
    HintValid(rows, 0, r, n, words);
    assert Pending(OblongStart(rows, r, n, words)) == [];
  }

  /** One row and then n - 1 rows are appended: the table gets two more chunks, the client
      will get one. */
  ghost function TwiceAppended(y: Sys, one: seq<Row>, more: seq<Row>): Sys {
    StepAppend(StepAppend(y, one), more)
  }

  lemma OneAppended(y: Sys, r: nat, n: nat, one: seq<Row>)
    requires ClientValid(y) && y.c == y.e == r && n == y.d.extendSize && y.d.realSize == |y.d.table| == r * n && |one| == 1
    ensures var y1 := StepAppend(y, one);
            && ClientValid(y1) && y1.c == y1.e == r + 1 && y1.d.extendSize == n
            && y1.d.realSize == r * n + 1 && |y1.d.table| == (r + 1) * n
  {
    ExtendedSize(y.d, 1);
    ExtendedChunks(y, one);
    AppendClient(y, one);
    assert GrowChunks(n, r, RangeArray(r * n, 1), 0) == r;
  }

  lemma ChunkFilled(y: Sys, c: nat, n: nat, more: seq<Row>)
    requires ClientValid(y) && y.c == y.e == c && n == y.d.extendSize && |y.d.table| == c * n
    requires |more| > 0 && y.d.realSize + |more| == c * n
    ensures var y1 := StepAppend(y, more);
            ClientValid(y1) && y1.c == c && y1.d.extendSize == n && |y1.d.table| == c * n + n
  {
    ExtendedSize(y.d, |more|);
    ExtendedChunks(y, more);
    AppendClient(y, more);
    GrowChunksBound(n, c, c, RangeArray(y.d.realSize, |more|), |more|);
  }

  /** From a start with r < n, one row and then n - 1 rows leave a client that has
      caught up without the server's chunk offset: only square starts keep it. */
  lemma OblongMisaligns(rows: seq<Row>, r: nat, n: nat, words: seq<seq<Word>>, one: seq<Row>, more: seq<Row>,
                        draws: seq<seq<Word>>)
    requires r < n && DefaultSizes(rows, r, n) && Splits(rows, r, n, words) && |one| == 1 && |more| == n - 1
    requires |draws| == n && forall k | 0 <= k < n :: EnoughWords(n, draws[k])
    ensures var y := TwiceAppended(OblongStart(rows, r, n, words), one, more);
            && ClientValid(y) && WordsFor(y.s, Pending(y), draws) && InReach(y.s.nHints, y.s.setSize, Pending(y))
            && !Aligned(Updated(y.s, y.d.currVersion, Pending(y), draws), y.d.table)
  {
    var y0 := OblongStart(rows, r, n, words);
    OblongStartValid(rows, r, n, words);
    OneAppended(y0, r, n, one);
    NextChunk(r, n);
    ChunkFilled(StepAppend(y0, one), r + 1, n, more);
    var y := TwiceAppended(y0, one, more);
    ReplayedClient(y, draws);
    AlignedExactly(Updated(y.s, y.d.currVersion, Pending(y), draws), y.d.table, n);
  }

  // ----- After an update -----

  /** `y` is what a legal run from a new database and one more client update lead to. */
  ghost predicate UpdatedAfter(rows: seq<Row>, n: nat, words: seq<seq<Word>>, evs: seq<Event>, last: Event, y: Sys) {
    && |rows| == n * n && Splits(rows, n, n, words) && last.Update?
    && (StartValid(rows, n, words); LegalRun(Start(rows, n, words), evs))
    && Legal(Run(Start(rows, n, words), evs), last)
    && y == Step(Run(Start(rows, n, words), evs), last)
  }

  /** The shortest such run: a new client that updates at once is told of no operations. */
  lemma FirstUpdate(rows: seq<Row>, n: nat, words: seq<seq<Word>>)
    requires |rows| == n * n && Splits(rows, n, n, words)
    ensures UpdatedAfter(rows, n, words, [], Update([]), Start(rows, n, words))
  {
    StartValid(rows, n, words);
    assert Pending(Start(rows, n, words)) == [];
  }

  /** The main theorem: after any legal run and one more update, the client holds the
      parities of the current table and trails it by at most one chunk. */
  lemma UpdateSyncs(rows: seq<Row>, n: nat, words: seq<seq<Word>>, evs: seq<Event>, last: Event, y: Sys)
    requires UpdatedAfter(rows, n, words, evs, last, y)
    ensures Valid(y.s, y.d.table) && Aligned(y.s, y.d.table) && VersionsAgree(y.d)
    ensures |y.d.table| == y.s.nRows || |y.d.table| == y.s.nRows + y.s.nHints
    ensures Inv(y) && InSync(y)
  {
    StartValid(rows, n, words);
    UpdateKeeps(Run(Start(rows, n, words), evs), last.words);
    SyncedShape(y);
  }

  /** ... so every read returns the current row. */
  lemma ReadsAreCurrent(rows: seq<Row>, n: nat, words: seq<seq<Word>>, evs: seq<Event>, last: Event, y: Sys,
                        i: int, swaps: seq<nat>)
    requires UpdatedAfter(rows, n, words, evs, last, y) && SwapsInRange(y.s, swaps)
    ensures WellFormed(y.s) && y.s.setSize > 0 && y.s.nRows > 0 && MathMod(i, y.s.nRows) < |y.d.table|
    ensures Read(y.s, y.d.table, i, swaps).1 == y.d.table[MathMod(i, y.s.nRows)]
  {
    UpdateSyncs(rows, n, words, evs, last, y);
    ReadKeeps(y, i, swaps);
  }
}
