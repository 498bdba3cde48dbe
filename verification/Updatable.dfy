/** The update protocol: a server that appends to and compacts an operation log, and
    a client that replays the log into an index from keys to rows of the flat table. */
module Updatable {
  import opened Options
  import opened Rows
  import opened Bits
  import opened OpLog

  // ----- Server -----

  /** `rows` is the flat table. */
  datatype Srv = Srv(initTs: nat, defragTs: nat, ops: seq<Op>, kv: map<Key, Row>, rows: seq<Row>)

  const EMPTY_SERVER := Srv(0, 0, [], map[], [])

  const DEFRAG_RATIO: nat := 4

  /** Replays `ops` on top of a map. */
  function ReplayFrom(m: map<Key, Row>, ops: seq<Op>): map<Key, Row> {
    if |ops| == 0 then m else ApplyTo(ReplayFrom(m, ops[..|ops| - 1]), ops[|ops| - 1])
  }

  function Logged(s: Srv, batch: seq<Op>): Srv {
    s.(ops := s.ops + batch, kv := ReplayFrom(s.kv, batch))
  }

  function Added(s: Srv, batch: seq<Op>): Srv {
    Logged(s, batch).(rows := s.rows + RowsOf(batch))
  }

  function Deletions(keys: seq<Key>): (ops: seq<Op>)
    ensures |ops| == |keys| && forall i | 0 <= i < |ops| :: ops[i].delete
  {
    seq(|keys|, i requires 0 <= i < |keys| => Op(keys[i], true, ZERO))
  }

  function Compacted(s: Srv): Srv {
    var end := |s.ops| / 2;
    var newOps := Defragged(s.ops, end);
    DefragShrinks(s.ops, end);
    s.(defragTs := s.initTs + end, initTs := s.initTs + (|s.ops| - |newOps|), ops := newOps, rows := RowsOf(newOps))
  }

  lemma DefragShrinks(ops: seq<Op>, end: nat)
    requires end <= |ops|
    ensures |Defragged(ops, end)| <= |ops| && |Defragged(ops, end)| >= |ops| - end
  {
    CompactLive(ops[..end]);
  }

  function Deleted(s: Srv, keys: seq<Key>): Srv {
    var s1 := Logged(s, Deletions(keys));
    if |s1.ops| > DEFRAG_RATIO * |s1.kv| then Compacted(s1) else s1
  }

  // ----- Key updates -----

  /** The server's answer but for the keys. */
  datatype Head = Head(initTs: nat, defragTs: nat, isDeletion: seq<bv8>, shouldDelete: bool)

  /** Deletion bits cover the keys that they are read for. */
  predicate BitsCover(isDeletion: seq<bv8>, keys: seq<Key>) {
    |isDeletion| == 0 || |keys| <= 8 * |isDeletion|
  }

  /** The deletion bits of the first `k` operations, in a buffer for all of them. */
  function DeletionBits(ops: seq<Op>, k: nat): (bits: seq<bv8>)
    requires k <= |ops| && |ops| > 0
    ensures |bits| == (|ops| - 1) / 8 + 1
  {
    if k == 0 then Zeros((|ops| - 1) / 8 + 1)
    else
      var bits := DeletionBits(ops, k - 1);
      if ops[k - 1].delete then bits[(k - 1) / 8 := bits[(k - 1) / 8] | Mask((k - 1) % 8)] else bits
  }

  lemma ByteCovers(n: nat, j: nat)
    requires j < n
    ensures j < 8 * ((n - 1) / 8 + 1)
  {
  }

  lemma DeletionBitsStep(ops: seq<Op>, k: nat, j: nat)
    requires 0 < k <= |ops| && j < |ops|
    ensures j / 8 < |DeletionBits(ops, k)| && j / 8 < |DeletionBits(ops, k - 1)|
    ensures BitAt(DeletionBits(ops, k), j) == (BitAt(DeletionBits(ops, k - 1), j) || (j == k - 1 && ops[j].delete))
  {
    ByteCovers(|ops|, j);
    ByteCovers(|ops|, k - 1);
    SetBit(DeletionBits(ops, k - 1), k - 1, j);
  }

  lemma {:induction false} DeletionBitsRead(ops: seq<Op>, k: nat, j: nat)
    requires k <= |ops| && j < |ops|
    ensures j / 8 < |DeletionBits(ops, k)|
    ensures BitAt(DeletionBits(ops, k), j) == (j < k && ops[j].delete)
  {
    ByteCovers(|ops|, j);
    if k == 0 {
      ZeroByte(DeletionBits(ops, 0), j);
    } else {
      DeletionBitsRead(ops, k - 1, j);
      DeletionBitsStep(ops, k, j);
    }
  }

  predicate HasDeletion(ops: seq<Op>) {
    exists i | 0 <= i < |ops| :: ops[i].delete
  }

  function Keys(ops: seq<Op>): (keys: seq<Key>)
    ensures |keys| == |ops|
  {
    seq(|ops|, i requires 0 <= i < |ops| => ops[i].key)
  }

  /** opsToKeyUpdates: the deletion bits, none without a deletion. */
  function BitsSent(ops: seq<Op>): seq<bv8>
    requires |ops| > 0
  {
    if HasDeletion(ops) then DeletionBits(ops, |ops|) else []
  }

  /** Where in its log the server's answer to a client with next timestamp `nextTs` starts. */
  function FirstPos(s: Srv, nextTs: nat): (p: nat)
    requires nextTs <= s.initTs + |s.ops|
    ensures p <= |s.ops|
  {
    var next := if nextTs < s.defragTs then s.initTs else nextTs;
    if next >= s.initTs then next - s.initTs else 0
  }

  /** The operations that the answer is about. */
  function SentOps(s: Srv, nextTs: nat): seq<Op>
    requires nextTs <= s.initTs + |s.ops|
  {
    s.ops[FirstPos(s, nextTs)..]
  }

  /** The server's answer to a client whose next timestamp is `nextTs`. */
  function Heading(s: Srv, nextTs: nat): Head
    requires nextTs <= s.initTs + |s.ops|
  {
    var ops := SentOps(s, nextTs);
    if |ops| == 0 then Head(0, s.defragTs, [], nextTs < s.defragTs)
    else Head(s.initTs + FirstPos(s, nextTs), s.defragTs, BitsSent(ops), nextTs < s.defragTs)
  }

  /** What the client gets of a list of keys; None is a decoding error. The theorems
      hold for every way of coding lists. */
  type Transport = seq<Key> -> Option<seq<Key>>

  /** No list arrives longer than it was sent. */
  ghost predicate Bounded(t: Transport) {
    forall keys: seq<Key> :: t(keys).Some? ==> |t(keys).value| <= |keys|
  }

  /** A list that arrives; there is nothing to send of an empty one. */
  predicate Arrives(t: Transport, keys: seq<Key>) {
    |keys| == 0 || t(keys) == Some(keys)
  }

  /** The keys of the answer as the client gets them. */
  function Arrival(t: Transport, s: Srv, nextTs: nat): Option<seq<Key>>
    requires nextTs <= s.initTs + |s.ops|
  {
    var keys := Keys(SentOps(s, nextTs));
    if |keys| == 0 then Some([]) else t(keys)
  }

  // ----- Client -----

  datatype Cli = Cli(initTs: nat, defragTs: nat, numRows: nat, ops: seq<Op>, keyToPos: map<Key, nat>)

  const EMPTY_CLIENT := Cli(0, 0, 0, [], map[])

  function NextTimestamp(c: Cli): nat {
    c.initTs + |c.ops|
  }

  /** The operations that keys and deletion bits stand for. The client never learns the data. */
  function Received(keys: seq<Key>, isDeletion: seq<bv8>): (ops: seq<Op>)
    requires BitsCover(isDeletion, keys)
    ensures |ops| == |keys|
  {
    seq(|keys|, i requires 0 <= i < |keys| => Op(keys[i], |isDeletion| > 0 && BitAt(isDeletion, i), ZERO))
  }

  /** updatePositionMap: the index and the row count after scanning `ops`. */
  function Positions(m: map<Key, nat>, n: nat, ops: seq<Op>): (map<Key, nat>, nat) {
    if |ops| == 0 then (m, n)
    else
      var p := Positions(m, n, ops[..|ops| - 1]);
      var op := ops[|ops| - 1];
      if op.delete then (p.0 - {op.key}, p.1) else (p.0[op.key := p.1], p.1 + 1)
  }

  function CountAdditions(ops: seq<Op>): nat {
    if |ops| == 0 then 0 else CountAdditions(ops[..|ops| - 1]) + if ops[|ops| - 1].delete then 0 else 1
  }

  /** The client after it has dropped everything, if the answer says so. */
  function Wiped(c: Cli, head: Head): Cli {
    if head.shouldDelete then Cli(head.initTs, head.defragTs, 0, [], map[]) else c
  }

  /** A compaction at `defragTs` lies inside the client's log. */
  predicate Fits(c: Cli, defragTs: nat) {
    defragTs > c.defragTs ==> c.initTs <= defragTs <= c.initTs + |c.ops|
  }

  /** The client's operations once it has compacted as far as the server. */
  function Kept(c: Cli, defragTs: nat): (ops: seq<Op>)
    requires Fits(c, defragTs)
    ensures |ops| <= |c.ops|
  {
    if defragTs > c.defragTs then
      DefragShrinks(c.ops, defragTs - c.initTs);
      Defragged(c.ops, defragTs - c.initTs)
    else c.ops
  }

  /** What a client makes of an answer: its new state, the number of new rows, whether its
      layers were thrown away, and whether all went well. */
  datatype Progress = Progress(c: Cli, numNewRows: nat, reset: bool, ok: bool)

  function Merged(c: Cli, defragTs: nat, received: seq<Op>, wiped: bool): Progress
    requires Fits(c, defragTs)
  {
    var kept := Kept(c, defragTs);
    var ops := kept + received;
    if defragTs > c.defragTs then
      var p := Positions(map[], 0, ops);
      Progress(Cli(c.initTs + (|c.ops| - |kept|), defragTs, p.1, ops, p.0), CountAdditions(ops), true, true)
    else
      var p := Positions(c.keyToPos, c.numRows, received);
      Progress(Cli(c.initTs, c.defragTs, p.1, ops, p.0), CountAdditions(received), wiped, true)
  }

  /** Neither the deletion bits nor the local compaction go out of bounds. */
  predicate Processable(c: Cli, head: Head, keys: Option<seq<Key>>) {
    keys.Some? ==> BitsCover(head.isDeletion, keys.value) && Fits(Wiped(c, head), head.defragTs)
  }

  /** processKeyUpdate: keys that cannot be decoded are an error, after the client has
      dropped everything if it was told so. */
  function Processed(c: Cli, head: Head, keys: Option<seq<Key>>): Progress
    requires Processable(c, head, keys)
  {
    if keys.None? then Progress(Wiped(c, head), 0, head.shouldDelete, false)
    else Merged(Wiped(c, head), head.defragTs, Received(keys.value, head.isDeletion), head.shouldDelete)
  }

  // ----- What the client sees of a log -----

  function StripOp(op: Op): Op {
    op.(data := ZERO)
  }

  function Strip(ops: seq<Op>): (r: seq<Op>)
    ensures |r| == |ops|
  {
    seq(|ops|, i requires 0 <= i < |ops| => StripOp(ops[i]))
  }

  lemma StripAppend(a: seq<Op>, b: seq<Op>)
    ensures Strip(a + b) == Strip(a) + Strip(b)
  {
  }

  lemma {:induction false} RemoveStrip(ops: seq<Op>, key: Key)
    ensures Remove(Strip(ops), key) == Strip(Remove(ops, key))
  {
    if |ops| > 0 {
      var n := |ops| - 1;
      RemoveStrip(ops[..n], key);
      assert Strip(ops)[..n] == Strip(ops[..n]);
      StripAppend(Remove(ops[..n], key), [ops[n]]);
    }
  }

  /** Compaction looks at keys and deletion flags only. */
  lemma {:induction false} CompactStrip(ops: seq<Op>)
    ensures Compact(Strip(ops)) == Strip(Compact(ops))
  {
    if |ops| > 0 {
      var n := |ops| - 1;
      CompactStrip(ops[..n]);
      assert Strip(ops)[..n] == Strip(ops[..n]);
      RemoveStrip(Compact(ops[..n]), ops[n].key);
      StripAppend(Remove(Compact(ops[..n]), ops[n].key), [ops[n]]);
    }
  }

  lemma {:induction false} PositionsStrip(m: map<Key, nat>, n: nat, ops: seq<Op>)
    ensures Positions(m, n, Strip(ops)) == Positions(m, n, ops)
    ensures CountAdditions(Strip(ops)) == CountAdditions(ops)
  {
    if |ops| > 0 {
      assert Strip(ops)[..|ops| - 1] == Strip(ops[..|ops| - 1]);
      PositionsStrip(m, n, ops[..|ops| - 1]);
    }
  }

  lemma BitsSentRead(ops: seq<Op>, j: nat)
    requires j < |ops|
    ensures (|BitsSent(ops)| > 0 && BitAt(BitsSent(ops), j)) == ops[j].delete
  {
    DeletionBitsRead(ops, |ops|, j);
  }

  /** The client reads the operations that were sent, up to the data, exactly when it has
      the keys that were sent. */
  lemma Delivered(ops: seq<Op>, keys: seq<Key>)
    requires |ops| > 0 && |keys| <= |ops|
    ensures BitsCover(BitsSent(ops), keys)
    ensures Received(keys, BitsSent(ops)) == Strip(ops) <==> keys == Keys(ops)
  {
    var got := Received(keys, BitsSent(ops));
    KeysReceived(keys, BitsSent(ops));
    KeysStrip(ops);
    if keys == Keys(ops) {
      forall j | 0 <= j < |ops|
        ensures got[j] == StripOp(ops[j])
      {
        BitsSentRead(ops, j);
      }
      assert got == Strip(ops);
    }
  }

  lemma KeysReceived(keys: seq<Key>, isDeletion: seq<bv8>)
    requires BitsCover(isDeletion, keys)
    ensures Keys(Received(keys, isDeletion)) == keys
  {
  }

  lemma KeysStrip(ops: seq<Op>)
    ensures Keys(Strip(ops)) == Keys(ops)
  {
  }

  // ----- The index -----

  /** `m` has the keys of `kv` and points each at its own row of the table. */
  ghost predicate Indexes(m: map<Key, nat>, kv: map<Key, Row>, rows: seq<Row>) {
    m.Keys == kv.Keys && forall key | key in m :: m[key] < |rows| && rows[m[key]] == kv[key]
  }

  /** The index that a scan of a log builds has the keys of the log's map, and points
      each of them at its own row of the flat table. */
  lemma {:induction false} IndexAgrees(ops: seq<Op>)
    ensures var (m, n) := Positions(map[], 0, ops);
            n == |RowsOf(ops)| && Indexes(m, Replay(ops), RowsOf(ops))
  {
    if |ops| > 0 {
      IndexAgrees(ops[..|ops| - 1]);
    }
  }

  lemma {:induction false} PositionsAppend(m: map<Key, nat>, n: nat, a: seq<Op>, b: seq<Op>)
    ensures var p := Positions(m, n, a); Positions(m, n, a + b) == Positions(p.0, p.1, b)
  {
    if |b| == 0 {
      assert a + b == a;
    } else {
      assert (a + b)[..|a + b| - 1] == a + b[..|b| - 1];
      PositionsAppend(m, n, a, b[..|b| - 1]);
    }
  }

  // ----- Invariants -----

  /** The log after compacting the first `d` operations of a history cut at `t`. */
  ghost function LogOf(h: seq<Op>, d: nat, t: nat): seq<Op>
    requires d <= t <= |h|
  {
    Compact(h[..d]) + h[d..t]
  }

  /** The server's state in terms of all operations `h` it ever logged: timestamps are
      positions in `h`, and everything before defragTs has been compacted. */
  ghost predicate ServerValid(s: Srv, h: seq<Op>) {
    && s.defragTs <= |h| && (s.defragTs == 0 || s.defragTs < |h|)
    && s.ops == LogOf(h, s.defragTs, |h|)
    && s.initTs + |s.ops| == |h|
    && s.initTs <= s.defragTs && 2 * (s.defragTs - s.initTs) <= |s.ops|
    && s.kv == Replay(h)
    && s.rows == RowsOf(s.ops)
  }

  /** A client that has seen the history up to its next timestamp. */
  ghost predicate ClientValid(c: Cli, h: seq<Op>, defragTs: nat) {
    && c.defragTs <= defragTs <= |h| && c.defragTs <= NextTimestamp(c) <= |h|
    && c.ops == Strip(LogOf(h, c.defragTs, NextTimestamp(c)))
    && (c.keyToPos, c.numRows) == Positions(map[], 0, c.ops)
  }

  /** A client that has dropped everything but not taken in anything since. */
  ghost predicate Blank(c: Cli, defragTs: nat) {
    c.ops == [] && c.numRows == 0 && c.keyToPos == map[] && c.initTs < c.defragTs <= defragTs
  }

  ghost predicate ClientOk(c: Cli, h: seq<Op>, defragTs: nat) {
    ClientValid(c, h, defragTs) || (Blank(c, defragTs) && defragTs <= |h|)
  }

  // ----- Server steps -----

  lemma {:induction false} ReplayAppend(a: seq<Op>, b: seq<Op>)
    ensures Replay(a + b) == ReplayFrom(Replay(a), b)
  {
    if |b| == 0 {
      assert a + b == a;
    } else {
      assert (a + b)[..|a + b| - 1] == a + b[..|b| - 1];
      ReplayAppend(a, b[..|b| - 1]);
    }
  }

  lemma {:induction false} RowsOfDeletions(ops: seq<Op>)
    requires forall i | 0 <= i < |ops| :: ops[i].delete
    ensures RowsOf(ops) == []
  {
    if |ops| > 0 {
      RowsOfDeletions(ops[..|ops| - 1]);
    }
  }

  lemma LogOfAppend(h: seq<Op>, batch: seq<Op>, d: nat)
    requires d <= |h|
    ensures LogOf(h + batch, d, |h + batch|) == LogOf(h, d, |h|) + batch
  {
    assert (h + batch)[..d] == h[..d];
    assert (h + batch)[d..] == h[d..] + batch;
  }

  lemma AddedValid(s: Srv, h: seq<Op>, batch: seq<Op>)
    requires ServerValid(s, h)
    ensures ServerValid(Added(s, batch), h + batch)
  {
    LogOfAppend(h, batch, s.defragTs);
    ReplayAppend(h, batch);
    RowsOfAppend(s.ops, batch);
  }

  lemma LoggedDeletionsValid(s: Srv, h: seq<Op>, keys: seq<Key>)
    requires ServerValid(s, h)
    ensures ServerValid(Logged(s, Deletions(keys)), h + Deletions(keys))
  {
    AddedValid(s, h, Deletions(keys));
    RowsOfDeletions(Deletions(keys));
    assert s.rows + [] == s.rows;
  }

  /** Compacting the log again is compacting the history at a later position. */
  lemma CompactedOps(s: Srv, h: seq<Op>, end: nat)
    requires ServerValid(s, h) && s.defragTs <= s.initTs + end <= |h|
    ensures end <= |s.ops| && Defragged(s.ops, end) == LogOf(h, s.initTs + end, |h|)
  {
    WholeLog(h, s.defragTs);
    WholeLog(h, s.initTs + end);
    DefragCompose(h, s.defragTs, s.initTs + end);
  }

  lemma WholeLog(h: seq<Op>, d: nat)
    requires d <= |h|
    ensures LogOf(h, d, |h|) == Defragged(h, d)
  {
    assert h[d..|h|] == h[d..];
  }

  /** Compaction keeps the timestamps of the operations it leaves in place, never moves
      defragTs back, and keeps the compacted part within the first half of the log. */
  lemma CompactedValid(s: Srv, h: seq<Op>)
    requires ServerValid(s, h) && |s.ops| > 0
    ensures ServerValid(Compacted(s), h)
    ensures Compacted(s).defragTs >= s.defragTs
    ensures Compacted(s).initTs + |Compacted(s).ops| == s.initTs + |s.ops|
  {
    CompactedOps(s, h, |s.ops| / 2);
    DefragShrinks(s.ops, |s.ops| / 2);
  }

  lemma DeletedValid(s: Srv, h: seq<Op>, keys: seq<Key>)
    requires ServerValid(s, h)
    ensures ServerValid(Deleted(s, keys), h + Deletions(keys))
    ensures Deleted(s, keys).defragTs >= s.defragTs
  {
    LoggedDeletionsValid(s, h, keys);
    var s1 := Logged(s, Deletions(keys));
    if |s1.ops| > DEFRAG_RATIO * |s1.kv| {
      CompactedValid(s1, h + Deletions(keys));
    }
  }

  /** What the client knows stays right while the server moves on. */
  lemma ClientKept(c: Cli, h: seq<Op>, batch: seq<Op>, defragTs: nat, defragTs': nat)
    requires ClientOk(c, h, defragTs) && defragTs <= defragTs' <= |h + batch|
    ensures ClientOk(c, h + batch, defragTs')
  {
    if ClientValid(c, h, defragTs) {
      ValidKept(c, h, batch, defragTs, defragTs');
    }
  }

  lemma ValidKept(c: Cli, h: seq<Op>, batch: seq<Op>, defragTs: nat, defragTs': nat)
    requires ClientValid(c, h, defragTs) && defragTs <= defragTs' <= |h + batch|
    ensures ClientValid(c, h + batch, defragTs')
  {
    assert (h + batch)[..c.defragTs] == h[..c.defragTs];
    assert (h + batch)[c.defragTs..NextTimestamp(c)] == h[c.defragTs..NextTimestamp(c)];
  }

  // ----- Client update -----

  /** The log, the timestamps, the index and the row count agree with the server. */
  ghost predicate Synced(c: Cli, s: Srv) {
    && c.ops == Strip(s.ops) && c.initTs == s.initTs && c.defragTs == s.defragTs
    && c.numRows == |s.rows| && Indexes(c.keyToPos, s.kv, s.rows)
  }

  /** The tail of the server's log from a timestamp on is the tail of the history. */
  lemma TailOf(s: Srv, h: seq<Op>, t: nat)
    requires ServerValid(s, h) && s.defragTs <= t <= |h|
    ensures s.initTs <= t && s.ops[t - s.initTs..] == h[t..]
  {
    var c := Compact(h[..s.defragTs]);
    CompactLive(h[..s.defragTs]);
    SplitBehind(c, h, s.defragTs, t, |h|);
    Suffix(h, t);
    assert t - s.initTs == |c| + t - s.defragTs;
  }

  /** Where position `d` of the history is in a log compacted at `dc`. */
  lemma LogSplit(h: seq<Op>, dc: nat, d: nat, t: nat, initTs: nat)
    requires dc <= d <= t <= |h| && initTs + |LogOf(h, dc, t)| == t
    ensures initTs <= d <= initTs + |LogOf(h, dc, t)|
    ensures Compact(LogOf(h, dc, t)[..d - initTs]) == Compact(h[..d])
    ensures LogOf(h, dc, t)[d - initTs..] == h[d..t]
  {
    var c := Compact(h[..dc]);
    CompactLive(h[..dc]);
    SplitBehind(c, h, dc, d, t);
    assert d - initTs == |c| + d - dc;
    Prefixes(h, dc, d);
    CompactCompose(h[..dc], h[dc..d]);
  }

  lemma DefragStrip(log: seq<Op>, e: nat)
    requires e <= |log|
    ensures Defragged(Strip(log), e) == Strip(Compact(log[..e])) + Strip(log[e..])
  {
    assert Strip(log)[..e] == Strip(log[..e]) && Strip(log)[e..] == Strip(log[e..]);
    CompactStrip(log[..e]);
  }

  lemma StripThree(a: seq<Op>, b: seq<Op>, c: seq<Op>)
    ensures (Strip(a) + Strip(b)) + Strip(c) == Strip(a + (b + c))
  {
    StripAppend(b, c);
    StripAppend(a, b + c);
  }

  /** Compacting the client's copy locally gives the server's compacted log. */
  lemma LocalDefrag(h: seq<Op>, dc: nat, d: nat, t: nat, initTs: nat)
    requires dc <= d <= t <= |h| && initTs + |LogOf(h, dc, t)| == t
    ensures initTs <= d <= initTs + |LogOf(h, dc, t)|
    ensures Defragged(Strip(LogOf(h, dc, t)), d - initTs) + Strip(h[t..|h|]) == Strip(LogOf(h, d, |h|))
  {
    LogSplit(h, dc, d, t, initTs);
    DefragStrip(LogOf(h, dc, t), d - initTs);
    StripThree(Compact(h[..d]), h[d..t], h[t..|h|]);
    Joined(h, d, t, |h|);
  }

  // ----- One update -----

  /** The server can answer, and the client can process the answer. */
  predicate Answerable(t: Transport, s: Srv, c: Cli) {
    && NextTimestamp(c) <= s.initTs + |s.ops|
    && Processable(c, Heading(s, NextTimestamp(c)), Arrival(t, s, NextTimestamp(c)))
  }

  /** A whole client update. */
  function Refreshed(t: Transport, s: Srv, c: Cli): Progress
    requires Answerable(t, s, c)
  {
    Processed(c, Heading(s, NextTimestamp(c)), Arrival(t, s, NextTimestamp(c)))
  }

  /** The keys that an update sends. */
  function PendingKeys(s: Srv, c: Cli): seq<Key>
    requires NextTimestamp(c) <= s.initTs + |s.ops|
  {
    Keys(SentOps(s, NextTimestamp(c)))
  }

  /** The client `c1` that merges an answer has the server's log once it appends the
      operations that were sent. */
  ghost predicate Assembles(s: Srv, c1: Cli, sent: seq<Op>) {
    && c1.defragTs <= s.defragTs && Fits(c1, s.defragTs)
    && Kept(c1, s.defragTs) + Strip(sent) == Strip(s.ops)
    && c1.initTs + |c1.ops| - |Kept(c1, s.defragTs)| == s.initTs
    && (c1.keyToPos, c1.numRows) == Positions(map[], 0, c1.ops)
  }

  /** A client that missed a compaction is sent the whole log. */
  lemma StaleAnswer(s: Srv, c: Cli)
    requires NextTimestamp(c) < s.defragTs < s.initTs + |s.ops| && |s.ops| > 0
    ensures SentOps(s, NextTimestamp(c)) == s.ops
    ensures Heading(s, NextTimestamp(c)) == Head(s.initTs, s.defragTs, BitsSent(s.ops), true)
  {
    assert s.ops[0..] == s.ops;
  }

  lemma WipedBy(c: Cli, head: Head)
    requires head.shouldDelete
    ensures Wiped(c, head) == Cli(head.initTs, head.defragTs, 0, [], map[])
  {
  }

  /** The compacted part is never the whole log. */
  lemma LogReaches(s: Srv, h: seq<Op>)
    requires ServerValid(s, h) && s.defragTs > 0
    ensures s.defragTs < s.initTs + |s.ops| && |s.ops| > 0
  {
  }

  lemma StaleAssembles(s: Srv, c1: Cli)
    requires c1 == Cli(s.initTs, s.defragTs, 0, [], map[])
    ensures Assembles(s, c1, s.ops)
  {
    assert [] + Strip(s.ops) == Strip(s.ops);
  }

  /** Any other client is sent exactly the operations that it lacks. */
  lemma FreshAnswer(s: Srv, h: seq<Op>, c: Cli)
    requires ServerValid(s, h) && s.defragTs <= NextTimestamp(c) <= |h|
    ensures NextTimestamp(c) <= s.initTs + |s.ops|
    ensures SentOps(s, NextTimestamp(c)) == h[NextTimestamp(c)..]
    ensures !Heading(s, NextTimestamp(c)).shouldDelete
  {
    TailOf(s, h, NextTimestamp(c));
  }

  lemma DefragAssembles(s: Srv, h: seq<Op>, c: Cli)
    requires ServerValid(s, h) && ClientValid(c, h, s.defragTs) && c.defragTs < s.defragTs <= NextTimestamp(c)
    ensures Assembles(s, c, h[NextTimestamp(c)..])
  {
    var t := NextTimestamp(c);
    LocalDefrag(h, c.defragTs, s.defragTs, t, c.initTs);
    Suffix(h, t);
    SameLength(Kept(c, s.defragTs), Strip(h[t..]), Strip(s.ops));
  }

  lemma SameLength(a: seq<Op>, b: seq<Op>, c: seq<Op>)
    requires a + b == c
    ensures |a| + |b| == |c|
  {
  }

  lemma AppendAssembles(s: Srv, h: seq<Op>, c: Cli)
    requires ServerValid(s, h) && ClientValid(c, h, s.defragTs) && c.defragTs == s.defragTs
    ensures Assembles(s, c, h[NextTimestamp(c)..])
  {
    var t := NextTimestamp(c);
    StripThree(Compact(h[..s.defragTs]), h[s.defragTs..t], h[t..|h|]);
    StripAppend(Compact(h[..s.defragTs]), h[s.defragTs..t]);
    Joined(h, s.defragTs, t, |h|);
    Suffix(h, t);
    SameLength(c.ops, Strip(h[t..]), Strip(s.ops));
  }

  /** Whatever compaction the client missed, it can put the server's log together. */
  lemma AnswerAssembles(s: Srv, h: seq<Op>, c: Cli)
    requires ServerValid(s, h) && ClientOk(c, h, s.defragTs)
    ensures NextTimestamp(c) <= s.initTs + |s.ops|
    ensures Assembles(s, Wiped(c, Heading(s, NextTimestamp(c))), SentOps(s, NextTimestamp(c)))
  {
    if NextTimestamp(c) < s.defragTs {
      LogReaches(s, h);
      StaleAnswer(s, c);
      WipedBy(c, Heading(s, NextTimestamp(c)));
      StaleAssembles(s, Cli(s.initTs, s.defragTs, 0, [], map[]));
    } else {
      FreshAnswer(s, h, c);
      if c.defragTs < s.defragTs {
        DefragAssembles(s, h, c);
      } else {
        AppendAssembles(s, h, c);
      }
    }
  }

  /** The client's log, timestamps and index are those of the server's log. */
  ghost predicate Replicates(c: Cli, s: Srv) {
    && c.ops == Strip(s.ops) && c.initTs == s.initTs && c.defragTs == s.defragTs
    && (c.keyToPos, c.numRows) == Positions(map[], 0, c.ops)
  }

  lemma SameTail(a: seq<Op>, b: seq<Op>, c: seq<Op>)
    ensures a + b == a + c <==> b == c
  {
    if a + b == a + c {
      assert (a + b)[|a|..] == b && (a + c)[|a|..] == c;
    }
  }

  /** Merging operations gives the server's log exactly when they are the ones sent. */
  lemma MergedReplicates(s: Srv, c1: Cli, sent: seq<Op>, received: seq<Op>, wiped: bool)
    requires Assembles(s, c1, sent)
    ensures received == Strip(sent) ==> Replicates(Merged(c1, s.defragTs, received, wiped).c, s)
    ensures received != Strip(sent) ==> Merged(c1, s.defragTs, received, wiped).c.ops != Strip(s.ops)
  {
    var kept := Kept(c1, s.defragTs);
    SameTail(kept, received, Strip(sent));
    PositionsAppend(map[], 0, c1.ops, received);
  }

  lemma ServerMap(s: Srv, h: seq<Op>)
    requires ServerValid(s, h)
    ensures s.kv == Replay(s.ops)
  {
    DefragMeaning(h, s.defragTs);
    assert h[s.defragTs..|h|] == h[s.defragTs..];
  }

  /** A replica's index is an index of the server's map into the flat table. */
  lemma ReplicaIndex(s: Srv, h: seq<Op>, c: Cli)
    requires ServerValid(s, h) && Replicates(c, s)
    ensures Synced(c, s) && ClientValid(c, h, s.defragTs)
  {
    PositionsStrip(map[], 0, s.ops);
    IndexAgrees(s.ops);
    ServerMap(s, h);
    assert (c.keyToPos, c.numRows) == Positions(map[], 0, s.ops);
  }

  lemma MergedSyncs(s: Srv, h: seq<Op>, c1: Cli, sent: seq<Op>, received: seq<Op>, wiped: bool)
    requires ServerValid(s, h) && Assembles(s, c1, sent)
    ensures var c := Merged(c1, s.defragTs, received, wiped).c;
            && (Synced(c, s) <==> received == Strip(sent))
            && (Synced(c, s) ==> Replicates(c, s))
  {
    MergedReplicates(s, c1, sent, received, wiped);
    if received == Strip(sent) {
      ReplicaIndex(s, h, Merged(c1, s.defragTs, received, wiped).c);
    }
  }

  /** A client that has not taken in the operations sent is not in step with the server. */
  lemma NotYetSynced(s: Srv, c1: Cli, sent: seq<Op>)
    requires Assembles(s, c1, sent) && |sent| > 0
    ensures !Synced(c1, s)
  {
    assert |Strip(s.ops)| == |Kept(c1, s.defragTs)| + |sent|;
  }

  /** The client makes of the answer what the list that it gets says: it reads the
      operations that were sent exactly when it gets the keys that were sent. */
  lemma ProcessedIs(s: Srv, h: seq<Op>, c: Cli, keys: seq<Key>)
    requires ServerValid(s, h) && ClientOk(c, h, s.defragTs) && NextTimestamp(c) <= s.initTs + |s.ops|
    requires |keys| <= |SentOps(s, NextTimestamp(c))|
    ensures var head, sent := Heading(s, NextTimestamp(c)), SentOps(s, NextTimestamp(c));
            && Processable(c, head, Some(keys))
            && Processed(c, head, Some(keys))
               == Merged(Wiped(c, head), s.defragTs, Received(keys, head.isDeletion), head.shouldDelete)
            && (Received(keys, head.isDeletion) == Strip(sent) <==> keys == Keys(sent))
  {
    AnswerAssembles(s, h, c);
    var sent := SentOps(s, NextTimestamp(c));
    if |sent| > 0 {
      Delivered(sent, keys);
    }
  }

  /** A request by a client is answered, and the answer can be processed. */
  lemma AnswerFits(t: Transport, s: Srv, h: seq<Op>, c: Cli)
    requires Bounded(t) && ServerValid(s, h) && ClientOk(c, h, s.defragTs)
    ensures Answerable(t, s, c)
  {
    AnswerAssembles(s, h, c);
    var keys := Arrival(t, s, NextTimestamp(c));
    if keys.Some? {
      ProcessedIs(s, h, c, keys.value);
    }
  }

  /** A list brings the client in step with the server exactly when it is the one sent. */
  lemma ProcessedSyncs(s: Srv, h: seq<Op>, c: Cli, keys: seq<Key>)
    requires ServerValid(s, h) && ClientOk(c, h, s.defragTs) && NextTimestamp(c) <= s.initTs + |s.ops|
    requires |keys| <= |SentOps(s, NextTimestamp(c))|
    requires Processable(c, Heading(s, NextTimestamp(c)), Some(keys))
    ensures var p := Processed(c, Heading(s, NextTimestamp(c)), Some(keys));
            && p.ok
            && (Synced(p.c, s) <==> keys == Keys(SentOps(s, NextTimestamp(c))))
            && (Synced(p.c, s) ==> Replicates(p.c, s))
  {
    var head, sent := Heading(s, NextTimestamp(c)), SentOps(s, NextTimestamp(c));
    AnswerAssembles(s, h, c);
    ProcessedIs(s, h, c, keys);
    MergedSyncs(s, h, Wiped(c, head), sent, Received(keys, head.isDeletion), head.shouldDelete);
  }

  /** An update brings the client in step with the server exactly when the list of keys
      that it sends is one that arrives unchanged. */
  lemma UpdateSyncs(t: Transport, s: Srv, h: seq<Op>, c: Cli)
    requires Bounded(t) && ServerValid(s, h) && ClientOk(c, h, s.defragTs) && Answerable(t, s, c)
    ensures Synced(Refreshed(t, s, c).c, s) <==> Arrives(t, PendingKeys(s, c))
    ensures Arrives(t, PendingKeys(s, c)) ==> Refreshed(t, s, c).ok && Replicates(Refreshed(t, s, c).c, s)
  {
    var keys := Arrival(t, s, NextTimestamp(c));
    if keys.None? {
      AnswerAssembles(s, h, c);
      NotYetSynced(s, Wiped(c, Heading(s, NextTimestamp(c))), SentOps(s, NextTimestamp(c)));
    } else {
      ProcessedSyncs(s, h, c, keys.value);
    }
  }

  /** The list that an update sends arrives, or the client sees an error: it does not
      silently take in other keys. */
  ghost predicate Honest(t: Transport, s: Srv, c: Cli) {
    NextTimestamp(c) <= s.initTs + |s.ops| ==> Arrives(t, PendingKeys(s, c)) || t(PendingKeys(s, c)).None?
  }

  /** A client that dropped everything is blank, or valid if the compacted log is empty. */
  lemma WipedOk(s: Srv, h: seq<Op>, c1: Cli)
    requires ServerValid(s, h) && c1 == Cli(s.initTs, s.defragTs, 0, [], map[])
    ensures ClientOk(c1, h, s.defragTs)
  {
    if s.initTs == s.defragTs {
      assert |LogOf(h, s.defragTs, |h|)| == |Compact(h[..s.defragTs])| + |h| - s.defragTs;
      assert LogOf(h, s.defragTs, s.defragTs) == [];
    }
  }

  /** An update that ends in an error drops everything if the answer says so, or else
      changes nothing. */
  lemma FailedUpdate(t: Transport, s: Srv, h: seq<Op>, c: Cli)
    requires ServerValid(s, h) && ClientOk(c, h, s.defragTs) && Answerable(t, s, c)
    requires Arrival(t, s, NextTimestamp(c)) == None
    ensures Refreshed(t, s, c) == if NextTimestamp(c) < s.defragTs
                                  then Progress(Cli(s.initTs, s.defragTs, 0, [], map[]), 0, true, false)
                                  else Progress(c, 0, false, false)
  {
    if NextTimestamp(c) < s.defragTs {
      LogReaches(s, h);
      StaleAnswer(s, c);
    } else {
      FreshAnswer(s, h, c);
    }
  }

  /** An update never harms the client as long as no list arrives changed. */
  lemma UpdateKeeps(t: Transport, s: Srv, h: seq<Op>, c: Cli)
    requires Bounded(t) && ServerValid(s, h) && ClientOk(c, h, s.defragTs) && Answerable(t, s, c) && Honest(t, s, c)
    ensures ClientOk(Refreshed(t, s, c).c, h, s.defragTs)
  {
    if Arrives(t, PendingKeys(s, c)) {
      UpdateSyncs(t, s, h, c);
      ReplicaIndex(s, h, Refreshed(t, s, c).c);
    } else {
      FailedUpdate(t, s, h, c);
      if NextTimestamp(c) < s.defragTs {
        WipedOk(s, h, Refreshed(t, s, c).c);
      }
    }
  }

  // ----- Runs -----

  datatype Event = AddRows(batch: seq<Op>) | DeleteRows(keys: seq<Key>) | Update

  datatype Sys = Sys(s: Srv, c: Cli)

  const START := Sys(EMPTY_SERVER, EMPTY_CLIENT)

  /** One event; an update that cannot be answered is left undone. */
  function Step(t: Transport, y: Sys, ev: Event): Sys {
    match ev
    case AddRows(batch) => y.(s := Added(y.s, batch))
    case DeleteRows(keys) => y.(s := Deleted(y.s, keys))
    case Update => if Answerable(t, y.s, y.c) then y.(c := Refreshed(t, y.s, y.c).c) else y
  }

  function Run(t: Transport, y: Sys, evs: seq<Event>): Sys {
    if |evs| == 0 then y else Step(t, Run(t, y, evs[..|evs| - 1]), evs[|evs| - 1])
  }

  function LoggedBy(ev: Event): seq<Op> {
    match ev
    case AddRows(batch) => batch
    case DeleteRows(keys) => Deletions(keys)
    case Update => []
  }

  /** All operations that a run logs. */
  ghost function History(evs: seq<Event>): seq<Op> {
    if |evs| == 0 then [] else History(evs[..|evs| - 1]) + LoggedBy(evs[|evs| - 1])
  }

  /** In every update of the run the list arrives or the client sees an error. */
  ghost predicate HonestRun(t: Transport, evs: seq<Event>) {
    |evs| > 0 ==>
      var y := Run(t, START, evs[..|evs| - 1]);
      HonestRun(t, evs[..|evs| - 1]) && (evs[|evs| - 1].Update? ==> Honest(t, y.s, y.c))
  }

  lemma ServerStepValid(t: Transport, s: Srv, c: Cli, h: seq<Op>, ev: Event)
    requires ServerValid(s, h)
    ensures var s' := Step(t, Sys(s, c), ev).s;
            ServerValid(s', h + LoggedBy(ev)) && s.defragTs <= s'.defragTs
  {
    match ev
    case AddRows(batch) => AddedValid(s, h, batch);
    case DeleteRows(keys) => DeletedValid(s, h, keys);
    case Update => assert h + [] == h;
  }

  /** The server is right after every run, whatever its clients do. */
  lemma {:induction false} ServerRunValid(t: Transport, evs: seq<Event>)
    ensures ServerValid(Run(t, START, evs).s, History(evs))
  {
    if |evs| > 0 {
      var y := Run(t, START, evs[..|evs| - 1]);
      ServerRunValid(t, evs[..|evs| - 1]);
      ServerStepValid(t, y.s, y.c, History(evs[..|evs| - 1]), evs[|evs| - 1]);
    }
  }

  lemma ClientStepOk(t: Transport, y: Sys, h: seq<Op>, ev: Event)
    requires Bounded(t) && ServerValid(y.s, h) && ClientOk(y.c, h, y.s.defragTs) && (ev.Update? ==> Honest(t, y.s, y.c))
    ensures ClientOk(Step(t, y, ev).c, h + LoggedBy(ev), Step(t, y, ev).s.defragTs)
  {
    ServerStepValid(t, y.s, y.c, h, ev);
    if ev.Update? {
      assert h + [] == h;
      AnswerFits(t, y.s, h, y.c);
      UpdateKeeps(t, y.s, h, y.c);
    } else {
      ClientKept(y.c, h, LoggedBy(ev), y.s.defragTs, Step(t, y, ev).s.defragTs);
    }
  }

  /** The client is right after every run in which no list arrives changed. */
  lemma {:induction false} RunValid(t: Transport, evs: seq<Event>)
    requires Bounded(t) && HonestRun(t, evs)
    ensures ServerValid(Run(t, START, evs).s, History(evs))
    ensures ClientOk(Run(t, START, evs).c, History(evs), Run(t, START, evs).s.defragTs)
  {
    ServerRunValid(t, evs);
    if |evs| > 0 {
      RunValid(t, evs[..|evs| - 1]);
      ClientStepOk(t, Run(t, START, evs[..|evs| - 1]), History(evs[..|evs| - 1]), evs[|evs| - 1]);
    }
  }

  /** The main theorem: after any interleaving of additions, deletions, compactions and
      updates in which no list arrives changed, one more update makes the client agree
      with the server exactly when its own list is one that arrives. The server's map is
      the meaning of everything that was ever logged. */
  lemma ClientAgrees(t: Transport, evs: seq<Event>)
    requires Bounded(t) && HonestRun(t, evs)
    ensures var y0 := Run(t, START, evs);
            var y := Step(t, y0, Update);
            && Answerable(t, y0.s, y0.c)
            && (Synced(y.c, y.s) <==> Arrives(t, PendingKeys(y0.s, y0.c)))
            && y.s.kv == Replay(History(evs))
  {
    var y0 := Run(t, START, evs);
    RunValid(t, evs);
    AnswerFits(t, y0.s, History(evs), y0.c);
    UpdateSyncs(t, y0.s, History(evs), y0.c);
  }

  /** Over any run the compacted part stays within the first half of the log, and
      defragTs only moves forward. */
  lemma DefragMonotone(t: Transport, evs: seq<Event>, ev: Event)
    ensures var s, s' := Run(t, START, evs).s, Run(t, START, evs + [ev]).s;
            && s.initTs <= s.defragTs && 2 * (s.defragTs - s.initTs) <= |s.ops|
            && s.defragTs <= s'.defragTs
            && s'.initTs + |s'.ops| == s.initTs + |s.ops| + |LoggedBy(ev)|
  {
    ServerRunValid(t, evs);
    ServerStepValid(t, Run(t, START, evs).s, Run(t, START, evs).c, History(evs), ev);
    assert (evs + [ev])[..|evs|] == evs;
  }

  // ----- Lists that do not arrive -----

  /** A new client, and a server that has logged one batch. */
  ghost predicate First(y: Sys, batch: seq<Op>) {
    && |batch| > 0 && y.c == EMPTY_CLIENT
    && y.s.initTs == y.s.defragTs == 0 && y.s.ops == batch && y.s.kv == ReplayFrom(map[], batch)
  }

  lemma FirstRun(t: Transport, batch: seq<Op>)
    requires |batch| > 0
    ensures First(Run(t, START, [AddRows(batch)]), batch)
  {
    assert [AddRows(batch)][..0] == [];
    assert [] + batch == batch;
  }

  /** Its first answer is about the whole batch. */
  lemma FirstAnswer(t: Transport, y: Sys, batch: seq<Op>)
    requires First(y, batch)
    ensures y.c.defragTs == y.s.defragTs <= NextTimestamp(y.c) <= y.s.initTs + |y.s.ops|
    ensures SentOps(y.s, NextTimestamp(y.c)) == batch
    ensures Arrival(t, y.s, NextTimestamp(y.c)) == t(Keys(batch))
  {
    assert batch[0..] == batch;
  }

  lemma FirstUnsynced(y: Sys, batch: seq<Op>)
    requires First(y, batch)
    ensures !Synced(y.c, y.s)
  {
    assert |y.c.ops| < |Strip(y.s.ops)|;
  }

  /** A list that cannot be decoded changes nothing for a client that missed no compaction. */
  lemma RefusedUpdate(t: Transport, y: Sys)
    requires y.s.defragTs <= NextTimestamp(y.c) <= y.s.initTs + |y.s.ops|
    requires Arrival(t, y.s, NextTimestamp(y.c)) == None
    ensures Answerable(t, y.s, y.c) && Refreshed(t, y.s, y.c) == Progress(y.c, 0, false, false)
    ensures Step(t, y, Update) == y
  {
  }

  /** If its first list cannot be decoded, every update of a client fails, and it stays empty. */
  lemma FirstFails(t: Transport, y: Sys, batch: seq<Op>)
    requires First(y, batch) && t(Keys(batch)) == None
    ensures Answerable(t, y.s, y.c) && Refreshed(t, y.s, y.c) == Progress(y.c, 0, false, false)
    ensures Step(t, y, Update) == y && !Synced(y.c, y.s)
  {
    FirstAnswer(t, y, batch);
    RefusedUpdate(t, y);
    FirstUnsynced(y, batch);
  }

  lemma {:induction false} KeysIndexed(m: map<Key, nat>, n: nat, ops: seq<Op>, key: Key)
    ensures key in Positions(m, n, ops).0 ==> key in m || key in Keys(ops)
  {
    if |ops| > 0 {
      KeysIndexed(m, n, ops[..|ops| - 1], key);
      assert Keys(ops) == Keys(ops[..|ops| - 1]) + [ops[|ops| - 1].key];
    }
  }

  lemma FirstIndex(c: Cli, keys: seq<Key>, key: Key)
    requires c.keyToPos == map[] && key !in keys
    ensures key !in Merged(c, c.defragTs, Received(keys, []), false).c.keyToPos
  {
    KeysReceived(keys, []);
    KeysIndexed(map[], c.numRows, Received(keys, []), key);
  }

  lemma LastLogged(y: Sys, batch: seq<Op>)
    requires First(y, batch) && !HasDeletion(batch)
    ensures batch[|batch| - 1].key in y.s.kv
  {
    assert !batch[|batch| - 1].delete;
  }

  /** A list without deletions is merged by a client that missed no compaction. */
  lemma MergedUpdate(t: Transport, y: Sys, keys: seq<Key>)
    requires y.c.defragTs == y.s.defragTs <= NextTimestamp(y.c) <= y.s.initTs + |y.s.ops|
    requires !HasDeletion(SentOps(y.s, NextTimestamp(y.c))) && Arrival(t, y.s, NextTimestamp(y.c)) == Some(keys)
    ensures Answerable(t, y.s, y.c)
    ensures Refreshed(t, y.s, y.c) == Merged(y.c, y.s.defragTs, Received(keys, []), false)
    ensures Step(t, y, Update).c == Refreshed(t, y.s, y.c).c
  {
  }

  /** If other keys arrive without its last one, the update reports success, but the
      client does not know the last key. */
  lemma FirstChanged(t: Transport, y: Sys, batch: seq<Op>, keys: seq<Key>)
    requires First(y, batch) && !HasDeletion(batch) && t(Keys(batch)) == Some(keys) && batch[|batch| - 1].key !in keys
    ensures Answerable(t, y.s, y.c) && Refreshed(t, y.s, y.c).ok
    ensures batch[|batch| - 1].key in y.s.kv && batch[|batch| - 1].key !in Step(t, y, Update).c.keyToPos
  {
    FirstAnswer(t, y, batch);
    MergedUpdate(t, y, keys);
    FirstIndex(y.c, keys, batch[|batch| - 1].key);
    LastLogged(y, batch);
  }
}
