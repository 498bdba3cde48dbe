/** What batches of additions and deletions do to the server's map and log, in terms of
    the keys and rows that are passed in. */
module Batches {
  import opened Rows
  import opened OpLog
  import opened Updatable

  // ----- Batches of additions -----

  function Additions(keys: seq<Key>, rows: seq<Row>): (ops: seq<Op>)
    requires |keys| == |rows|
    ensures |ops| == |keys|
  {
    seq(|keys|, i requires 0 <= i < |keys| => Op(keys[i], false, rows[i]))
  }

  ghost predicate SortedByKey(ops: seq<Op>) {
    forall i, j | 0 <= i < j < |ops| :: ops[i].key <= ops[j].key
  }

  function Insert(ops: seq<Op>, op: Op): (r: seq<Op>)
    ensures multiset(r) == multiset(ops) + multiset{op} && |r| == |ops| + 1
  {
    if |ops| == 0 || ops[|ops| - 1].key <= op.key then ops + [op]
    else
      assert ops == ops[..|ops| - 1] + [ops[|ops| - 1]];
      Insert(ops[..|ops| - 1], op) + [ops[|ops| - 1]]
  }

  /** One of the orders that sorting by key may leave: equal keys keep their order. */
  function SortByKey(ops: seq<Op>): (r: seq<Op>)
    ensures multiset(r) == multiset(ops) && |r| == |ops|
  {
    if |ops| == 0 then []
    else
      assert ops == ops[..|ops| - 1] + [ops[|ops| - 1]];
      Insert(SortByKey(ops[..|ops| - 1]), ops[|ops| - 1])
  }

  lemma NothingAdded(s: Srv, keys: seq<Key>, rows: seq<Row>)
    requires |keys| == |rows| == 0
    ensures Added(s, SortByKey(Additions(keys, rows))) == s
  {
    assert s.ops + [] == s.ops && s.rows + [] == s.rows;
  }

  ghost predicate AddsOnly(ops: seq<Op>) {
    forall j | 0 <= j < |ops| :: !ops[j].delete
  }

  lemma OnlyAdditions(keys: seq<Key>, rows: seq<Row>)
    requires |keys| == |rows|
    ensures AddsOnly(SortByKey(Additions(keys, rows)))
  {
    var batch := SortByKey(Additions(keys, rows));
    forall j | 0 <= j < |batch|
      ensures !batch[j].delete
    {
      assert batch[j] in multiset(batch);
    }
  }

  lemma {:induction false} InsertBelow(ops: seq<Op>, op: Op, k: Key)
    requires op.key <= k && forall i | 0 <= i < |ops| :: ops[i].key <= k
    ensures forall i | 0 <= i < |Insert(ops, op)| :: Insert(ops, op)[i].key <= k
  {
    if |ops| > 0 && ops[|ops| - 1].key > op.key {
      InsertBelow(ops[..|ops| - 1], op, k);
    }
  }

  lemma {:induction false} InsertSorted(ops: seq<Op>, op: Op)
    requires SortedByKey(ops)
    ensures SortedByKey(Insert(ops, op))
  {
    if |ops| > 0 && ops[|ops| - 1].key > op.key {
      InsertSorted(ops[..|ops| - 1], op);
      InsertBelow(ops[..|ops| - 1], op, ops[|ops| - 1].key);
    }
  }

  lemma {:induction false} SortByKeySorts(ops: seq<Op>)
    ensures SortedByKey(SortByKey(ops))
  {
    if |ops| > 0 {
      SortByKeySorts(ops[..|ops| - 1]);
      InsertSorted(SortByKey(ops[..|ops| - 1]), ops[|ops| - 1]);
    }
  }

  // ----- The operations of one key -----

  function OfKey(ops: seq<Op>, key: Key): (r: seq<Op>)
    ensures forall i | 0 <= i < |r| :: r[i] in ops && r[i].key == key
  {
    if |ops| == 0 then []
    else
      var rest := OfKey(ops[..|ops| - 1], key);
      if ops[|ops| - 1].key == key then rest + [ops[|ops| - 1]] else rest
  }

  lemma OfKeySnoc(ops: seq<Op>, op: Op, key: Key)
    ensures OfKey(ops + [op], key) == if op.key == key then OfKey(ops, key) + [op] else OfKey(ops, key)
  {
    assert (ops + [op])[..|ops|] == ops;
  }

  /** Inserting keeps the order of equal keys. */
  lemma {:induction false} InsertOfKey(ops: seq<Op>, op: Op, key: Key)
    ensures OfKey(Insert(ops, op), key) == if op.key == key then OfKey(ops, key) + [op] else OfKey(ops, key)
  {
    OfKeySnoc(ops, op, key);
    if |ops| > 0 && ops[|ops| - 1].key > op.key {
      var init, last := ops[..|ops| - 1], ops[|ops| - 1];
      InsertOfKey(init, op, key);
      OfKeySnoc(Insert(init, op), last, key);
    }
  }

  lemma {:induction false} SortOfKey(ops: seq<Op>, key: Key)
    ensures OfKey(SortByKey(ops), key) == OfKey(ops, key)
  {
    if |ops| > 0 {
      SortOfKey(ops[..|ops| - 1], key);
      InsertOfKey(SortByKey(ops[..|ops| - 1]), ops[|ops| - 1], key);
    }
  }

  /** Of the first `n` operations number `j` is the last one for its key. */
  lemma {:induction false} OfKeyLast(ops: seq<Op>, j: nat, n: nat)
    requires j < n <= |ops| && forall l | j < l < n :: ops[l].key != ops[j].key
    ensures var r := OfKey(ops[..n], ops[j].key); |r| > 0 && r[|r| - 1] == ops[j]
  {
    assert ops[..n] == ops[..n - 1] + [ops[n - 1]];
    OfKeySnoc(ops[..n - 1], ops[n - 1], ops[j].key);
    if j < n - 1 {
      OfKeyLast(ops, j, n - 1);
    }
  }

  ghost predicate LastOp(ops: seq<Op>, j: nat) {
    j < |ops| && forall l | j < l < |ops| :: ops[l].key != ops[j].key
  }

  lemma LastOfAll(ops: seq<Op>, j: nat)
    requires LastOp(ops, j)
    ensures var r := OfKey(ops, ops[j].key); |r| > 0 && r[|r| - 1] == ops[j]
  {
    OfKeyLast(ops, j, |ops|);
    assert ops[..|ops|] == ops;
  }

  lemma {:induction false} OfKeyNone(ops: seq<Op>, key: Key)
    requires forall l | 0 <= l < |ops| :: ops[l].key != key
    ensures OfKey(ops, key) == []
  {
    if |ops| > 0 {
      OfKeyNone(ops[..|ops| - 1], key);
    }
  }

  /** Additions give a key the data of its last operation. */
  lemma {:induction false} ReplayAt(m: map<Key, Row>, ops: seq<Op>, key: Key)
    requires AddsOnly(ops)
    ensures var after, own := ReplayFrom(m, ops), OfKey(ops, key);
            if |own| == 0 then (key in after <==> key in m) && (key in m ==> after[key] == m[key])
            else key in after && after[key] == own[|own| - 1].data
  {
    if |ops| > 0 {
      ReplayAt(m, ops[..|ops| - 1], key);
    }
  }

  // ----- What an addition stores -----

  ghost predicate LastKey(keys: seq<Key>, key: Key, j: nat) {
    j < |keys| && keys[j] == key && forall l | j < l < |keys| :: keys[l] != key
  }

  /** A key that is added holds the row last passed in for it; any other is as before. */
  ghost predicate StoredAt(before: map<Key, Row>, after: map<Key, Row>, keys: seq<Key>, rows: seq<Row>, key: Key)
    requires |keys| == |rows|
  {
    && (forall j | 0 <= j < |keys| && LastKey(keys, key, j) :: key in after && after[key] == rows[j])
    && (key !in keys ==> (key in after <==> key in before) && (key in before ==> after[key] == before[key]))
  }

  ghost predicate Stored(before: map<Key, Row>, after: map<Key, Row>, keys: seq<Key>, rows: seq<Row>)
    requires |keys| == |rows|
  {
    forall key: Key :: StoredAt(before, after, keys, rows, key)
  }

  lemma LastOpOf(keys: seq<Key>, rows: seq<Row>, key: Key, j: nat)
    requires |keys| == |rows| && LastKey(keys, key, j)
    ensures LastOp(Additions(keys, rows), j) && Additions(keys, rows)[j] == Op(key, false, rows[j])
  {
  }

  /** The last operation for a key that is added last as number `j`. */
  lemma LastAddition(keys: seq<Key>, rows: seq<Row>, key: Key, j: nat)
    requires |keys| == |rows| && LastKey(keys, key, j)
    ensures var own := OfKey(SortByKey(Additions(keys, rows)), key); |own| > 0 && own[|own| - 1].data == rows[j]
  {
    LastOpOf(keys, rows, key, j);
    SortOfKey(Additions(keys, rows), key);
    LastOfAll(Additions(keys, rows), j);
  }

  lemma NoAddition(keys: seq<Key>, rows: seq<Row>, key: Key)
    requires |keys| == |rows| && key !in keys
    ensures OfKey(SortByKey(Additions(keys, rows)), key) == []
  {
    SortOfKey(Additions(keys, rows), key);
    OfKeyNone(Additions(keys, rows), key);
  }

  lemma AddedLast(m: map<Key, Row>, keys: seq<Key>, rows: seq<Row>, key: Key, j: nat)
    requires |keys| == |rows| && LastKey(keys, key, j)
    ensures var after := ReplayFrom(m, SortByKey(Additions(keys, rows))); key in after && after[key] == rows[j]
  {
    OnlyAdditions(keys, rows);
    ReplayAt(m, SortByKey(Additions(keys, rows)), key);
    LastAddition(keys, rows, key, j);
  }

  lemma NotAdded(m: map<Key, Row>, keys: seq<Key>, rows: seq<Row>, key: Key)
    requires |keys| == |rows| && key !in keys
    ensures var after := ReplayFrom(m, SortByKey(Additions(keys, rows)));
            (key in after <==> key in m) && (key in m ==> after[key] == m[key])
  {
    OnlyAdditions(keys, rows);
    ReplayAt(m, SortByKey(Additions(keys, rows)), key);
    NoAddition(keys, rows, key);
  }

  lemma AddedAt(m: map<Key, Row>, keys: seq<Key>, rows: seq<Row>, key: Key)
    requires |keys| == |rows|
    ensures StoredAt(m, ReplayFrom(m, SortByKey(Additions(keys, rows))), keys, rows, key)
  {
    var after := ReplayFrom(m, SortByKey(Additions(keys, rows)));
    forall j | 0 <= j < |keys| && LastKey(keys, key, j)
      ensures key in after && after[key] == rows[j]
    {
      AddedLast(m, keys, rows, key, j);
    }
    if key !in keys {
      NotAdded(m, keys, rows, key);
    }
  }

  lemma AddedStores(m: map<Key, Row>, keys: seq<Key>, rows: seq<Row>)
    requires |keys| == |rows|
    ensures Stored(m, ReplayFrom(m, SortByKey(Additions(keys, rows))), keys, rows)
  {
    forall key: Key
      ensures StoredAt(m, ReplayFrom(m, SortByKey(Additions(keys, rows))), keys, rows, key)
    {
      AddedAt(m, keys, rows, key);
    }
  }

  /** In whatever order the batch is logged, an added key holds one of the rows passed in
      for it. */
  lemma AnyOrderStores(m: map<Key, Row>, keys: seq<Key>, rows: seq<Row>, batch: seq<Op>, i: nat)
    requires |keys| == |rows| && i < |keys| && multiset(batch) == multiset(Additions(keys, rows))
    ensures keys[i] in ReplayFrom(m, batch)
    ensures exists j | 0 <= j < |keys| :: keys[j] == keys[i] && ReplayFrom(m, batch)[keys[i]] == rows[j]
  {
    var ops := Additions(keys, rows);
    forall l | 0 <= l < |batch|
      ensures !batch[l].delete
    {
      assert batch[l] in multiset(batch);
    }
    ReplayAt(m, batch, keys[i]);
    assert ops[i] in multiset(ops);
    InOfKey(batch, ops[i]);
    var own := OfKey(batch, keys[i]);
    assert own[|own| - 1] in multiset(batch);
    var j :| 0 <= j < |ops| && ops[j] == own[|own| - 1];
  }

  lemma {:induction false} InOfKey(ops: seq<Op>, op: Op)
    requires op in ops
    ensures op in OfKey(ops, op.key)
  {
    if ops[|ops| - 1] != op {
      assert ops == ops[..|ops| - 1] + [ops[|ops| - 1]];
      InOfKey(ops[..|ops| - 1], op);
    }
  }

  // ----- What an addition logs -----

  function PairsOf(ops: seq<Op>): (r: seq<(Key, Row)>)
    ensures |r| == |ops|
  {
    seq(|ops|, i requires 0 <= i < |ops| => (ops[i].key, ops[i].data))
  }

  function Zip(keys: seq<Key>, rows: seq<Row>): (r: seq<(Key, Row)>)
    requires |keys| == |rows|
    ensures |r| == |keys|
  {
    seq(|keys|, i requires 0 <= i < |keys| => (keys[i], rows[i]))
  }

  /** Behind the old log come additions of exactly the pairs passed in, in key order. */
  ghost predicate LogsPairs(before: seq<Op>, after: seq<Op>, keys: seq<Key>, rows: seq<Row>)
    requires |keys| == |rows|
  {
    && |before| <= |after| && after[..|before|] == before
    && var batch := after[|before|..];
       AddsOnly(batch) && SortedByKey(batch) && multiset(PairsOf(batch)) == multiset(Zip(keys, rows))
  }

  lemma PairsSnoc(ops: seq<Op>, op: Op)
    ensures PairsOf(ops + [op]) == PairsOf(ops) + [(op.key, op.data)]
  {
  }

  lemma {:induction false} PairsInsert(ops: seq<Op>, op: Op)
    ensures multiset(PairsOf(Insert(ops, op))) == multiset(PairsOf(ops)) + multiset{(op.key, op.data)}
  {
    PairsSnoc(ops, op);
    if |ops| > 0 && ops[|ops| - 1].key > op.key {
      var init, last := ops[..|ops| - 1], ops[|ops| - 1];
      assert ops == init + [last];
      PairsInsert(init, op);
      PairsSnoc(init, last);
      PairsSnoc(Insert(init, op), last);
    }
  }

  lemma {:induction false} PairsSort(ops: seq<Op>)
    ensures multiset(PairsOf(SortByKey(ops))) == multiset(PairsOf(ops))
  {
    if |ops| > 0 {
      var init, last := ops[..|ops| - 1], ops[|ops| - 1];
      assert ops == init + [last];
      PairsSort(init);
      PairsSnoc(init, last);
      PairsInsert(SortByKey(init), last);
    }
  }

  lemma AddedLogs(before: seq<Op>, keys: seq<Key>, rows: seq<Row>)
    requires |keys| == |rows|
    ensures LogsPairs(before, before + SortByKey(Additions(keys, rows)), keys, rows)
  {
    var ops := Additions(keys, rows);
    var batch := SortByKey(ops);
    assert (before + batch)[..|before|] == before && (before + batch)[|before|..] == batch;
    assert PairsOf(ops) == Zip(keys, rows);
    OnlyAdditions(keys, rows);
    SortByKeySorts(ops);
    PairsSort(ops);
  }

  // ----- What a deletion removes -----

  function KeySet(keys: seq<Key>): (r: set<Key>)
    ensures forall key :: key in r <==> key in keys
  {
    set key | key in keys
  }

  /** Deleting removes the keys passed in and nothing else. */
  lemma {:induction false} DeletedRemoves(m: map<Key, Row>, keys: seq<Key>)
    ensures ReplayFrom(m, Deletions(keys)) == m - KeySet(keys)
  {
    if |keys| == 0 {
      assert m - KeySet(keys) == m;
    } else {
      var n := |keys| - 1;
      DeletedRemoves(m, keys[..n]);
      assert Deletions(keys)[..n] == Deletions(keys[..n]);
      assert keys == keys[..n] + [keys[n]];
      assert m - KeySet(keys) == (m - KeySet(keys[..n])) - {keys[n]};
    }
  }

  /** Behind the old log come deletions of the keys passed in, in order. */
  ghost predicate LogsDeletions(before: seq<Op>, log: seq<Op>, keys: seq<Key>) {
    && |log| == |before| + |keys| && log[..|before|] == before
    && forall i | 0 <= i < |keys| :: log[|before| + i].key == keys[i] && log[|before| + i].delete
  }

  /** Nothing but the log and the map has changed. */
  ghost predicate OnlyLogged(s: Srv, s': Srv, log: seq<Op>) {
    s'.ops == log && s'.rows == s.rows && s'.initTs == s.initTs && s'.defragTs == s.defragTs
  }

  /** The first half of the log has been compacted, the second half stays as it was. */
  ghost predicate HalfCompacted(s: Srv, s': Srv, log: seq<Op>) {
    var half := |log| - |log| / 2;
    && s'.defragTs == s.initTs + |log| / 2 && s'.initTs + |s'.ops| == s.initTs + |log|
    && half <= |s'.ops| && s'.ops[|s'.ops| - half..] == log[|log| / 2..]
  }

  /** The server after a deletion: the keys are gone. As long as the log is at most four
      times as long as the map they are only logged, otherwise half of it is compacted. */
  ghost predicate DeleteMeans(s: Srv, s': Srv, keys: seq<Key>) {
    var log := s.ops + Deletions(keys);
    && LogsDeletions(s.ops, log, keys) && s'.kv == s.kv - KeySet(keys)
    && if |log| <= 4 * |s'.kv| then OnlyLogged(s, s', log) else HalfCompacted(s, s', log)
  }

  lemma DeletionsLogged(before: seq<Op>, keys: seq<Key>)
    ensures LogsDeletions(before, before + Deletions(keys), keys)
  {
  }

  lemma Behind(c: seq<Op>, rest: seq<Op>)
    ensures (c + rest)[|c + rest| - |rest|..] == rest
  {
  }

  lemma CompactedHalf(s: Srv)
    ensures HalfCompacted(s, Compacted(s), s.ops)
  {
    var end := |s.ops| / 2;
    DefragShrinks(s.ops, end);
    Behind(Compact(s.ops[..end]), s.ops[end..]);
  }

  lemma DeletedMeans(s: Srv, keys: seq<Key>)
    ensures DeleteMeans(s, Deleted(s, keys), keys)
  {
    DeletedRemoves(s.kv, keys);
    DeletionsLogged(s.ops, keys);
    CompactedHalf(Logged(s, Deletions(keys)));
  }
}
