/** The server and client objects of the update protocol, proved against the state
    functions of Updatable, Waterfall and UpdatableRead. */
module UpdatableObjects {
  import opened Options
  import opened Rows
  import opened Bits
  import opened OpLog
  import opened Rice
  import opened RiceSize
  import opened KeyTransport
  import opened RiceUpdates
  import opened Updatable
  import opened Batches
  import opened WaterfallClients
  import W = Waterfall
  import R = UpdatableRead

  method OpsToRows(ops: seq<Op>) returns (db: seq<Row>)
    ensures db == RowsOf(ops)
  {
    db := [];
    for i := 0 to |ops|
      invariant db == RowsOf(ops[..i])
    {
      assert ops[..i + 1][..i] == ops[..i];
      if !ops[i].delete {
        db := db + [ops[i].data];
      }
    }
    assert ops[..|ops|] == ops;
  }

  method IsSorted(keys: seq<Key>) returns (sorted: bool)
    ensures sorted == Sorted(keys)
  {
    var i := |keys| - 1;
    while i > 0
      invariant -1 <= i < |keys| && (i < 0 ==> |keys| == 0)
      invariant i >= 0 ==> Sorted(keys[i..])
      decreases i
    {
      if keys[i] < keys[i - 1] {
        return false;
      }
      assert keys[i - 1..] == [keys[i - 1]] + keys[i..];
      i := i - 1;
    }
    assert |keys| > 0 ==> keys[0..] == keys;
    sorted := true;
  }

  method KeysAndBits(ops: seq<Op>) returns (keys: seq<Key>, isDeletion: seq<bv8>, hasDeletion: bool)
    requires |ops| > 0
    ensures keys == Keys(ops) && isDeletion == DeletionBits(ops, |ops|) && hasDeletion == HasDeletion(ops)
  {
    keys := [];
    isDeletion := Zeros((|ops| - 1) / 8 + 1);
    hasDeletion := false;
    for j := 0 to |ops|
      invariant |keys| == j && forall i | 0 <= i < j :: keys[i] == ops[i].key
      invariant isDeletion == DeletionBits(ops, j)
      invariant hasDeletion <==> exists i | 0 <= i < j :: ops[i].delete
    {
      ByteCovers(|ops|, j);
      keys := keys + [ops[j].key];
      if ops[j].delete {
        isDeletion := isDeletion[j / 8 := isDeletion[j / 8] | Mask(j % 8)];
        hasDeletion := true;
      }
    }
  }

  /** Fills the answer: the keys, coded if they are sorted, and the deletion bits unless
      there is no deletion. */
  method OpsToKeyUpdates(ops: seq<Op>) returns (list: KeyList, isDeletion: seq<bv8>)
    requires |ops| > 0
    ensures list == Packed(Keys(ops)) && isDeletion == BitsSent(ops)
  {
    var keys, bits, hasDeletion := KeysAndBits(ops);
    isDeletion := if hasDeletion then bits else [];
    list := PackKeys(keys);
  }

  method PackKeys(keys: seq<Key>) returns (list: KeyList)
    requires |keys| > 0
    ensures list == Packed(keys)
  {
    var sorted := IsSorted(keys);
    if sorted {
      var rice := EncodeRice(keys);
      list := Coded(rice.value);
    } else {
      list := Plain(keys);
    }
  }

  method UnpackKeys(list: KeyList) returns (keys: Option<seq<Key>>)
    ensures keys == Unpacked(list)
  {
    match list
    case Coded(rice) => keys := DecodeRice(rice);
    case Plain(plain) => keys := Some(plain);
  }

  /** The operations for the keys and deletion bits of an answer. */
  method ReceiveOps(keys: seq<Key>, isDeletion: seq<bv8>) returns (newOps: seq<Op>)
    requires BitsCover(isDeletion, keys)
    ensures newOps == Received(keys, isDeletion)
  {
    newOps := [];
    for i := 0 to |keys|
      invariant newOps == Received(keys, isDeletion)[..i]
    {
      var isDelete := |isDeletion| > 0 && isDeletion[i / 8] & Mask(i % 8) != 0;
      newOps := newOps + [Op(keys[i], isDelete, ZERO)];
    }
  }

  /** An answer as it is sent. */
  datatype Resp = Resp(head: Head, keys: KeyList)

  function Answer(s: Srv, nextTs: nat): Resp
    requires nextTs <= s.initTs + |s.ops|
  {
    var keys := Keys(SentOps(s, nextTs));
    Resp(Heading(s, nextTs), if |keys| == 0 then Plain([]) else Packed(keys))
  }

  lemma AnswerIs(s: Srv, nextTs: nat, firstPos: nat)
    requires nextTs <= s.initTs + |s.ops| && firstPos == FirstPos(s, nextTs)
    ensures firstPos == |s.ops| ==> Answer(s, nextTs) == Resp(Head(0, s.defragTs, [], nextTs < s.defragTs), Plain([]))
    ensures firstPos < |s.ops| ==>
      var ops := s.ops[firstPos..];
      Answer(s, nextTs)
      == Resp(Head(s.initTs + firstPos, s.defragTs, BitsSent(ops), nextTs < s.defragTs), Packed(Keys(ops)))
  {
  }

  /** Applying the answer is what the state machine calls an update. */
  lemma AnswerProcessed(s: Srv, c: Cli)
    requires Answerable(RICE, s, c)
    ensures var resp := Answer(s, NextTimestamp(c));
            && Processable(c, resp.head, Unpacked(resp.keys))
            && Processed(c, resp.head, Unpacked(resp.keys)) == Refreshed(RICE, s, c)
  {
    var resp := Answer(s, NextTimestamp(c));
    assert Unpacked(resp.keys) == Arrival(RICE, s, NextTimestamp(c));
  }

  class Server {
    var initialTimestamp: nat
    var defragTimestamp: nat
    var ops: seq<Op>
    var kv: map<Key, Row>
    var rows: seq<Row>

    function View(): Srv
      reads this
    {
      Srv(initialTimestamp, defragTimestamp, ops, kv, rows)
    }

    constructor ()
      ensures View() == EMPTY_SERVER
    {
      initialTimestamp, defragTimestamp := 0, 0;
      ops, kv, rows := [], map[], [];
    }

    method AddRows(keys: seq<Key>, newRows: seq<Row>)
      requires |keys| == |newRows|
      modifies this
      ensures View() == Added(old(View()), SortByKey(Additions(keys, newRows)))
      ensures Stored(old(kv), kv, keys, newRows) && LogsPairs(old(ops), ops, keys, newRows)
    {
      AddedStores(kv, keys, newRows);
      AddedLogs(ops, keys, newRows);
      if |newRows| == 0 {
        NothingAdded(View(), keys, newRows);
        return;
      }
      var batch := MakeAdditions(keys, newRows);
      batch := SortByKey(batch);
      OnlyAdditions(keys, newRows);
      LogAdditions(batch);
    }

    method MakeAdditions(keys: seq<Key>, newRows: seq<Row>) returns (newOps: seq<Op>)
      requires |keys| == |newRows|
      ensures newOps == Additions(keys, newRows)
    {
      newOps := [];
      for i := 0 to |keys|
        invariant newOps == Additions(keys, newRows)[..i]
      {
        newOps := newOps + [Op(keys[i], false, newRows[i])];
      }
    }

    method LogAdditions(batch: seq<Op>)
      requires AddsOnly(batch)
      modifies this
      ensures View() == Added(old(View()), batch)
    {
      Put(batch);
      ops := ops + batch;
      var more := OpsToRows(batch);
      rows := rows + more;
    }

    method Put(batch: seq<Op>)
      requires AddsOnly(batch)
      modifies this`kv
      ensures kv == ReplayFrom(old(kv), batch)
    {
      for i := 0 to |batch|
        invariant kv == ReplayFrom(old(kv), batch[..i])
      {
        assert batch[..i + 1][..i] == batch[..i];
        kv := kv[batch[i].key := batch[i].data];
      }
      assert batch[..|batch|] == batch;
    }

    method DeleteRows(keys: seq<Key>)
      modifies this
      ensures View() == Deleted(old(View()), keys)
      ensures kv == old(kv) - KeySet(keys) && DeleteMeans(old(View()), View(), keys)
    {
      ghost var s := View();
      LogDeletions(keys);
      DeletedMeans(s, keys);
    }

    /** Logs the deletions and compacts the first half of the log once it is too long. */
    method LogDeletions(keys: seq<Key>)
      modifies this
      ensures View() == Deleted(old(View()), keys)
    {
      var newOps := Remove(keys);
      ops := ops + newOps;
      if |ops| > DEFRAG_RATIO * |kv| {
        CompactLog();
      }
    }

    method Remove(keys: seq<Key>) returns (newOps: seq<Op>)
      modifies this`kv
      ensures newOps == Deletions(keys) && kv == ReplayFrom(old(kv), newOps)
    {
      ghost var batch := Deletions(keys);
      newOps := [];
      for i := 0 to |keys|
        invariant newOps == batch[..i] && kv == ReplayFrom(old(kv), batch[..i])
      {
        assert batch[..i + 1][..i] == batch[..i];
        newOps := newOps + [Op(keys[i], true, ZERO)];
        kv := kv - {keys[i]};
      }
      assert batch[..|batch|] == batch;
    }

    method CompactLog()
      modifies this
      ensures View() == Compacted(old(View()))
    {
      var endDefrag := |ops| / 2;
      DefragShrinks(ops, endDefrag);
      var compacted, freed := Defrag(ops, endDefrag);
      rows := OpsToRows(compacted);
      defragTimestamp := initialTimestamp + endDefrag;
      initialTimestamp := initialTimestamp + (|ops| - |compacted|);
      ops := compacted;
    }

    method KeyUpdatesFor(next: nat) returns (resp: Resp)
      requires next <= initialTimestamp + |ops|
      ensures resp == Answer(View(), next)
    {
      var nextTimestamp := next;
      var shouldDelete := false;
      if nextTimestamp < defragTimestamp {
        shouldDelete := true;
        nextTimestamp := initialTimestamp;
      }
      var firstPos: nat := 0;
      if nextTimestamp >= initialTimestamp {
        firstPos := nextTimestamp - initialTimestamp;
      }
      if firstPos == |ops| {
        AnswerIs(View(), next, firstPos);
        return Resp(Head(0, defragTimestamp, [], shouldDelete), Plain([]));
      }
      AnswerIs(View(), next, firstPos);
      var keys, isDeletion := OpsToKeyUpdates(ops[firstPos..]);
      resp := Resp(Head(initialTimestamp + firstPos, defragTimestamp, isDeletion, shouldDelete), keys);
    }
  }

  /** The client's own compaction, before the new operations. */
  function LocallyCompacted(c: Cli, defragTs: nat): Cli
    requires defragTs > c.defragTs && Fits(c, defragTs)
  {
    var kept := Kept(c, defragTs);
    Cli(c.initTs + (|c.ops| - |kept|), defragTs, 0, kept, map[])
  }

  /** The client with the new operations appended, and the operations not yet indexed. */
  function Appended(c: Cli, defragTs: nat, received: seq<Op>): (Cli, seq<Op>)
    requires Fits(c, defragTs)
  {
    if defragTs > c.defragTs then
      var c1 := LocallyCompacted(c, defragTs);
      (c1.(ops := c1.ops + received), c1.ops + received)
    else (c.(ops := c.ops + received), received)
  }

  /** Indexing those operations completes the merge. */
  lemma MergedIs(c: Cli, defragTs: nat, received: seq<Op>, wiped: bool)
    requires Fits(c, defragTs)
    ensures var (c1, newOps) := Appended(c, defragTs, received);
            && |newOps| <= |c1.ops| && c1.ops[|c1.ops| - |newOps|..] == newOps
            && var p := Positions(c1.keyToPos, c1.numRows, newOps);
               Merged(c, defragTs, received, wiped)
               == Progress(c1.(keyToPos := p.0, numRows := p.1), CountAdditions(newOps), wiped || defragTs > c.defragTs, true)
  {
  }

  class Client {
    const waterfall: WaterfallClient
    var initialTimestamp: nat
    var defragTimestamp: nat
    var numRows: nat
    var ops: seq<Op>
    var keyToPos: map<Key, nat>

    function View(): Cli
      reads this
    {
      Cli(initialTimestamp, defragTimestamp, numRows, ops, keyToPos)
    }

    constructor (pirType: W.PirType, smallestLayerSize: nat)
      ensures View() == EMPTY_CLIENT && fresh(waterfall)
      ensures waterfall.View() == W.State(pirType, smallestLayerSize, 0, [])
    {
      initialTimestamp, defragTimestamp, numRows, ops, keyToPos := 0, 0, 0, [], map[];
      waterfall := new WaterfallClient(pirType, smallestLayerSize);
    }

    /** Continues the index over the operations from `fromOpNumber` on. */
    method UpdatePositionMap(fromOpNumber: nat)
      requires fromOpNumber <= |ops|
      modifies this`keyToPos, this`numRows
      ensures (keyToPos, numRows) == Positions(old(keyToPos), old(numRows), ops[fromOpNumber..])
    {
      ghost var tail := ops[fromOpNumber..];
      for i := fromOpNumber to |ops|
        invariant (keyToPos, numRows) == Positions(old(keyToPos), old(numRows), tail[..i - fromOpNumber])
      {
        var k := i - fromOpNumber;
        assert tail[..k + 1][..k] == tail[..k] && tail[k] == ops[i];
        var op := ops[i];
        if op.delete {
          keyToPos := keyToPos - {op.key};
          continue;
        }
        keyToPos := keyToPos[op.key := numRows];
        numRows := numRows + 1;
      }
      assert tail[..|tail|] == tail;
    }

    method CountNewRows(newOps: seq<Op>) returns (numNewRows: nat)
      ensures numNewRows == CountAdditions(newOps)
    {
      numNewRows := 0;
      for i := 0 to |newOps|
        invariant numNewRows == CountAdditions(newOps[..i])
      {
        assert newOps[..i + 1][..i] == newOps[..i];
        if !newOps[i].delete {
          numNewRows := numNewRows + 1;
        }
      }
      assert newOps[..|newOps|] == newOps;
    }

    method StartOver(initTs: nat, defragTs: nat)
      modifies this, waterfall
      ensures View() == Cli(initTs, defragTs, 0, [], map[])
      ensures waterfall.View() == W.Step(old(waterfall.View()), W.Reset)
    {
      ops, numRows, keyToPos := [], 0, map[];
      initialTimestamp, defragTimestamp := initTs, defragTs;
      waterfall.Reset();
    }

    /** Compacts the operations as far as the server has, and starts the index again. */
    method CompactOps(defragTs: nat)
      requires defragTs > defragTimestamp && Fits(View(), defragTs)
      modifies this, waterfall
      ensures View() == LocallyCompacted(old(View()), defragTs)
      ensures waterfall.View() == W.Step(old(waterfall.View()), W.Reset)
    {
      DefragShrinks(ops, defragTs - initialTimestamp);
      var defraggedOps, freed := Defrag(ops, defragTs - initialTimestamp);
      assert defraggedOps == Kept(View(), defragTs);
      defragTimestamp := defragTs;
      initialTimestamp := initialTimestamp + (|ops| - |defraggedOps|);
      ops := defraggedOps;
      numRows, keyToPos := 0, map[];
      waterfall.Reset();
    }

    /** Appends the new operations, after compacting the old ones if the server has. */
    method MergeOps(defragTs: nat, received: seq<Op>) returns (newOps: seq<Op>)
      requires Fits(View(), defragTs)
      modifies this, waterfall
      ensures (View(), newOps) == Appended(old(View()), defragTs, received)
      ensures waterfall.View() == R.AfterReset(old(waterfall.View()), defragTs > old(defragTimestamp))
    {
      if defragTs > defragTimestamp {
        CompactOps(defragTs);
        ops := ops + received;
        newOps := ops;
      } else {
        newOps := received;
        ops := ops + received;
      }
    }

    /** Compacts locally if the server has, appends the new operations and extends the index. */
    method Merge(defragTs: nat, received: seq<Op>, ghost wiped: bool) returns (numNewRows: nat)
      requires Fits(View(), defragTs)
      modifies this, waterfall
      ensures var p := Merged(old(View()), defragTs, received, wiped);
              && View() == p.c && numNewRows == p.numNewRows && p.ok
              && p.reset == (wiped || defragTs > old(defragTimestamp))
              && waterfall.View() == R.AfterReset(old(waterfall.View()), defragTs > old(defragTimestamp))
    {
      MergedIs(View(), defragTs, received, wiped);
      var newOps := MergeOps(defragTs, received);
      numNewRows := CountNewRows(newOps);
      UpdatePositionMap(|ops| - |newOps|);
    }

    method ProcessKeys(head: Head, keys: Option<seq<Key>>) returns (numNewRows: nat, ok: bool)
      requires Processable(View(), head, keys)
      modifies this, waterfall
      ensures var p := Processed(old(View()), head, keys);
              && View() == p.c && numNewRows == p.numNewRows && ok == p.ok
              && waterfall.View() == R.AfterReset(old(waterfall.View()), p.reset)
    {
      if head.shouldDelete {
        StartOver(head.initTs, head.defragTs);
      }
      if keys.None? {
        return 0, false;
      }
      var newOps := ReceiveOps(keys.value, head.isDeletion);
      numNewRows := Merge(head.defragTs, newOps, head.shouldDelete);
      ok := true;
    }

    /** Applies the server's answer: drop everything if told so, decode the keys, and merge
        the operations. */
    method ProcessKeyUpdate(resp: Resp) returns (numNewRows: nat, ok: bool)
      requires Processable(View(), resp.head, Unpacked(resp.keys))
      modifies this, waterfall
      ensures var p := Processed(old(View()), resp.head, Unpacked(resp.keys));
              && View() == p.c && numNewRows == p.numNewRows && ok == p.ok
              && waterfall.View() == R.AfterReset(old(waterfall.View()), p.reset)
    {
      var keys := UnpackKeys(resp.keys);
      numNewRows, ok := ProcessKeys(resp.head, keys);
    }

    /** Takes in new rows, if any: one hint request, the server's hint, one InitHint. */
    method TakeIn(numNewRows: nat, table: seq<Row>)
      requires W.Tiled(waterfall.View())
      modifies waterfall
      ensures waterfall.View() == R.Taken(old(waterfall.View()), numNewRows, table)
    {
      if numNewRows == 0 {
        return;
      }
      ghost var w := waterfall.View();
      var wantsHint, firstRow, layerRows := waterfall.HintUpdateRequest(numNewRows);
      if wantsHint {
        var rows := if firstRow + layerRows <= |table| then table[firstRow..firstRow + layerRows] else [];
        Rebuilt(w, numNewRows);
        waterfall.InitHints(rows);
      }
    }

    /** The request for key updates. */
    method Fetch(server: Server) returns (resp: Resp)
      requires NextTimestamp(View()) <= server.initialTimestamp + |server.ops|
      ensures resp == Answer(server.View(), NextTimestamp(View()))
    {
      resp := server.KeyUpdatesFor(initialTimestamp + |ops|);
    }

    /** The key updates from the server, applied. */
    method Refresh(server: Server) returns (numNewRows: nat, ok: bool)
      requires Answerable(RICE, server.View(), View())
      modifies this, waterfall
      ensures server.View() == old(server.View())
      ensures var p := Refreshed(RICE, old(server.View()), old(View()));
              && View() == p.c && numNewRows == p.numNewRows && ok == p.ok
              && waterfall.View() == R.AfterReset(old(waterfall.View()), p.reset)
    {
      ghost var s, c := server.View(), View();
      var resp := Fetch(server);
      assert View() == c && server.View() == s;
      AnswerProcessed(s, c);
      numNewRows, ok := ProcessKeyUpdate(resp);
    }

    /** A whole update against a server; it fails if the keys cannot be decoded. */
    method Update(server: Server) returns (ok: bool)
      requires Answerable(RICE, server.View(), View()) && W.Tiled(waterfall.View())
      modifies this, waterfall
      ensures server.View() == old(server.View())
      ensures R.Sys(server.View(), View(), waterfall.View())
           == R.UpdateStep(RICE, R.Sys(old(server.View()), old(View()), old(waterfall.View())))
      ensures ok == Refreshed(RICE, old(server.View()), old(View())).ok
    {
      FailedIsEmpty(server.View(), View());
      ResetTiled(waterfall.View(), Refreshed(RICE, server.View(), View()).reset);
      var numNewRows: nat;
      numNewRows, ok := Refresh(server);
      if ok {
        TakeIn(numNewRows, server.rows);
      }
    }
  }

  lemma FailedIsEmpty(s: Srv, c: Cli)
    requires Answerable(RICE, s, c)
    ensures !Refreshed(RICE, s, c).ok ==> Refreshed(RICE, s, c).numNewRows == 0
  {
  }

  lemma ResetTiled(w: W.State, reset: bool)
    requires W.Tiled(w)
    ensures W.Tiled(R.AfterReset(w, reset))
  {
  }

  /** After a request that wants a hint there is a layer to attach it to. */
  lemma Rebuilt(w: W.State, numNewRows: nat)
    requires W.Tiled(w) && numNewRows > 0
    ensures var w1 := W.HintUpdateReq(w, numNewRows).0; W.LastActive(w1.layers, |w1.layers|) > 0
  {
    var w1 := w.(numRows := w.numRows + numNewRows);
    assert w1.(numRows := W.SubNat(w1.numRows, numNewRows)) == w;
    W.UpdatedTiles(w1, numNewRows);
    var (layers, i) := W.Updated(w1, numNewRows);
    W.LastActiveIs(layers, i, |layers|);
    var layers' := W.HintUpdateReq(w, numNewRows).0.layers;
    W.LastActiveIs(layers', i, |layers'|);
  }
}
