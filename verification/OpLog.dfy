/** The operation log of the updatable server and its compaction. */
module OpLog {
  import opened Rows
  import opened Permutations

  type Key = Word

  datatype Op = Op(key: Key, delete: bool, data: Row)

  // ----- What a log means -----

  function ApplyTo(m: map<Key, Row>, op: Op): map<Key, Row> {
    if op.delete then m - {op.key} else m[op.key := op.data]
  }

  /** The key/data map that a log leads to from the empty map. */
  function Replay(ops: seq<Op>): map<Key, Row> {
    if |ops| == 0 then map[] else ApplyTo(Replay(ops[..|ops| - 1]), ops[|ops| - 1])
  }

  /** The rows that a log contributes to the flat table. */
  function RowsOf(ops: seq<Op>): seq<Row> {
    if |ops| == 0 then []
    else
      var op := ops[|ops| - 1];
      var rest := RowsOf(ops[..|ops| - 1]);
      if op.delete then rest else rest + [op.data]
  }

  // ----- What compaction is for -----

  function Remove(ops: seq<Op>, key: Key): seq<Op> {
    if |ops| == 0 then []
    else
      var op := ops[|ops| - 1];
      var rest := Remove(ops[..|ops| - 1], key);
      if op.key == key then rest else rest + [op]
  }

  /** The live additions of a log, each at the place of its last addition. */
  function Compact(ops: seq<Op>): seq<Op> {
    if |ops| == 0 then []
    else
      var op := ops[|ops| - 1];
      var rest := Remove(Compact(ops[..|ops| - 1]), op.key);
      if op.delete then rest else rest + [op]
  }

  function Defragged(ops: seq<Op>, end: nat): seq<Op>
    requires end <= |ops|
  {
    Compact(ops[..end]) + ops[end..]
  }

  // ----- Snoc lemmas -----

  lemma Snoc(ops: seq<Op>, op: Op)
    ensures Replay(ops + [op]) == ApplyTo(Replay(ops), op)
    ensures RowsOf(ops + [op]) == if op.delete then RowsOf(ops) else RowsOf(ops) + [op.data]
    ensures Compact(ops + [op]) == var rest := Remove(Compact(ops), op.key); if op.delete then rest else rest + [op]
    ensures forall key :: Remove(ops + [op], key) == if op.key == key then Remove(ops, key) else Remove(ops, key) + [op]
  {
    assert (ops + [op])[..|ops|] == ops;
  }

  lemma {:induction false} RowsOfAppend(a: seq<Op>, b: seq<Op>)
    ensures RowsOf(a + b) == RowsOf(a) + RowsOf(b)
  {
    if |b| == 0 {
      assert a + b == a;
    } else {
      var n := |b| - 1;
      RowsOfAppend(a, b[..n]);
      assert (a + b)[..|a| + n] == a + b[..n];
    }
  }

  // ----- Compaction keeps the meaning -----

  lemma ApplyToMinus(m: map<Key, Row>, op: Op, key: Key)
    ensures ApplyTo(m, op) - {key} == if op.key == key then m - {key} else ApplyTo(m - {key}, op)
    ensures ApplyTo(m - {op.key}, op) == ApplyTo(m, op)
  {
  }

  lemma {:induction false} ReplayRemove(ops: seq<Op>, key: Key)
    ensures Replay(Remove(ops, key)) == Replay(ops) - {key}
  {
    if |ops| > 0 {
      var n := |ops| - 1;
      ReplayRemove(ops[..n], key);
      ApplyToMinus(Replay(ops[..n]), ops[n], key);
      if ops[n].key != key {
        Snoc(Remove(ops[..n], key), ops[n]);
      }
    }
  }

  lemma {:induction false} ReplayCompact(ops: seq<Op>)
    ensures Replay(Compact(ops)) == Replay(ops)
  {
    if |ops| > 0 {
      var n := |ops| - 1;
      ReplayCompact(ops[..n]);
      ReplayRemove(Compact(ops[..n]), ops[n].key);
      ApplyToMinus(Replay(ops[..n]), ops[n], ops[n].key);
      if !ops[n].delete {
        Snoc(Remove(Compact(ops[..n]), ops[n].key), ops[n]);
      }
    }
  }

  lemma {:induction false} ReplayAppendSame(a: seq<Op>, b: seq<Op>, c: seq<Op>)
    requires Replay(a) == Replay(b)
    ensures Replay(a + c) == Replay(b + c)
  {
    if |c| == 0 {
      assert a + c == a && b + c == b;
    } else {
      var n := |c| - 1;
      ReplayAppendSame(a, b, c[..n]);
      assert a + c == (a + c[..n]) + [c[n]] && b + c == (b + c[..n]) + [c[n]];
      Snoc(a + c[..n], c[n]);
      Snoc(b + c[..n], c[n]);
    }
  }

  lemma Rejoined(ops: seq<Op>, end: nat)
    requires end <= |ops|
    ensures ops[..end] + ops[end..] == ops
  {
  }

  /** Compacting a prefix of a log never changes what the log means. */
  lemma DefragMeaning(ops: seq<Op>, end: nat)
    requires end <= |ops|
    ensures Replay(Defragged(ops, end)) == Replay(ops)
  {
    ReplayCompact(ops[..end]);
    ReplayAppendSame(Compact(ops[..end]), ops[..end], ops[end..]);
    Rejoined(ops, end);
  }

  // ----- Compacted logs -----

  function KeysOf(ops: seq<Op>): set<Key> {
    if |ops| == 0 then {} else KeysOf(ops[..|ops| - 1]) + {ops[|ops| - 1].key}
  }

  /** A log of additions to distinct keys. */
  ghost predicate Live(ops: seq<Op>) {
    |ops| > 0 ==>
      var init, op := ops[..|ops| - 1], ops[|ops| - 1];
      !op.delete && op.key !in KeysOf(init) && Live(init)
  }

  lemma LiveSnoc(ops: seq<Op>, op: Op)
    ensures KeysOf(ops + [op]) == KeysOf(ops) + {op.key}
    ensures Live(ops + [op]) <==> !op.delete && op.key !in KeysOf(ops) && Live(ops)
  {
    assert (ops + [op])[..|ops|] == ops;
  }

  lemma {:induction false} RemoveKeys(ops: seq<Op>, key: Key)
    ensures KeysOf(Remove(ops, key)) == KeysOf(ops) - {key}
  {
    if |ops| > 0 {
      var n := |ops| - 1;
      RemoveKeys(ops[..n], key);
      if ops[n].key != key {
        LiveSnoc(Remove(ops[..n], key), ops[n]);
      }
    }
  }

  lemma LiveLast(ops: seq<Op>)
    requires |ops| > 0 && Live(ops)
    ensures var init, op := ops[..|ops| - 1], ops[|ops| - 1];
            ops == init + [op] && !op.delete && op.key !in KeysOf(init) && Live(init)
  {
  }

  lemma RemoveNext(init: seq<Op>, op: Op, key: Key)
    ensures Remove(init + [op], key) == if op.key == key then Remove(init, key) else Remove(init, key) + [op]
  {
    assert (init + [op])[..|init|] == init;
  }

  lemma {:induction false} RemoveLive(ops: seq<Op>, key: Key)
    requires Live(ops)
    ensures Live(Remove(ops, key))
  {
    if |ops| > 0 {
      var init, op := ops[..|ops| - 1], ops[|ops| - 1];
      LiveLast(ops);
      RemoveLive(init, key);
      RemoveKeys(init, key);
      RemoveNext(init, op, key);
      LiveSnoc(Remove(init, key), op);
    }
  }

  lemma {:induction false} RemoveLength(ops: seq<Op>, key: Key)
    requires Live(ops)
    ensures |Remove(ops, key)| == |ops| - (if key in KeysOf(ops) then 1 else 0)
  {
    if |ops| > 0 {
      var init, op := ops[..|ops| - 1], ops[|ops| - 1];
      LiveLast(ops);
      RemoveLength(init, key);
      RemoveNext(init, op, key);
      LiveSnoc(init, op);
    }
  }

  lemma {:induction false} RemoveAbsent(ops: seq<Op>, key: Key)
    requires key !in KeysOf(ops)
    ensures Remove(ops, key) == ops
  {
    if |ops| > 0 {
      RemoveAbsent(ops[..|ops| - 1], key);
    }
  }

  lemma {:induction false} CompactLive(ops: seq<Op>)
    ensures Live(Compact(ops)) && |Compact(ops)| <= |ops|
  {
    if |ops| > 0 {
      var n := |ops| - 1;
      CompactLive(ops[..n]);
      var rest := Remove(Compact(ops[..n]), ops[n].key);
      RemoveLive(Compact(ops[..n]), ops[n].key);
      RemoveLength(Compact(ops[..n]), ops[n].key);
      RemoveKeys(Compact(ops[..n]), ops[n].key);
      LiveSnoc(rest, ops[n]);
    }
  }

  lemma {:induction false} CompactOfLive(ops: seq<Op>)
    requires Live(ops)
    ensures Compact(ops) == ops
  {
    if |ops| > 0 {
      var init, op := ops[..|ops| - 1], ops[|ops| - 1];
      LiveLast(ops);
      CompactOfLive(init);
      RemoveAbsent(init, op.key);
      Snoc(init, op);
    }
  }

  /** Compacting in two steps is compacting once. */
  lemma {:induction false} CompactCompose(a: seq<Op>, b: seq<Op>)
    ensures Compact(Compact(a) + b) == Compact(a + b)
  {
    if |b| == 0 {
      assert Compact(a) + b == Compact(a) && a + b == a;
      CompactLive(a);
      CompactOfLive(Compact(a));
    } else {
      var n := |b| - 1;
      CompactCompose(a, b[..n]);
      assert Compact(a) + b == (Compact(a) + b[..n]) + [b[n]] && a + b == (a + b[..n]) + [b[n]];
      Snoc(Compact(a) + b[..n], b[n]);
      Snoc(a + b[..n], b[n]);
    }
  }

  lemma Joined(ops: seq<Op>, lo: nat, mid: nat, hi: nat)
    requires lo <= mid <= hi <= |ops|
    ensures ops[lo..mid] + ops[mid..hi] == ops[lo..hi]
    ensures ops[..mid] == ops[0..mid] && ops[..hi] == ops[0..hi]
  {
  }

  /** Where position `d` of a log is once its first `dc` operations are `c`. */
  lemma SplitBehind(c: seq<Op>, ops: seq<Op>, dc: nat, d: nat, t: nat)
    requires dc <= d <= t <= |ops|
    ensures var log, e := c + ops[dc..t], |c| + d - dc;
            log[..e] == c + ops[dc..d] && log[e..] == ops[d..t]
  {
  }

  lemma Suffix(ops: seq<Op>, d: nat)
    requires d <= |ops|
    ensures ops[d..|ops|] == ops[d..]
  {
  }

  lemma Prefixes(ops: seq<Op>, d1: nat, d2: nat)
    requires d1 <= d2 <= |ops|
    ensures ops[..d1] + ops[d1..d2] == ops[..d2]
  {
  }

  lemma DefragBehind(c: seq<Op>, ops: seq<Op>, d1: nat, d2: nat)
    requires d1 <= d2 <= |ops|
    ensures var e := |c| + d2 - d1;
            e <= |c + ops[d1..]| && Defragged(c + ops[d1..], e) == Compact(c + ops[d1..d2]) + ops[d2..]
  {
    SplitBehind(c, ops, d1, d2, |ops|);
    Suffix(ops, d1);
    Suffix(ops, d2);
  }

  /** Compacting at `d1` and then, in shifted positions, at `d2` equals compacting once at `d2`. */
  lemma DefragCompose(ops: seq<Op>, d1: nat, d2: nat)
    requires d1 <= d2 <= |ops|
    ensures var once := Defragged(ops, d1);
            var shifted := d2 - (|ops| - |once|);
            0 <= shifted <= |once| && Defragged(once, shifted) == Defragged(ops, d2)
  {
    var c := Compact(ops[..d1]);
    CompactLive(ops[..d1]);
    CompactCompose(ops[..d1], ops[d1..d2]);
    Prefixes(ops, d1, d2);
    DefragBehind(c, ops, d1, d2);
    assert d2 - (|ops| - |c + ops[d1..]|) == |c| + d2 - d1;
  }

  // ----- The two-pass algorithm -----

  /** The first pass: the position of each live key. */
  function LiveMap(ops: seq<Op>, k: nat): map<Key, nat>
    requires k <= |ops|
  {
    if k == 0 then map[]
    else if ops[k - 1].delete then LiveMap(ops, k - 1) - {ops[k - 1].key}
    else LiveMap(ops, k - 1)[ops[k - 1].key := k - 1]
  }

  /** The second pass: the operations at a live position. */
  function Selected(ops: seq<Op>, m: map<Key, nat>, k: nat): seq<Op>
    requires k <= |ops|
  {
    if k == 0 then []
    else
      var op := ops[k - 1];
      var rest := Selected(ops, m, k - 1);
      if op.key in m && m[op.key] == k - 1 then rest + [op] else rest
  }

  /** Making a key dead, or live at a later position, removes it from the selection. */
  lemma {:induction false} SelectedWithout(ops: seq<Op>, m: map<Key, nat>, m': map<Key, nat>, key: Key, k: nat)
    requires k <= |ops| && m - {key} == m' - {key} && (key in m' ==> m'[key] >= k)
    ensures Selected(ops, m', k) == Remove(Selected(ops, m, k), key)
  {
    if k > 0 {
      SelectedWithout(ops, m, m', key, k - 1);
      var op := ops[k - 1];
      assert op.key != key ==> (op.key in m <==> op.key in m - {key}) && (op.key in m' <==> op.key in m' - {key});
      assert op.key != key && op.key in m ==> m[op.key] == (m - {key})[op.key];
      assert op.key != key && op.key in m' ==> m'[op.key] == (m' - {key})[op.key];
      if op.key in m && m[op.key] == k - 1 {
        Snoc(Selected(ops, m, k - 1), op);
      } else {
        assert Selected(ops, m, k) == Selected(ops, m, k - 1);
      }
      if !(op.key in m' && m'[op.key] == k - 1) {
        assert Selected(ops, m', k) == Selected(ops, m', k - 1);
      }
    }
  }

  lemma {:induction false} LiveMapBound(ops: seq<Op>, k: nat)
    requires k <= |ops|
    ensures forall key | key in LiveMap(ops, k) :: LiveMap(ops, k)[key] < k
  {
    if k > 0 {
      LiveMapBound(ops, k - 1);
    }
  }

  /** What one more operation does to the selection. */
  lemma SelectedStep(ops: seq<Op>, k: nat)
    requires k < |ops|
    ensures var rest := Remove(Selected(ops, LiveMap(ops, k), k), ops[k].key);
            Selected(ops, LiveMap(ops, k + 1), k + 1) == if ops[k].delete then rest else rest + [ops[k]]
  {
    LiveMapBound(ops, k);
    SelectedWithout(ops, LiveMap(ops, k), LiveMap(ops, k + 1), ops[k].key, k);
  }

  /** The two passes compute the compaction, and the first one knows its keys. */
  lemma {:induction false} TwoPasses(ops: seq<Op>, k: nat)
    requires k <= |ops|
    ensures Selected(ops, LiveMap(ops, k), k) == Compact(ops[..k])
    ensures LiveMap(ops, k).Keys == KeysOf(Compact(ops[..k]))
  {
    if k > 0 {
      TwoPasses(ops, k - 1);
      SelectedStep(ops, k - 1);
      CompactNext(ops, k - 1);
      LiveMapKeys(ops, k - 1);
    }
  }

  /** The live keys after one more operation. */
  function KeysNext(keys: set<Key>, op: Op): set<Key> {
    if op.delete then keys - {op.key} else keys + {op.key}
  }

  lemma LiveMapKeys(ops: seq<Op>, k: nat)
    requires k < |ops|
    ensures LiveMap(ops, k + 1).Keys == KeysNext(LiveMap(ops, k).Keys, ops[k])
  {
  }

  lemma CompactNext(ops: seq<Op>, k: nat)
    requires k < |ops|
    ensures var op, rest := ops[k], Remove(Compact(ops[..k]), ops[k].key);
            && Compact(ops[..k + 1]) == (if op.delete then rest else rest + [op])
            && KeysOf(Compact(ops[..k + 1])) == KeysNext(KeysOf(Compact(ops[..k])), op)
  {
    var op := ops[k];
    var before := Compact(ops[..k]);
    assert ops[..k + 1] == ops[..k] + [op];
    Snoc(ops[..k], op);
    RemoveKeys(before, op.key);
    LiveSnoc(Remove(before, op.key), op);
  }

  lemma {:induction false} SelectedPrefix(ops: seq<Op>, m: map<Key, nat>, k: nat, n: nat)
    requires k <= n <= |ops|
    ensures Selected(ops, m, k) <= Selected(ops, m, n)
  {
    if k < n {
      SelectedPrefix(ops, m, k, n - 1);
    }
  }

  /** One step of the first pass, in terms of the compaction. */
  lemma CompactStep(ops: seq<Op>, i: nat)
    requires i < |ops|
    ensures var c := Compact(ops[..i]);
            |Compact(ops[..i + 1])|
            == |c| - (if ops[i].key in LiveMap(ops, i) then 1 else 0) + (if ops[i].delete then 0 else 1)
  {
    TwoPasses(ops, i);
    CompactLive(ops[..i]);
    RemoveLength(Compact(ops[..i]), ops[i].key);
    CompactNext(ops, i);
  }

  /** The first pass: finds the live positions and counts what it frees. */
  method FindLive(ops: seq<Op>, endDefrag: nat) returns (keyToPos: map<Key, nat>, freed: nat)
    requires endDefrag <= |ops|
    ensures keyToPos == LiveMap(ops, endDefrag) && freed == endDefrag - |Compact(ops[..endDefrag])|
  {
    freed, keyToPos := 0, map[];
    for i := 0 to endDefrag
      invariant keyToPos == LiveMap(ops, i) && freed == i - |Compact(ops[..i])|
    {
      CompactStep(ops, i);
      var op := ops[i];
      if op.key in keyToPos {
        freed := freed + 1;
      }
      if op.delete {
        freed := freed + 1;
        keyToPos := keyToPos - {op.key};
      } else {
        keyToPos := keyToPos[op.key := i];
      }
    }
  }

  /** The second pass: pushes the live operations to the front of the buffer. */
  method PushForward(buf: array<Op>, ops: seq<Op>, endDefrag: nat, keyToPos: map<Key, nat>) returns (newPos: nat)
    requires endDefrag <= |ops| && |Selected(ops, keyToPos, endDefrag)| <= buf.Length
    modifies buf
    ensures newPos == |Selected(ops, keyToPos, endDefrag)| && buf[..newPos] == Selected(ops, keyToPos, endDefrag)
  {
    newPos := 0;
    for i := 0 to endDefrag
      invariant newPos == |Selected(ops, keyToPos, i)| <= buf.Length
      invariant buf[..newPos] == Selected(ops, keyToPos, i)
    {
      SelectedPrefix(ops, keyToPos, i + 1, endDefrag);
      var op := ops[i];
      if op.key in keyToPos && keyToPos[op.key] == i {
        buf[newPos] := op;
        newPos := newPos + 1;
      }
    }
  }

  /** Compacts the first `endDefrag` operations: a pass that finds the live positions,
      a pass that pushes the live operations forward, and a copy of the rest. The new
      log is shorter by exactly what the first pass freed. */
  method Defrag(ops: seq<Op>, endDefrag: nat) returns (newOps: seq<Op>, freed: nat)
    requires endDefrag <= |ops|
    ensures newOps == Defragged(ops, endDefrag)
    ensures |newOps| == |ops| - freed
  {
    var keyToPos;
    keyToPos, freed := FindLive(ops, endDefrag);
    TwoPasses(ops, endDefrag);
    ghost var live := Compact(ops[..endDefrag]);
    var buf := new Op[|ops| - freed](_ => Op(0, false, ZERO));
    var newPos := PushForward(buf, ops, endDefrag, keyToPos);
    CopyTail(buf, newPos, ops[endDefrag..]);
    newOps := buf[..];
    assert newOps == newOps[..newPos] + newOps[newPos..];
  }

  /** Go's copy of the remaining operations behind the compacted ones. */
  method CopyTail(buf: array<Op>, at: nat, tail: seq<Op>)
    requires buf.Length == at + |tail|
    modifies buf
    ensures buf[..at] == old(buf[..at]) && buf[at..] == tail
  {
    for i := 0 to |tail|
      invariant buf[..at] == old(buf[..at]) && buf[at..at + i] == tail[..i]
    {
      buf[at + i] := tail[i];
      assert buf[at..at + i + 1] == buf[at..at + i] + [tail[i]];
    }
    assert tail[..|tail|] == tail && buf[at..at + |tail|] == buf[at..];
  }
}
