/** What a client reads after keys have been added or deleted, in terms of the keys and
    rows that were passed in. */
module KeyValueStore {
  import opened Options
  import opened Rows
  import opened OpLog
  import opened Batches
  import U = Updatable
  import W = Waterfall
  import R = UpdatableRead

  /** One more server event after a run, and then a client update. */
  ghost function UpdatedAfter(t: U.Transport, pirType: W.PirType, smallest: nat, evs: seq<U.Event>, ev: U.Event): R.Sys {
    R.Step(t, R.Run(t, R.Start(pirType, smallest), evs + [ev]), U.Update)
  }

  /** The run goes well, and the list of keys of the update that follows arrives. */
  ghost predicate Arriving(t: U.Transport, pirType: W.PirType, smallest: nat, evs: seq<U.Event>, ev: U.Event) {
    && U.Bounded(t) && pirType != W.SinglePass && U.HonestRun(t, evs) && !ev.Update?
    && var y := R.Run(t, R.Start(pirType, smallest), evs + [ev]);
       U.NextTimestamp(y.c) <= y.s.initTs + |y.s.ops| ==> U.Arrives(t, U.PendingKeys(y.s, y.c))
  }

  lemma OneMore(evs: seq<U.Event>, ev: U.Event)
    ensures U.History(evs + [ev]) == U.History(evs) + U.LoggedBy(ev)
    ensures Replay(U.History(evs + [ev])) == U.ReplayFrom(Replay(U.History(evs)), U.LoggedBy(ev))
  {
    assert (evs + [ev])[..|evs|] == evs;
    U.ReplayAppend(U.History(evs), U.LoggedBy(ev));
  }

  lemma StillHonest(t: U.Transport, evs: seq<U.Event>, ev: U.Event)
    requires U.HonestRun(t, evs) && !ev.Update?
    ensures U.HonestRun(t, evs + [ev])
  {
    assert (evs + [ev])[..|evs|] == evs;
  }

  lemma ReadAfter(t: U.Transport, pirType: W.PirType, smallest: nat, evs: seq<U.Event>, ev: U.Event, key: Key)
    requires Arriving(t, pirType, smallest, evs, ev)
    ensures var kv := U.ReplayFrom(Replay(U.History(evs)), U.LoggedBy(ev));
            R.Read(UpdatedAfter(t, pirType, smallest, evs, ev), key) == if key in kv then Some(kv[key]) else None
  {
    StillHonest(t, evs, ev);
    OneMore(evs, ev);
    R.ReadsAreCurrent(t, pirType, smallest, evs + [ev], key);
  }

  /** After any run, rows that are added are read back under their keys: the last one that
      was passed in for a key. */
  lemma AddedIsRead(t: U.Transport, pirType: W.PirType, smallest: nat, evs: seq<U.Event>,
                    keys: seq<Key>, rows: seq<Row>, j: nat)
    requires |keys| == |rows| && j < |keys| && LastKey(keys, keys[j], j)
    requires Arriving(t, pirType, smallest, evs, U.AddRows(SortByKey(Additions(keys, rows))))
    ensures var y := UpdatedAfter(t, pirType, smallest, evs, U.AddRows(SortByKey(Additions(keys, rows))));
            R.Read(y, keys[j]) == Some(rows[j])
  {
    ReadAfter(t, pirType, smallest, evs, U.AddRows(SortByKey(Additions(keys, rows))), keys[j]);
    AddedLast(Replay(U.History(evs)), keys, rows, keys[j], j);
  }

  /** A key that is deleted is not found any more. */
  lemma DeletedIsGone(t: U.Transport, pirType: W.PirType, smallest: nat, evs: seq<U.Event>, keys: seq<Key>, key: Key)
    requires key in keys && Arriving(t, pirType, smallest, evs, U.DeleteRows(keys))
    ensures R.Read(UpdatedAfter(t, pirType, smallest, evs, U.DeleteRows(keys)), key) == None
  {
    ReadAfter(t, pirType, smallest, evs, U.DeleteRows(keys), key);
    DeletedRemoves(Replay(U.History(evs)), keys);
  }

  /** Keys that are neither added nor deleted are read as before. */
  lemma OthersAreKept(t: U.Transport, pirType: W.PirType, smallest: nat, evs: seq<U.Event>,
                      keys: seq<Key>, rows: seq<Row>, key: Key)
    requires |keys| == |rows| && key !in keys
    ensures var kv := Replay(U.History(evs));
            var was := if key in kv then Some(kv[key]) else None;
            && (Arriving(t, pirType, smallest, evs, U.AddRows(SortByKey(Additions(keys, rows)))) ==>
                  R.Read(UpdatedAfter(t, pirType, smallest, evs, U.AddRows(SortByKey(Additions(keys, rows)))), key) == was)
            && (Arriving(t, pirType, smallest, evs, U.DeleteRows(keys)) ==>
                  R.Read(UpdatedAfter(t, pirType, smallest, evs, U.DeleteRows(keys)), key) == was)
  {
    if Arriving(t, pirType, smallest, evs, U.AddRows(SortByKey(Additions(keys, rows)))) {
      ReadAfter(t, pirType, smallest, evs, U.AddRows(SortByKey(Additions(keys, rows))), key);
      NotAdded(Replay(U.History(evs)), keys, rows, key);
    }
    if Arriving(t, pirType, smallest, evs, U.DeleteRows(keys)) {
      ReadAfter(t, pirType, smallest, evs, U.DeleteRows(keys), key);
      DeletedRemoves(Replay(U.History(evs)), keys);
    }
  }
}
