/** The update protocol with the key lists as they really travel, sorted ones Rice-coded:
    when it keeps clients and servers together, and two small batches for which it
    does not. */
module RiceUpdates {
  import opened Options
  import opened Rows
  import opened OpLog
  import opened KeyTransport
  import opened Rice
  import opened RiceSize
  import U = Updatable
  import W = Waterfall
  import R = UpdatableRead

  const RICE: U.Transport := keys => Unpacked(Packed(keys))

  lemma RiceBounded()
    ensures U.Bounded(RICE)
  {
    forall keys: seq<Key>
      ensures RICE(keys).Some? ==> |RICE(keys).value| <= |keys|
    {
      UnpackedLength(keys);
    }
  }

  lemma RiceArrives(keys: seq<Key>)
    ensures U.Arrives(RICE, keys) <==> Delivers(keys)
  {
    DeliversExactly(keys);
  }

  /** A sorted list whose range is at most half its length, which the decoder refuses. */
  ghost predicate Dense(keys: seq<Key>) {
    2 <= |keys| <= MAX_LIST && Sorted(keys) && 0 < 2 * Range(keys) <= |keys|
  }

  /** Every update of the run sends a list that arrives or one that is refused. */
  ghost predicate SafeRun(evs: seq<U.Event>) {
    |evs| > 0 ==>
      var y := U.Run(RICE, U.START, evs[..|evs| - 1]);
      && SafeRun(evs[..|evs| - 1])
      && (evs[|evs| - 1].Update? && U.NextTimestamp(y.c) <= y.s.initTs + |y.s.ops| ==>
            Delivers(U.PendingKeys(y.s, y.c)) || Dense(U.PendingKeys(y.s, y.c)))
  }

  lemma SafeIsHonest(s: U.Srv, c: U.Cli)
    requires U.NextTimestamp(c) <= s.initTs + |s.ops|
    requires Delivers(U.PendingKeys(s, c)) || Dense(U.PendingKeys(s, c))
    ensures U.Honest(RICE, s, c)
  {
    var keys := U.PendingKeys(s, c);
    RiceArrives(keys);
    if Dense(keys) {
      DenseRefused(keys);
    }
  }

  lemma {:induction false} SafeRunIsHonest(evs: seq<U.Event>)
    requires SafeRun(evs)
    ensures U.HonestRun(RICE, evs)
  {
    if |evs| > 0 {
      var y := U.Run(RICE, U.START, evs[..|evs| - 1]);
      SafeRunIsHonest(evs[..|evs| - 1]);
      if evs[|evs| - 1].Update? && U.NextTimestamp(y.c) <= y.s.initTs + |y.s.ops| {
        SafeIsHonest(y.s, y.c);
      }
    }
  }

  /** After such a run, one more update makes the client agree with the server exactly when
      its list of keys is one that arrives. */
  lemma ClientAgrees(evs: seq<U.Event>)
    requires SafeRun(evs)
    ensures var y0 := U.Run(RICE, U.START, evs);
            var y := U.Step(RICE, y0, U.Update);
            && U.Answerable(RICE, y0.s, y0.c)
            && (U.Synced(y.c, y.s) <==> Delivers(U.PendingKeys(y0.s, y0.c)))
            && y.s.kv == Replay(U.History(evs))
  {
    RiceBounded();
    SafeRunIsHonest(evs);
    U.ClientAgrees(RICE, evs);
    var y0 := U.Run(RICE, U.START, evs);
    RiceArrives(U.PendingKeys(y0.s, y0.c));
  }

  /** Then every read returns what the whole history says. */
  lemma ReadsAreCurrent(pirType: W.PirType, smallest: nat, evs: seq<U.Event>, key: Key)
    requires pirType != W.SinglePass && SafeRun(evs)
    ensures var y0 := R.Run(RICE, R.Start(pirType, smallest), evs);
            var y, kv := R.Step(RICE, y0, U.Update), Replay(U.History(evs));
            && U.Answerable(RICE, y0.s, y0.c)
            && (Delivers(U.PendingKeys(y0.s, y0.c)) ==>
                  R.Read(y, key) == if key in kv then Some(kv[key]) else None)
  {
    RiceBounded();
    SafeRunIsHonest(evs);
    R.ReadsAreCurrent(RICE, pirType, smallest, evs, key);
    var y0 := R.Run(RICE, R.Start(pirType, smallest), evs);
    RiceArrives(U.PendingKeys(y0.s, y0.c));
  }

  /** Two consecutive keys are enough: every update fails, and the client stays empty. */
  lemma NeighboursFail(batch: seq<Op>)
    requires U.Keys(batch) == [7, 8]
    ensures var y := U.Run(RICE, U.START, [U.AddRows(batch)]);
            && U.Answerable(RICE, y.s, y.c)
            && U.Refreshed(RICE, y.s, y.c) == U.Progress(U.EMPTY_CLIENT, 0, false, false)
            && U.Step(RICE, y, U.Update) == y && !U.Synced(y.c, y.s)
  {
    NeighboursRefused();
    U.FirstRun(RICE, batch);
    U.FirstFails(RICE, U.Run(RICE, U.START, [U.AddRows(batch)]), batch);
  }

  /** The keys 0 to 32 and 65: an update reports success, but the client does not know
      the last key. */
  lemma LastKeyLost(batch: seq<Op>, last: Key)
    requires last == 65 && U.Keys(batch) == Stairs(last) && !U.HasDeletion(batch)
    ensures var y := U.Run(RICE, U.START, [U.AddRows(batch)]);
            && U.Answerable(RICE, y.s, y.c) && U.Refreshed(RICE, y.s, y.c).ok
            && last in y.s.kv && last !in U.Step(RICE, y, U.Update).c.keyToPos
  {
    SilentLoss(last);
    StairsLast(last);
    assert U.Keys(batch)[33] == last;
    U.FirstRun(RICE, batch);
    U.FirstChanged(RICE, U.Run(RICE, U.START, [U.AddRows(batch)]), batch, Stairs(last - 1));
  }
}
