/** The updatable client as a whole: key index, layers and server. After any run that
    ends in an update whose list of keys arrives, reading a key returns the server's
    current value for it. */
module UpdatableRead {
  import opened Options
  import opened Rows
  import opened OpLog
  import U = Updatable
  import W = Waterfall

  datatype Sys = Sys(s: U.Srv, c: U.Cli, w: W.State)

  function Start(pirType: W.PirType, smallest: nat): Sys {
    Sys(U.EMPTY_SERVER, U.EMPTY_CLIENT, W.State(pirType, smallest, 0, []))
  }

  function AfterReset(w: W.State, reset: bool): W.State {
    if reset then W.Step(w, W.Reset) else w
  }

  /** The layers after taking in `numNewRows` rows. */
  function Taken(w: W.State, numNewRows: nat, rows: seq<Row>): W.State {
    if numNewRows == 0 then w else W.Grown(w, numNewRows, rows)
  }

  /** The client's Update: fetch the keys, then one hint for the new rows. A list of keys
      that cannot be decoded brings no new rows. */
  function UpdateStep(t: U.Transport, y: Sys): Sys {
    if !U.Answerable(t, y.s, y.c) then y
    else
      var p := U.Refreshed(t, y.s, y.c);
      y.(c := p.c, w := Taken(AfterReset(y.w, p.reset), p.numNewRows, y.s.rows))
  }

  function Step(t: U.Transport, y: Sys, ev: U.Event): Sys {
    match ev
    case AddRows(batch) => y.(s := U.Added(y.s, batch))
    case DeleteRows(keys) => y.(s := U.Deleted(y.s, keys))
    case Update => UpdateStep(t, y)
  }

  function Run(t: U.Transport, y: Sys, evs: seq<U.Event>): Sys {
    if |evs| == 0 then y else Step(t, Run(t, y, evs[..|evs| - 1]), evs[|evs| - 1])
  }

  /** The client's Read; None is "key not found". */
  function Read(y: Sys, key: Key): Option<Row> {
    if key !in y.c.keyToPos then None else W.Read(y.w, y.s.rows, y.c.keyToPos[key])
  }

  /** The flat table as the client last saw it; nothing while it is blank. */
  ghost function SeenRows(c: U.Cli, h: seq<Op>): seq<Row> {
    if c.defragTs <= U.NextTimestamp(c) <= |h| then RowsOf(U.LogOf(h, c.defragTs, U.NextTimestamp(c))) else []
  }

  ghost predicate Valid(y: Sys, h: seq<Op>) {
    && U.ServerValid(y.s, h) && U.ClientOk(y.c, h, y.s.defragTs)
    && W.Ready(y.w, SeenRows(y.c, h))
  }

  // ----- One update -----

  lemma {:induction false} CountIsRows(ops: seq<Op>)
    ensures U.CountAdditions(U.Strip(ops)) == |RowsOf(ops)|
  {
    if |ops| > 0 {
      assert U.Strip(ops)[..|ops| - 1] == U.Strip(ops[..|ops| - 1]);
      CountIsRows(ops[..|ops| - 1]);
    }
  }

  /** What an update does when its list of keys arrives. */
  lemma Arrived(t: U.Transport, s: U.Srv, h: seq<Op>, c: U.Cli)
    requires U.ServerValid(s, h) && U.ClientOk(c, h, s.defragTs) && U.Answerable(t, s, c)
    requires U.Arrives(t, U.PendingKeys(s, c))
    ensures var head, sent := U.Heading(s, U.NextTimestamp(c)), U.SentOps(s, U.NextTimestamp(c));
            && U.Assembles(s, U.Wiped(c, head), sent)
            && U.Refreshed(t, s, c) == U.Merged(U.Wiped(c, head), s.defragTs, U.Strip(sent), head.shouldDelete)
  {
    U.AnswerAssembles(s, h, c);
    U.ProcessedIs(s, h, c, U.PendingKeys(s, c));
  }

  /** After a reset everything is new. */
  lemma NewRowsAfterReset(t: U.Transport, s: U.Srv, h: seq<Op>, c: U.Cli)
    requires U.ServerValid(s, h) && U.ClientOk(c, h, s.defragTs) && U.Answerable(t, s, c)
    requires U.Arrives(t, U.PendingKeys(s, c)) && U.Refreshed(t, s, c).reset
    ensures U.Refreshed(t, s, c).numNewRows == |s.rows|
  {
    Arrived(t, s, h, c);
    CountIsRows(s.ops);
    if U.NextTimestamp(c) < s.defragTs {
      U.LogReaches(s, h);
      U.StaleAnswer(s, c);
    } else {
      U.FreshAnswer(s, h, c);
    }
  }

  lemma TailRows(s: U.Srv, h: seq<Op>, t: nat)
    requires U.ServerValid(s, h) && s.defragTs <= t <= |h|
    ensures s.rows == RowsOf(U.LogOf(h, s.defragTs, t)) + RowsOf(h[t..])
  {
    assert s.ops == U.LogOf(h, s.defragTs, t) + h[t..] by {
      assert h[s.defragTs..t] + h[t..] == h[s.defragTs..|h|];
    }
    RowsOfAppend(U.LogOf(h, s.defragTs, t), h[t..]);
  }

  lemma AppendedCount(t: U.Transport, s: U.Srv, h: seq<Op>, c: U.Cli)
    requires U.ServerValid(s, h) && U.ClientOk(c, h, s.defragTs) && U.Answerable(t, s, c)
    requires U.Arrives(t, U.PendingKeys(s, c)) && !U.Refreshed(t, s, c).reset
    ensures c.defragTs == s.defragTs <= U.NextTimestamp(c) <= |h|
    ensures U.Refreshed(t, s, c).numNewRows == |RowsOf(h[U.NextTimestamp(c)..])|
  {
    Arrived(t, s, h, c);
    if U.NextTimestamp(c) < s.defragTs {
      U.LogReaches(s, h);
      U.StaleAnswer(s, c);
    } else {
      U.FreshAnswer(s, h, c);
      CountIsRows(h[U.NextTimestamp(c)..]);
    }
  }

  /** Otherwise the new rows are those behind the rows already seen. */
  lemma NewRowsBehind(t: U.Transport, s: U.Srv, h: seq<Op>, c: U.Cli)
    requires U.ServerValid(s, h) && U.ClientOk(c, h, s.defragTs) && U.Answerable(t, s, c)
    requires U.Arrives(t, U.PendingKeys(s, c)) && !U.Refreshed(t, s, c).reset
    ensures |s.rows| == |SeenRows(c, h)| + U.Refreshed(t, s, c).numNewRows
    ensures s.rows[..|SeenRows(c, h)|] == SeenRows(c, h)
  {
    AppendedCount(t, s, h, c);
    TailRows(s, h, U.NextTimestamp(c));
  }

  /** Taking in `numNewRows` rows, none included, makes the layers ready for the new table. */
  lemma LayersGrown(w: W.State, numNewRows: nat, reset: bool, seen: seq<Row>, table: seq<Row>)
    requires W.Ready(w, seen)
    requires reset ==> numNewRows == |table|
    requires !reset ==> |table| == |seen| + numNewRows && table[..|seen|] == seen
    ensures W.Ready(Taken(AfterReset(w, reset), numNewRows, table), table)
  {
    var t0 := if reset then [] else seen;
    if numNewRows > 0 {
      W.GrownReady(AfterReset(w, reset), numNewRows, t0, table);
    } else {
      assert table == t0;
    }
  }

  lemma UpdateLayers(t: U.Transport, y: Sys, h: seq<Op>)
    requires U.Bounded(t) && Valid(y, h) && U.Answerable(t, y.s, y.c) && U.Arrives(t, U.PendingKeys(y.s, y.c))
    ensures W.Ready(UpdateStep(t, y).w, y.s.rows)
  {
    var p := U.Refreshed(t, y.s, y.c);
    if p.reset {
      NewRowsAfterReset(t, y.s, h, y.c);
    } else {
      NewRowsBehind(t, y.s, h, y.c);
    }
    LayersGrown(y.w, p.numNewRows, p.reset, SeenRows(y.c, h), y.s.rows);
  }

  lemma SeenAll(s: U.Srv, h: seq<Op>, c: U.Cli)
    requires U.ServerValid(s, h) && U.Synced(c, s)
    ensures c.defragTs <= U.NextTimestamp(c) == |h| && SeenRows(c, h) == s.rows
  {
  }

  /** An update whose list arrives leaves a client in step with the server, index and
      layers. */
  lemma ArrivedSyncs(t: U.Transport, y: Sys, h: seq<Op>)
    requires U.Bounded(t) && Valid(y, h) && U.Answerable(t, y.s, y.c) && U.Arrives(t, U.PendingKeys(y.s, y.c))
    ensures Valid(UpdateStep(t, y), h) && U.Synced(UpdateStep(t, y).c, y.s)
    ensures W.Ready(UpdateStep(t, y).w, y.s.rows)
  {
    U.UpdateSyncs(t, y.s, h, y.c);
    U.UpdateKeeps(t, y.s, h, y.c);
    SeenAll(y.s, h, UpdateStep(t, y).c);
    UpdateLayers(t, y, h);
  }

  lemma SeenNothing(s: U.Srv, h: seq<Op>, c: U.Cli)
    requires U.ServerValid(s, h) && c == U.Cli(s.initTs, s.defragTs, 0, [], map[])
    ensures SeenRows(c, h) == []
  {
    if s.initTs == s.defragTs {
      assert |U.LogOf(h, s.defragTs, |h|)| == |Compact(h[..s.defragTs])| + |h| - s.defragTs;
      assert U.LogOf(h, s.defragTs, s.defragTs) == [];
    }
  }

  /** An update that ends in an error changes nothing, or drops index and layers alike. */
  lemma FailedKeeps(t: U.Transport, y: Sys, h: seq<Op>)
    requires Valid(y, h) && U.Answerable(t, y.s, y.c)
    requires U.Arrival(t, y.s, U.NextTimestamp(y.c)) == None
    ensures W.Ready(UpdateStep(t, y).w, SeenRows(UpdateStep(t, y).c, h))
  {
    U.FailedUpdate(t, y.s, h, y.c);
    if U.NextTimestamp(y.c) < y.s.defragTs {
      SeenNothing(y.s, h, UpdateStep(t, y).c);
    }
  }

  lemma UpdateKeeps(t: U.Transport, y: Sys, h: seq<Op>)
    requires U.Bounded(t) && Valid(y, h) && U.Honest(t, y.s, y.c)
    ensures U.Answerable(t, y.s, y.c) && Valid(UpdateStep(t, y), h)
  {
    U.AnswerFits(t, y.s, h, y.c);
    if U.Arrives(t, U.PendingKeys(y.s, y.c)) {
      ArrivedSyncs(t, y, h);
    } else {
      U.UpdateKeeps(t, y.s, h, y.c);
      FailedKeeps(t, y, h);
    }
  }

  // ----- Runs -----

  lemma SeenKept(c: U.Cli, h: seq<Op>, batch: seq<Op>, defragTs: nat)
    requires U.ClientOk(c, h, defragTs)
    ensures SeenRows(c, h + batch) == SeenRows(c, h)
  {
    if c.defragTs <= U.NextTimestamp(c) {
      assert (h + batch)[..c.defragTs] == h[..c.defragTs];
      assert (h + batch)[c.defragTs..U.NextTimestamp(c)] == h[c.defragTs..U.NextTimestamp(c)];
    }
  }

  /** Whatever the server logs, the client's side stays as it is. */
  lemma LoggedKeeps(t: U.Transport, y: Sys, h: seq<Op>, ev: U.Event)
    requires U.Bounded(t) && Valid(y, h) && !ev.Update?
    ensures Valid(Step(t, y, ev), h + U.LoggedBy(ev))
  {
    SeenKept(y.c, h, U.LoggedBy(ev), y.s.defragTs);
    U.ServerStepValid(t, y.s, y.c, h, ev);
    U.ClientStepOk(t, U.Sys(y.s, y.c), h, ev);
    var y' := Step(t, y, ev);
    assert y'.c == y.c && y'.w == y.w && y'.s == U.Step(t, U.Sys(y.s, y.c), ev).s;
  }

  lemma StepKeeps(t: U.Transport, y: Sys, h: seq<Op>, ev: U.Event)
    requires U.Bounded(t) && Valid(y, h) && (ev.Update? ==> U.Honest(t, y.s, y.c))
    ensures Valid(Step(t, y, ev), h + U.LoggedBy(ev))
  {
    if ev.Update? {
      assert h + [] == h;
      UpdateKeeps(t, y, h);
    } else {
      LoggedKeeps(t, y, h, ev);
    }
  }

  /** Index and server do not depend on the layers. */
  lemma {:induction false} SameRun(t: U.Transport, pirType: W.PirType, smallest: nat, evs: seq<U.Event>)
    ensures var y, u := Run(t, Start(pirType, smallest), evs), U.Run(t, U.START, evs); y.s == u.s && y.c == u.c
  {
    if |evs| > 0 {
      SameRun(t, pirType, smallest, evs[..|evs| - 1]);
    }
  }

  lemma {:induction false} RunValid(t: U.Transport, pirType: W.PirType, smallest: nat, evs: seq<U.Event>)
    requires U.Bounded(t) && pirType != W.SinglePass && U.HonestRun(t, evs)
    ensures Valid(Run(t, Start(pirType, smallest), evs), U.History(evs))
  {
    if |evs| > 0 {
      RunValid(t, pirType, smallest, evs[..|evs| - 1]);
      SameRun(t, pirType, smallest, evs[..|evs| - 1]);
      StepKeeps(t, Run(t, Start(pirType, smallest), evs[..|evs| - 1]), U.History(evs[..|evs| - 1]), evs[|evs| - 1]);
    }
  }

  /** A read by a client in step with the server. */
  lemma ReadSynced(y: Sys, h: seq<Op>, key: Key)
    requires U.Synced(y.c, y.s) && y.s.kv == Replay(h) && W.Ready(y.w, y.s.rows)
    ensures Read(y, key) == if key in Replay(h) then Some(Replay(h)[key]) else None
  {
    if key in y.c.keyToPos {
      W.ReadRight(y.w, y.s.rows, y.c.keyToPos[key]);
    }
  }

  /** The main theorem: after any interleaving of additions, deletions, compactions and
      updates in which no list of keys arrives changed, one more update whose list arrives
      makes every read return what the whole history says. */
  lemma ReadsAreCurrent(t: U.Transport, pirType: W.PirType, smallest: nat, evs: seq<U.Event>, key: Key)
    requires U.Bounded(t) && pirType != W.SinglePass && U.HonestRun(t, evs)
    ensures var y0 := Run(t, Start(pirType, smallest), evs);
            var y, kv := Step(t, y0, U.Update), Replay(U.History(evs));
            && U.Answerable(t, y0.s, y0.c)
            && (U.Arrives(t, U.PendingKeys(y0.s, y0.c)) ==>
                  Read(y, key) == if key in kv then Some(kv[key]) else None)
  {
    var y0, h := Run(t, Start(pirType, smallest), evs), U.History(evs);
    RunValid(t, pirType, smallest, evs);
    U.AnswerFits(t, y0.s, h, y0.c);
    if U.Arrives(t, U.PendingKeys(y0.s, y0.c)) {
      ArrivedSyncs(t, y0, h);
      ReadSynced(UpdateStep(t, y0), h, key);
    }
  }
}
