/** The layers of the updatable client: each row of the table belongs to one layer,
    small layers absorb new rows, and a full layer spills into the next larger one. */
module Waterfall {
  import opened Options
  import opened Rows

  datatype PirType = Punc | SinglePass | DPF | NonPrivate | Matrix

  /** An abstract, correct PIR client. One that holds a hint reads from the rows it was
      hinted on; one without a hint reads from any table of the right size. */
  datatype PirClient = Hinted(rows: seq<Row>) | Stateless(nRows: nat)

  predicate ReadsFrom(p: PirClient, slice: seq<Row>) {
    match p
    case Hinted(rows) => rows == slice
    case Stateless(nRows) => |slice| == nRows
  }

  datatype Layer = Layer(maxSize: nat, firstRow: nat, numRows: nat, pirType: Option<PirType>, pir: Option<PirClient>)

  datatype State = State(pirType: PirType, smallest: nat, numRows: nat, layers: seq<Layer>)

  predicate NeedsHint(t: PirType) {
    t == Punc || t == SinglePass
  }

  function EmptyLayer(maxSize: nat): Layer {
    Layer(maxSize, 0, 0, None, None)
  }

  function Halvings(size: nat, smallest: nat): (r: seq<nat>)
    ensures |r| > 0 && r[0] == size
  {
    if size > smallest then [size] + Halvings(size / 2, smallest) else [size]
  }

  /** Capacities halve until they are no larger than the smallest layer. */
  lemma {:induction false} HalvingsShape(size: nat, smallest: nat)
    ensures var r := Halvings(size, smallest);
            && r[|r| - 1] <= smallest
            && forall i | 0 <= i < |r| - 1 :: r[i] > smallest && r[i + 1] == r[i] / 2
  {
    if size > smallest {
      HalvingsShape(size / 2, smallest);
    }
  }

  function LayersMaxSize(w: State, nRows: nat): (r: seq<nat>)
    ensures |r| > 0 && r[0] == nRows
  {
    if NeedsHint(w.pirType) then Halvings(nRows, w.smallest) else [nRows]
  }

  function FreshLayers(w: State, nRows: nat): (r: seq<Layer>)
    ensures |r| > 0 && r[0].maxSize == nRows
  {
    var sizes := LayersMaxSize(w, nRows);
    seq(|sizes|, i requires 0 <= i < |sizes| => EmptyLayer(sizes[i]))
  }

  // ----- updateLayers -----

  /** The scan from the smallest layer up: the layer that can hold everything below it
      and the new rows, how many rows that is, and the layers with those below emptied. */
  function Scan(layers: seq<Layer>, k: nat, n: nat): (r: (int, nat, seq<Layer>))
    requires k <= |layers|
    ensures -1 <= r.0 < k && |r.2| == |layers|
    decreases k
  {
    if k == 0 then (-1, n, layers)
    else
      var n1 := n + layers[k - 1].numRows;
      if n1 <= layers[k - 1].maxSize then (k - 1, n1, layers)
      else Scan(layers[k - 1 := EmptyLayer(layers[k - 1].maxSize)], k - 1, n1)
  }

  /** updateLayers: the new layers and the layer to rebuild. */
  function Updated(w: State, numNewRows: nat): (r: (seq<Layer>, nat))
    ensures r.1 < |r.0|
  {
    var scan := Scan(w.layers, |w.layers|, numNewRows);
    var n := scan.1;
    var layers := if scan.0 <= 0 then FreshLayers(w, n) else scan.2;
    var i := if scan.0 <= 0 then 0 else scan.0;
    var pirType := if i == |layers| - 1 && NeedsHint(w.pirType) then DPF else w.pirType;
    (layers[i := Layer(layers[i].maxSize, SubNat(w.numRows, n), n, Some(pirType), None)], i)
  }

  function SubNat(a: nat, b: nat): nat {
    if a < b then 0 else a - b
  }

  /** HintUpdateReq: the new state, the rebuilt layer, and whether a hint must be fetched
      for it; a layer without hint gets its client at once. */
  function HintUpdateReq(w: State, numNewRows: nat): (State, nat, bool) {
    var w1 := w.(numRows := w.numRows + numNewRows);
    var (layers, i) := Updated(w1, numNewRows);
    var w2 := w1.(layers := layers);
    var layer := layers[i];
    if layer.numRows == 0 then (w2, i, false)
    else if layer.pirType.Some? && NeedsHint(layer.pirType.value) then (w2, i, true)
    else (w2.(layers := layers[i := layer.(pir := Some(Stateless(layer.numRows)))]), i, false)
  }

  /** The last layer with rows among the first `k`; `k` when there is none. */
  function LastActive(layers: seq<Layer>, k: nat): (r: nat)
    requires k <= |layers|
    ensures r <= k
    decreases k
  {
    if k == 0 then 0
    else if layers[k - 1].numRows != 0 then k
    else LastActive(layers, k - 1)
  }

  /** InitHint: attach the client of a hint on `rows`. Nothing happens without active layers. */
  function InitHint(w: State, rows: seq<Row>): State {
    var l := LastActive(w.layers, |w.layers|);
    if l == 0 then w
    else w.(layers := w.layers[l - 1 := w.layers[l - 1].(pir := Some(Hinted(rows)))])
  }

  // ----- Tiling -----

  function Total(layers: seq<Layer>, k: nat): nat
    requires k <= |layers|
  {
    if k == 0 then 0 else Total(layers, k - 1) + layers[k - 1].numRows
  }

  /** The layers cover the rows in order, none beyond its capacity. */
  ghost predicate Tiled(w: State) {
    && Total(w.layers, |w.layers|) == w.numRows
    && forall l | 0 <= l < |w.layers| :: TiledLayer(w.layers, l)
  }

  ghost predicate TiledLayer(layers: seq<Layer>, l: nat)
    requires l < |layers|
  {
    && layers[l].numRows <= layers[l].maxSize
    && (layers[l].numRows != 0 ==> layers[l].firstRow == Total(layers, l))
    && (layers[l].numRows == 0 ==> layers[l].pir == None)
  }

  lemma {:induction false} TotalMonotone(layers: seq<Layer>, k: nat, n: nat)
    requires k <= n <= |layers|
    ensures Total(layers, k) <= Total(layers, n)
  {
    if k < n {
      TotalMonotone(layers, k, n - 1);
    }
  }

  lemma {:induction false} TotalSame(a: seq<Layer>, b: seq<Layer>, k: nat)
    requires k <= |a| && k <= |b| && forall l | 0 <= l < k :: a[l].numRows == b[l].numRows
    ensures Total(a, k) == Total(b, k)
  {
    if k > 0 {
      TotalSame(a, b, k - 1);
    }
  }

  lemma {:induction false} TotalEmptyTail(layers: seq<Layer>, k: nat, n: nat)
    requires k <= n <= |layers| && forall l | k <= l < n :: layers[l].numRows == 0
    ensures Total(layers, n) == Total(layers, k)
  {
    if k < n {
      TotalEmptyTail(layers, k, n - 1);
    }
  }

  lemma ScanStep(layers: seq<Layer>, k: nat, n: nat)
    requires 0 < k <= |layers|
    ensures var n1, emptied := n + layers[k - 1].numRows, layers[k - 1 := EmptyLayer(layers[k - 1].maxSize)];
            Scan(layers, k, n) == if n1 <= layers[k - 1].maxSize then (k - 1, n1, layers) else Scan(emptied, k - 1, n1)
  {
  }

  /** Layer `l` with all below it and the new rows holds more than it may. */
  ghost predicate TooFull(layers: seq<Layer>, k: nat, n: nat, l: nat)
    requires l < k <= |layers|
  {
    n + Total(layers, k) - Total(layers, l) > layers[l].maxSize
  }

  /** The scan stops at the lowest layer that could hold the rows: those below are too full. */
  lemma {:induction false} ScanStopsFirst(layers: seq<Layer>, k: nat, n: nat, l: nat)
    requires k <= |layers| && Scan(layers, k, n).0 < l < k
    ensures TooFull(layers, k, n, l)
    decreases k
  {
    ScanStep(layers, k, n);
    var n1, emptied := n + layers[k - 1].numRows, layers[k - 1 := EmptyLayer(layers[k - 1].maxSize)];
    if l < k - 1 {
      ScanStopsFirst(emptied, k - 1, n1, l);
      TotalSame(layers, emptied, k - 1);
      TotalSame(layers, emptied, l);
    }
  }

  /** What the scan finds. */
  lemma {:induction false} ScanResult(layers: seq<Layer>, k: nat, n: nat)
    requires k <= |layers|
    ensures var (i, n', layers') := Scan(layers, k, n);
            && n' == n + Total(layers, k) - Total(layers, if i < 0 then 0 else i)
            && (i >= 0 ==> n' <= layers[i].maxSize)
            && (forall l | i < l < k :: layers'[l] == EmptyLayer(layers[l].maxSize))
            && (forall l | 0 <= l < |layers| && (l <= i || l >= k) :: layers'[l] == layers[l])
    decreases k
  {
    if k > 0 {
      var n1 := n + layers[k - 1].numRows;
      if n1 > layers[k - 1].maxSize {
        var emptied := layers[k - 1 := EmptyLayer(layers[k - 1].maxSize)];
        ScanResult(emptied, k - 1, n1);
        TotalSame(layers, emptied, k - 1);
        var i := Scan(layers, k, n).0;
        TotalSame(layers, emptied, if i < 0 then 0 else i);
      }
    }
  }

  /** One layer takes over the rows of itself and of everything below it. */
  lemma RebuiltTiles(w: State, layers: seq<Layer>, i: nat, layer: Layer)
    requires i < |layers| && forall l | 0 <= l < i :: TiledLayer(layers, l)
    requires forall l | i < l < |layers| :: layers[l].numRows == 0 && layers[l].pir == None
    requires layer.numRows == w.numRows - Total(layers, i) && layer.firstRow == Total(layers, i)
    requires layer.numRows <= layer.maxSize && (layer.numRows == 0 ==> layer.pir == None)
    ensures Tiled(w.(layers := layers[i := layer]))
  {
    var after := layers[i := layer];
    forall l | 0 <= l < |after|
      ensures TiledLayer(after, l)
    {
      if l <= i {
        TotalSame(layers, after, l);
        assert l < i ==> TiledLayer(layers, l);
      } else {
        assert after[l].numRows == 0 && after[l].pir == None;
      }
    }
    TotalSame(layers, after, i);
    TotalEmptyTail(after, i + 1, |after|);
  }

  /** The rebuilt layers still tile the table, and all layers below the rebuilt one are empty. */
  lemma UpdatedTiles(w: State, numNewRows: nat)
    requires Tiled(w.(numRows := SubNat(w.numRows, numNewRows))) && numNewRows <= w.numRows
    ensures var (layers, i) := Updated(w, numNewRows);
            && Tiled(w.(layers := layers))
            && (forall l | i < l < |layers| :: layers[l].numRows == 0)
            && (forall l | 0 <= l < i :: l < |w.layers| && layers[l] == w.layers[l])
            && layers[i].numRows >= numNewRows && layers[i].pir == None && layers[i].pirType.Some?
            && layers[i].firstRow + layers[i].numRows == w.numRows
  {
    var (i, n, scanned) := Scan(w.layers, |w.layers|, numNewRows);
    ScanResult(w.layers, |w.layers|, numNewRows);
    var (layers', j) := Updated(w, numNewRows);
    TotalMonotone(w.layers, if i < 0 then 0 else i, |w.layers|);
    if i <= 0 {
      var blank := FreshLayers(w, n);
      RebuiltTiles(w, blank, 0, layers'[0]);
    } else {
      TotalSame(w.layers, scanned, i);
      forall l | 0 <= l < i
        ensures TiledLayer(scanned, l)
      {
        assert TiledLayer(w.layers, l);
        TotalSame(w.layers, scanned, l);
      }
      RebuiltTiles(w, scanned, i, layers'[i]);
    }
  }

  // ----- Clients of the layers -----

  /** A layer with a client has one that reads from the layer's window of the table. */
  ghost predicate Attached(w: State, table: seq<Row>, l: nat)
    requires l < |w.layers|
  {
    var layer := w.layers[l];
    layer.pir.Some? ==>
      && layer.firstRow + layer.numRows <= |table|
      && ReadsFrom(layer.pir.value, table[layer.firstRow..layer.firstRow + layer.numRows])
  }

  /** The layers tile the server's table, and their clients are the right ones. */
  ghost predicate AllAttached(w: State, table: seq<Row>) {
    && Tiled(w) && w.numRows == |table|
    && forall l | 0 <= l < |w.layers| :: Attached(w, table, l)
  }

  predicate Served(layer: Layer) {
    layer.numRows == 0 || layer.pir.Some?
  }

  /** None of the first `k` layers still waits for its hint. */
  predicate AllServed(layers: seq<Layer>, k: nat)
    requires k <= |layers|
  {
    forall l | 0 <= l < k :: Served(layers[l])
  }

  /** The layers tile the server's table and each reads from its own window of it. The
      client of the SinglePass scheme has no dummy queries, so it cannot serve a layer. */
  ghost predicate Ready(w: State, table: seq<Row>) {
    AllAttached(w, table) && AllServed(w.layers, |w.layers|) && w.pirType != SinglePass
  }

  /** The hint that the server computes on the window of a layer. */
  function Window(table: seq<Row>, layer: Layer): seq<Row> {
    if layer.firstRow + layer.numRows <= |table| then table[layer.firstRow..layer.firstRow + layer.numRows] else []
  }

  /** The client takes in `numNewRows` rows: request, hint, InitHint. */
  function Grown(w: State, numNewRows: nat, table: seq<Row>): State {
    var (w1, i, wantsHint) := HintUpdateReq(w, numNewRows);
    if wantsHint then InitHint(w1, Window(table, w1.layers[i])) else w1
  }

  lemma {:induction false} LastActiveIs(layers: seq<Layer>, i: nat, k: nat)
    requires i < k <= |layers| && layers[i].numRows != 0 && forall l | i < l < k :: layers[l].numRows == 0
    ensures LastActive(layers, k) == i + 1
  {
    if k - 1 > i {
      LastActiveIs(layers, i, k - 1);
    }
  }

  lemma TiledWithPir(w: State, i: nat, p: Option<PirClient>)
    requires Tiled(w) && i < |w.layers| && w.layers[i].numRows != 0
    ensures Tiled(w.(layers := w.layers[i := w.layers[i].(pir := p)]))
  {
    var after := w.layers[i := w.layers[i].(pir := p)];
    TotalSame(w.layers, after, |after|);
    forall l | 0 <= l < |after|
      ensures TiledLayer(after, l)
    {
      assert TiledLayer(w.layers, l);
      TotalSame(w.layers, after, l);
    }
  }

  /** The state after taking in rows: the rebuilt layer got a client of its own window. */
  lemma GrownShape(w: State, numNewRows: nat, table: seq<Row>)
    requires Tiled(w) && numNewRows > 0
    ensures var w1 := w.(numRows := w.numRows + numNewRows);
            var (layers, i) := Updated(w1, numNewRows);
            Grown(w, numNewRows, table)
            == w1.(layers := layers[i := layers[i].(pir := Some(if NeedsHint(layers[i].pirType.value)
                                                               then Hinted(Window(table, layers[i]))
                                                               else Stateless(layers[i].numRows)))])
  {
    var w1 := w.(numRows := w.numRows + numNewRows);
    assert w1.(numRows := SubNat(w1.numRows, numNewRows)) == w;
    var (layers, i) := Updated(w1, numNewRows);
    UpdatedTiles(w1, numNewRows);
    LastActiveIs(layers, i, |layers|);
  }

  lemma KeptWindow(t0: seq<Row>, table: seq<Row>, lo: nat, n: nat)
    requires lo + n <= |t0| <= |table| && table[..|t0|] == t0
    ensures t0[lo..lo + n] == table[lo..lo + n]
  {
  }

  /** The hint goes to exactly the layer that was rebuilt, and then every layer with a
      client reads from its window of the grown table. */
  lemma GrownAttached(w: State, numNewRows: nat, t0: seq<Row>, table: seq<Row>)
    requires AllAttached(w, t0) && numNewRows > 0 && |table| == |t0| + numNewRows && table[..|t0|] == t0
    ensures AllAttached(Grown(w, numNewRows, table), table)
    ensures Grown(w, numNewRows, table).numRows == w.numRows + numNewRows
  {
    var w1 := w.(numRows := w.numRows + numNewRows);
    assert w1.(numRows := SubNat(w1.numRows, numNewRows)) == w;
    var (layers, i) := Updated(w1, numNewRows);
    UpdatedTiles(w1, numNewRows);
    GrownShape(w, numNewRows, table);
    var w3 := Grown(w, numNewRows, table);
    TiledWithPir(w1.(layers := layers), i, w3.layers[i].pir);
    forall l | 0 <= l < |w3.layers|
      ensures Attached(w3, table, l)
    {
      if l < i {
        AttachedKept(w, w3, t0, table, l);
      } else if l > i {
        assert TiledLayer(w3.layers, l);
      }
    }
  }

  lemma AttachedKept(w: State, w': State, t0: seq<Row>, table: seq<Row>, l: nat)
    requires l < |w.layers| && l < |w'.layers| && w'.layers[l] == w.layers[l]
    requires Attached(w, t0, l) && |t0| <= |table| && table[..|t0|] == t0
    ensures Attached(w', table, l)
  {
    if w.layers[l].pir.Some? {
      KeptWindow(t0, table, w.layers[l].firstRow, w.layers[l].numRows);
    }
  }

  /** Afterwards a layer lacks its client exactly if it lacked it before and lies above
      the rebuilt one: a hint that was missed is made up for once its layer is rebuilt. */
  lemma GrownServed(w: State, numNewRows: nat, table: seq<Row>)
    requires Tiled(w) && numNewRows > 0
    ensures var w', i := Grown(w, numNewRows, table), HintUpdateReq(w, numNewRows).1;
            && i < |w'.layers|
            && (AllServed(w'.layers, |w'.layers|) <==> AllServed(w'.layers, i))
            && forall l | 0 <= l < i :: l < |w.layers| && w'.layers[l] == w.layers[l]
  {
    var w1 := w.(numRows := w.numRows + numNewRows);
    assert w1.(numRows := SubNat(w1.numRows, numNewRows)) == w;
    UpdatedTiles(w1, numNewRows);
    GrownShape(w, numNewRows, table);
  }

  /** If every hint is fetched, every layer has its client. */
  lemma GrownReady(w: State, numNewRows: nat, t0: seq<Row>, table: seq<Row>)
    requires Ready(w, t0) && numNewRows > 0 && |table| == |t0| + numNewRows && table[..|t0|] == t0
    ensures Ready(Grown(w, numNewRows, table), table)
  {
    GrownAttached(w, numNewRows, t0, table);
    GrownServed(w, numNewRows, table);
    GrownShape(w, numNewRows, table);
  }

  // ----- Runs -----

  datatype Event = Request(numNewRows: nat) | Hint(rows: seq<Row>) | Reset

  function Step(w: State, ev: Event): State {
    match ev
    case Request(n) => HintUpdateReq(w, n).0
    case Hint(rows) => InitHint(w, rows)
    case Reset => w.(numRows := 0, layers := [])
  }

  function Run(w: State, evs: seq<Event>): State {
    if |evs| == 0 then w else Step(Run(w, evs[..|evs| - 1]), evs[|evs| - 1])
  }

  lemma {:induction false} LastActiveActive(layers: seq<Layer>, k: nat)
    requires k <= |layers|
    ensures var r := LastActive(layers, k); r > 0 ==> layers[r - 1].numRows != 0
  {
    if k > 0 && layers[k - 1].numRows == 0 {
      LastActiveActive(layers, k - 1);
    }
  }

  lemma StepTiles(w: State, ev: Event)
    requires Tiled(w)
    ensures Tiled(Step(w, ev))
  {
    match ev
    case Request(n) =>
      var w1 := w.(numRows := w.numRows + n);
      assert w1.(numRows := SubNat(w1.numRows, n)) == w;
      UpdatedTiles(w1, n);
      var (layers, i) := Updated(w1, n);
      if layers[i].numRows != 0 {
        TiledWithPir(w1.(layers := layers), i, Some(Stateless(layers[i].numRows)));
      }
    case Hint(rows) =>
      LastActiveActive(w.layers, |w.layers|);
      var l := LastActive(w.layers, |w.layers|);
      if l > 0 {
        TiledWithPir(w, l - 1, Some(Hinted(rows)));
      }
    case Reset =>
  }

  /** After any sequence of requests, hints and resets the layers tile the rows. */
  lemma {:induction false} RunTiles(pirType: PirType, smallest: nat, evs: seq<Event>)
    ensures Tiled(Run(State(pirType, smallest, 0, []), evs))
  {
    if |evs| > 0 {
      RunTiles(pirType, smallest, evs[..|evs| - 1]);
      StepTiles(Run(State(pirType, smallest, 0, []), evs[..|evs| - 1]), evs[|evs| - 1]);
    }
  }

  // ----- Schemes of the layers -----

  /** A layer with rows has the client's own scheme, but the smallest layer of a scheme with
      hints has DPF; and only a layer whose scheme needs hints is ever without a client. */
  ghost predicate TypedLayer(w: State, l: nat)
    requires l < |w.layers|
  {
    var layer := w.layers[l];
    layer.numRows != 0 ==>
      && layer.pirType == Some(if l == |w.layers| - 1 && NeedsHint(w.pirType) then DPF else w.pirType)
      && (layer.pir.None? ==> NeedsHint(w.pirType) && l < |w.layers| - 1)
  }

  ghost predicate Typed(w: State) {
    forall l | 0 <= l < |w.layers| :: TypedLayer(w, l)
  }

  /** The layers around the rebuilt one: those above it are as before, at the same place
      from the smallest, and those below it are empty. */
  lemma UpdatedOthers(w: State, numNewRows: nat)
    ensures var (layers, i) := Updated(w, numNewRows);
            && (forall l | i < l < |layers| :: layers[l].numRows == 0)
            && (i > 0 ==> |layers| == |w.layers| && forall l | 0 <= l < i :: layers[l] == w.layers[l])
  {
    ScanResult(w.layers, |w.layers|, numNewRows);
  }

  lemma RequestTyped(w: State, n: nat)
    requires Typed(w)
    ensures Typed(HintUpdateReq(w, n).0)
  {
    var w1 := w.(numRows := w.numRows + n);
    var (layers, i) := Updated(w1, n);
    var w' := HintUpdateReq(w, n).0;
    UpdatedOthers(w1, n);
    forall l | 0 <= l < |w'.layers|
      ensures TypedLayer(w', l)
    {
      if l < i {
        assert w'.layers[l] == w.layers[l] && TypedLayer(w, l);
      }
    }
  }

  lemma HintTyped(w: State, rows: seq<Row>)
    requires Typed(w)
    ensures Typed(InitHint(w, rows))
  {
    var w' := InitHint(w, rows);
    forall l | 0 <= l < |w'.layers|
      ensures TypedLayer(w', l)
    {
      assert TypedLayer(w, l);
    }
  }

  /** After any sequence of requests, hints and resets the layers have these schemes. */
  lemma {:induction false} RunTyped(pirType: PirType, smallest: nat, evs: seq<Event>)
    ensures Typed(Run(State(pirType, smallest, 0, []), evs))
  {
    if |evs| > 0 {
      var w := Run(State(pirType, smallest, 0, []), evs[..|evs| - 1]);
      RunTyped(pirType, smallest, evs[..|evs| - 1]);
      match evs[|evs| - 1]
      case Request(n) => RequestTyped(w, n);
      case Hint(rows) => HintTyped(w, rows);
      case Reset =>
    }
  }

  // ----- Query -----

  /** The request that is built layer by layer: where each queried layer starts, what it
      is asked for (None is a dummy query), and which one is asked for the real row. */
  datatype Routed = Routed(firstRows: seq<nat>, clients: seq<PirClient>, locals: seq<Option<nat>>,
                           layerEnd: nat, matching: Option<nat>)

  function QueryScan(layers: seq<Layer>, pos: nat, k: nat): (r: Routed)
    requires k <= |layers|
    ensures |r.firstRows| == |r.clients| == |r.locals|
    ensures r.matching.Some? ==> r.matching.value < |r.locals| && r.locals[r.matching.value].Some?
  {
    if k == 0 then Routed([], [], [], 0, None)
    else
      var r := QueryScan(layers, pos, k - 1);
      var layer := layers[k - 1];
      if layer.pir.None? then r else Asked(r, pos, layer.firstRow, layer.numRows, layer.pir.value)
  }

  /** Where the window of queried layer `a` ends: at the next one, or at the end. */
  function EndOf(r: Routed, a: nat): nat
    requires a < |r.firstRows|
  {
    if a + 1 < |r.firstRows| then r.firstRows[a + 1] else r.layerEnd
  }

  ghost predicate EntryRight(r: Routed, table: seq<Row>, pos: nat, a: nat)
    requires a < |r.firstRows| == |r.clients| == |r.locals|
  {
    var lo, hi := r.firstRows[a], EndOf(r, a);
    && lo <= hi <= |table|
    && ReadsFrom(r.clients[a], table[lo..hi])
    && r.locals[a] == if lo <= pos < hi then Some(pos - lo) else None
  }

  /** Every queried layer is asked on its own window of the table, and the real query is
      the one whose window holds `pos`, at `pos` less the start of the window. */
  ghost predicate RoutedRight(r: Routed, table: seq<Row>, pos: nat) {
    && |r.firstRows| == |r.clients| == |r.locals|
    && (forall a | 0 <= a < |r.firstRows| :: EntryRight(r, table, pos, a))
    && (r.matching.Some? <==> pos < r.layerEnd)
    && (r.matching.Some? ==>
          r.matching.value < |r.firstRows| && r.firstRows[r.matching.value] <= pos < EndOf(r, r.matching.value))
  }

  function Asked(r: Routed, pos: nat, firstRow: nat, numRows: nat, client: PirClient): Routed {
    var hit := r.layerEnd <= pos < r.layerEnd + numRows;
    Routed(r.firstRows + [firstRow], r.clients + [client],
           r.locals + [if hit then Some(pos - r.layerEnd) else None], r.layerEnd + numRows,
           if hit then Some(|r.locals|) else r.matching)
  }

  /** Asking one more layer, right behind the ones already asked. */
  lemma AskedRight(r: Routed, table: seq<Row>, pos: nat, numRows: nat, client: PirClient)
    requires RoutedRight(r, table, pos) && r.layerEnd + numRows <= |table|
    requires ReadsFrom(client, table[r.layerEnd..r.layerEnd + numRows])
    ensures RoutedRight(Asked(r, pos, r.layerEnd, numRows, client), table, pos)
  {
    var r' := Asked(r, pos, r.layerEnd, numRows, client);
    forall a | 0 <= a < |r'.firstRows|
      ensures EntryRight(r', table, pos, a)
    {
      if a < |r.firstRows| {
        assert EntryRight(r, table, pos, a);
        assert EndOf(r', a) == EndOf(r, a);
      }
    }
  }

  // ----- Where a position is asked -----

  /** The rows of the layers that have a client, among the first `k`. */
  function Counted(layers: seq<Layer>, k: nat): nat
    requires k <= |layers|
  {
    if k == 0 then 0 else Counted(layers, k - 1) + if layers[k - 1].pir.Some? then layers[k - 1].numRows else 0
  }

  lemma {:induction false} CountedExactly(layers: seq<Layer>, k: nat)
    requires k <= |layers|
    ensures Counted(layers, k) <= Total(layers, k)
    ensures Counted(layers, k) == Total(layers, k) <==> AllServed(layers, k)
  {
    if k > 0 {
      CountedExactly(layers, k - 1);
    }
  }

  lemma {:induction false} CountedMonotone(layers: seq<Layer>, k: nat, n: nat)
    requires k <= n <= |layers|
    ensures Counted(layers, k) <= Counted(layers, n)
  {
    if k < n {
      CountedMonotone(layers, k, n - 1);
    }
  }

  /** The real query is the one for layer `l`, at position `local`. */
  predicate AsksLayer(r: Routed, layer: Layer, local: nat) {
    && r.matching.Some? && r.matching.value < |r.firstRows| == |r.locals| == |r.clients|
    && r.firstRows[r.matching.value] == layer.firstRow
    && layer.pir == Some(r.clients[r.matching.value])
    && r.locals[r.matching.value] == Some(local)
  }

  /** The layer that a scan asks: the one whose rows, counted over the layers with clients,
      include `pos`. */
  lemma {:induction false} ScanAsks(layers: seq<Layer>, pos: nat, k: nat) returns (l: nat)
    requires k <= |layers|
    ensures QueryScan(layers, pos, k).layerEnd == Counted(layers, k)
    ensures QueryScan(layers, pos, k).matching.Some? <==> pos < Counted(layers, k)
    ensures pos < Counted(layers, k) ==>
      && l < k && layers[l].pir.Some? && Counted(layers, l) <= pos < Counted(layers, l) + layers[l].numRows
      && AsksLayer(QueryScan(layers, pos, k), layers[l], pos - Counted(layers, l))
  {
    l := 0;
    if k > 0 {
      l := ScanAsks(layers, pos, k - 1);
      if layers[k - 1].pir.Some? && Counted(layers, k - 1) <= pos {
        l := k - 1;
      }
    }
  }

  /** A query for `pos` asks the layer that holds `pos`, at its place in that layer. */
  ghost predicate RoutedTo(w: State, l: nat, pos: nat)
    requires l < |w.layers|
  {
    Holds(w.layers[l], pos) && AsksLayer(QueryScan(w.layers, pos, |w.layers|), w.layers[l], pos - w.layers[l].firstRow)
  }

  predicate Holds(layer: Layer, pos: nat) {
    layer.firstRow <= pos < layer.firstRow + layer.numRows
  }

  lemma SameHolder(w: State, a: nat, b: nat)
    requires Tiled(w) && a < |w.layers| && b < |w.layers|
    requires w.layers[a].numRows > 0 && w.layers[b].numRows > 0 && w.layers[a].firstRow == w.layers[b].firstRow
    ensures a == b
  {
    assert TiledLayer(w.layers, a) && TiledLayer(w.layers, b);
    if a < b {
      TotalMonotone(w.layers, a + 1, b);
    } else if b < a {
      TotalMonotone(w.layers, b + 1, a);
    }
  }

  lemma RoutedOnlyIf(w: State, l: nat, pos: nat)
    requires Tiled(w) && l < |w.layers| && RoutedTo(w, l, pos)
    ensures AllServed(w.layers, l + 1)
  {
    assert TiledLayer(w.layers, l);
    CountedMonotone(w.layers, 0, |w.layers|);
    var m := ScanAsks(w.layers, pos, |w.layers|);
    SameHolder(w, l, m);
    CountedExactly(w.layers, l);
    assert Served(w.layers[l]);
  }

  lemma RoutedIf(w: State, l: nat, pos: nat)
    requires Tiled(w) && l < |w.layers| && Holds(w.layers[l], pos) && AllServed(w.layers, l + 1)
    ensures RoutedTo(w, l, pos)
  {
    assert TiledLayer(w.layers, l);
    CountedExactly(w.layers, l);
    assert Served(w.layers[l]);
    CountedMonotone(w.layers, l + 1, |w.layers|);
    var m := ScanAsks(w.layers, pos, |w.layers|);
    CountedOnce(w.layers, l, m, pos);
  }

  /** The layers with clients count each position once. */
  lemma CountedOnce(layers: seq<Layer>, l: nat, m: nat, pos: nat)
    requires l < |layers| && m < |layers|
    requires Counted(layers, l) <= pos < Counted(layers, l + 1) && Counted(layers, m) <= pos < Counted(layers, m + 1)
    ensures l == m
  {
    if m < l {
      CountedMonotone(layers, m + 1, l);
    } else if m > l {
      CountedMonotone(layers, l + 1, m);
    }
  }

  /** A position reaches its own layer exactly when no layer up to and including that one
      lacks its client. */
  lemma RoutedExactly(w: State, l: nat, pos: nat)
    requires Tiled(w) && l < |w.layers| && Holds(w.layers[l], pos)
    ensures RoutedTo(w, l, pos) <==> AllServed(w.layers, l + 1)
  {
    if RoutedTo(w, l, pos) {
      RoutedOnlyIf(w, l, pos);
    } else if AllServed(w.layers, l + 1) {
      RoutedIf(w, l, pos);
    }
  }

  lemma {:induction false} Holder(w: State, pos: nat, k: nat) returns (l: nat)
    requires Tiled(w) && k <= |w.layers| && pos < Total(w.layers, k)
    ensures l < k && Holds(w.layers[l], pos)
  {
    if pos < Total(w.layers, k - 1) {
      l := Holder(w, pos, k - 1);
    } else {
      l := k - 1;
      assert TiledLayer(w.layers, l);
    }
  }

  ghost predicate IsRouted(w: State, pos: nat) {
    exists l: nat | l < |w.layers| :: RoutedTo(w, l, pos)
  }

  /** Every row is routed to the layer that holds it. */
  ghost predicate AllRouted(w: State) {
    forall pos: nat | pos < w.numRows :: IsRouted(w, pos)
  }

  /** In every tiled state, all rows are routed exactly when no layer with rows lacks its
      client. */
  lemma AllRoutedExactly(w: State)
    requires Tiled(w)
    ensures AllRouted(w) <==> AllServed(w.layers, |w.layers|)
  {
    CountedExactly(w.layers, |w.layers|);
    if AllServed(w.layers, |w.layers|) {
      forall pos: nat | pos < w.numRows
        ensures IsRouted(w, pos)
      {
        var l := Holder(w, pos, |w.layers|);
        RoutedExactly(w, l, pos);
      }
    } else {
      var pos := w.numRows - 1;
      var m := ScanAsks(w.layers, pos, |w.layers|);
      assert !IsRouted(w, pos);
    }
  }

  /** That is what holds after any sequence of requests, hints and resets. */
  lemma RunRoutes(pirType: PirType, smallest: nat, evs: seq<Event>)
    ensures var w := Run(State(pirType, smallest, 0, []), evs);
            AllRouted(w) <==> AllServed(w.layers, |w.layers|)
  {
    RunTiles(pirType, smallest, evs);
    AllRoutedExactly(Run(State(pirType, smallest, 0, []), evs));
  }

  const AFTER_FIRST := [Layer(8, 0, 8, Some(Punc), None), EmptyLayer(4), EmptyLayer(2)]
  const AFTER_SECOND := [Layer(8, 0, 8, Some(Punc), None), EmptyLayer(4), Layer(2, 8, 1, Some(DPF), Some(Stateless(1)))]

  /** Two requests, the hint for the first of which never came. */
  lemma MissedHint(evs: seq<Event>)
    requires evs == [Request(8), Request(1)]
    ensures var w := Run(State(Punc, 2, 0, []), evs);
            && Tiled(w) && w.numRows == 9
            && w.layers == AFTER_SECOND
            && QueryScan(w.layers, 5, 3).matching == None
            && AsksLayer(QueryScan(w.layers, 0, 3), w.layers[2], 0)
            && !AllRouted(w)
  {
    RunTiles(Punc, 2, evs);
    FirstRequest();
    SecondRequest();
    assert evs[..1] == [Request(8)] && evs[..1][..0] == [];
    assert Run(State(Punc, 2, 0, []), evs[..1]) == State(Punc, 2, 8, AFTER_FIRST);
    MissedHintRoutes(Run(State(Punc, 2, 0, []), evs));
  }

  lemma MissedHintRoutes(w: State)
    requires Tiled(w) && |w.layers| == 3 && w.layers[0].numRows > 0 && w.layers[0].pir == w.layers[1].pir == None
    requires w.layers[2].pir.Some? && w.layers[2].numRows == 1
    ensures QueryScan(w.layers, 5, 3).matching == None
    ensures AsksLayer(QueryScan(w.layers, 0, 3), w.layers[2], 0)
    ensures !AllRouted(w)
  {
    AllRoutedExactly(w);
    assert !Served(w.layers[0]);
    OnlyLastAsked(w.layers, 0);
    OnlyLastAsked(w.layers, 5);
  }

  lemma OnlyLastAsked(layers: seq<Layer>, pos: nat)
    requires |layers| == 3 && layers[0].pir == None && layers[1].pir == None && layers[2].pir.Some?
    ensures QueryScan(layers, pos, 3)
         == Asked(Routed([], [], [], 0, None), pos, layers[2].firstRow, layers[2].numRows, layers[2].pir.value)
  {
    assert QueryScan(layers, pos, 2) == QueryScan(layers, pos, 1) == QueryScan(layers, pos, 0);
  }

  lemma FirstRequest()
    ensures HintUpdateReq(State(Punc, 2, 0, []), 8) == (State(Punc, 2, 8, AFTER_FIRST), 0, true)
  {
    assert Halvings(2, 2) == [2] && Halvings(4, 2) == [4] + [2] && Halvings(8, 2) == [8] + ([4] + [2]);
    var w1 := State(Punc, 2, 8, []);
    assert Scan([], 0, 8) == (-1, 8, []);
    assert FreshLayers(w1, 8) == [EmptyLayer(8), EmptyLayer(4), EmptyLayer(2)];
    assert FreshLayers(w1, 8)[0 := Layer(8, 0, 8, Some(Punc), None)] == AFTER_FIRST;
  }

  lemma SecondRequest()
    ensures HintUpdateReq(State(Punc, 2, 8, AFTER_FIRST), 1) == (State(Punc, 2, 9, AFTER_SECOND), 2, false)
  {
    var w1 := State(Punc, 2, 9, AFTER_FIRST);
    assert Scan(AFTER_FIRST, 3, 1) == (2, 1, AFTER_FIRST);
    assert EmptyLayer(4).numRows == 0;
    assert AFTER_FIRST[2 := Layer(2, 8, 1, Some(DPF), None)][2 := Layer(2, 8, 1, Some(DPF), Some(Stateless(1)))]
        == AFTER_SECOND;
    assert Updated(w1, 1) == (AFTER_FIRST[2 := Layer(2, 8, 1, Some(DPF), None)], 2);
  }

  // ----- Reads -----

  lemma {:induction false} QueryScanRight(w: State, table: seq<Row>, pos: nat, k: nat)
    requires AllAttached(w, table) && k <= |w.layers| && AllServed(w.layers, k)
    ensures RoutedRight(QueryScan(w.layers, pos, k), table, pos)
    ensures QueryScan(w.layers, pos, k).layerEnd == Total(w.layers, k)
  {
    if k > 0 {
      QueryScanRight(w, table, pos, k - 1);
      var layer := w.layers[k - 1];
      assert TiledLayer(w.layers, k - 1) && Attached(w, table, k - 1);
      if layer.pir.Some? {
        TotalMonotone(w.layers, k, |w.layers|);
        AskedRight(QueryScan(w.layers, pos, k - 1), table, pos, layer.numRows, layer.pir.value);
      }
    }
  }

  /** A whole query: the server cuts its table at the given first rows and answers every
      layer on its own window; the client reads from the matching one. */
  function Read(w: State, table: seq<Row>, pos: nat): Option<Row> {
    var r := QueryScan(w.layers, pos, |w.layers|);
    if r.matching.None? then None
    else
      var m := r.matching.value;
      var lo, hi := r.firstRows[m], EndOf(r, m);
      if lo <= hi <= |table| && ReadsFrom(r.clients[m], table[lo..hi]) && r.locals[m].value < hi - lo then
        Some(table[lo..hi][r.locals[m].value])
      else None
  }

  /** Every row of the table is read through exactly one layer; nothing else is. */
  lemma ReadRight(w: State, table: seq<Row>, pos: nat)
    requires Ready(w, table)
    ensures Read(w, table, pos) == if pos < |table| then Some(table[pos]) else None
    ensures RoutedRight(QueryScan(w.layers, pos, |w.layers|), table, pos)
    ensures QueryScan(w.layers, pos, |w.layers|).layerEnd == |table|
  {
    QueryScanRight(w, table, pos, |w.layers|);
    var r := QueryScan(w.layers, pos, |w.layers|);
    if pos < |table| {
      assert EntryRight(r, table, pos, r.matching.value);
    }
  }

  /** With the right clients attached, every row can be read exactly when no layer with
      rows lacks its client. */
  lemma ReadsExactly(w: State, table: seq<Row>)
    requires AllAttached(w, table) && w.pirType != SinglePass
    ensures (forall pos: nat | pos < |table| :: Read(w, table, pos) == Some(table[pos])) <==> Ready(w, table)
  {
    if Ready(w, table) {
      forall pos: nat | pos < |table|
        ensures Read(w, table, pos) == Some(table[pos])
      {
        ReadRight(w, table, pos);
      }
    } else {
      CountedExactly(w.layers, |w.layers|);
      var m := ScanAsks(w.layers, |table| - 1, |w.layers|);
      assert Read(w, table, |table| - 1) == None;
    }
  }
}
