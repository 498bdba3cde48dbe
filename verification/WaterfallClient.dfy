/** The layered client object, proved against the state functions of Waterfall. */
module WaterfallClients {
  import opened Options
  import opened Rows
  import opened Waterfall

  class WaterfallClient {
    const pirType: PirType
    const smallestLayerSize: nat
    var numRows: nat
    var layers: seq<Layer>

    ghost function View(): State
      reads this
    {
      State(pirType, smallestLayerSize, numRows, layers)
    }

    constructor (pirType: PirType, smallestLayerSize: nat)
      ensures View() == State(pirType, smallestLayerSize, 0, [])
    {
      this.pirType, this.smallestLayerSize := pirType, smallestLayerSize;
      numRows, layers := 0, [];
    }

    method Reset()
      modifies this
      ensures View() == Step(old(View()), Event.Reset)
    {
      numRows, layers := 0, [];
    }

    /** Halves the capacity until it is no larger than the smallest layer. */
    method LayersMaxSizes(nRows: nat) returns (maxSize: seq<nat>)
      ensures maxSize == LayersMaxSize(View(), nRows)
    {
      maxSize := [nRows];
      if !NeedsHint(pirType) {
        return;
      }
      while maxSize[|maxSize| - 1] > smallestLayerSize
        invariant |maxSize| > 0
        invariant maxSize[..|maxSize| - 1] + Halvings(maxSize[|maxSize| - 1], smallestLayerSize) == Halvings(nRows, smallestLayerSize)
        decreases maxSize[|maxSize| - 1]
      {
        ghost var last := maxSize[|maxSize| - 1];
        assert maxSize + Halvings(last / 2, smallestLayerSize)
            == maxSize[..|maxSize| - 1] + ([last] + Halvings(last / 2, smallestLayerSize));
        maxSize := maxSize + [maxSize[|maxSize| - 1] / 2];
      }
      assert Halvings(maxSize[|maxSize| - 1], smallestLayerSize) == [maxSize[|maxSize| - 1]];
    }

    method BlankLayers(numRows: nat) returns (blank: seq<Layer>)
      ensures blank == FreshLayers(View(), numRows)
    {
      var maxSizes := LayersMaxSizes(numRows);
      blank := [];
      for i := 0 to |maxSizes|
        invariant |blank| == i && forall l | 0 <= l < i :: blank[l] == EmptyLayer(maxSizes[l])
      {
        blank := blank + [EmptyLayer(maxSizes[i])];
      }
    }

    /** Finds the layer to rebuild, emptying the full ones below it on the way. */
    method UpdateLayers(numNewRows: nat) returns (layerNum: nat)
      requires Tiled(View().(numRows := SubNat(numRows, numNewRows))) && numNewRows <= numRows
      modifies this`layers
      ensures (layers, layerNum) == Updated(old(View()), numNewRows)
      ensures layerNum < |layers|
    {
      ghost var w := View();
      UpdatedTiles(w, numNewRows);
      var n: nat := numNewRows;
      var i := |layers| - 1;
      while i >= 0
        invariant -1 <= i < |layers|
        invariant Scan(layers, i + 1, n) == Scan(w.layers, |w.layers|, numNewRows)
        decreases i
      {
        n := n + layers[i].numRows;
        if n <= layers[i].maxSize {
          break;
        }
        layers := layers[i := EmptyLayer(layers[i].maxSize)];
        i := i - 1;
      }
      if i <= 0 {
        layers := BlankLayers(n);
        i := 0;
      }
      var chosen := if i == |layers| - 1 && NeedsHint(pirType) then DPF else pirType;
      layers := layers[i := Layer(layers[i].maxSize, numRows - n, n, Some(chosen), None)];
      layerNum := i;
    }

    /** Takes in new rows: the window of the layer to fetch a hint for, if one is needed. */
    method HintUpdateRequest(numNewRows: nat) returns (wantsHint: bool, firstRow: nat, layerRows: nat)
      requires Tiled(View())
      modifies this
      ensures var (w, i, wants) := HintUpdateReq(old(View()), numNewRows);
              && View() == w && wantsHint == wants && i < |w.layers|
              && (wantsHint ==> firstRow == w.layers[i].firstRow && layerRows == w.layers[i].numRows)
    {
      ghost var w := View();
      numRows := numRows + numNewRows;
      assert View().(numRows := SubNat(numRows, numNewRows)) == w;
      UpdatedTiles(View(), numNewRows);
      var layerNum := UpdateLayers(numNewRows);
      firstRow, layerRows := layers[layerNum].firstRow, layers[layerNum].numRows;
      if layerRows == 0 {
        wantsHint := false;
      } else if NeedsHint(layers[layerNum].pirType.value) {
        wantsHint := true;
      } else {
        wantsHint := false;
        layers := layers[layerNum := layers[layerNum].(pir := Some(Stateless(layerRows)))];
      }
    }

    /** Attaches a hinted client to the last layer that has rows. */
    method InitHints(rows: seq<Row>)
      requires LastActive(layers, |layers|) > 0
      modifies this`layers
      ensures View() == InitHint(old(View()), rows)
    {
      var l := |layers| - 1;
      while layers[l].numRows == 0
        invariant 0 <= l < |layers|
        invariant LastActive(layers, l + 1) == LastActive(layers, |layers|)
        decreases l
      {
        l := l - 1;
      }
      layers := layers[l := layers[l].(pir := Some(Hinted(rows)))];
    }

    /** Builds the request for row `pos`, layer by layer. */
    method Query(pos: nat) returns (r: Routed)
      ensures r == QueryScan(layers, pos, |layers|)
    {
      r := Routed([], [], [], 0, None);
      for l := 0 to |layers|
        invariant r == QueryScan(layers, pos, l)
      {
        if layers[l].pir == None {
          continue;
        }
        var hit := r.layerEnd <= pos < r.layerEnd + layers[l].numRows;
        r := Routed(r.firstRows + [layers[l].firstRow], r.clients + [layers[l].pir.value],
                    r.locals + [if hit then Some(pos - r.layerEnd) else None], r.layerEnd + layers[l].numRows,
                    if hit then Some(|r.locals|) else r.matching);
      }
    }
  }
}
