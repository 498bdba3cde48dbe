/** The flat table that all schemes read: rows of ROW_LEN bytes, end to end. */
module StaticDb {
  import opened Rows

  /** Row `i` of a flat table of `n` rows lies inside its buffer. */
  lemma RowWindow(i: nat, n: nat)
    requires i < n
    ensures 0 <= i * ROW_LEN <= (i + 1) * ROW_LEN <= n * ROW_LEN
    ensures (i + 1) * ROW_LEN == i * ROW_LEN + ROW_LEN
  {
    assert n * ROW_LEN == (i + 1) * ROW_LEN + (n - i - 1) * ROW_LEN;
  }

  function RowOf(flat: seq<bv8>, i: nat, n: nat): Row
    requires i < n && |flat| == n * ROW_LEN
  {
    RowWindow(i, n);
    flat[i * ROW_LEN..(i + 1) * ROW_LEN]
  }

  /** The rows that a flat buffer holds. */
  function TableOf(flat: seq<bv8>, n: nat): (t: seq<Row>)
    requires |flat| == n * ROW_LEN
    ensures |t| == n
  {
    seq(n, i requires 0 <= i < n => RowOf(flat, i, n))
  }

  /** Overwriting the window of one row changes that row and no other. */
  lemma OverwriteRow(flat: seq<bv8>, n: nat, k: nat, row: Row, flat': seq<bv8>)
    requires |flat| == |flat'| == n * ROW_LEN && k < n
    requires (RowWindow(k, n); flat' == flat[..k * ROW_LEN] + row + flat[(k + 1) * ROW_LEN..])
    ensures TableOf(flat', n) == TableOf(flat, n)[k := row]
  {
    RowWindow(k, n);
    forall i | 0 <= i < n
      ensures RowOf(flat', i, n) == if i == k then row else RowOf(flat, i, n)
    {
      RowWindow(i, n);
      if i < k {
        RowWindow(i, k);
        assert RowOf(flat', i, n) == RowOf(flat, i, n);
      } else if i > k {
        RowWindow(k, i);
        assert RowOf(flat', i, n) == RowOf(flat, i, n);
      } else {
        assert RowOf(flat', i, n) == row;
      }
    }
  }

  lemma AppendLength(n: nat, m: nat)
    ensures (n + m) * ROW_LEN == n * ROW_LEN + m * ROW_LEN
  {
  }

  lemma RowOfAppend(flat: seq<bv8>, n: nat, more: seq<bv8>, m: nat, i: nat)
    requires |flat| == n * ROW_LEN && |more| == m * ROW_LEN && |flat + more| == (n + m) * ROW_LEN && i < n + m
    ensures RowOf(flat + more, i, n + m) == if i < n then RowOf(flat, i, n) else RowOf(more, i - n, m)
  {
    RowWindow(i, n + m);
    if i < n {
      RowWindow(i, n);
    } else {
      RowWindow(i - n, m);
      AppendLength(n, i - n);
      var a, b, c := i * ROW_LEN, n * ROW_LEN, (i - n) * ROW_LEN;
      assert (flat + more)[a..a + ROW_LEN] == more[c..c + ROW_LEN];
    }
  }

  /** A buffer put behind another one puts its rows behind the other's rows. */
  lemma AppendTables(flat: seq<bv8>, n: nat, more: seq<bv8>, m: nat)
    requires |flat| == n * ROW_LEN && |more| == m * ROW_LEN
    ensures |flat + more| == (n + m) * ROW_LEN
    ensures TableOf(flat + more, n + m) == TableOf(flat, n) + TableOf(more, m)
  {
    AppendLength(n, m);
    forall i | 0 <= i < n + m
      ensures TableOf(flat + more, n + m)[i] == (TableOf(flat, n) + TableOf(more, m))[i]
    {
      RowOfAppend(flat, n, more, m, i);
    }
  }

  lemma SingleRow(row: Row)
    ensures |row| == 1 * ROW_LEN && TableOf(row, 1) == [row]
  {
    RowWindow(0, 1);
    assert RowOf(row, 0, 1) == row;
  }

  lemma ZeroTable(m: nat)
    ensures |Zeros(m * ROW_LEN)| == m * ROW_LEN
    ensures TableOf(Zeros(m * ROW_LEN), m) == seq(m, _ => ZERO)
  {
    forall i | 0 <= i < m
      ensures RowOf(Zeros(m * ROW_LEN), i, m) == ZERO
    {
      RowWindow(i, m);
    }
  }

  class StaticDB {
    var NumRows: nat
    var RowLen: nat
    var Version: nat
    var FlatDb: seq<bv8>

    ghost predicate Valid()
      reads this
    {
      RowLen == ROW_LEN && |FlatDb| == NumRows * ROW_LEN
    }

    function Table(): (t: seq<Row>)
      requires Valid()
      reads this
      ensures |t| == NumRows
    {
      TableOf(FlatDb, NumRows)
    }

    /** StaticDBFromRows; an empty list gives the empty table. */
    constructor FromRows(data: seq<Row>)
      ensures Valid() && Table() == data && Version == 0
    {
      NumRows, RowLen, Version := |data|, ROW_LEN, 0;
      var flat: seq<bv8> := [];
      for i := 0 to |data|
        invariant |flat| == i * ROW_LEN && TableOf(flat, i) == data[..i]
      {
        AppendTables(flat, i, data[i], 1);
        SingleRow(data[i]);
        flat := flat + data[i];
        assert data[..i + 1] == data[..i] + [data[i]];
      }
      FlatDb := flat;
      assert data[..|data|] == data;
    }

    /** Nothing is returned beyond the end of the table. */
    method Row(i: nat) returns (present: bool, r: Row)
      requires Valid()
      ensures present == (i < NumRows)
      ensures present ==> r == Table()[i]
    {
      if i >= NumRows {
        return false, ZERO;
      }
      RowWindow(i, NumRows);
      return true, FlatDb[i * RowLen..(i + 1) * RowLen];
    }

    /** Overwrites one row byte by byte; an index beyond the end is ignored and
        does not count as a new version. */
    method UpdateRow(index: nat, updatedRow: Row)
      requires Valid()
      modifies this
      ensures Valid() && NumRows == old(NumRows)
      ensures index < NumRows ==> Table() == old(Table())[index := updatedRow] && Version == old(Version) + 1
      ensures index >= NumRows ==> Table() == old(Table()) && Version == old(Version)
    {
      if index >= NumRows {
        return;
      }
      RowWindow(index, NumRows);
      ghost var was := FlatDb;
      var ind := index * RowLen;
      for i := 0 to RowLen
        invariant Valid() && NumRows == old(NumRows) && Version == old(Version)
        invariant FlatDb == was[..ind] + updatedRow[..i] + was[ind + i..]
      {
        FlatDb := FlatDb[ind + i := updatedRow[i]];
      }
      assert updatedRow[..ROW_LEN] == updatedRow;
      OverwriteRow(was, NumRows, index, updatedRow, FlatDb);
      Version := Version + 1;
    }

    /** Appends zero rows, byte by byte. */
    method ExtendDb(extendVal: nat)
      requires Valid()
      modifies this
      ensures Valid() && Version == old(Version)
      ensures Table() == old(Table()) + seq(extendVal, _ => ZERO)
    {
      var currSize := |FlatDb|;
      ghost var was := FlatDb;
      for i := currSize to currSize + extendVal * RowLen
        invariant RowLen == ROW_LEN && NumRows == old(NumRows) && Version == old(Version)
        invariant FlatDb == was + Zeros(i - currSize)
      {
        FlatDb := FlatDb + [0];
      }
      AppendTables(was, NumRows, Zeros(extendVal * ROW_LEN), extendVal);
      ZeroTable(extendVal);
      NumRows := NumRows + extendVal;
    }
  }
}
