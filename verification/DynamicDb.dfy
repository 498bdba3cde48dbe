/** The versioned database behind SinglePass updates: every edit of the table is
    logged with the row it replaced, and the table grows a chunk at a time. */
module DynamicDb {
  import opened Rows
  import opened StaticDb
  import opened SinglePass

  datatype UpdateOp = UpdateOp(index: nat, oldData: Row, newData: Row)

  datatype Ddb = Ddb(
    table: seq<Row>, staticVersion: nat, ops: seq<UpdateOp>, currVersion: nat,
    opInitVersion: nat, realSize: nat, extendSize: nat)

  /** The integer square root that fixes the chunk size. */
  function ISqrt(n: nat): (r: nat)
    ensures r * r <= n < (r + 1) * (r + 1)
    ensures n >= 1 ==> r >= 1
  {
    if n == 0 then 0
    else
      var r := ISqrt(n - 1);
      if (r + 1) * (r + 1) <= n then r + 1 else r
  }

  lemma ISqrtSquare(m: nat)
    ensures ISqrt(m * m) == m
  {
    var r := ISqrt(m * m);
    assert (m + 1) * (m + 1) == m * m + 2 * m + 1;
    if r < m {
      SquareMonotone(r + 1, m);
    } else if r > m {
      SquareMonotone(m + 1, r);
    }
  }

  lemma SquareMonotone(a: nat, b: nat)
    requires a <= b
    ensures a * a <= b * b
  {
    MulMonotone(a, b, a);
    MulMonotone(a, b, b);
  }

  /** One round of EditRows: log the old and the new row, then overwrite. */
  function EditOp(d: Ddb, index: nat, row: Row): Ddb {
    d.(ops := d.ops + [UpdateOp(index, At(d.table, index), row)],
       table := if index < |d.table| then d.table[index := row] else d.table,
       staticVersion := if index < |d.table| then d.staticVersion + 1 else d.staticVersion)
  }

  function EditAll(d: Ddb, indices: seq<nat>, rows: seq<Row>, k: nat): (d': Ddb)
    requires k <= |indices| == |rows|
    ensures |d'.table| == |d.table|
    ensures d'.extendSize == d.extendSize && d'.realSize == d.realSize
    ensures d'.opInitVersion == d.opInitVersion && d'.currVersion == d.currVersion
    ensures |d'.ops| == |d.ops| + k && d.ops <= d'.ops
  {
    if k == 0 then d else EditOp(EditAll(d, indices, rows, k - 1), indices[k - 1], rows[k - 1])
  }

  /** EditRows; the flag is false when the two lists differ in length. */
  function EditedRows(d: Ddb, indices: seq<nat>, rows: seq<Row>): (Ddb, bool) {
    if |indices| != |rows| then (d, false)
    else
      var d' := EditAll(d, indices, rows, |indices|);
      (d'.(currVersion := d.currVersion + |indices|), true)
  }

  function RangeArray(lo: nat, len: nat): (r: seq<nat>)
    ensures |r| == len
  {
    seq(len, i requires 0 <= i < len => lo + i)
  }

  function Extended(d: Ddb, adds: nat): Ddb {
    if d.realSize + adds >= |d.table| then d.(table := d.table + seq(d.extendSize, _ => ZERO)) else d
  }

  function AppendedRows(d: Ddb, newRows: seq<Row>): Ddb {
    var d1 := Extended(d, |newRows|);
    var d2 := EditedRows(d1, RangeArray(d1.realSize, |newRows|), newRows).0;
    d2.(realSize := d2.realSize + |newRows|)
  }

  /** The three version counters agree. */
  ghost predicate VersionsAgree(d: Ddb) {
    d.currVersion == d.staticVersion == d.opInitVersion + |d.ops|
  }

  ghost function InRangeCount(d: Ddb, indices: seq<nat>, k: nat): nat
    requires k <= |indices|
  {
    if k == 0 then 0 else InRangeCount(d, indices, k - 1) + (if indices[k - 1] < |d.table| then 1 else 0)
  }

  lemma {:induction false} EditAllVersion(d: Ddb, indices: seq<nat>, rows: seq<Row>, k: nat)
    requires k <= |indices| == |rows|
    ensures EditAll(d, indices, rows, k).staticVersion == d.staticVersion + InRangeCount(d, indices, k)
    ensures InRangeCount(d, indices, k) <= k
    ensures InRangeCount(d, indices, k) == k <==> forall j | 0 <= j < k :: indices[j] < |d.table|
  {
    if k > 0 {
      EditAllVersion(d, indices, rows, k - 1);
    }
  }

  /** The table's own version keeps step with the log exactly when every edited
      index lies inside the table. */
  lemma VersionsAgreeExactly(d: Ddb, indices: seq<nat>, rows: seq<Row>)
    requires VersionsAgree(d) && |indices| == |rows|
    ensures VersionsAgree(EditedRows(d, indices, rows).0) <==> forall j | 0 <= j < |indices| :: indices[j] < |d.table|
  {
    EditAllVersion(d, indices, rows, |indices|);
  }

  // ----- Which row ends up where -----

  /** Of the first `k` writes, number `j` is the last one to position `r`. */
  ghost predicate LastWrite(indices: seq<nat>, r: nat, j: nat, k: nat)
    requires k <= |indices|
  {
    j < k && indices[j] == r && forall l | j < l < k :: indices[l] != r
  }

  ghost predicate NotWritten(indices: seq<nat>, r: nat, k: nat)
    requires k <= |indices|
  {
    forall j | 0 <= j < k :: indices[j] != r
  }

  /** Position `r` of the table holds what was last written to it, or what it held before. */
  ghost predicate RowWritten(before: seq<Row>, after: seq<Row>, indices: seq<nat>, rows: seq<Row>, k: nat, r: nat)
    requires k <= |indices| == |rows|
  {
    && (forall j | 0 <= j < k && LastWrite(indices, r, j, k) :: At(after, r) == rows[j])
    && (NotWritten(indices, r, k) ==> At(after, r) == At(before, r))
  }

  /** The table after writing the rows in order. */
  ghost predicate Written(before: seq<Row>, after: seq<Row>, indices: seq<nat>, rows: seq<Row>, k: nat)
    requires k <= |indices| == |rows|
  {
    |after| == |before| && forall r | 0 <= r < |before| :: RowWritten(before, after, indices, rows, k, r)
  }

  /** The log has one new entry for every write, with its index and its row. */
  ghost predicate Recorded(before: seq<UpdateOp>, after: seq<UpdateOp>, indices: seq<nat>, rows: seq<Row>, k: nat)
    requires k <= |indices| == |rows|
  {
    && |after| == |before| + k && before <= after
    && forall j | 0 <= j < k :: after[|before| + j].index == indices[j] && after[|before| + j].newData == rows[j]
  }

  lemma WriteNext(before: seq<Row>, middle: seq<Row>, after: seq<Row>, indices: seq<nat>, rows: seq<Row>, k: nat, r: nat)
    requires k < |indices| == |rows| && r < |before| == |middle| && RowWritten(before, middle, indices, rows, k, r)
    requires At(after, r) == if indices[k] == r then rows[k] else At(middle, r)
    ensures RowWritten(before, after, indices, rows, k + 1, r)
  {
    forall j | 0 <= j < k + 1 && LastWrite(indices, r, j, k + 1)
      ensures At(after, r) == rows[j]
    {
      if j < k {
        assert LastWrite(indices, r, j, k);
      }
    }
    if NotWritten(indices, r, k + 1) {
      assert NotWritten(indices, r, k);
    }
  }

  lemma WrittenNext(d: Ddb, d1: Ddb, indices: seq<nat>, rows: seq<Row>, k: nat)
    requires k < |indices| == |rows| && Written(d.table, d1.table, indices, rows, k)
    ensures Written(d.table, EditOp(d1, indices[k], rows[k]).table, indices, rows, k + 1)
  {
    var after, next := EditOp(d1, indices[k], rows[k]).table, k + 1;
    forall r | 0 <= r < |d.table|
      ensures RowWritten(d.table, after, indices, rows, next, r)
    {
      assert RowWritten(d.table, d1.table, indices, rows, k, r);
      WriteNext(d.table, d1.table, after, indices, rows, k, r);
    }
  }

  lemma RecordedNext(d: Ddb, d1: Ddb, indices: seq<nat>, rows: seq<Row>, k: nat)
    requires k < |indices| == |rows| && Recorded(d.ops, d1.ops, indices, rows, k)
    ensures Recorded(d.ops, EditOp(d1, indices[k], rows[k]).ops, indices, rows, k + 1)
  {
  }

  lemma {:induction false} EditAllWrites(d: Ddb, indices: seq<nat>, rows: seq<Row>, k: nat)
    requires k <= |indices| == |rows|
    ensures Written(d.table, EditAll(d, indices, rows, k).table, indices, rows, k)
    ensures Recorded(d.ops, EditAll(d, indices, rows, k).ops, indices, rows, k)
  {
    if k > 0 {
      EditAllWrites(d, indices, rows, k - 1);
      WrittenNext(d, EditAll(d, indices, rows, k - 1), indices, rows, k - 1);
      RecordedNext(d, EditAll(d, indices, rows, k - 1), indices, rows, k - 1);
    }
  }

  /** An accepted edit writes every row to its index, in order, and logs it. */
  lemma EditedWrites(d: Ddb, indices: seq<nat>, rows: seq<Row>)
    requires |indices| == |rows|
    ensures EditedRows(d, indices, rows).1
    ensures Written(d.table, EditedRows(d, indices, rows).0.table, indices, rows, |indices|)
    ensures Recorded(d.ops, EditedRows(d, indices, rows).0.ops, indices, rows, |indices|)
  {
    EditAllWrites(d, indices, rows, |indices|);
  }

  /** The table after an append: the new rows behind the old ones, in order, and nothing
      else changed. */
  ghost predicate Appended(before: seq<Row>, realSize: nat, after: seq<Row>, rows: seq<Row>) {
    forall r: nat :: At(after, r) == if realSize <= r < realSize + |rows| then rows[r - realSize] else At(before, r)
  }

  lemma RangeWrites(lo: nat, len: nat, r: nat)
    ensures lo <= r < lo + len ==> LastWrite(RangeArray(lo, len), r, r - lo, len)
    ensures !(lo <= r < lo + len) ==> NotWritten(RangeArray(lo, len), r, len)
  {
  }

  /** Rows that have room end up behind the rows in use; they are logged in any case. */
  ghost predicate AppendMeans(d: Ddb, d': Ddb, rows: seq<Row>) {
    && (|rows| == 0 || d.realSize + |rows| <= |d.table| + d.extendSize ==>
          Appended(d.table, d.realSize, d'.table, rows))
    && Recorded(d.ops, d'.ops, RangeArray(d.realSize, |rows|), rows, |rows|)
  }

  lemma AppendedWrites(d: Ddb, rows: seq<Row>)
    requires |rows| == 0 || d.realSize + |rows| <= |d.table| + d.extendSize
    ensures Appended(d.table, d.realSize, AppendedRows(d, rows).table, rows)
  {
    var d1, indices, after := Extended(d, |rows|), RangeArray(d.realSize, |rows|), AppendedRows(d, rows).table;
    EditedWrites(d1, indices, rows);
    forall r: nat
      ensures At(after, r) == if d.realSize <= r < d.realSize + |rows| then rows[r - d.realSize] else At(d.table, r)
    {
      RangeWrites(d.realSize, |rows|, r);
      if r < |d1.table| {
        assert RowWritten(d1.table, after, indices, rows, |rows|, r);
      }
    }
  }

  lemma AppendedMeans(d: Ddb, rows: seq<Row>)
    ensures AppendMeans(d, AppendedRows(d, rows), rows)
  {
    EditedWrites(Extended(d, |rows|), RangeArray(d.realSize, |rows|), rows);
    if |rows| == 0 || d.realSize + |rows| <= |d.table| + d.extendSize {
      AppendedWrites(d, rows);
    }
  }

  class DynamicDB {
    const staticDb: StaticDB
    var ops: seq<UpdateOp>
    var currVersion: nat
    var opInitVersion: nat
    var realSizeDB: nat
    const extendSize: nat

    ghost predicate Valid()
      reads this, staticDb
    {
      staticDb.Valid()
    }

    ghost function View(): Ddb
      requires Valid()
      reads this, staticDb
    {
      Ddb(staticDb.Table(), staticDb.Version, ops, currVersion, opInitVersion, realSizeDB, extendSize)
    }

    /** DynamicDBFromRows, with numRows the number of rows. */
    constructor FromRows(rows: seq<Row>)
      requires |rows| >= 1
      ensures Valid() && fresh(staticDb)
      ensures View() == Ddb(rows, 0, [], 0, 0, |rows|, |rows| / ISqrt(|rows|))
    {
      staticDb := new StaticDB.FromRows(rows);
      ops, currVersion, opInitVersion, realSizeDB := [], 0, 0, |rows|;
      extendSize := |rows| / ISqrt(|rows|);
    }

    method EditRows(updateIndices: seq<nat>, updatedRows: seq<Row>) returns (ok: bool)
      requires Valid()
      modifies this, staticDb
      ensures Valid()
      ensures (View(), ok) == EditedRows(old(View()), updateIndices, updatedRows)
      ensures ok == (|updateIndices| == |updatedRows|) && (!ok ==> View() == old(View()))
      ensures ok ==> Written(old(View()).table, View().table, updateIndices, updatedRows, |updateIndices|)
      ensures ok ==> Recorded(old(ops), ops, updateIndices, updatedRows, |updateIndices|)
    {
      if |updateIndices| != |updatedRows| {
        return false;
      }
      ghost var start := View();
      for i := 0 to |updateIndices|
        invariant Valid() && View() == EditAll(start, updateIndices, updatedRows, i)
      {
        var editIndex := updateIndices[i];
        var oldVal := ZERO;
        var present, row := staticDb.Row(editIndex);
        if present {
          oldVal := row;
        }
        ops := ops + [UpdateOp(editIndex, oldVal, updatedRows[i])];
        staticDb.UpdateRow(editIndex, updatedRows[i]);
      }
      EditedWrites(start, updateIndices, updatedRows);
      currVersion := currVersion + |updateIndices|;
      return true;
    }

    method AppendRows(newRows: seq<Row>)
      requires Valid()
      modifies this, staticDb
      ensures Valid() && View() == AppendedRows(old(View()), newRows)
      ensures AppendMeans(old(View()), View(), newRows)
    {
      AppendedMeans(View(), newRows);
      var numAdds := |newRows|;
      if realSizeDB + numAdds >= staticDb.NumRows {
        staticDb.ExtendDb(extendSize);
      }
      assert View() == Extended(old(View()), numAdds);
      var ok := EditRows(RangeArray(realSizeDB, numAdds), newRows);
      realSizeDB := realSizeDB + numAdds;
    }
  }
}
