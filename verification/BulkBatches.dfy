/** A bulk update as a whole: its statements, one per batch, run in order on a table. */
module BulkBatches {
  import opened BulkSql
  import opened BulkProof

  /** The statement of one batch, on one row of the table. */
  function RunBatch(key: string, cols: seq<string>, b: seq<Row>, row: Row): (r: Row)
    requires Complete(b, key, cols) && HasAll(row, key, cols)
    ensures HasAll(r, key, cols) && r[key] == row[key]
  {
    StatementTakesFirst(b, key, cols, row);
    ExecRow(key, cols, |b|, UpdateArgs(b, key, cols), row)
  }

  /** The statements of all batches in order, on one row of the table. */
  function RunBatches(key: string, cols: seq<string>, batches: seq<seq<Row>>, row: Row): (r: Row)
    requires AllComplete(batches, key, cols) && HasAll(row, key, cols)
    ensures HasAll(r, key, cols) && r[key] == row[key]
    decreases batches
  {
    if batches == [] then row else RunBatches(key, cols, batches[1..], RunBatch(key, cols, batches[0], row))
  }

  /** The last batch that holds the key, or -1. */
  function LastHolder(batches: seq<seq<Row>>, key: string, v: Value): (k: int)
    requires forall i, j | 0 <= i < |batches| && 0 <= j < |batches[i]| :: key in batches[i][j]
    ensures -1 <= k < |batches|
    ensures k >= 0 ==> Last(batches[k], key, v) >= 0
    ensures forall i | k < i < |batches| :: Last(batches[i], key, v) < 0
    decreases batches
  {
    if batches == [] then -1
    else
      var k := LastHolder(batches[1..], key, v);
      if k >= 0 then k + 1 else if Last(batches[0], key, v) >= 0 then 0 else -1
  }

  lemma HoldersMatch(b: seq<Row>, key: string, v: Value)
    requires forall j | 0 <= j < |b| :: key in b[j]
    ensures First(b, key, v) < |b| <==> Last(b, key, v) >= 0
  {
  }

  /** Running the batches ends with the first row of the key in the last batch that holds it. */
  lemma {:induction false} RunTakes(key: string, cols: seq<string>, batches: seq<seq<Row>>, row: Row)
    requires AllComplete(batches, key, cols) && HasAll(row, key, cols)
    ensures var k := LastHolder(batches, key, row[key]);
            RunBatches(key, cols, batches, row)
            == if row[key] != Q.Nil && k >= 0 then Assign(row, cols, batches[k][First(batches[k], key, row[key])])
               else row
    decreases batches
  {
    hide ExecRow, UpdateArgs, Assign, First, Last;
    if batches != [] {
      var b, rest := batches[0], batches[1..];
      StatementTakesFirst(b, key, cols, row);
      HoldersMatch(b, key, row[key]);
      RunTakes(key, cols, rest, RunBatch(key, cols, b, row));
      var k, f := LastHolder(rest, key, row[key]), First(b, key, row[key]);
      if row[key] != Q.Nil && k >= 0 && f < |b| {
        HoldersMatch(rest[k], key, row[key]);
        AssignTwice(row, cols, b[f], rest[k][First(rest[k], key, row[key])]);
      }
    }
  }

  /** Updating key by key ends with the last row of the key in that batch. */
  lemma {:induction false} EachTakes(key: string, cols: seq<string>, batches: seq<seq<Row>>, row: Row)
    requires AllComplete(batches, key, cols) && HasAll(row, key, cols)
    ensures Complete(Concat(batches), key, cols)
    ensures var k := LastHolder(batches, key, row[key]);
            UpdateEach(key, cols, Concat(batches), row)
            == if row[key] != Q.Nil && k >= 0 then Assign(row, cols, batches[k][Last(batches[k], key, row[key])])
               else row
    decreases batches
  {
    hide UpdateEach, Assign;
    if batches == [] {
      NothingUpdated(key, cols, row);
    } else {
      var b, rest := batches[0], batches[1..];
      var between := UpdateEach(key, cols, b, row);
      EachTakesLast(b, key, cols, row);
      EachTakes(key, cols, rest, between);
      EachConcat(key, cols, b, Concat(rest), row);
      var k, l := LastHolder(rest, key, row[key]), Last(b, key, row[key]);
      if row[key] != Q.Nil && k >= 0 && l >= 0 {
        AssignTwice(row, cols, b[l], rest[k][Last(rest[k], key, row[key])]);
      }
    }
  }

  lemma NothingUpdated(key: string, cols: seq<string>, row: Row)
    requires HasAll(row, key, cols)
    ensures UpdateEach(key, cols, [], row) == row
  {
  }

  lemma {:induction false} EachConcat(key: string, cols: seq<string>, a: seq<Row>, b: seq<Row>, row: Row)
    requires Complete(a, key, cols) && Complete(b, key, cols) && HasAll(row, key, cols)
    ensures Complete(a + b, key, cols)
    ensures UpdateEach(key, cols, a + b, row) == UpdateEach(key, cols, b, UpdateEach(key, cols, a, row))
    decreases |b|
  {
    if b == [] {
      assert a + b == a;
    } else {
      assert (a + b)[..|a + b| - 1] == a + b[..|b| - 1];
      EachConcat(key, cols, a, b[..|b| - 1], row);
    }
  }

  lemma AssignSame(row: Row, cols: seq<string>, r: Row, r': Row)
    requires forall i | 0 <= i < |cols| :: cols[i] in r && cols[i] in r'
    ensures Assign(row, cols, r) == Assign(row, cols, r') <==> SameValues(cols, r, r')
  {
    var a, b := Assign(row, cols, r), Assign(row, cols, r');
    assert forall i | 0 <= i < |cols| :: cols[i] in cols;
    if SameValues(cols, r, r') {
      forall c | c in cols
        ensures a[c] == b[c]
      {
        var i :| 0 <= i < |cols| && cols[i] == c;
      }
      assert a == b;
    }
  }

  /** The key is NULL or in no row, or the last batch that holds it has the same values in its first
      and its last row with the key. */
  predicate BatchesAgree(key: string, cols: seq<string>, batches: seq<seq<Row>>, v: Value)
    requires AllComplete(batches, key, cols)
  {
    var k := LastHolder(batches, key, v);
    v == Q.Nil || k < 0
    || (HoldersMatch(batches[k], key, v);
        SameValues(cols, batches[k][First(batches[k], key, v)], batches[k][Last(batches[k], key, v)]))
  }

  /** Running the statements of the batches in order does to a row what updating key by key does if
      and only if the batches agree on its key. */
  lemma BatchesAreEachIff(key: string, cols: seq<string>, batches: seq<seq<Row>>, row: Row)
    requires AllComplete(batches, key, cols) && HasAll(row, key, cols)
    ensures Complete(Concat(batches), key, cols)
    ensures RunBatches(key, cols, batches, row) == UpdateEach(key, cols, Concat(batches), row)
       <==> BatchesAgree(key, cols, batches, row[key])
  {
    hide RunBatches, UpdateEach, Assign, SameValues;
    RunTakes(key, cols, batches, row);
    EachTakes(key, cols, batches, row);
    var v := row[key];
    var k := LastHolder(batches, key, v);
    if v != Q.Nil && k >= 0 {
      HoldersMatch(batches[k], key, v);
      AssignSame(row, cols, batches[k][First(batches[k], key, v)], batches[k][Last(batches[k], key, v)]);
    }
  }

  // ----- whole tables -----

  type Table = seq<Row>

  predicate HasColumns(t: Table, key: string, cols: seq<string>) {
    forall i | 0 <= i < |t| :: HasAll(t[i], key, cols)
  }

  /** One statement over all rows of the table. */
  function Exec(key: string, cols: seq<string>, b: seq<Row>, t: Table): (u: Table)
    requires Complete(b, key, cols) && HasColumns(t, key, cols)
    ensures |u| == |t| && HasColumns(u, key, cols)
  {
    seq(|t|, i requires 0 <= i < |t| => RunBatch(key, cols, b, t[i]))
  }

  /** The statements of the batches, run in order. */
  function ExecAll(key: string, cols: seq<string>, batches: seq<seq<Row>>, t: Table): (u: Table)
    requires AllComplete(batches, key, cols) && HasColumns(t, key, cols)
    ensures |u| == |t| && HasColumns(u, key, cols)
    decreases batches
  {
    if batches == [] then t else ExecAll(key, cols, batches[1..], Exec(key, cols, batches[0], t))
  }

  lemma {:induction false} ExecAllRows(key: string, cols: seq<string>, batches: seq<seq<Row>>, t: Table, i: nat)
    requires AllComplete(batches, key, cols) && HasColumns(t, key, cols) && i < |t|
    ensures ExecAll(key, cols, batches, t)[i] == RunBatches(key, cols, batches, t[i])
    decreases batches
  {
    if batches != [] {
      ExecAllRows(key, cols, batches[1..], Exec(key, cols, batches[0], t), i);
    }
  }

  function UpdateTable(key: string, cols: seq<string>, rows: seq<Row>, t: Table): (u: Table)
    requires Complete(rows, key, cols) && HasColumns(t, key, cols)
    ensures |u| == |t| && HasColumns(u, key, cols)
  {
    seq(|t|, i requires 0 <= i < |t| => UpdateEach(key, cols, rows, t[i]))
  }

  /** For any rows, any batch size and any table: the bulk update changes the table as updating each
      key one by one does if and only if the batches agree on the key of every row of the table. */
  lemma BulkUpdateIsOneByOneIff(key: string, cols: seq<string>, rows: seq<Row>, size: nat, t: Table)
    requires size > 0 && Complete(rows, key, cols) && HasColumns(t, key, cols)
    ensures AllComplete(Batches(rows, size), key, cols)
    ensures ExecAll(key, cols, Batches(rows, size), t) == UpdateTable(key, cols, rows, t)
       <==> forall i | 0 <= i < |t| :: BatchesAgree(key, cols, Batches(rows, size), t[i][key])
  {
    hide BatchesAgree, RunBatches, UpdateEach, ExecAll, Batches;
    BatchesComplete(key, cols, rows, size);
    BatchesAreRows(rows, size);
    var batches := Batches(rows, size);
    var u, w := ExecAll(key, cols, batches, t), UpdateTable(key, cols, rows, t);
    forall i | 0 <= i < |t|
      ensures u[i] == w[i] <==> BatchesAgree(key, cols, batches, t[i][key])
    {
      ExecAllRows(key, cols, batches, t, i);
      BatchesAreEachIff(key, cols, batches, t[i]);
    }
    if forall i | 0 <= i < |t| :: BatchesAgree(key, cols, batches, t[i][key]) {
      assert u == w;
    }
  }

  // ----- distinct keys agree, repeated keys need not -----

  /** No two rows have the same non-null key. */
  predicate DistinctKeys(rows: seq<Row>, key: string)
    requires forall i | 0 <= i < |rows| :: key in rows[i]
  {
    forall i, j | 0 <= i < j < |rows| :: rows[i][key] == Q.Nil || rows[i][key] != rows[j][key]
  }

  lemma {:induction false} BatchesDistinct(key: string, cols: seq<string>, rows: seq<Row>, size: nat)
    requires size > 0 && Complete(rows, key, cols) && DistinctKeys(rows, key)
    ensures AllComplete(Batches(rows, size), key, cols)
    ensures forall i | 0 <= i < |Batches(rows, size)| :: DistinctKeys(Batches(rows, size)[i], key)
    decreases |rows|
  {
    if |rows| > size {
      BatchesDistinct(key, cols, rows[size..], size);
    }
  }

  lemma DistinctAgree(key: string, cols: seq<string>, b: seq<Row>, v: Value)
    requires Complete(b, key, cols) && DistinctKeys(b, key) && v != Q.Nil && Last(b, key, v) >= 0
    ensures First(b, key, v) == Last(b, key, v)
  {
  }

  /** For rows with distinct keys and any batch size, running the generated statements in order
      changes the table as updating each key one by one does. NULL keys match nothing either way,
      and the key column may itself be among the updated ones. */
  lemma BulkUpdateIsOneByOne(key: string, cols: seq<string>, rows: seq<Row>, size: nat, t: Table)
    requires size > 0 && Complete(rows, key, cols) && DistinctKeys(rows, key) && HasColumns(t, key, cols)
    ensures AllComplete(Batches(rows, size), key, cols)
    ensures ExecAll(key, cols, Batches(rows, size), t) == UpdateTable(key, cols, rows, t)
  {
    hide ExecAll, UpdateTable, Batches, DistinctKeys;
    BatchesDistinct(key, cols, rows, size);
    BulkUpdateIsOneByOneIff(key, cols, rows, size, t);
    var batches := Batches(rows, size);
    forall i | 0 <= i < |t|
      ensures BatchesAgree(key, cols, batches, t[i][key])
    {
      var v := t[i][key];
      var k := LastHolder(batches, key, v);
      if v != Q.Nil && k >= 0 {
        DistinctAgree(key, cols, batches[k], v);
      }
    }
  }

  /** Two values for one key: in one batch the first of them stays, key by key the second; in batches
      of one row there is no difference. */
  lemma RepeatedKeyExample()
    ensures var rows, t := [map["id" := Q.Int(1), "c" := Q.Int(1)], map["id" := Q.Int(1), "c" := Q.Int(2)]],
                           [map["id" := Q.Int(1), "c" := Q.Int(0)]];
            && Complete(rows, "id", ["c"]) && HasColumns(t, "id", ["c"])
            && UpdateTable("id", ["c"], rows, t) == [rows[1]]
            && AllComplete(Batches(rows, 2), "id", ["c"]) && ExecAll("id", ["c"], Batches(rows, 2), t) == [rows[0]]
            && AllComplete(Batches(rows, 1), "id", ["c"]) && ExecAll("id", ["c"], Batches(rows, 1), t) == [rows[1]]
  {
    hide RunBatches, RunBatch, ExecAll, UpdateEach, ExecRow, Assign, Batches;
    var one := Q.Int(1);
    var r1: Row, r2: Row := map["id" := one, "c" := one], map["id" := one, "c" := Q.Int(2)];
    var row: Row := map["id" := one, "c" := Q.Int(0)];
    BatchesOfTwo(r1, r2);
    AssignExample(r1, row);
    AssignExample(r2, row);
    EachExample(r1, r2, row);
    OneBatchExample(r1, r2, row);
    TwoBatchesExample(r1, r2, row);
  }

  /** Both rows update the one row of the table, and the second comes last. */
  lemma EachExample(r1: Row, r2: Row, row: Row)
    requires HasAll(r1, "id", ["c"]) && HasAll(r2, "id", ["c"]) && HasAll(row, "id", ["c"])
    requires r1["id"] == r2["id"] == row["id"] != Q.Nil && Assign(row, ["c"], r2) == r2
    ensures Complete([r1, r2], "id", ["c"]) && UpdateEach("id", ["c"], [r1, r2], row) == r2
  {
    hide UpdateEach, Assign;
    var rows := [r1, r2];
    assert rows[1]["id"] == row["id"] && Last(rows, "id", row["id"]) == 1;
    EachTakesLast(rows, "id", ["c"], row);
  }

  /** In one batch the first row wins. */
  lemma OneBatchExample(r1: Row, r2: Row, row: Row)
    requires HasAll(r1, "id", ["c"]) && HasAll(r2, "id", ["c"]) && HasAll(row, "id", ["c"])
    requires r1["id"] == r2["id"] == row["id"] != Q.Nil && Assign(row, ["c"], r1) == r1
    ensures AllComplete([[r1, r2]], "id", ["c"]) && ExecAll("id", ["c"], [[r1, r2]], [row]) == [r1]
  {
    hide RunBatches, RunBatch, ExecAll, ExecRow, Assign;
    var rows := [r1, r2];
    ExecAllRows("id", ["c"], [rows], [row], 0);
    assert rows[0]["id"] == row["id"] && First(rows, "id", row["id"]) == 0;
    assert [rows][0] == rows && LastHolder([rows], "id", row["id"]) == 0;
    RunTakes("id", ["c"], [rows], row);
  }

  /** In two batches the second row comes last. */
  lemma TwoBatchesExample(r1: Row, r2: Row, row: Row)
    requires HasAll(r1, "id", ["c"]) && HasAll(r2, "id", ["c"]) && HasAll(row, "id", ["c"])
    requires r1["id"] == r2["id"] == row["id"] != Q.Nil && Assign(row, ["c"], r2) == r2
    ensures AllComplete([[r1], [r2]], "id", ["c"]) && ExecAll("id", ["c"], [[r1], [r2]], [row]) == [r2]
  {
    hide RunBatches, RunBatch, ExecAll, ExecRow, Assign;
    var split := [[r1], [r2]];
    ExecAllRows("id", ["c"], split, [row], 0);
    assert split[1] == [r2] && [r2][0]["id"] == row["id"];
    assert Last([r2], "id", row["id"]) == 0 && First([r2], "id", row["id"]) == 0
           && LastHolder(split, "id", row["id"]) == 1;
    RunTakes("id", ["c"], split, row);
  }

  lemma BatchesOfTwo(r1: Row, r2: Row)
    ensures Batches([r1, r2], 2) == [[r1, r2]] && Batches([r1, r2], 1) == [[r1], [r2]]
  {
    assert [r1, r2][1..] == [r2] && [r1, r2][..1] == [r1];
  }

  lemma AssignExample(r: Row, row: Row)
    requires r.Keys == row.Keys == {"id", "c"} && r["id"] == row["id"]
    ensures Assign(row, ["c"], r) == r
  {
    var a := Assign(row, ["c"], r);
    assert a.Keys == r.Keys;
    assert forall k | k in r :: a[k] == r[k];
  }
}
