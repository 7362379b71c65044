/** BulkInsertRows and BulkUpdateByKey up to the statements they run: pkg/db/db.go. */
module BulkRows {
  import opened Wrappers
  import opened SqlIdent
  import opened BulkSql
  import opened BulkProof

  /** As many question marks as arguments, within what the dialect allows. */
  predicate Fits(d: Dialect, b: Built) {
    Marks(b.sql) == |b.args| <= MaxParamsFor(d)
  }

  /** The size of a batch of updates, where the limit leaves room for one. */
  function UpdateSize(d: Dialect, cols: seq<string>, requested: int): (size: nat)
    requires 2 * |cols| + 1 <= MaxParamsFor(d)
    ensures size > 0
  {
    BatchFits(d, 2 * |cols| + 1, requested);
    BatchSizeFor(d, 2 * |cols| + 1, requested).value
  }

  method BulkUpdateByKey(d: Dialect, table: string, key: string, cols: seq<string>, rows: seq<Row>, requested: int)
    returns (r: Result<seq<Built>, Error>)
    ensures rows == [] ==> r == Ok([])
    ensures rows != [] && 2 * |cols| + 1 > MaxParamsFor(d) ==> r == Err(TooManyParams(2 * |cols| + 1, MaxParamsFor(d)))
    ensures rows != [] && 2 * |cols| + 1 <= MaxParamsFor(d) ==>
              var batches := Batches(rows, UpdateSize(d, cols, requested));
              (r.Ok? <==> Ready(table, key, cols, rows))
              && match r
                 case Ok(stmts) => UpdatesOf(d, table, key, cols, batches, stmts)
                 case Err(e) => exists i: nat :: BatchFails(table, key, cols, batches, i, e)
    ensures r.Ok? ==> forall i | 0 <= i < |r.value| :: Fits(d, r.value[i])
  {
    hide Batches, UpdateOf, UpdateFails, Marks, Ready, AllReady, MaxParamsFor, BatchSizeFor;
    if rows == [] {
      return Ok([]);
    }
    BatchFits(d, 2 * |cols| + 1, requested);
    var bs := BatchSizeFor(d, 2 * |cols| + 1, requested);
    if bs.Err? {
      TooWide(d, 2 * |cols| + 1, requested);
      return Err(bs.error);
    }
    r := BuildUpdateBatches(d, table, key, cols, rows, bs.value);
    ghost var batches := Batches(rows, bs.value);
    ReadyBatches(table, key, cols, rows, bs.value);
    match r {
      case Ok(stmts) =>
        BatchesReady(d, table, key, cols, batches, stmts);
        assert batches[..|stmts|] == batches;
        forall i | 0 <= i < |stmts|
          ensures Fits(d, stmts[i])
        {
          UpdateFits(d, table, key, cols, rows, requested, stmts[i], i);
        }
      case Err(e) =>
        ghost var i: nat :| BatchFails(table, key, cols, batches, i, e);
        FailsIsNotReady(table, key, cols, batches[i], e);
        NotAllReady(table, key, cols, batches, i);
    }
  }

  lemma NotAllReady(table: string, key: string, cols: seq<string>, batches: seq<seq<Row>>, i: nat)
    requires i < |batches| && !Ready(table, key, cols, batches[i])
    ensures !AllReady(table, key, cols, batches)
  {
  }

  lemma TooWide(d: Dialect, perRow: int, requested: int)
    requires BatchSizeFor(d, perRow, requested).Err?
    ensures BatchSizeFor(d, perRow, requested).error == TooManyParams(perRow, MaxParamsFor(d))
  {
  }

  lemma UpdateFits(d: Dialect, table: string, key: string, cols: seq<string>, rows: seq<Row>, requested: int, b: Built,
                   i: nat)
    requires 2 * |cols| + 1 <= MaxParamsFor(d)
    requires var batches := Batches(rows, UpdateSize(d, cols, requested));
             i < |batches| && UpdateOf(d, table, key, cols, batches[i], b)
    ensures Fits(d, b)
  {
    hide Batches, UpdateText, UpdateArgs, Marks, ValidName, ValidNames, MaxParamsFor, BatchSizeFor;
    var perRow, size := 2 * |cols| + 1, UpdateSize(d, cols, requested);
    var batch := Batches(rows, size)[i];
    BatchFits(d, perRow, requested);
    BatchesAreRows(rows, size);
    assert batch in Batches(rows, size);
    UpdateMarks(d, table, key, cols, batch);
    Product(|batch|, size, perRow);
  }

  /** The statements of the batches. */
  predicate InsertsOf(d: Dialect, table: string, cols: seq<string>, batches: seq<seq<seq<Value>>>, stmts: seq<Built>) {
    |stmts| == |batches| && forall i | 0 <= i < |stmts| :: InsertOf(d, table, cols, batches[i], stmts[i])
  }

  predicate AllWidth(batches: seq<seq<seq<Value>>>, width: nat) {
    forall i | 0 <= i < |batches| :: SameWidth(batches[i], width)
  }

  /** The first batch that fails. */
  predicate InsertBatchFails(table: string, cols: seq<string>, batches: seq<seq<seq<Value>>>, i: nat, e: Error) {
    i < |batches| && InsertFails(table, cols, batches[i], e)
    && (i > 0 ==> ValidName(table) && ValidNames(cols)) && AllWidth(batches[..i], |cols|)
  }

  function InsertSize(d: Dialect, cols: seq<string>, requested: int): (size: nat)
    requires 0 < |cols| <= MaxParamsFor(d)
    ensures size > 0
  {
    BatchFits(d, |cols|, requested);
    BatchSizeFor(d, |cols|, requested).value
  }

  method BulkInsertRows(d: Dialect, table: string, cols: seq<string>, rows: seq<seq<Value>>, requested: int)
    returns (r: Result<seq<Built>, Error>)
    ensures cols == [] || rows == [] ==> r == Ok([])
    ensures rows != [] && |cols| > MaxParamsFor(d) ==> r == Err(TooManyParams(|cols|, MaxParamsFor(d)))
    ensures rows != [] && 0 < |cols| <= MaxParamsFor(d) ==>
              var batches := Batches(rows, InsertSize(d, cols, requested));
              (r.Ok? <==> ValidName(table) && ValidNames(cols) && SameWidth(rows, |cols|))
              && match r
                 case Ok(stmts) => InsertsOf(d, table, cols, batches, stmts)
                 case Err(e) => exists i: nat :: InsertBatchFails(table, cols, batches, i, e)
    ensures r.Ok? ==> forall i | 0 <= i < |r.value| :: Fits(d, r.value[i])
  {
    hide Batches, InsertOf, InsertFails, Marks, ValidName, ValidNames, MaxParamsFor, BatchSizeFor, SameWidth, AllWidth;
    if cols == [] || rows == [] {
      return Ok([]);
    }
    BatchFits(d, |cols|, requested);
    var bs := BatchSizeFor(d, |cols|, requested);
    if bs.Err? {
      TooWide(d, |cols|, requested);
      return Err(bs.error);
    }
    var size, s, out: seq<Built> := bs.value, 0, [];
    ghost var all := Batches(rows, size);
    WidthBatches(rows, size, |cols|);
    NoBatches<seq<Value>>(size);
    while s < |rows|
      invariant 0 <= s && |out| <= |all|
      invariant all[|out|..] == if s < |rows| then Batches(rows[s..], size) else []
      invariant forall i | 0 <= i < |out| :: InsertOf(d, table, cols, all[i], out[i])
      invariant s > 0 ==> out != []
    {
      var e := if s + size > |rows| then |rows| else s + size;
      NextBatch(rows, s, size);
      FirstOf(all, |out|, rows[s..e]);
      var b := BuildInsert(d, table, cols, rows[s..e]);
      if b.Err? {
        InsertsReady(d, table, cols, all, out);
        assert InsertBatchFails(table, cols, all, |out|, b.error);
        WidthFails(table, cols, all, |out|, b.error);
        return Err(b.error);
      }
      out := out + [b.value];
      s := s + size;
    }
    InsertsReady(d, table, cols, all, out);
    assert all[..|out|] == all;
    forall i | 0 <= i < |out|
      ensures Fits(d, out[i])
    {
      InsertFits(d, table, cols, rows, requested, out[i], i);
    }
    r := Ok(out);
  }

  lemma WidthFails(table: string, cols: seq<string>, batches: seq<seq<seq<Value>>>, i: nat, e: Error)
    requires i < |batches| && InsertFails(table, cols, batches[i], e)
    ensures !(ValidName(table) && ValidNames(cols) && AllWidth(batches, |cols|))
  {
  }

  lemma InsertsReady(d: Dialect, table: string, cols: seq<string>, batches: seq<seq<seq<Value>>>, stmts: seq<Built>)
    requires |stmts| <= |batches| && forall i | 0 <= i < |stmts| :: InsertOf(d, table, cols, batches[i], stmts[i])
    ensures (stmts != [] ==> ValidName(table) && ValidNames(cols)) && AllWidth(batches[..|stmts|], |cols|)
  {
    if stmts != [] {
      assert InsertOf(d, table, cols, batches[0], stmts[0]);
    }
  }

  lemma AllWidthCons(b: seq<seq<Value>>, rest: seq<seq<seq<Value>>>, width: nat)
    ensures AllWidth([b] + rest, width) <==> SameWidth(b, width) && AllWidth(rest, width)
  {
    hide SameWidth;
    var all := [b] + rest;
    assert all[0] == b && forall i | 0 <= i < |rest| :: rest[i] == all[i + 1];
  }

  lemma {:induction false} WidthBatches(rows: seq<seq<Value>>, size: nat, width: nat)
    requires size > 0
    ensures SameWidth(rows, width) <==> AllWidth(Batches(rows, size), width)
    decreases |rows|
  {
    hide SameWidth, AllWidth;
    NoWidth(width);
    if rows != [] && |rows| <= size {
      AllWidthCons(rows, [], width);
      assert [rows] + [] == [rows];
    } else if rows != [] {
      WidthBatches(rows[size..], size, width);
      WidthSplit(rows, size, width);
      AllWidthCons(rows[..size], Batches(rows[size..], size), width);
    }
  }

  lemma NoWidth(width: nat)
    ensures SameWidth([], width) && AllWidth([], width)
  {
  }

  lemma WidthSplit(rows: seq<seq<Value>>, size: nat, width: nat)
    requires size <= |rows|
    ensures SameWidth(rows, width) <==> SameWidth(rows[..size], width) && SameWidth(rows[size..], width)
  {
    assert forall i | 0 <= i < size :: rows[i] == rows[..size][i];
    assert forall i | size <= i < |rows| :: rows[i] == rows[size..][i - size];
  }

  lemma InsertFits(d: Dialect, table: string, cols: seq<string>, rows: seq<seq<Value>>, requested: int, b: Built,
                   i: nat)
    requires 0 < |cols| <= MaxParamsFor(d)
    requires var batches := Batches(rows, InsertSize(d, cols, requested));
             i < |batches| && InsertOf(d, table, cols, batches[i], b)
    ensures Fits(d, b)
  {
    hide Batches, InsertText, Flat, Marks, ValidName, ValidNames, MaxParamsFor, BatchSizeFor;
    var size := InsertSize(d, cols, requested);
    var batch := Batches(rows, size)[i];
    BatchFits(d, |cols|, requested);
    BatchesAreRows(rows, size);
    assert batch in Batches(rows, size);
    InsertMarks(d, table, cols, batch);
    Product(|batch|, size, |cols|);
  }
}
