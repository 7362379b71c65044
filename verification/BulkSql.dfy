/** The bulk statement builders of pkg/db/builders.go and pkg/db/db.go. */
module BulkSql {
  import opened Wrappers
  import opened SqlIdent
  import Q

  type Value = Q.Value
  type Row = map<string, Value>

  datatype Error =
    | NoColumns
    | BadIdentifier
    | MissingKey(row: nat)
    | MissingColumn(row: nat, column: string)
    | WrongWidth(row: nat)
    | TooManyParams(perRow: int, limit: int)

  datatype Built = Built(sql: string, args: seq<Value>)

  // ----- batch sizes -----

  function MaxParamsFor(d: Dialect): nat {
    match d
    case SQLite => 999
    case Postgres => 65535
    case SQLServer => 2000
    case MySQL => 65535
    case Generic => 999
  }

  function DefaultBatchSizeFor(d: Dialect, perRow: int): (n: int)
    ensures n >= 1
  {
    if perRow <= 0 then 100
    else
      var capRows := match d
        case SQLite => 300
        case Postgres => 2000
        case MySQL => if perRow <= 8 then 1000 else if perRow <= 25 then 500 else 200
        case _ => 500;
      var maxRows := MaxParamsFor(d) / perRow;
      var capped := if maxRows > capRows then capRows else maxRows;
      if capped <= 0 then 1 else capped
  }

  function BatchSizeFor(d: Dialect, perRow: int, requested: int): Result<int, Error> {
    var limit := MaxParamsFor(d);
    if perRow > limit then Err(TooManyParams(perRow, limit))
    else
      var wanted := if requested <= 0 then DefaultBatchSizeFor(d, perRow) else requested;
      var bs := if perRow > 0 && wanted * perRow > limit then limit / perRow else wanted;
      Ok(if bs <= 0 then 1 else bs)
  }

  /** A batch of the chosen size stays within the dialect's parameter limit; only a row that is too
      wide on its own is refused. */
  lemma BatchFits(d: Dialect, perRow: int, requested: int)
    requires perRow > 0
    ensures BatchSizeFor(d, perRow, requested).Ok? <==> perRow <= MaxParamsFor(d)
    ensures var r := BatchSizeFor(d, perRow, requested);
            r.Ok? ==> r.value >= 1 && r.value * perRow <= MaxParamsFor(d)
    ensures var r := BatchSizeFor(d, perRow, requested);
            r.Ok? && requested > 0 ==>
              r.value <= requested && (r.value == requested || (r.value + 1) * perRow > MaxParamsFor(d))
  {
    var limit := MaxParamsFor(d);
    if perRow <= limit {
      Quotient(limit, perRow);
      var wanted := if requested <= 0 then DefaultBatchSizeFor(d, perRow) else requested;
      if wanted * perRow > limit && wanted < limit / perRow {
        Product(wanted, limit / perRow, perRow);
      }
      if wanted * perRow > limit {
        Product(limit / perRow, wanted, perRow);
      }
    }
  }

  /** The largest size not above the wanted one whose parameters stay within the limit; an error when
      one row is already too wide. */
  predicate IsLargest(r: Result<int, Error>, perRow: int, limit: int, wanted: int) {
    match r
    case Err(e) => perRow > limit && e == TooManyParams(perRow, limit)
    case Ok(size) =>
      perRow <= limit && 1 <= size <= wanted && size * perRow <= limit
      && (size == wanted || (size + 1) * perRow > limit)
  }

  /** The limit of each dialect, and the size it wants when none is asked for. */
  lemma BatchSizes(d: Dialect, perRow: int, requested: int)
    requires perRow > 0
    ensures var r := BatchSizeFor(d, perRow, requested);
            match d
            case SQLite => IsLargest(r, perRow, 999, if requested > 0 then requested else 300)
            case Postgres => IsLargest(r, perRow, 65535, if requested > 0 then requested else 2000)
            case SQLServer => IsLargest(r, perRow, 2000, if requested > 0 then requested else 500)
            case MySQL => IsLargest(r, perRow, 65535, if requested > 0 then requested else if perRow <= 8 then 1000
                                                      else if perRow <= 25 then 500 else 200)
            case Generic => IsLargest(r, perRow, 999, if requested > 0 then requested else 500)
  {
    var limit := MaxParamsFor(d);
    BatchFits(d, perRow, requested);
    if perRow <= limit && requested <= 0 {
      Quotient(limit, perRow);
      var size := DefaultBatchSizeFor(d, perRow);
      Product(size, limit / perRow, perRow);
      Product(size + 1, limit / perRow, perRow);
    }
  }

  lemma Quotient(n: int, k: int)
    requires 0 < k <= n
    ensures n / k >= 1 && (n / k) * k <= n < (n / k + 1) * k
  {
  }

  lemma Product(a: int, b: int, k: int)
    requires k > 0
    ensures a <= b <==> a * k <= b * k
  {
  }

  // ----- buildBatches -----

  function Batches<T>(rows: seq<T>, size: nat): seq<seq<T>>
    requires size > 0
  {
    if rows == [] then []
    else if |rows| <= size then [rows]
    else [rows[..size]] + Batches(rows[size..], size)
  }

  function Concat<T>(batches: seq<seq<T>>): seq<T> {
    if batches == [] then [] else batches[0] + Concat(batches[1..])
  }

  /** Batches are non-empty, no longer than asked, and hold the rows in order. */
  lemma {:induction false} BatchesAreRows<T>(rows: seq<T>, size: nat)
    requires size > 0
    ensures Concat(Batches(rows, size)) == rows
    ensures forall b | b in Batches(rows, size) :: 0 < |b| <= size
    ensures forall i | 0 <= i < |Batches(rows, size)| - 1 :: |Batches(rows, size)[i]| == size
  {
    if |rows| > size {
      var first, rest := rows[..size], Batches(rows[size..], size);
      BatchesAreRows(rows[size..], size);
      assert first + rows[size..] == rows;
      assert ([first] + rest)[1..] == rest;
      assert forall i | 0 < i <= |rest| :: ([first] + rest)[i] == rest[i - 1];
    } else if rows != [] {
      assert [rows][1..] == [] && rows + [] == rows;
    }
  }

  lemma NoBatches<T>(size: nat)
    requires size > 0
    ensures Batches<T>([], size) == []
  {
  }

  lemma NextBatch<T>(rows: seq<T>, s: nat, size: nat)
    requires s < |rows| && size > 0
    ensures Batches(rows[s..], size)
         == [rows[s..if s + size > |rows| then |rows| else s + size]]
            + if s + size < |rows| then Batches(rows[s + size..], size) else []
  {
    if s + size < |rows| {
      assert rows[s..][size..] == rows[s + size..] && rows[s..][..size] == rows[s..s + size];
    } else {
      assert rows[s..|rows|] == rows[s..];
    }
  }

  // ----- text -----

  function Repeat(s: string, n: nat): string {
    if n == 0 then "" else s + Repeat(s, n - 1)
  }

  function TrimComma(s: string): string {
    if s != "" && s[|s| - 1] == ',' then s[..|s| - 1] else s
  }

  /** n question marks between commas. */
  function MarkList(n: nat): string {
    TrimComma(Repeat("?,", n))
  }

  function QuotedAll(d: Dialect, names: seq<string>): (r: seq<string>)
    ensures |r| == |names|
  {
    seq(|names|, i requires 0 <= i < |names| => Quoted(d, names[i]))
  }

  predicate ValidNames(names: seq<string>) {
    forall i | 0 <= i < |names| :: ValidName(names[i])
  }

  function SetText(d: Dialect, key: string, col: string, n: nat): string {
    Quoted(d, col) + " = CASE " + Repeat("WHEN " + Quoted(d, key) + " = ? THEN ? ", n)
    + "ELSE " + Quoted(d, col) + " END"
  }

  function SetList(d: Dialect, key: string, cols: seq<string>, n: nat): string {
    if cols == [] then ""
    else if |cols| == 1 then SetText(d, key, cols[0], n)
    else SetList(d, key, cols[..|cols| - 1], n) + "," + SetText(d, key, cols[|cols| - 1], n)
  }

  function UpdateText(d: Dialect, table: string, key: string, cols: seq<string>, n: nat): string {
    "UPDATE " + Quoted(d, table) + " SET " + SetList(d, key, cols, n)
    + " WHERE " + Quoted(d, key) + " IN (" + MarkList(n) + ")"
  }

  // ----- arguments, in the order of the question marks -----

  predicate HasAll(r: Row, key: string, cols: seq<string>) {
    key in r && forall i | 0 <= i < |cols| :: cols[i] in r
  }

  predicate Complete(rows: seq<Row>, key: string, cols: seq<string>) {
    forall i | 0 <= i < |rows| :: HasAll(rows[i], key, cols)
  }

  predicate AllComplete(batches: seq<seq<Row>>, key: string, cols: seq<string>) {
    forall i | 0 <= i < |batches| :: Complete(batches[i], key, cols)
  }

  lemma {:induction false} BatchesComplete(key: string, cols: seq<string>, rows: seq<Row>, size: nat)
    requires size > 0 && Complete(rows, key, cols)
    ensures AllComplete(Batches(rows, size), key, cols)
    decreases |rows|
  {
    if |rows| > size {
      BatchesComplete(key, cols, rows[size..], size);
    }
  }

  function CaseArgs(rows: seq<Row>, key: string, col: string): seq<Value>
    requires forall i | 0 <= i < |rows| :: key in rows[i] && col in rows[i]
  {
    if rows == [] then []
    else CaseArgs(rows[..|rows| - 1], key, col) + [rows[|rows| - 1][key], rows[|rows| - 1][col]]
  }

  function SetArgs(rows: seq<Row>, key: string, cols: seq<string>): seq<Value>
    requires Complete(rows, key, cols)
  {
    if cols == [] then []
    else SetArgs(rows, key, cols[..|cols| - 1]) + CaseArgs(rows, key, cols[|cols| - 1])
  }

  function KeyArgs(rows: seq<Row>, key: string): (r: seq<Value>)
    requires forall i | 0 <= i < |rows| :: key in rows[i]
    ensures |r| == |rows|
  {
    seq(|rows|, i requires 0 <= i < |rows| => rows[i][key])
  }

  function UpdateArgs(rows: seq<Row>, key: string, cols: seq<string>): seq<Value>
    requires Complete(rows, key, cols)
  {
    SetArgs(rows, key, cols) + KeyArgs(rows, key)
  }

  // ----- what is missing -----

  /** Row i is the first that lacks the key or the column. */
  predicate CaseGap(rows: seq<Row>, key: string, col: string, i: nat) {
    i < |rows| && !(key in rows[i] && col in rows[i])
    && forall j | 0 <= j < i :: key in rows[j] && col in rows[j]
  }

  function GapError(rows: seq<Row>, key: string, col: string, i: nat): Error
    requires i < |rows|
  {
    if key !in rows[i] then MissingKey(i) else MissingColumn(i, col)
  }

  /** The first gap, column by column and in each column row by row. */
  predicate GapAt(rows: seq<Row>, key: string, cols: seq<string>, k: nat, i: nat) {
    k < |cols| && CaseGap(rows, key, cols[k], i) && (k > 0 ==> Complete(rows, key, cols[..k]))
  }

  /** Nothing stands in the way of the statement. */
  predicate Ready(table: string, key: string, cols: seq<string>, rows: seq<Row>) {
    cols != [] && ValidName(table) && ValidName(key) && ValidNames(cols) && Complete(rows, key, cols)
  }

  /** What buildBulkUpdateByKeySQL reports when it fails. */
  ghost predicate UpdateFails(table: string, key: string, cols: seq<string>, rows: seq<Row>, e: Error) {
    match e
    case NoColumns => cols == []
    case BadIdentifier => cols != [] && !(ValidName(table) && ValidName(key) && ValidNames(cols))
    case _ =>
      cols != [] && ValidName(table) && ValidName(key) && ValidNames(cols)
      && exists k: nat, i: nat | i < |rows| && GapAt(rows, key, cols, k, i) :: e == GapError(rows, key, cols[k], i)
  }

  /** The error names a row that lacks what it says. */
  lemma UpdateErrorTells(table: string, key: string, cols: seq<string>, rows: seq<Row>, e: Error)
    requires UpdateFails(table, key, cols, rows, e)
    ensures match e
            case NoColumns => cols == []
            case BadIdentifier => !ValidName(table) || !ValidName(key) || exists c | c in cols :: !ValidName(c)
            case MissingKey(i) => i < |rows| && key !in rows[i]
            case MissingColumn(i, c) => i < |rows| && key in rows[i] && c in cols && c !in rows[i]
            case _ => false
  {
    hide ValidName;
  }

  /** The CASE of one column: its text and arguments, or the first row that lacks a value. */
  method BuildCase(d: Dialect, key: string, col: string, rows: seq<Row>) returns (r: Result<Built, Error>)
    ensures match r
            case Ok(b) => (forall i | 0 <= i < |rows| :: key in rows[i] && col in rows[i])
                          && b == Built(SetText(d, key, col, |rows|), CaseArgs(rows, key, col))
            case Err(e) => exists i | 0 <= i < |rows| && CaseGap(rows, key, col, i) :: e == GapError(rows, key, col, i)
  {
    hide Quoted, CaseArgs, Repeat;
    var head, when := Quoted(d, col) + " = CASE ", "WHEN " + Quoted(d, key) + " = ? THEN ? ";
    var b, args: seq<Value> := head, [];
    NothingYet(head, when, key, col);
    assert rows[..0] == [];
    for i := 0 to |rows|
      invariant forall j | 0 <= j < i :: key in rows[j] && col in rows[j]
      invariant b == head + Repeat(when, i)
      invariant args == CaseArgs(rows[..i], key, col)
    {
      assert !(key in rows[i] && col in rows[i]) ==> CaseGap(rows, key, col, i);
      if key !in rows[i] {
        return Err(MissingKey(i));
      }
      if col !in rows[i] {
        return Err(MissingColumn(i, col));
      }
      RepeatOneMore(when, i);
      assert head + Repeat(when, i) + when == head + (Repeat(when, i) + when);
      b := b + when;
      CaseArgsOneMore(rows, i, key, col);
      args := args + [rows[i][key], rows[i][col]];
    }
    assert rows[..|rows|] == rows;
    r := Ok(Built(b + "ELSE " + Quoted(d, col) + " END", args));
  }

  lemma NothingYet(head: string, when: string, key: string, col: string)
    ensures head == head + Repeat(when, 0) && CaseArgs([], key, col) == []
  {
  }

  lemma CaseArgsOneMore(rows: seq<Row>, i: nat, key: string, col: string)
    requires i < |rows| && forall j | 0 <= j <= i :: key in rows[j] && col in rows[j]
    ensures CaseArgs(rows[..i + 1], key, col) == CaseArgs(rows[..i], key, col) + [rows[i][key], rows[i][col]]
  {
    assert rows[..i + 1][..i] == rows[..i];
  }

  lemma {:induction false} RepeatOneMore(s: string, n: nat)
    ensures Repeat(s, n + 1) == Repeat(s, n) + s
  {
    if n > 0 {
      RepeatOneMore(s, n - 1);
      assert s + (Repeat(s, n - 1) + s) == (s + Repeat(s, n - 1)) + s;
    }
  }

  /** buildBulkUpdateByKeySQL */
  method BuildUpdate(d: Dialect, table: string, key: string, cols: seq<string>, rows: seq<Row>)
    returns (r: Result<Built, Error>)
    ensures rows == [] ==> r == Ok(Built("", []))
    ensures rows != [] && r.Ok? ==> UpdateOf(d, table, key, cols, rows, r.value)
    ensures rows != [] && r.Err? ==> UpdateFails(table, key, cols, rows, r.error)
  {
    hide SetList, SetArgs, ValidName, Quoted, GapAt;
    if |rows| == 0 {
      return Ok(Built("", []));
    }
    if |cols| == 0 {
      return Err(NoColumns);
    }
    var qt := QuoteIdent(d, table);
    var qk := QuoteIdent(d, key);
    if qt.None? || qk.None? {
      return Err(BadIdentifier);
    }
    var valid := AllValid(cols);
    if !valid {
      return Err(BadIdentifier);
    }
    var sets := BuildSets(d, key, cols, rows);
    if sets.Err? {
      return sets;
    }
    var text := "UPDATE " + qt.value + " SET " + sets.value.sql
                + " WHERE " + qk.value + " IN (" + MarkList(|rows|) + ")";
    r := Ok(Built(text, sets.value.args + KeyArgs(rows, key)));
  }

  /** The statement for these rows. */
  predicate UpdateOf(d: Dialect, table: string, key: string, cols: seq<string>, rows: seq<Row>, b: Built) {
    Ready(table, key, cols, rows) && b == Built(UpdateText(d, table, key, cols, |rows|), UpdateArgs(rows, key, cols))
  }

  /** quoteAll, for its error. */
  method AllValid(names: seq<string>) returns (ok: bool)
    ensures ok == ValidNames(names)
  {
    for i := 0 to |names|
      invariant forall j | 0 <= j < i :: ValidName(names[j])
    {
      var valid := ValidateIdent(names[i]);
      if !valid {
        return false;
      }
    }
    return true;
  }

  /** The loop over the updated columns. */
  method BuildSets(d: Dialect, key: string, cols: seq<string>, rows: seq<Row>) returns (r: Result<Built, Error>)
    requires rows != [] && cols != []
    ensures match r
            case Ok(b) =>
              Complete(rows, key, cols) && b == Built(SetList(d, key, cols, |rows|), SetArgs(rows, key, cols))
            case Err(e) =>
              exists k: nat, i: nat | i < |rows| && GapAt(rows, key, cols, k, i) ::
                e == GapError(rows, key, cols[k], i)
  {
    hide SetText, CaseArgs, CaseGap, GapError, SetList, SetArgs;
    var b, args: seq<Value> := "", [];
    for i := 0 to |cols|
      invariant i > 0 ==> Complete(rows, key, cols[..i])
      invariant i > 0 ==> b == SetList(d, key, cols[..i], |rows|) && args == SetArgs(rows, key, cols[..i])
      invariant i == 0 ==> b == "" && args == []
    {
      var c := BuildCase(d, key, cols[i], rows);
      if c.Err? {
        ghost var j :| 0 <= j < |rows| && CaseGap(rows, key, cols[i], j) && c.error == GapError(rows, key, cols[i], j);
        assert GapAt(rows, key, cols, i, j);
        return c;
      }
      SetsOneMore(d, key, cols, rows, i);
      b := if i > 0 then b + "," + c.value.sql else c.value.sql;
      args := args + c.value.args;
    }
    assert cols[..|cols|] == cols;
    r := Ok(Built(b, args));
  }

  lemma SetsOneMore(d: Dialect, key: string, cols: seq<string>, rows: seq<Row>, i: nat)
    requires i < |cols| && (forall j | 0 <= j < |rows| :: key in rows[j] && cols[i] in rows[j])
    requires i > 0 ==> Complete(rows, key, cols[..i])
    ensures Complete(rows, key, cols[..i + 1])
    ensures SetArgs(rows, key, cols[..i + 1])
         == (if i > 0 then SetArgs(rows, key, cols[..i]) else []) + CaseArgs(rows, key, cols[i])
    ensures SetList(d, key, cols[..i + 1], |rows|)
         == (if i > 0 then SetList(d, key, cols[..i], |rows|) + "," else "") + SetText(d, key, cols[i], |rows|)
  {
    hide SetText, CaseArgs;
    assert cols[..i + 1][..i] == cols[..i] && cols[..i + 1][i] == cols[i];
  }

  // ----- all batches -----

  /** The statements of the batches. */
  predicate UpdatesOf(d: Dialect, table: string, key: string, cols: seq<string>, batches: seq<seq<Row>>,
                      stmts: seq<Built>) {
    |stmts| == |batches| && forall i | 0 <= i < |stmts| :: UpdateOf(d, table, key, cols, batches[i], stmts[i])
  }

  /** The first batch that fails. */
  ghost predicate BatchFails(table: string, key: string, cols: seq<string>, batches: seq<seq<Row>>, i: nat, e: Error) {
    i < |batches| && UpdateFails(table, key, cols, batches[i], e)
    && AllReady(table, key, cols, batches[..i])
  }

  /** buildBatches for BulkUpdateByKey: every statement is built before any runs. */
  method BuildUpdateBatches(d: Dialect, table: string, key: string, cols: seq<string>, rows: seq<Row>, size: int)
    returns (r: Result<seq<Built>, Error>)
    requires size > 0
    ensures match r
            case Ok(stmts) => UpdatesOf(d, table, key, cols, Batches(rows, size), stmts)
            case Err(e) => exists i: nat :: BatchFails(table, key, cols, Batches(rows, size), i, e)
  {
    hide UpdateOf, UpdateFails, Ready, Batches;
    NoBatches<Row>(size);
    var out: seq<Built>, s := [], 0;
    ghost var all := Batches(rows, size);
    while s < |rows|
      invariant 0 <= s && |out| <= |all|
      invariant all[|out|..] == if s < |rows| then Batches(rows[s..], size) else []
      invariant forall i | 0 <= i < |out| :: UpdateOf(d, table, key, cols, all[i], out[i])
    {
      var e := if s + size > |rows| then |rows| else s + size;
      NextBatch(rows, s, size);
      FirstOf(all, |out|, rows[s..e]);
      var b := BuildUpdate(d, table, key, cols, rows[s..e]);
      if b.Err? {
        BatchesReady(d, table, key, cols, all, out);
        assert BatchFails(table, key, cols, all, |out|, b.error);
        return Err(b.error);
      }
      out := out + [b.value];
      s := s + size;
    }
    r := Ok(out);
  }

  lemma FirstOf<T>(all: seq<T>, k: nat, x: T)
    requires k <= |all| && all[k..] != [] && all[k..][0] == x
    ensures k < |all| && all[k] == x && all[k + 1..] == all[k..][1..]
  {
  }

  lemma BatchesReady(d: Dialect, table: string, key: string, cols: seq<string>, batches: seq<seq<Row>>,
                     stmts: seq<Built>)
    requires |stmts| <= |batches| && forall i | 0 <= i < |stmts| :: UpdateOf(d, table, key, cols, batches[i], stmts[i])
    ensures AllReady(table, key, cols, batches[..|stmts|])
  {
  }

  lemma FailsIsNotReady(table: string, key: string, cols: seq<string>, rows: seq<Row>, e: Error)
    requires UpdateFails(table, key, cols, rows, e)
    ensures !Ready(table, key, cols, rows)
  {
  }

  lemma ReadySplit(table: string, key: string, cols: seq<string>, rows: seq<Row>, size: nat)
    requires size <= |rows|
    ensures Ready(table, key, cols, rows)
       <==> Ready(table, key, cols, rows[..size]) && Ready(table, key, cols, rows[size..])
  {
    hide ValidName, ValidNames, HasAll;
    assert forall i | 0 <= i < size :: rows[i] == rows[..size][i];
    assert forall i | size <= i < |rows| :: rows[i] == rows[size..][i - size];
  }

  predicate AllReady(table: string, key: string, cols: seq<string>, batches: seq<seq<Row>>) {
    forall i | 0 <= i < |batches| :: Ready(table, key, cols, batches[i])
  }

  lemma AllReadyCons(table: string, key: string, cols: seq<string>, b: seq<Row>, rest: seq<seq<Row>>)
    ensures AllReady(table, key, cols, [b] + rest) <==> Ready(table, key, cols, b) && AllReady(table, key, cols, rest)
  {
    hide Ready;
    var all := [b] + rest;
    assert all[0] == b && forall i | 0 <= i < |rest| :: rest[i] == all[i + 1];
  }

  /** The batches are ready exactly when all rows are. */
  lemma {:induction false} ReadyBatches(table: string, key: string, cols: seq<string>, rows: seq<Row>, size: nat)
    requires size > 0 && rows != []
    ensures Ready(table, key, cols, rows) <==> AllReady(table, key, cols, Batches(rows, size))
    decreases |rows|
  {
    hide Ready, AllReady;
    if |rows| <= size {
      AllReadyCons(table, key, cols, rows, []);
      assert [rows] + [] == [rows];
      NoneReady(table, key, cols);
    } else {
      ReadyBatches(table, key, cols, rows[size..], size);
      ReadySplit(table, key, cols, rows, size);
      AllReadyCons(table, key, cols, rows[..size], Batches(rows[size..], size));
    }
  }

  lemma NoneReady(table: string, key: string, cols: seq<string>)
    ensures AllReady(table, key, cols, [])
  {
  }

  // ----- INSERT -----

  function RowMarks(n: nat): string {
    "(" + MarkList(n) + ")"
  }

  function ValueList(width: nat, n: nat): string {
    if n == 0 then "" else if n == 1 then RowMarks(width) else ValueList(width, n - 1) + "," + RowMarks(width)
  }

  function InsertText(d: Dialect, table: string, cols: seq<string>, n: nat): string {
    "INSERT INTO " + Quoted(d, table) + " (" + Join(QuotedAll(d, cols), ",") + ") VALUES " + ValueList(|cols|, n)
  }

  function Flat(rows: seq<seq<Value>>): seq<Value> {
    if rows == [] then [] else Flat(rows[..|rows| - 1]) + rows[|rows| - 1]
  }

  predicate SameWidth(rows: seq<seq<Value>>, width: nat) {
    forall i | 0 <= i < |rows| :: |rows[i]| == width
  }

  /** The statement for these rows. */
  predicate InsertOf(d: Dialect, table: string, cols: seq<string>, rows: seq<seq<Value>>, b: Built) {
    ValidName(table) && ValidNames(cols) && SameWidth(rows, |cols|)
    && b == Built(InsertText(d, table, cols, |rows|), Flat(rows))
  }

  /** What buildInsertSQL reports when it fails: a bad name, or the first row of another width. */
  predicate InsertFails(table: string, cols: seq<string>, rows: seq<seq<Value>>, e: Error) {
    match e
    case BadIdentifier => !(ValidName(table) && ValidNames(cols))
    case WrongWidth(i) =>
      ValidName(table) && ValidNames(cols) && i < |rows| && |rows[i]| != |cols| && SameWidth(rows[..i], |cols|)
    case _ => false
  }

  lemma NothingFlat(rows: seq<seq<Value>>)
    ensures Flat(rows[..0]) == []
  {
  }

  lemma FlatSnoc(rows: seq<seq<Value>>, i: nat)
    requires i < |rows|
    ensures Flat(rows[..i + 1]) == Flat(rows[..i]) + rows[i]
  {
    assert rows[..i + 1][..i] == rows[..i];
  }

  /** buildInsertSQL */
  method BuildInsert(d: Dialect, table: string, cols: seq<string>, rows: seq<seq<Value>>)
    returns (r: Result<Built, Error>)
    ensures r.Ok? ==> InsertOf(d, table, cols, rows, r.value)
    ensures r.Err? ==> InsertFails(table, cols, rows, r.error)
  {
    hide ValidName, Quoted, Flat;
    var qt := QuoteIdent(d, table);
    if qt.None? {
      return Err(BadIdentifier);
    }
    var valid := AllValid(cols);
    if !valid {
      return Err(BadIdentifier);
    }
    for i := 0 to |rows|
      invariant forall j | 0 <= j < i :: |rows[j]| == |cols|
    {
      if |rows[i]| != |cols| {
        return Err(WrongWidth(i));
      }
    }
    var b, args: seq<Value> := "", [];
    NothingFlat(rows);
    for i := 0 to |rows|
      invariant b == ValueList(|cols|, i) && args == Flat(rows[..i])
    {
      if i > 0 {
        b := b + ",";
      }
      b := b + RowMarks(|cols|);
      args := args + rows[i];
      FlatSnoc(rows, i);
    }
    assert rows[..|rows|] == rows;
    r := Ok(Built("INSERT INTO " + qt.value + " (" + Join(QuotedAll(d, cols), ",") + ") VALUES " + b, args));
  }
}
