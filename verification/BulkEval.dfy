/** What the statements of a bulk update do, read from their text. */
module BulkEval {
  import opened SqlIdent
  import opened SqlGrammar
  import opened SqlLexer
  import opened BulkSql
  import opened BulkProof
  import opened BulkBatches
  import opened BulkRead

  // ----- what a statement does to one row -----

  function NameText(t: Token): string {
    if t.Ident? then t.name else ""
  }

  /** The column that a name stands for: names that are spelled alike. */
  function Named(c: Name): string {
    Join(seq(|c|, i requires 0 <= i < |c| => NameText(c[i])), ".")
  }

  function MarksIn(sets: seq<SetClause>): nat {
    if sets == [] then 0 else MarksIn(sets[..|sets| - 1]) + 2 * |sets[|sets| - 1].whens|
  }

  predicate KnownSet(s: SetClause, row: Row) {
    Named(s.otherwise) in row && forall w | w in s.whens :: Named(w) in row
  }

  /** The row has the columns that the statement mentions. */
  predicate Known(u: Update, row: Row) {
    Named(u.filter) in row && forall s | s in u.sets :: KnownSet(s, row)
  }

  /** CASE: the first branch whose column equals its argument, which NULL never does. */
  function EvalCase(s: SetClause, i: nat, args: seq<Value>, off: nat, row: Row): Value
    requires i <= |s.whens| && KnownSet(s, row) && off + 2 * |s.whens| <= |args|
    decreases |s.whens| - i
  {
    if i == |s.whens| then row[Named(s.otherwise)]
    else
      var v := row[Named(s.whens[i])];
      if v != Q.Nil && v == args[off + 2 * i] then args[off + 2 * i + 1] else EvalCase(s, i + 1, args, off, row)
  }

  /** Every assignment reads the row as it was; the marks are filled from left to right. */
  function EvalSets(sets: seq<SetClause>, args: seq<Value>, row: Row): Row
    requires (forall s | s in sets :: KnownSet(s, row)) && MarksIn(sets) <= |args|
  {
    if sets == [] then row
    else
      var before, s := sets[..|sets| - 1], sets[|sets| - 1];
      EvalSets(before, args, row)[Named(s.col) := EvalCase(s, 0, args, MarksIn(before), row)]
  }

  function EvalRow(u: Update, args: seq<Value>, row: Row): Row
    requires Known(u, row) && |args| == MarksIn(u.sets) + u.n
  {
    var v := row[Named(u.filter)];
    if v != Q.Nil && v in args[MarksIn(u.sets)..] then EvalSets(u.sets, args, row) else row
  }

  // ----- the intended statement does what ExecRow says -----

  lemma NamedWritten(d: Dialect, name: string)
    requires NameReadable(d, name)
    ensures Named(Written(d, name)) == name
  {
    var c, parts := Written(d, name), Split(name, '.');
    assert seq(|c|, i requires 0 <= i < |c| => NameText(c[i])) == parts;
    JoinSplit(name, '.');
  }

  lemma ClauseSize(d: Dialect, key: string, col: string, n: nat)
    ensures var c := ClauseOf(d, key, col, n);
            |c.whens| == n && (forall i | 0 <= i < n :: c.whens[i] == Written(d, key))
            && c.col == Written(d, col) && c.otherwise == Written(d, col)
  {
    hide Written;
    assert forall i | 0 <= i < n :: Copies(Written(d, key), n)[i] in Copies(Written(d, key), n);
  }

  lemma ClauseKnown(d: Dialect, key: string, cols: seq<string>, n: nat, row: Row)
    requires HasAll(row, key, cols) && NameReadable(d, key) && forall i | 0 <= i < |cols| :: NameReadable(d, cols[i])
    ensures forall s | s in ClausesOf(d, key, cols, n) :: KnownSet(s, row)
  {
    hide Written, Named, NameReadable;
    NamedWritten(d, key);
    forall i | 0 <= i < |cols|
      ensures KnownSet(ClauseOf(d, key, cols[i], n), row)
    {
      NamedWritten(d, cols[i]);
    }
  }

  lemma {:induction false} MarksAre(d: Dialect, key: string, cols: seq<string>, n: nat)
    ensures MarksIn(ClausesOf(d, key, cols, n)) == 2 * n * |cols|
  {
    hide ClauseOf;
    if cols != [] {
      var m := |cols| - 1;
      MarksAre(d, key, cols[..m], n);
      Offset(n, m);
      assert ClausesOf(d, key, cols, n)[..m] == ClausesOf(d, key, cols[..m], n);
      ClauseSize(d, key, cols[m], n);
    }
  }

  lemma {:induction false} CaseIs(d: Dialect, key: string, col: string, n: nat, i: nat, args: seq<Value>, off: nat,
                                  row: Row)
    requires NameReadable(d, key) && NameReadable(d, col)
    requires i <= n && key in row && col in row && off + 2 * n <= |args| && KnownSet(ClauseOf(d, key, col, n), row)
    ensures |ClauseOf(d, key, col, n).whens| == n
    ensures EvalCase(ClauseOf(d, key, col, n), i, args, off, row)
            == CaseAt(args, off + 2 * i, n - i, row[key], row[col])
    decreases n - i
  {
    hide ClauseOf, Written, Named, NameReadable;
    ClauseSize(d, key, col, n);
    NamedWritten(d, key);
    NamedWritten(d, col);
    if i < n {
      CaseIs(d, key, col, n, i + 1, args, off, row);
    }
  }

  lemma {:induction false} SetsAre(d: Dialect, key: string, cols: seq<string>, n: nat, args: seq<Value>, row: Row)
    requires NameReadable(d, key) && forall i | 0 <= i < |cols| :: NameReadable(d, cols[i])
    requires HasAll(row, key, cols) && 2 * n * |cols| <= |args|
    ensures MarksIn(ClausesOf(d, key, cols, n)) == 2 * n * |cols|
    ensures forall s | s in ClausesOf(d, key, cols, n) :: KnownSet(s, row)
    ensures EvalSets(ClausesOf(d, key, cols, n), args, row) == SetRow(key, cols, n, args, row)
    decreases |cols|
  {
    hide ClauseOf, Written, Named, NameReadable, EvalCase, CaseAt, MarksIn, KnownSet, EvalSets, SetRow, ClausesOf;
    MarksAre(d, key, cols, n);
    ClauseKnown(d, key, cols, n, row);
    if cols == [] {
      NoSets(d, key, n, args, row);
    } else {
      Offset(n, |cols| - 1);
      SetsAre(d, key, cols[..|cols| - 1], n, args, row);
      LastSet(d, key, cols, n, args, row);
    }
  }

  lemma LastClause(d: Dialect, key: string, cols: seq<string>, n: nat)
    requires cols != []
    ensures var m, clauses := |cols| - 1, ClausesOf(d, key, cols, n);
            |clauses| == |cols| && clauses[..m] == ClausesOf(d, key, cols[..m], n)
            && clauses[m] == ClauseOf(d, key, cols[m], n)
  {
    hide ClauseOf;
  }

  lemma NoSets(d: Dialect, key: string, n: nat, args: seq<Value>, row: Row)
    requires HasAll(row, key, []) && ClausesOf(d, key, [], n) == []
    ensures MarksIn([]) == 0 && EvalSets([], args, row) == SetRow(key, [], n, args, row)
  {
  }

  lemma LastSet(d: Dialect, key: string, cols: seq<string>, n: nat, args: seq<Value>, row: Row)
    requires NameReadable(d, key) && (forall i | 0 <= i < |cols| :: NameReadable(d, cols[i]))
    requires cols != [] && HasAll(row, key, cols) && 2 * n * |cols| <= |args|
    requires var clauses := ClausesOf(d, key, cols, n);
             MarksIn(clauses) == 2 * n * |cols| && forall s | s in clauses :: KnownSet(s, row)
    requires var first, clauses := cols[..|cols| - 1], ClausesOf(d, key, cols[..|cols| - 1], n);
             && 2 * n * |first| <= |args| && MarksIn(clauses) == 2 * n * |first|
             && (forall s | s in clauses :: KnownSet(s, row))
             && EvalSets(clauses, args, row) == SetRow(key, first, n, args, row)
    ensures EvalSets(ClausesOf(d, key, cols, n), args, row) == SetRow(key, cols, n, args, row)
  {
    hide ClauseOf, Written, Named, NameReadable, EvalCase, CaseAt, MarksIn, KnownSet, ClausesOf;
    var m := |cols| - 1;
    LastClause(d, key, cols, n);
    assert ClausesOf(d, key, cols, n)[m] in ClausesOf(d, key, cols, n);
    CaseIs(d, key, cols[m], n, 0, args, 2 * n * m, row);
    ClauseSize(d, key, cols[m], n);
    NamedWritten(d, cols[m]);
  }

  lemma IntendedIsExec(d: Dialect, table: string, key: string, cols: seq<string>, n: nat, args: seq<Value>, row: Row)
    requires AllReadable(d, table, key, cols) && HasAll(row, key, cols) && |args| == 2 * n * |cols| + n
    ensures var u := Intended(d, table, key, cols, n);
            Named(u.table) == table && Known(u, row) && MarksIn(u.sets) + u.n == |args|
            && EvalRow(u, args, row) == ExecRow(key, cols, n, args, row)
  {
    hide Written, Named, NameReadable, EvalSets, SetRow;
    SetsAre(d, key, cols, n, args, row);
    NamedWritten(d, key);
    NamedWritten(d, table);
  }

  /** Whatever a database reads in the emitted text, it updates the named table, and with the emitted
      arguments it does to a row what RunBatch says. */
  lemma TextRunsBatch(d: Dialect, table: string, key: string, cols: seq<string>, rows: seq<Row>, b: Built, u: Update,
                      row: Row)
    requires rows != [] && UpdateOf(d, table, key, cols, rows, b) && Reads(Lex(d, b.sql), u) && HasAll(row, key, cols)
    ensures Named(u.table) == table && Known(u, row) && |b.args| == MarksIn(u.sets) + u.n
    ensures EvalRow(u, b.args, row) == RunBatch(key, cols, rows, row)
  {
    hide Lex, Reads, Intended, UpdateText, EvalRow, Known, ExecRow, UpdateArgs, Named, AllReadable, ValidName;
    hide ValidNames;
    TextReadsBack(d, table, key, cols, |rows|, u);
    StatementTakesFirst(rows, key, cols, row);
    IntendedIsExec(d, table, key, cols, |rows|, UpdateArgs(rows, key, cols), row);
  }

  /** For one statement: what is read does to a row what updating key by key does if and only if the
      first and the last row with its key agree on the updated columns. */
  lemma TextUpdatesEachIff(d: Dialect, table: string, key: string, cols: seq<string>, rows: seq<Row>, b: Built,
                           u: Update, row: Row)
    requires rows != [] && UpdateOf(d, table, key, cols, rows, b) && Reads(Lex(d, b.sql), u) && HasAll(row, key, cols)
    ensures Known(u, row) && |b.args| == MarksIn(u.sets) + u.n
    ensures EvalRow(u, b.args, row) == UpdateEach(key, cols, rows, row)
       <==> row[key] == Q.Nil || BulkProof.Last(rows, key, row[key]) < 0
            || SameValues(cols, rows[First(rows, key, row[key])], rows[BulkProof.Last(rows, key, row[key])])
  {
    hide Lex, Reads, EvalRow, Known, ExecRow, UpdateArgs, UpdateEach, SameValues;
    TextRunsBatch(d, table, key, cols, rows, b, u, row);
    StatementIsEachIff(rows, key, cols, row);
  }

  // ----- the statements of a bulk update, run in order on a table -----

  predicate Executable(u: Update, args: seq<Value>, t: Table) {
    |args| == MarksIn(u.sets) + u.n && forall i | 0 <= i < |t| :: Known(u, t[i])
  }

  function EvalTable(u: Update, args: seq<Value>, t: Table): Table
    requires Executable(u, args, t)
  {
    seq(|t|, i requires 0 <= i < |t| => EvalRow(u, args, t[i]))
  }

  /** t' is what the table becomes when the texts are read and run one after the other. */
  ghost predicate Outcome(d: Dialect, stmts: seq<Built>, t: Table, t': Table)
    decreases |stmts|
  {
    if stmts == [] then t' == t
    else
      exists u ::
        Reads(Lex(d, stmts[0].sql), u) && Executable(u, stmts[0].args, t)
        && Outcome(d, stmts[1..], EvalTable(u, stmts[0].args, t), t')
  }

  /** There is as many arguments as marks. */
  lemma ArgsFit(d: Dialect, table: string, key: string, cols: seq<string>, rows: seq<Row>, b: Built, u: Update)
    requires rows != [] && UpdateOf(d, table, key, cols, rows, b) && Reads(Lex(d, b.sql), u)
    ensures |b.args| == MarksIn(u.sets) + u.n && Complete(rows, key, cols)
  {
    hide Lex, Reads, UpdateText, MarksIn, ClausesOf, Written, AllReadable, ValidName, ValidNames;
    TextReadsBack(d, table, key, cols, |rows|, u);
    SetArgsLength(rows, key, cols);
    MarksAre(d, key, cols, |rows|);
  }

  lemma TableRunsBatch(d: Dialect, table: string, key: string, cols: seq<string>, rows: seq<Row>, b: Built, u: Update,
                       t: Table)
    requires rows != [] && UpdateOf(d, table, key, cols, rows, b) && Reads(Lex(d, b.sql), u) && HasColumns(t, key, cols)
    ensures Executable(u, b.args, t) && Complete(rows, key, cols) && EvalTable(u, b.args, t) == Exec(key, cols, rows, t)
  {
    hide Lex, Reads, EvalRow, Known, RunBatch, UpdateOf, Complete, HasAll, MarksIn;
    ArgsFit(d, table, key, cols, rows, b, u);
    forall i | 0 <= i < |t|
      ensures Known(u, t[i]) && EvalRow(u, b.args, t[i]) == RunBatch(key, cols, rows, t[i])
    {
      TextRunsBatch(d, table, key, cols, rows, b, u, t[i]);
    }
  }

  lemma ReadIntended(d: Dialect, table: string, key: string, cols: seq<string>, rows: seq<Row>, b: Built, u: Update)
    requires rows != [] && UpdateOf(d, table, key, cols, rows, b) && AllReadable(d, table, key, cols)
    ensures Reads(Lex(d, b.sql), u) <==> u == Intended(d, table, key, cols, |rows|)
  {
    hide Lex, Reads, UpdateText, AllReadable, Intended;
    TextReadsBack(d, table, key, cols, |rows|, u);
  }

  /** Reading and running the texts of the batches comes out at ExecAll, and nowhere else. */
  lemma {:induction false} OutcomeIs(d: Dialect, table: string, key: string, cols: seq<string>, batches: seq<seq<Row>>,
                                     stmts: seq<Built>, t: Table, t': Table)
    requires UpdatesOf(d, table, key, cols, batches, stmts) && [] !in batches
    requires AllReadable(d, table, key, cols) && HasColumns(t, key, cols)
    ensures AllComplete(batches, key, cols)
    ensures Outcome(d, stmts, t, t') <==> t' == ExecAll(key, cols, batches, t)
    decreases |stmts|
  {
    hide Lex, Reads, UpdateOf, Complete, EvalTable, Exec, Intended, AllReadable, Executable, HasAll;
    if stmts != [] {
      var b, s := batches[0], stmts[0];
      var u := Intended(d, table, key, cols, |b|);
      assert b in batches && UpdateOf(d, table, key, cols, b, s);
      ReadIntended(d, table, key, cols, b, s, u);
      TableRunsBatch(d, table, key, cols, b, s, u, t);
      var after := Exec(key, cols, b, t);
      assert batches[1..] != [] ==> forall x | x in batches[1..] :: x in batches;
      OutcomeIs(d, table, key, cols, batches[1..], stmts[1..], after, t');
      if Outcome(d, stmts, t, t') {
        var v :| Reads(Lex(d, s.sql), v) && Executable(v, s.args, t)
          && Outcome(d, stmts[1..], EvalTable(v, s.args, t), t');
        ReadIntended(d, table, key, cols, b, s, v);
      }
      assert forall i | 0 <= i < |batches| :: batches[i] == if i == 0 then b else batches[1..][i - 1];
    }
  }

  /** The statements that BulkUpdateByKey returns, read from their text and run in order on a table,
      have one outcome; it is the table updated key by key if and only if the batches agree on the key
      of every row of the table. */
  lemma BulkTextsUpdateTable(d: Dialect, table: string, key: string, cols: seq<string>, rows: seq<Row>, size: nat,
                             stmts: seq<Built>, t: Table)
    requires size > 0 && Complete(rows, key, cols) && UpdatesOf(d, table, key, cols, Batches(rows, size), stmts)
    requires AllReadable(d, table, key, cols) && HasColumns(t, key, cols)
    ensures AllComplete(Batches(rows, size), key, cols)
    ensures Outcome(d, stmts, t, ExecAll(key, cols, Batches(rows, size), t))
    ensures forall t' :: Outcome(d, stmts, t, t') ==>
              (t' == UpdateTable(key, cols, rows, t) <==>
               forall i | 0 <= i < |t| :: BatchesAgree(key, cols, Batches(rows, size), t[i][key]))
  {
    hide Outcome, UpdatesOf, Batches, ExecAll, UpdateTable, BatchesAgree, AllReadable;
    BatchesAreRows(rows, size);
    BulkUpdateIsOneByOneIff(key, cols, rows, size, t);
    var batches := Batches(rows, size);
    OutcomeIs(d, table, key, cols, batches, stmts, t, ExecAll(key, cols, batches, t));
    forall t' | Outcome(d, stmts, t, t')
      ensures t' == ExecAll(key, cols, batches, t)
    {
      OutcomeIs(d, table, key, cols, batches, stmts, t, t');
    }
  }

  /** So with distinct keys the texts update the table key by key. */
  lemma DistinctKeysUpdateTable(d: Dialect, table: string, key: string, cols: seq<string>, rows: seq<Row>, size: nat,
                                stmts: seq<Built>, t: Table, t': Table)
    requires size > 0 && Complete(rows, key, cols) && UpdatesOf(d, table, key, cols, Batches(rows, size), stmts)
    requires AllReadable(d, table, key, cols) && HasColumns(t, key, cols) && DistinctKeys(rows, key)
    ensures Outcome(d, stmts, t, t') <==> t' == UpdateTable(key, cols, rows, t)
  {
    hide Outcome, UpdatesOf, Batches, ExecAll, UpdateTable, AllReadable, DistinctKeys;
    BatchesAreRows(rows, size);
    BulkUpdateIsOneByOne(key, cols, rows, size, t);
    OutcomeIs(d, table, key, cols, Batches(rows, size), stmts, t, t');
  }
}
