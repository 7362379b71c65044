/** What the bulk statements do, and that their placeholders and arguments match. */
module BulkProof {
  import opened SqlIdent
  import opened BulkSql

  // ----- what an update statement does to one row of the table -----

  /** CASE WHEN key = args[off] THEN args[off + 1] ... ELSE old END, with n branches. */
  function CaseAt(args: seq<Value>, off: nat, n: nat, v: Value, old_: Value): Value
    requires off + 2 * n <= |args|
    decreases n
  {
    if n == 0 then old_
    else if v != Q.Nil && args[off] == v then args[off + 1]
    else CaseAt(args, off + 2, n - 1, v, old_)
  }

  /** key IN (vals); a NULL is equal to nothing. */
  predicate InList(v: Value, vals: seq<Value>) {
    v != Q.Nil && v in vals
  }

  /** All assignments read the row as it was. */
  function SetRow(key: string, cols: seq<string>, n: nat, args: seq<Value>, row: Row): Row
    requires HasAll(row, key, cols) && 2 * n * |cols| <= |args|
  {
    if cols == [] then row
    else
      var m := |cols| - 1;
      Offset(n, m);
      SetRow(key, cols[..m], n, args, row)[cols[m] := CaseAt(args, 2 * n * m, n, row[key], row[cols[m]])]
  }

  lemma Offset(n: nat, m: nat)
    ensures 2 * n * m + 2 * n == 2 * n * (m + 1) && 2 * n * m >= 0
  {
  }

  /** The statement over n rows, its arguments taken by position. */
  function ExecRow(key: string, cols: seq<string>, n: nat, args: seq<Value>, row: Row): Row
    requires HasAll(row, key, cols) && |args| == 2 * n * |cols| + n
  {
    if InList(row[key], args[|args| - n..]) then SetRow(key, cols, n, args, row) else row
  }

  // ----- updating each key one by one -----

  function Assign(row: Row, cols: seq<string>, r: Row): (a: Row)
    requires forall i | 0 <= i < |cols| :: cols[i] in r
    ensures a.Keys == row.Keys + (set c | c in cols)
    ensures forall c | c in row.Keys && c !in cols :: a[c] == row[c]
    ensures forall c | c in cols :: a[c] == r[c]
  {
    if cols == [] then row
    else
      var first, last := cols[..|cols| - 1], cols[|cols| - 1];
      assert forall c :: c in cols <==> c in first || c == last;
      Assign(row, first, r)[last := r[last]]
  }

  predicate Matches(key: string, r: Row, row: Row)
    requires key in r && key in row
  {
    row[key] != Q.Nil && row[key] == r[key]
  }

  /** UPDATE t SET c = r[c], ... WHERE key = r[key], for one row of the table. */
  function UpdateOne(key: string, cols: seq<string>, r: Row, row: Row): (u: Row)
    requires HasAll(r, key, cols) && HasAll(row, key, cols)
    ensures HasAll(u, key, cols) && u[key] == row[key]
  {
    if Matches(key, r, row) then Assign(row, cols, r) else row
  }

  function UpdateEach(key: string, cols: seq<string>, rows: seq<Row>, row: Row): (u: Row)
    requires Complete(rows, key, cols) && HasAll(row, key, cols)
    ensures HasAll(u, key, cols) && u[key] == row[key]
  {
    if rows == [] then row
    else UpdateOne(key, cols, rows[|rows| - 1], UpdateEach(key, cols, rows[..|rows| - 1], row))
  }

  // ----- first and last match -----

  /** The first row with key v, or the number of rows. */
  function First(rows: seq<Row>, key: string, v: Value): (k: nat)
    requires forall i | 0 <= i < |rows| :: key in rows[i]
    ensures k <= |rows|
    ensures forall i | 0 <= i < k :: rows[i][key] != v
    ensures k < |rows| ==> rows[k][key] == v
  {
    if rows == [] || rows[0][key] == v then 0 else 1 + First(rows[1..], key, v)
  }

  /** The last row with key v, or -1. */
  function Last(rows: seq<Row>, key: string, v: Value): (k: int)
    requires forall i | 0 <= i < |rows| :: key in rows[i]
    ensures -1 <= k < |rows|
    ensures forall i | k < i < |rows| :: rows[i][key] != v
    ensures k >= 0 ==> rows[k][key] == v
  {
    if rows == [] then -1
    else if rows[|rows| - 1][key] == v then |rows| - 1
    else Last(rows[..|rows| - 1], key, v)
  }

  // ----- positions of the arguments -----

  lemma {:induction false} CaseArgsAt(rows: seq<Row>, key: string, col: string)
    requires forall i | 0 <= i < |rows| :: key in rows[i] && col in rows[i]
    ensures var a := CaseArgs(rows, key, col);
            |a| == 2 * |rows| && forall j | 0 <= j < |rows| :: a[2 * j] == rows[j][key] && a[2 * j + 1] == rows[j][col]
  {
    if rows != [] {
      CaseArgsAt(rows[..|rows| - 1], key, col);
    }
  }

  lemma {:induction false} SetArgsLength(rows: seq<Row>, key: string, cols: seq<string>)
    requires Complete(rows, key, cols)
    ensures |SetArgs(rows, key, cols)| == 2 * |rows| * |cols|
  {
    if cols != [] {
      var m := |cols| - 1;
      SetArgsLength(rows, key, cols[..m]);
      CaseArgsAt(rows, key, cols[m]);
      Offset(|rows|, m);
    }
  }

  lemma {:induction false} CaseFinds(rows: seq<Row>, key: string, col: string, args: seq<Value>, off: nat, v: Value,
                                     old_: Value)
    requires forall i | 0 <= i < |rows| :: key in rows[i] && col in rows[i]
    requires off + 2 * |rows| <= |args| && v != Q.Nil
    requires forall j | 0 <= j < |rows| :: args[off + 2 * j] == rows[j][key] && args[off + 2 * j + 1] == rows[j][col]
    ensures CaseAt(args, off, |rows|, v, old_)
            == var k := First(rows, key, v); if k < |rows| then rows[k][col] else old_
    decreases |rows|
  {
    if rows != [] {
      assert args[off + 2 * 0] == rows[0][key] && args[off + 2 * 0 + 1] == rows[0][col];
      if rows[0][key] != v {
        forall j | 0 <= j < |rows[1..]|
          ensures args[off + 2 + 2 * j] == rows[1..][j][key] && args[off + 2 + 2 * j + 1] == rows[1..][j][col]
        {
          assert args[off + 2 * (j + 1)] == rows[j + 1][key] && args[off + 2 * (j + 1) + 1] == rows[j + 1][col];
        }
        CaseFinds(rows[1..], key, col, args, off + 2, v, old_);
      }
    }
  }

  lemma {:induction false} SetRowAssigns(rows: seq<Row>, key: string, cols: seq<string>, rest: seq<Value>, row: Row,
                                         k: nat)
    requires Complete(rows, key, cols) && HasAll(row, key, cols)
    requires row[key] != Q.Nil && k == First(rows, key, row[key]) < |rows|
    requires 2 * |rows| * |cols| <= |SetArgs(rows, key, cols) + rest|
    ensures SetRow(key, cols, |rows|, SetArgs(rows, key, cols) + rest, row) == Assign(row, cols, rows[k])
    decreases |cols|
  {
    if cols != [] {
      var m := |cols| - 1;
      var before, here := SetArgs(rows, key, cols[..m]), CaseArgs(rows, key, cols[m]);
      SetArgsLength(rows, key, cols[..m]);
      CaseArgsAt(rows, key, cols[m]);
      var args := SetArgs(rows, key, cols) + rest;
      assert args == before + (here + rest);
      Offset(|rows|, m);
      SetRowAssigns(rows, key, cols[..m], here + rest, row, k);
      CaseFinds(rows, key, cols[m], args, 2 * |rows| * m, row[key], row[cols[m]]);
    }
  }

  lemma KeyListed(rows: seq<Row>, key: string, v: Value)
    requires forall i | 0 <= i < |rows| :: key in rows[i]
    ensures v in KeyArgs(rows, key) <==> First(rows, key, v) < |rows|
  {
    var k := First(rows, key, v);
    if k < |rows| {
      assert KeyArgs(rows, key)[k] == v;
    }
  }

  /** The statement sets a matching row to the values of the first row with its key, and leaves
      every other row alone. */
  lemma StatementTakesFirst(rows: seq<Row>, key: string, cols: seq<string>, row: Row)
    requires Complete(rows, key, cols) && HasAll(row, key, cols)
    ensures |UpdateArgs(rows, key, cols)| == 2 * |rows| * |cols| + |rows|
    ensures var k := First(rows, key, row[key]);
            ExecRow(key, cols, |rows|, UpdateArgs(rows, key, cols), row)
            == if row[key] != Q.Nil && k < |rows| then Assign(row, cols, rows[k]) else row
  {
    var args := UpdateArgs(rows, key, cols);
    SetArgsLength(rows, key, cols);
    assert args[|args| - |rows|..] == KeyArgs(rows, key);
    KeyListed(rows, key, row[key]);
    var k := First(rows, key, row[key]);
    if row[key] != Q.Nil && k < |rows| {
      SetRowAssigns(rows, key, cols, KeyArgs(rows, key), row, k);
    }
  }

  lemma AssignTwice(row: Row, cols: seq<string>, r: Row, r': Row)
    requires forall i | 0 <= i < |cols| :: cols[i] in r && cols[i] in r'
    ensures Assign(Assign(row, cols, r), cols, r') == Assign(row, cols, r')
  {
  }

  /** One by one, the last row with the key decides. */
  lemma {:induction false} EachTakesLast(rows: seq<Row>, key: string, cols: seq<string>, row: Row)
    requires Complete(rows, key, cols) && HasAll(row, key, cols)
    ensures var k := Last(rows, key, row[key]);
            UpdateEach(key, cols, rows, row)
            == if row[key] != Q.Nil && k >= 0 then Assign(row, cols, rows[k]) else row
  {
    if rows != [] {
      var n := |rows| - 1;
      EachTakesLast(rows[..n], key, cols, row);
      var k := Last(rows[..n], key, row[key]);
      if row[key] != Q.Nil && k >= 0 && rows[n][key] == row[key] {
        AssignTwice(row, cols, rows[k], rows[n]);
      }
    }
  }

  predicate SameValues(cols: seq<string>, r: Row, r': Row)
    requires forall i | 0 <= i < |cols| :: cols[i] in r && cols[i] in r'
  {
    forall i | 0 <= i < |cols| :: r[cols[i]] == r'[cols[i]]
  }

  /** One statement does to a row what updating the keys one by one does, if and only if the first
      and the last of the rows with its key agree on the updated columns. */
  lemma StatementIsEachIff(rows: seq<Row>, key: string, cols: seq<string>, row: Row)
    requires Complete(rows, key, cols) && HasAll(row, key, cols)
    ensures |UpdateArgs(rows, key, cols)| == 2 * |rows| * |cols| + |rows|
    ensures ExecRow(key, cols, |rows|, UpdateArgs(rows, key, cols), row) == UpdateEach(key, cols, rows, row)
       <==> row[key] == Q.Nil || Last(rows, key, row[key]) < 0
            || SameValues(cols, rows[First(rows, key, row[key])], rows[Last(rows, key, row[key])])
  {
    hide ExecRow, UpdateEach, UpdateArgs;
    StatementTakesFirst(rows, key, cols, row);
    EachTakesLast(rows, key, cols, row);
    var k, l := First(rows, key, row[key]), Last(rows, key, row[key]);
    assert k < |rows| <==> l >= 0;
    if row[key] != Q.Nil && l >= 0 {
      var a, b := Assign(row, cols, rows[k]), Assign(row, cols, rows[l]);
      assert forall i | 0 <= i < |cols| :: cols[i] in cols;
      if SameValues(cols, rows[k], rows[l]) {
        forall c | c in cols
          ensures a[c] == b[c]
        {
          var i :| 0 <= i < |cols| && cols[i] == c;
        }
        assert a == b;
      }
    }
  }

  // ----- placeholders -----

  function Marks(s: string): nat {
    multiset(s)['?']
  }

  lemma MarksAdd(a: string, b: string)
    ensures Marks(a + b) == Marks(a) + Marks(b)
  {
  }

  lemma NoMarks(s: string)
    requires '?' !in s
    ensures Marks(s) == 0
  {
  }

  lemma Times(n: nat, k: nat)
    requires n > 0
    ensures n * k == (n - 1) * k + k
  {
  }

  lemma {:induction false} RepeatMarks(s: string, n: nat)
    ensures Marks(Repeat(s, n)) == n * Marks(s)
  {
    hide Marks;
    if n > 0 {
      RepeatMarks(s, n - 1);
      MarksAdd(s, Repeat(s, n - 1));
      Times(n, Marks(s));
    } else {
      NoMarks("");
    }
  }

  lemma {:induction false} ListMarks(n: nat)
    ensures Marks(MarkList(n)) == n
  {
    assert Marks("?,") == 1 by { assert "?," == "?" + ","; }
    RepeatMarks("?,", n);
    var s := Repeat("?,", n);
    if s != "" && s[|s| - 1] == ',' {
      assert s == s[..|s| - 1] + [','];
    }
  }

  lemma {:induction false} NameMarks(d: Dialect, name: string)
    requires ValidName(name)
    ensures Marks(Quoted(d, name)) == 0
  {
    var parts := Split(name, '.');
    forall i | 0 <= i < |parts|
      ensures Marks(QuotePart(d, parts[i])) == 0
    {
      assert '?' !in parts[i];
    }
    JoinMarks(QuoteParts(d, parts), ".");
  }

  lemma {:induction false} JoinMarks(parts: seq<string>, sep: string)
    requires Marks(sep) == 0 && forall i | 0 <= i < |parts| :: Marks(parts[i]) == 0
    ensures Marks(Join(parts, sep)) == 0
  {
    hide Marks;
    if |parts| == 0 {
      NoMarks("");
    } else if |parts| > 1 {
      JoinMarks(parts[1..], sep);
      MarksAdd(parts[0], sep);
      MarksAdd(parts[0] + sep, Join(parts[1..], sep));
    }
  }

  lemma TwoMarks()
    ensures Marks(" = ? THEN ? ") == 2
  {
    hide Marks;
    assert " = ? THEN ? " == " = ? THEN" + " ? ";
    assert " = ? THEN" == " = " + "? THEN" && "? THEN" == "?" + " THEN" && " ? " == " ?" + " " && " ?" == " " + "?";
    OneMark();
    NoMarks(" = ");
    NoMarks(" THEN");
    NoMarks(" ");
    MarksAdd("?", " THEN");
    MarksAdd(" = ", "? THEN");
    MarksAdd(" ", "?");
    MarksAdd(" ?", " ");
    MarksAdd(" = ? THEN", " ? ");
  }

  lemma OneMark()
    ensures Marks("?") == 1
  {
  }

  lemma WhenMarks(k: string)
    requires Marks(k) == 0
    ensures Marks("WHEN " + k + " = ? THEN ? ") == 2
  {
    hide Marks;
    var tail := " = ? THEN ? ";
    TwoMarks();
    NoMarks("WHEN ");
    MarksAdd("WHEN ", k);
    MarksAdd("WHEN " + k, tail);
  }

  lemma SetTextMarks(d: Dialect, key: string, col: string, n: nat)
    requires ValidName(key) && ValidName(col)
    ensures Marks(SetText(d, key, col, n)) == 2 * n
  {
    hide Marks, Quoted, ValidName;
    NameMarks(d, key);
    NameMarks(d, col);
    var c, when := Quoted(d, col), "WHEN " + Quoted(d, key) + " = ? THEN ? ";
    WhenMarks(Quoted(d, key));
    RepeatMarks(when, n);
    NoMarks(" = CASE ");
    NoMarks("ELSE ");
    NoMarks(" END");
    MarksAdd(c, " = CASE ");
    MarksAdd(c + " = CASE ", Repeat(when, n));
    MarksAdd(c + " = CASE " + Repeat(when, n), "ELSE ");
    MarksAdd(c + " = CASE " + Repeat(when, n) + "ELSE ", c);
    MarksAdd(c + " = CASE " + Repeat(when, n) + "ELSE " + c, " END");
  }

  lemma {:induction false} SetListMarks(d: Dialect, key: string, cols: seq<string>, n: nat)
    requires ValidName(key) && ValidNames(cols)
    ensures Marks(SetList(d, key, cols, n)) == 2 * n * |cols|
  {
    hide Marks, SetText, ValidName;
    NoMarks("");
    NoMarks(",");
    if cols != [] {
      var m := |cols| - 1;
      var before, last := SetList(d, key, cols[..m], n), SetText(d, key, cols[m], n);
      SetTextMarks(d, key, cols[m], n);
      SetListMarks(d, key, cols[..m], n);
      Offset(n, m);
      MarksAdd(before, ",");
      MarksAdd(before + ",", last);
    }
  }

  /** An update statement has as many question marks as arguments. */
  lemma UpdateMarks(d: Dialect, table: string, key: string, cols: seq<string>, rows: seq<Row>)
    requires ValidName(table) && ValidName(key) && ValidNames(cols) && Complete(rows, key, cols)
    ensures Marks(UpdateText(d, table, key, cols, |rows|)) == |UpdateArgs(rows, key, cols)| == |rows| * (2 * |cols| + 1)
  {
    hide Marks, SetList, SetArgs, Quoted, ValidName, MarkList;
    NameMarks(d, table);
    NameMarks(d, key);
    SetListMarks(d, key, cols, |rows|);
    ListMarks(|rows|);
    SetArgsLength(rows, key, cols);
    PerRow(|rows|, |cols|);
    var a, b := "UPDATE " + Quoted(d, table), SetList(d, key, cols, |rows|);
    NoMarks("UPDATE ");
    NoMarks(" SET ");
    NoMarks(" WHERE ");
    NoMarks(" IN (");
    NoMarks(")");
    MarksAdd("UPDATE ", Quoted(d, table));
    MarksAdd(a, " SET ");
    MarksAdd(a + " SET ", b);
    MarksAdd(a + " SET " + b, " WHERE ");
    MarksAdd(a + " SET " + b + " WHERE ", Quoted(d, key));
    MarksAdd(a + " SET " + b + " WHERE " + Quoted(d, key), " IN (");
    MarksAdd(a + " SET " + b + " WHERE " + Quoted(d, key) + " IN (", MarkList(|rows|));
    MarksAdd(a + " SET " + b + " WHERE " + Quoted(d, key) + " IN (" + MarkList(|rows|), ")");
  }

  lemma PerRow(n: nat, m: nat)
    ensures n * (2 * m + 1) == 2 * n * m + n
  {
  }

  lemma RowMarksCount(width: nat)
    ensures Marks(RowMarks(width)) == width
  {
    ListMarks(width);
    NoMarks("(");
    NoMarks(")");
    hide Marks, MarkList;
    MarksAdd("(", MarkList(width));
    MarksAdd("(" + MarkList(width), ")");
  }

  lemma {:induction false} ValueListMarks(width: nat, n: nat)
    ensures Marks(ValueList(width, n)) == n * width
  {
    hide Marks, RowMarks;
    RowMarksCount(width);
    NoMarks("");
    NoMarks(",");
    if n > 1 {
      ValueListMarks(width, n - 1);
      Times(n, width);
      MarksAdd(ValueList(width, n - 1), ",");
      MarksAdd(ValueList(width, n - 1) + ",", RowMarks(width));
    }
  }

  lemma {:induction false} FlatLength(rows: seq<seq<Value>>, width: nat)
    requires forall i | 0 <= i < |rows| :: |rows[i]| == width
    ensures |Flat(rows)| == |rows| * width
  {
    if rows != [] {
      FlatLength(rows[..|rows| - 1], width);
      assert |rows| * width == (|rows| - 1) * width + width;
    }
  }

  /** So has an insert statement. */
  lemma InsertMarks(d: Dialect, table: string, cols: seq<string>, rows: seq<seq<Value>>)
    requires ValidName(table) && ValidNames(cols) && forall i | 0 <= i < |rows| :: |rows[i]| == |cols|
    ensures Marks(InsertText(d, table, cols, |rows|)) == |Flat(rows)| == |rows| * |cols|
  {
    hide Marks, Quoted, ValidName, ValueList, Join;
    NameMarks(d, table);
    forall i | 0 <= i < |cols|
      ensures Marks(QuotedAll(d, cols)[i]) == 0
    {
      NameMarks(d, cols[i]);
    }
    NoMarks(",");
    JoinMarks(QuotedAll(d, cols), ",");
    ValueListMarks(|cols|, |rows|);
    FlatLength(rows, |cols|);
    var a, c := "INSERT INTO " + Quoted(d, table), Join(QuotedAll(d, cols), ",");
    NoMarks("INSERT INTO ");
    NoMarks(" (");
    NoMarks(") VALUES ");
    MarksAdd("INSERT INTO ", Quoted(d, table));
    MarksAdd(a, " (");
    MarksAdd(a + " (", c);
    MarksAdd(a + " (" + c, ") VALUES ");
    MarksAdd(a + " (" + c + ") VALUES ", ValueList(|cols|, |rows|));
  }

  /** No statement of a bulk update exceeds the dialect's parameter limit, whatever batch size was asked for. */
  lemma StatementsFit(d: Dialect, table: string, key: string, cols: seq<string>, rows: seq<Row>, requested: int)
    requires ValidName(table) && ValidName(key) && ValidNames(cols) && Complete(rows, key, cols)
    requires BatchSizeFor(d, 2 * |cols| + 1, requested).Ok?
    ensures var size := BatchSizeFor(d, 2 * |cols| + 1, requested).value;
            size >= 1 && forall b | b in Batches(rows, size) ::
              Marks(UpdateText(d, table, key, cols, |b|)) <= MaxParamsFor(d)
  {
    hide UpdateText, ValidName;
    var perRow := 2 * |cols| + 1;
    BatchFits(d, perRow, requested);
    var size := BatchSizeFor(d, perRow, requested).value;
    BatchesAreRows(rows, size);
    BatchesComplete(key, cols, rows, size);
    forall b | b in Batches(rows, size)
      ensures Marks(UpdateText(d, table, key, cols, |b|)) <= MaxParamsFor(d)
    {
      var i :| 0 <= i < |Batches(rows, size)| && Batches(rows, size)[i] == b;
      UpdateMarks(d, table, key, cols, b);
      Product(|b|, size, perRow);
    }
  }
}
