/** What a database reads in the text of a bulk insert, and what reading and running the statements of
    all batches adds to a table. */
module BulkInsert {
  import opened SqlIdent
  import opened SqlGrammar
  import opened SqlLexer
  import opened QParse
  import opened BulkSql
  import opened BulkRead
  import opened BulkEval
  import opened BulkRows

  /** INSERT INTO table (cols) VALUES (?, ...), ..., with the number of marks of each group. */
  datatype Insert = Insert(table: Name, cols: seq<Name>, groups: seq<nat>)

  // ----- the tokens of a statement, followed by k -----

  function YieldNames(cs: seq<Name>, k: Tokens): Tokens
    requires cs != [] && [] !in cs
  {
    YieldName(cs[0], if |cs| == 1 then k else Tok(Comma, YieldNames(cs[1..], k)))
  }

  function YieldGroup(n: nat, k: Tokens): Tokens
    requires n >= 1
  {
    Tok(LParen, YieldMarks(n, Tok(RParen, k)))
  }

  function YieldGroups(ns: seq<nat>, k: Tokens): Tokens
    requires ns != [] && 0 !in ns
  {
    YieldGroup(ns[0], if |ns| == 1 then k else Tok(Comma, YieldGroups(ns[1..], k)))
  }

  predicate Complete(u: Insert) {
    u.table != [] && u.cols != [] && [] !in u.cols && u.groups != [] && 0 !in u.groups
  }

  function ValuesPart(u: Insert): Tokens
    requires Complete(u)
  {
    Tok(RParen, Tok(Kw(VALUES), YieldGroups(u.groups, End)))
  }

  function YieldInsert(u: Insert): Tokens
    requires Complete(u)
  {
    Tok(Kw(INSERT), Tok(Kw(INTO), YieldName(u.table, Tok(LParen, YieldNames(u.cols, ValuesPart(u))))))
  }

  predicate InsertNames(u: Insert) {
    IsName(u.table) && forall c | c in u.cols :: IsName(c)
  }

  /** The statement is a reading of the tokens. */
  predicate ReadsInsert(toks: Tokens, u: Insert) {
    Complete(u) && InsertNames(u) && YieldInsert(u) == toks
  }

  // ----- there is at most one reading -----

  lemma {:induction false} UniqueNames(a: seq<Name>, b: seq<Name>, r: Tokens, s: Tokens)
    requires a != [] && [] !in a && b != [] && [] !in b && YieldNames(a, r) == YieldNames(b, s)
    requires !Starts(r, Comma) && !Starts(s, Comma) && !Starts(r, Dot) && !Starts(s, Dot)
    ensures a == b && r == s
  {
    hide YieldName;
    UniqueName(a[0], b[0], if |a| == 1 then r else Tok(Comma, YieldNames(a[1..], r)),
                           if |b| == 1 then s else Tok(Comma, YieldNames(b[1..], s)));
    assert a == [a[0]] + a[1..] && b == [b[0]] + b[1..];
    if |a| > 1 && |b| > 1 {
      UniqueNames(a[1..], b[1..], r, s);
    }
  }

  lemma {:induction false} UniqueGroups(a: seq<nat>, b: seq<nat>, r: Tokens, s: Tokens)
    requires a != [] && 0 !in a && b != [] && 0 !in b && YieldGroups(a, r) == YieldGroups(b, s)
    requires !Starts(r, Comma) && !Starts(s, Comma)
    ensures a == b && r == s
  {
    hide YieldMarks;
    var x := if |a| == 1 then r else Tok(Comma, YieldGroups(a[1..], r));
    var y := if |b| == 1 then s else Tok(Comma, YieldGroups(b[1..], s));
    UniqueMarks(a[0], b[0], Tok(RParen, x), Tok(RParen, y));
    assert a == [a[0]] + a[1..] && b == [b[0]] + b[1..];
    if |a| > 1 && |b| > 1 {
      UniqueGroups(a[1..], b[1..], r, s);
    }
  }

  /** A token sequence comes from one statement only. */
  lemma UnambiguousInsert(u: Insert, v: Insert)
    requires Complete(u) && Complete(v) && YieldInsert(u) == YieldInsert(v)
    ensures u == v
  {
    hide YieldName, YieldNames, YieldGroups;
    UniqueName(u.table, v.table, Tok(LParen, YieldNames(u.cols, ValuesPart(u))),
               Tok(LParen, YieldNames(v.cols, ValuesPart(v))));
    UniqueNames(u.cols, v.cols, ValuesPart(u), ValuesPart(v));
    UniqueGroups(u.groups, v.groups, End, End);
  }

  // ----- the emitted text has the intended reading -----

  function WrittenAll(d: Dialect, cols: seq<string>): (cs: seq<Name>)
    ensures |cs| == |cols| && [] !in cs && forall i | 0 <= i < |cols| :: cs[i] == Written(d, cols[i])
  {
    if cols == [] then [] else [Written(d, cols[0])] + WrittenAll(d, cols[1..])
  }

  /** n groups of one width. */
  function Widths(width: nat, n: nat): (ns: seq<nat>)
    ensures |ns| == n && forall i | 0 <= i < n :: ns[i] == width
  {
    if n == 0 then [] else Widths(width, n - 1) + [width]
  }

  function IntendedInsert(d: Dialect, table: string, cols: seq<string>, n: nat): Insert {
    Insert(Written(d, table), WrittenAll(d, cols), Widths(|cols|, n))
  }

  lemma InsertWords()
    ensures WordToken("INSERT") == Kw(INSERT) && WordToken("INTO") == Kw(INTO) && WordToken("VALUES") == Kw(VALUES)
  {
    hide WordToken;
    CapitalsToken("INSERT");
    CapitalsToken("INTO");
    CapitalsToken("VALUES");
  }

  lemma {:induction false} LexNames(d: Dialect, cols: seq<string>, r: string)
    requires cols != [] && ValidNames(cols) && EndsName(r)
    ensures Lex(d, Join(QuotedAll(d, cols), ",") + r) == YieldNames(WrittenAll(d, cols), Lex(d, r))
  {
    hide Lex, LexOne, ValidName, Quoted, Written, YieldName, EndsName;
    var all := QuotedAll(d, cols);
    if |cols| == 1 {
      LexName(d, cols[0], r);
    } else {
      assert all[1..] == QuotedAll(d, cols[1..]);
      var rest := Join(all[1..], ",") + r;
      JoinSplits(all, r);
      SpaceEnds(rest);
      LexName(d, cols[0], "," + rest);
      LexComma(d, rest);
      LexNames(d, cols[1..], r);
      assert WrittenAll(d, cols)[1..] == WrittenAll(d, cols[1..]);
    }
  }

  lemma JoinSplits(all: seq<string>, r: string)
    requires |all| > 1
    ensures Join(all, ",") + r == all[0] + ("," + (Join(all[1..], ",") + r))
  {
  }

  lemma LexGroup(d: Dialect, n: nat, r: string)
    requires n >= 1
    ensures Lex(d, RowMarks(n) + r) == YieldGroup(n, Lex(d, r))
  {
    hide Lex, LexOne, MarkList, YieldMarks;
    Assoc("(", MarkList(n), ")");
    Assoc("(", MarkList(n) + ")", r);
    Assoc(MarkList(n), ")", r);
    LexPunctuation(d, MarkList(n) + (")" + r));
    LexMarks(d, n, ")" + r);
    LexPunctuation(d, r);
  }

  lemma {:induction false} YieldGroupsMore(ns: seq<nat>, n: nat, k: Tokens)
    requires ns != [] && 0 !in ns && n >= 1
    ensures 0 !in ns + [n] && YieldGroups(ns + [n], k) == YieldGroups(ns, Tok(Comma, YieldGroup(n, k)))
  {
    hide YieldGroup;
    var all := ns + [n];
    if |ns| == 1 {
      assert all[1..] == [n];
    } else {
      assert all[1..] == ns[1..] + [n];
      YieldGroupsMore(ns[1..], n, k);
    }
  }

  lemma {:induction false} LexGroups(d: Dialect, width: nat, n: nat, r: string)
    requires width >= 1 && n >= 1
    ensures 0 !in Widths(width, n) && Lex(d, ValueList(width, n) + r) == YieldGroups(Widths(width, n), Lex(d, r))
    decreases n
  {
    hide Lex, LexOne, RowMarks, YieldGroup;
    if n == 1 {
      LexGroup(d, width, r);
      assert Widths(width, 1) == [width];
    } else {
      var before, last := ValueList(width, n - 1), RowMarks(width);
      Assoc(before, ",", last);
      Assoc(before, "," + last, r);
      Assoc(",", last, r);
      LexGroup(d, width, r);
      LexComma(d, last + r);
      LexGroups(d, width, n - 1, "," + (last + r));
      YieldGroupsMore(Widths(width, n - 1), width, Lex(d, r));
    }
  }

  lemma InsertSplits(t: string, cols: string, values: string)
    ensures "INSERT INTO " + t + " (" + cols + ") VALUES " + values
         == "INSERT" + (" " + ("INTO" + (" " + (t + (" " + ("(" + (cols + (")"
            + (" " + ("VALUES" + (" " + values)))))))))))
  {
  }

  lemma BracketEnds(r: string)
    ensures EndsName(")" + r)
  {
  }

  /** The emitted text is read as the intended statement. */
  lemma LexInsert(d: Dialect, table: string, cols: seq<string>, n: nat)
    requires ValidName(table) && ValidNames(cols) && cols != [] && n >= 1
    ensures Complete(IntendedInsert(d, table, cols, n))
    ensures Lex(d, InsertText(d, table, cols, n)) == YieldInsert(IntendedInsert(d, table, cols, n))
  {
    hide Lex, LexOne, ValidName, Quoted, Written, ValueList, YieldName, YieldNames, YieldGroups, EndsName, WordToken;
    hide Join;
    InsertWords();
    var t, names, values := Quoted(d, table), Join(QuotedAll(d, cols), ","), ValueList(|cols|, n);
    InsertSplits(t, names, values);
    LexGroups(d, |cols|, n, "");
    assert values + "" == values;
    NothingLexed(d);
    LexKeyword(d, "VALUES", values);
    var tail := "VALUES" + (" " + values);
    LexSpace(d, tail);
    LexPunctuation(d, " " + tail);
    BracketEnds(" " + tail);
    LexNames(d, cols, ")" + (" " + tail));
    var list := names + (")" + (" " + tail));
    LexPunctuation(d, list);
    LexSpace(d, "(" + list);
    SpaceEnds("(" + list);
    LexName(d, table, " " + ("(" + list));
    LexKeyword(d, "INTO", t + (" " + ("(" + list)));
    LexKeyword(d, "INSERT", "INTO" + (" " + (t + (" " + ("(" + list)))));
  }

  lemma NothingLexed(d: Dialect)
    ensures Lex(d, "") == End
  {
  }

  predicate InsertReadable(d: Dialect, table: string, cols: seq<string>) {
    NameReadable(d, table) && forall i | 0 <= i < |cols| :: NameReadable(d, cols[i])
  }

  lemma IntendedInsertNames(d: Dialect, table: string, cols: seq<string>, n: nat)
    ensures InsertNames(IntendedInsert(d, table, cols, n)) <==> InsertReadable(d, table, cols)
  {
    hide NameReadable, IsName, Written;
    WrittenIsName(d, table);
    var all := WrittenAll(d, cols);
    forall i | 0 <= i < |cols|
      ensures all[i] in all && (IsName(all[i]) <==> NameReadable(d, cols[i]))
    {
      WrittenIsName(d, cols[i]);
    }
  }

  /** The text has a reading exactly when every name is quoted or not a keyword, and then it is the
      intended one. */
  lemma InsertReadsBack(d: Dialect, table: string, cols: seq<string>, n: nat, u: Insert)
    requires ValidName(table) && ValidNames(cols) && cols != [] && n >= 1
    ensures ReadsInsert(Lex(d, InsertText(d, table, cols, n)), u)
       <==> u == IntendedInsert(d, table, cols, n) && InsertReadable(d, table, cols)
  {
    hide Complete, InsertNames, Lex, YieldInsert, InsertReadable, IntendedInsert, InsertText, ValidName, ValidNames;
    LexInsert(d, table, cols, n);
    IntendedInsertNames(d, table, cols, n);
    if ReadsInsert(Lex(d, InsertText(d, table, cols, n)), u) {
      UnambiguousInsert(u, IntendedInsert(d, table, cols, n));
    }
  }

  // ----- what the statements add to a table -----

  /** A row as it is added: each column with its value. */
  type Added = seq<(string, Value)>

  /** The columns, as they are named, with the values of one group. */
  function Filled(cs: seq<Name>, vs: seq<Value>): Added
    requires |cs| == |vs|
  {
    seq(|cs|, j requires 0 <= j < |cs| => (Named(cs[j]), vs[j]))
  }

  /** The database takes the arguments group by group, if every group has one for each column. */
  predicate Takes(cs: seq<Name>, groups: seq<nat>, args: seq<Value>) {
    if groups == [] then args == []
    else groups[0] == |cs| <= |args| && Takes(cs, groups[1..], args[groups[0]..])
  }

  function AddedRows(cs: seq<Name>, groups: seq<nat>, args: seq<Value>): seq<Added>
    requires Takes(cs, groups, args)
  {
    if groups == [] then [] else [Filled(cs, args[..groups[0]])] + AddedRows(cs, groups[1..], args[groups[0]..])
  }

  /** The rows as they were given: the j-th value under the j-th column. */
  function GivenRow(cols: seq<string>, vs: seq<Value>): Added
    requires |cols| == |vs|
  {
    seq(|cols|, j requires 0 <= j < |cols| => (cols[j], vs[j]))
  }

  function GivenRows(cols: seq<string>, rows: seq<seq<Value>>): (r: seq<Added>)
    requires SameWidth(rows, |cols|)
    ensures |r| == |rows|
  {
    seq(|rows|, i requires 0 <= i < |rows| => GivenRow(cols, rows[i]))
  }

  lemma {:induction false} FlatCons(rows: seq<seq<Value>>)
    requires rows != []
    ensures Flat(rows) == rows[0] + Flat(rows[1..])
  {
    var m := |rows| - 1;
    if m == 0 {
      assert rows[..0] == [] && rows[1..] == [];
    } else {
      FlatCons(rows[..m]);
      assert rows[..m][1..] == rows[1..][..m - 1] && rows[1..][m - 1] == rows[m];
    }
  }

  lemma FilledIsGiven(d: Dialect, cols: seq<string>, vs: seq<Value>)
    requires |cols| == |vs| && forall i | 0 <= i < |cols| :: NameReadable(d, cols[i])
    ensures Filled(WrittenAll(d, cols), vs) == GivenRow(cols, vs)
  {
    hide NameReadable, Named, Written;
    forall j | 0 <= j < |cols|
      ensures Filled(WrittenAll(d, cols), vs)[j] == (cols[j], vs[j])
    {
      NamedWritten(d, cols[j]);
    }
  }

  lemma {:induction false} TakesRows(d: Dialect, cols: seq<string>, rows: seq<seq<Value>>)
    requires SameWidth(rows, |cols|) && forall i | 0 <= i < |cols| :: NameReadable(d, cols[i])
    ensures Takes(WrittenAll(d, cols), Widths(|cols|, |rows|), Flat(rows))
    ensures AddedRows(WrittenAll(d, cols), Widths(|cols|, |rows|), Flat(rows)) == GivenRows(cols, rows)
    decreases |rows|
  {
    hide NameReadable, Named, Written, Flat, Filled, GivenRow;
    var cs, groups := WrittenAll(d, cols), Widths(|cols|, |rows|);
    if rows == [] {
      EmptyFlat();
    } else {
      FlatCons(rows);
      assert groups[1..] == Widths(|cols|, |rows| - 1);
      assert Flat(rows)[..|cols|] == rows[0] && Flat(rows)[|cols|..] == Flat(rows[1..]);
      FilledIsGiven(d, cols, rows[0]);
      TakesRows(d, cols, rows[1..]);
      assert GivenRows(cols, rows) == [GivenRow(cols, rows[0])] + GivenRows(cols, rows[1..]);
    }
  }

  lemma EmptyFlat()
    ensures Flat([]) == []
  {
  }

  /** Whatever is read in the text of a batch, it names the table, and with the arguments it adds exactly
      the rows of the batch. */
  lemma TextAddsRows(d: Dialect, table: string, cols: seq<string>, rows: seq<seq<Value>>, b: Built, u: Insert)
    requires cols != [] && rows != [] && InsertOf(d, table, cols, rows, b) && ReadsInsert(Lex(d, b.sql), u)
    ensures Named(u.table) == table && Takes(u.cols, u.groups, b.args)
    ensures AddedRows(u.cols, u.groups, b.args) == GivenRows(cols, rows)
  {
    hide Lex, ReadsInsert, InsertText, ValidName, ValidNames, Named, NameReadable, Takes, AddedRows, Flat;
    InsertReadsBack(d, table, cols, |rows|, u);
    TakesRows(d, cols, rows);
    NamedWritten(d, table);
  }

  /** The rows t' are what the table holds when the texts are read and run one after the other. */
  ghost predicate InsertOutcome(d: Dialect, table: string, stmts: seq<Built>, t: seq<Added>, t': seq<Added>)
    decreases |stmts|
  {
    if stmts == [] then t' == t
    else
      exists u ::
        ReadsInsert(Lex(d, stmts[0].sql), u) && Named(u.table) == table && Takes(u.cols, u.groups, stmts[0].args)
        && InsertOutcome(d, table, stmts[1..], t + AddedRows(u.cols, u.groups, stmts[0].args), t')
  }

  lemma ReadIntendedInsert(d: Dialect, table: string, cols: seq<string>, rows: seq<seq<Value>>, b: Built)
    requires cols != [] && rows != [] && InsertOf(d, table, cols, rows, b) && InsertReadable(d, table, cols)
    ensures ReadsInsert(Lex(d, b.sql), IntendedInsert(d, table, cols, |rows|))
  {
    hide Lex, ReadsInsert, InsertText, ValidName, ValidNames, InsertReadable, IntendedInsert;
    InsertReadsBack(d, table, cols, |rows|, IntendedInsert(d, table, cols, |rows|));
  }

  lemma {:induction false} OutcomeOfBatches(d: Dialect, table: string, cols: seq<string>, batches: seq<seq<seq<Value>>>,
                                            stmts: seq<Built>, t: seq<Added>, t': seq<Added>)
    requires cols != [] && [] !in batches && InsertsOf(d, table, cols, batches, stmts) && InsertReadable(d, table, cols)
    ensures SameWidth(Concat(batches), |cols|)
    ensures InsertOutcome(d, table, stmts, t, t') <==> t' == t + GivenRows(cols, Concat(batches))
    decreases |stmts|
  {
    hide Lex, ReadsInsert, InsertOf, InsertReadable, Named, AddedRows, Takes, IntendedInsert, GivenRow;
    if stmts == [] {
      assert t + GivenRows(cols, []) == t;
    } else {
      var b, s, rest := batches[0], stmts[0], Concat(batches[1..]);
      assert b in batches && InsertOf(d, table, cols, b, s);
      InsertWidth(d, table, cols, b, s);
      assert forall x | x in batches[1..] :: x in batches;
      var more := GivenRows(cols, b);
      OutcomeOfBatches(d, table, cols, batches[1..], stmts[1..], t + more, t');
      GivenJoin(cols, b, rest);
      assert t + (more + GivenRows(cols, rest)) == t + more + GivenRows(cols, rest);
      var u := IntendedInsert(d, table, cols, |b|);
      ReadIntendedInsert(d, table, cols, b, s);
      TextAddsRows(d, table, cols, b, s, u);
      forall v | ReadsInsert(Lex(d, s.sql), v)
        ensures Named(v.table) == table && Takes(v.cols, v.groups, s.args)
        ensures AddedRows(v.cols, v.groups, s.args) == more
      {
        TextAddsRows(d, table, cols, b, s, v);
      }
    }
  }

  lemma InsertWidth(d: Dialect, table: string, cols: seq<string>, rows: seq<seq<Value>>, b: Built)
    requires InsertOf(d, table, cols, rows, b)
    ensures SameWidth(rows, |cols|)
  {
  }

  lemma GivenJoin(cols: seq<string>, a: seq<seq<Value>>, b: seq<seq<Value>>)
    requires SameWidth(a, |cols|) && SameWidth(b, |cols|)
    ensures SameWidth(a + b, |cols|) && GivenRows(cols, a + b) == GivenRows(cols, a) + GivenRows(cols, b)
  {
  }

  /** Reading and running the statements of all batches in order adds exactly the given rows, in order,
      each value under its column, for every batch size. */
  lemma BulkInsertAddsRows(d: Dialect, table: string, cols: seq<string>, rows: seq<seq<Value>>, size: nat,
                           stmts: seq<Built>, t: seq<Added>, t': seq<Added>)
    requires size > 0 && cols != [] && InsertsOf(d, table, cols, Batches(rows, size), stmts)
    requires InsertReadable(d, table, cols)
    ensures SameWidth(rows, |cols|)
    ensures InsertOutcome(d, table, stmts, t, t') <==> t' == t + GivenRows(cols, rows)
  {
    hide InsertOutcome, InsertsOf, Batches, InsertReadable, GivenRows, SameWidth;
    BatchesAreRows(rows, size);
    OutcomeOfBatches(d, table, cols, Batches(rows, size), stmts, t, t');
  }
}
