/** What a database reads in the text of a bulk update: it has one reading, which names the right
    columns everywhere, and that reading with the arguments in place does what updating key by key
    does. */
module BulkRead {
  import opened SqlIdent
  import opened SqlGrammar
  import opened SqlLexer
  import opened QParse
  import opened BulkSql

  /** A name as it is written: the token of each part. */
  type Name = seq<Token>

  /** col = CASE WHEN w = ? THEN ? ... ELSE otherwise END, with one w per branch. */
  datatype SetClause = SetClause(col: Name, whens: seq<Name>, otherwise: Name)

  /** UPDATE table SET sets WHERE filter IN (?, ...), with n marks. */
  datatype Update = Update(table: Name, sets: seq<SetClause>, filter: Name, n: nat)

  const MARK: Token := HoleTok(Next)
  const EQUALS: Token := CmpTok(Q.Eq)

  // ----- the tokens of a statement, followed by k -----

  function YieldName(c: Name, k: Tokens): Tokens
    requires c != []
  {
    Tok(c[0], if |c| == 1 then k else Tok(Dot, YieldName(c[1..], k)))
  }

  /** = ? THEN ? */
  function Branch(k: Tokens): Tokens {
    Tok(EQUALS, Tok(MARK, Tok(Kw(THEN), Tok(MARK, k))))
  }

  function YieldWhens(whens: seq<Name>, k: Tokens): Tokens
    requires [] !in whens
  {
    if whens == [] then k else Tok(Kw(WHEN), YieldName(whens[0], Branch(YieldWhens(whens[1..], k))))
  }

  predicate NonEmptySet(s: SetClause) {
    s.col != [] && s.whens != [] && [] !in s.whens && s.otherwise != []
  }

  /** The tail of a set clause. */
  function Otherwise(c: Name, k: Tokens): Tokens
    requires c != []
  {
    Tok(Kw(ELSE), YieldName(c, Tok(Kw(END), k)))
  }

  function YieldSet(s: SetClause, k: Tokens): Tokens
    requires NonEmptySet(s)
  {
    YieldName(s.col, Tok(EQUALS, Tok(Kw(CASE), YieldWhens(s.whens, Otherwise(s.otherwise, k)))))
  }

  function YieldSets(sets: seq<SetClause>, k: Tokens): Tokens
    requires sets != [] && forall s | s in sets :: NonEmptySet(s)
  {
    YieldSet(sets[0], if |sets| == 1 then k else Tok(Comma, YieldSets(sets[1..], k)))
  }

  function YieldMarks(n: nat, k: Tokens): Tokens
    requires n >= 1
  {
    Tok(MARK, if n == 1 then k else Tok(Comma, YieldMarks(n - 1, k)))
  }

  function InMarks(n: nat): Tokens
    requires n >= 1
  {
    Tok(Kw(IN), Tok(LParen, YieldMarks(n, Tok(RParen, End))))
  }

  predicate NonEmpty(u: Update) {
    u.table != [] && u.sets != [] && (forall s | s in u.sets :: NonEmptySet(s)) && u.filter != [] && u.n >= 1
  }

  /** What follows the set clauses. */
  function Filter(u: Update): Tokens
    requires u.filter != [] && u.n >= 1
  {
    Tok(Kw(WHERE), YieldName(u.filter, InMarks(u.n)))
  }

  function Yield(u: Update): Tokens
    requires NonEmpty(u)
  {
    Tok(Kw(UPDATE), YieldName(u.table, Tok(Kw(SET), YieldSets(u.sets, Filter(u)))))
  }

  /** Every part of the name is an identifier. */
  predicate IsName(c: Name) {
    forall t | t in c :: t.Ident?
  }

  predicate NamesInSet(s: SetClause) {
    IsName(s.col) && IsName(s.otherwise) && forall w | w in s.whens :: IsName(w)
  }

  predicate Names(u: Update) {
    IsName(u.table) && IsName(u.filter) && forall s | s in u.sets :: NamesInSet(s)
  }

  /** The statement is a reading of the tokens. */
  predicate Reads(toks: Tokens, u: Update) {
    NonEmpty(u) && Names(u) && Yield(u) == toks
  }

  // ----- there is at most one reading -----

  lemma {:induction false} UniqueName(a: Name, b: Name, r: Tokens, s: Tokens)
    requires a != [] && b != [] && YieldName(a, r) == YieldName(b, s)
    requires !Starts(r, Dot) && !Starts(s, Dot)
    ensures a == b && r == s
  {
    if |a| > 1 && |b| > 1 {
      UniqueName(a[1..], b[1..], r, s);
      assert a == [a[0]] + a[1..] && b == [b[0]] + b[1..];
    }
  }

  lemma {:induction false} UniqueWhens(a: seq<Name>, b: seq<Name>, r: Tokens, s: Tokens)
    requires [] !in a && [] !in b && YieldWhens(a, r) == YieldWhens(b, s)
    requires !Starts(r, Kw(WHEN)) && !Starts(s, Kw(WHEN))
    ensures a == b && r == s
  {
    hide YieldName;
    if a != [] && b != [] {
      UniqueName(a[0], b[0], Branch(YieldWhens(a[1..], r)), Branch(YieldWhens(b[1..], s)));
      UniqueWhens(a[1..], b[1..], r, s);
      assert a == [a[0]] + a[1..] && b == [b[0]] + b[1..];
    }
  }

  lemma UniqueSet(a: SetClause, b: SetClause, r: Tokens, s: Tokens)
    requires NonEmptySet(a) && NonEmptySet(b) && YieldSet(a, r) == YieldSet(b, s)
    ensures a == b && r == s
  {
    hide YieldName, YieldWhens;
    var x, y := Otherwise(a.otherwise, r), Otherwise(b.otherwise, s);
    UniqueName(a.col, b.col, Tok(EQUALS, Tok(Kw(CASE), YieldWhens(a.whens, x))),
                             Tok(EQUALS, Tok(Kw(CASE), YieldWhens(b.whens, y))));
    UniqueWhens(a.whens, b.whens, x, y);
    UniqueName(a.otherwise, b.otherwise, Tok(Kw(END), r), Tok(Kw(END), s));
  }

  lemma {:induction false} UniqueSets(a: seq<SetClause>, b: seq<SetClause>, r: Tokens, s: Tokens)
    requires a != [] && b != [] && (forall c | c in a :: NonEmptySet(c)) && forall c | c in b :: NonEmptySet(c)
    requires YieldSets(a, r) == YieldSets(b, s) && !Starts(r, Comma) && !Starts(s, Comma)
    ensures a == b && r == s
  {
    hide YieldSet, NonEmptySet;
    UniqueSet(a[0], b[0], if |a| == 1 then r else Tok(Comma, YieldSets(a[1..], r)),
                          if |b| == 1 then s else Tok(Comma, YieldSets(b[1..], s)));
    assert a == [a[0]] + a[1..] && b == [b[0]] + b[1..];
    if |a| > 1 && |b| > 1 {
      UniqueSets(a[1..], b[1..], r, s);
    }
  }

  lemma {:induction false} UniqueMarks(m: nat, n: nat, r: Tokens, s: Tokens)
    requires m >= 1 && n >= 1 && YieldMarks(m, r) == YieldMarks(n, s)
    requires !Starts(r, Comma) && !Starts(s, Comma)
    ensures m == n && r == s
  {
    if m > 1 && n > 1 {
      UniqueMarks(m - 1, n - 1, r, s);
    }
  }

  /** Even with any tokens in the place of names, a token sequence comes from one statement only. */
  lemma Unambiguous(u: Update, v: Update)
    requires NonEmpty(u) && NonEmpty(v) && Yield(u) == Yield(v)
    ensures u == v
  {
    hide YieldName, YieldSets, YieldMarks, NonEmptySet;
    UniqueName(u.table, v.table, Tok(Kw(SET), YieldSets(u.sets, Filter(u))),
               Tok(Kw(SET), YieldSets(v.sets, Filter(v))));
    UniqueSets(u.sets, v.sets, Filter(u), Filter(v));
    UniqueName(u.filter, v.filter, InMarks(u.n), InMarks(v.n));
    UniqueMarks(u.n, v.n, Tok(RParen, End), Tok(RParen, End));
  }

  // ----- the emitted text has the intended reading -----

  function TokensOf(d: Dialect, parts: seq<string>): (c: Name)
    ensures |c| == |parts| && forall i | 0 <= i < |parts| :: c[i] == PartToken(d, parts[i])
  {
    if parts == [] then [] else [PartToken(d, parts[0])] + TokensOf(d, parts[1..])
  }

  function Written(d: Dialect, name: string): (c: Name)
    ensures c != []
  {
    TokensOf(d, Split(name, '.'))
  }

  function Copies(c: Name, n: nat): (cs: seq<Name>)
    ensures |cs| == n && forall w | w in cs :: w == c
  {
    if n == 0 then [] else [c] + Copies(c, n - 1)
  }

  function ClauseOf(d: Dialect, key: string, col: string, n: nat): SetClause {
    SetClause(Written(d, col), Copies(Written(d, key), n), Written(d, col))
  }

  function ClausesOf(d: Dialect, key: string, cols: seq<string>, n: nat): (r: seq<SetClause>)
    ensures |r| == |cols| && forall i | 0 <= i < |cols| :: r[i] == ClauseOf(d, key, cols[i], n)
  {
    if cols == [] then [] else ClausesOf(d, key, cols[..|cols| - 1], n) + [ClauseOf(d, key, cols[|cols| - 1], n)]
  }

  function Intended(d: Dialect, table: string, key: string, cols: seq<string>, n: nat): Update {
    Update(Written(d, table), ClausesOf(d, key, cols, n), Written(d, key), n)
  }

  lemma UpdateWords()
    ensures WordToken("UPDATE") == Kw(UPDATE) && WordToken("SET") == Kw(SET)
    ensures WordToken("WHERE") == Kw(WHERE) && WordToken("IN") == Kw(IN)
  {
    hide WordToken;
    CapitalsToken("UPDATE");
    CapitalsToken("SET");
    CapitalsToken("WHERE");
    CapitalsToken("IN");
  }

  lemma CaseWords()
    ensures WordToken("CASE") == Kw(CASE) && WordToken("WHEN") == Kw(WHEN) && WordToken("THEN") == Kw(THEN)
    ensures WordToken("ELSE") == Kw(ELSE) && WordToken("END") == Kw(END)
  {
    hide WordToken;
    CapitalsToken("CASE");
    CapitalsToken("WHEN");
    CapitalsToken("THEN");
    CapitalsToken("ELSE");
    CapitalsToken("END");
  }

  lemma LexMark(d: Dialect, r: string)
    ensures Lex(d, "?" + r) == Tok(MARK, Lex(d, r))
  {
    LexOneMark(d, "?" + r);
    LexPiece(d, "?", r);
  }

  lemma LexEquals(d: Dialect, r: string)
    ensures Lex(d, "=" + r) == Tok(EQUALS, Lex(d, r))
  {
    LexPiece(d, "=", r);
  }

  lemma LexComma(d: Dialect, r: string)
    ensures Lex(d, "," + r) == Tok(Comma, Lex(d, r))
  {
    LexPiece(d, ",", r);
  }

  /** A keyword and the space after it. */
  lemma LexKeyword(d: Dialect, w: string, r: string)
    requires w != "" && forall i | 0 <= i < |w| :: IsNameStart(w[i])
    ensures Lex(d, w + (" " + r)) == Tok(WordToken(w), Lex(d, r))
  {
    LexWord(d, w, " " + r);
    LexSpace(d, r);
  }

  lemma {:induction false} PartsYield(d: Dialect, parts: seq<string>, k: Tokens)
    requires parts != []
    ensures PartToks(d, parts, k) == YieldName(TokensOf(d, parts), k)
  {
    if |parts| > 1 {
      PartsYield(d, parts[1..], k);
    }
  }

  lemma LexName(d: Dialect, name: string, r: string)
    requires ValidName(name) && EndsName(r)
    ensures Lex(d, Quoted(d, name) + r) == YieldName(Written(d, name), Lex(d, r))
  {
    LexField(d, Split(name, '.'), r);
    PartsYield(d, Split(name, '.'), Lex(d, r));
  }

  lemma SpaceEnds(r: string)
    ensures EndsName(" " + r) && EndsName("," + r)
  {
  }

  function WhenText(d: Dialect, key: string): string {
    "WHEN " + Quoted(d, key) + " = ? THEN ? "
  }

  lemma WhenSplits(k: string, r: string)
    ensures "WHEN " + k + " = ? THEN ? " + r
         == "WHEN" + (" " + (k + (" " + ("=" + (" " + ("?" + (" " + ("THEN" + (" " + ("?" + (" " + r)))))))))))
  {
  }

  lemma LexBranch(d: Dialect, r: string)
    ensures Lex(d, " " + ("=" + (" " + ("?" + (" " + ("THEN" + (" " + ("?" + (" " + r))))))))) == Branch(Lex(d, r))
  {
    hide Lex, WordToken;
    CaseWords();
    var s := "?" + (" " + r);
    LexMark(d, " " + r);
    LexSpace(d, r);
    LexKeyword(d, "THEN", s);
    var t := "THEN" + (" " + s);
    LexMark(d, " " + t);
    LexSpace(d, t);
    var v := "?" + (" " + t);
    LexSpace(d, v);
    LexEquals(d, " " + v);
    LexSpace(d, "=" + (" " + v));
  }

  lemma {:induction false} LexWhens(d: Dialect, key: string, n: nat, r: string)
    requires ValidName(key)
    ensures Lex(d, Repeat(WhenText(d, key), n) + r) == YieldWhens(Copies(Written(d, key), n), Lex(d, r))
  {
    hide Lex, Quoted, ValidName, Written, WordToken;
    if n == 0 {
      assert "" + r == r;
    } else {
      CaseWords();
      var rest := Repeat(WhenText(d, key), n - 1) + r;
      Assoc(WhenText(d, key), Repeat(WhenText(d, key), n - 1), r);
      WhenSplits(Quoted(d, key), rest);
      var after := " " + ("=" + (" " + ("?" + (" " + ("THEN" + (" " + ("?" + (" " + rest))))))));
      LexKeyword(d, "WHEN", Quoted(d, key) + after);
      SpaceEnds("=" + (" " + ("?" + (" " + ("THEN" + (" " + ("?" + (" " + rest))))))));
      LexName(d, key, after);
      LexBranch(d, rest);
      LexWhens(d, key, n - 1, r);
      var c := Written(d, key);
      assert Copies(c, n)[1..] == Copies(c, n - 1);
    }
  }

  lemma SetSplits(c: string, whens: string, r: string)
    ensures c + " = CASE " + whens + "ELSE " + c + " END" + r
         == c + (" " + ("=" + (" " + ("CASE" + (" " + (whens + ("ELSE" + (" " + (c + (" " + ("END" + r)))))))))))
  {
  }

  lemma ClauseNonEmpty(d: Dialect, key: string, col: string, n: nat)
    requires n >= 1
    ensures NonEmptySet(ClauseOf(d, key, col, n))
  {
    hide Written;
  }

  lemma LexSet(d: Dialect, key: string, col: string, n: nat, r: string)
    requires ValidName(key) && ValidName(col) && n >= 1 && EndsName(r)
    ensures NonEmptySet(ClauseOf(d, key, col, n))
    ensures Lex(d, SetText(d, key, col, n) + r) == YieldSet(ClauseOf(d, key, col, n), Lex(d, r))
  {
    hide Lex, Quoted, ValidName, Written, YieldWhens, YieldName, Repeat, EndsName, WordToken;
    ClauseNonEmpty(d, key, col, n);
    CaseWords();
    var c, whens := Quoted(d, col), Repeat(WhenText(d, key), n);
    SetSplits(c, whens, r);
    var end := " " + ("END" + r);
    LexSpace(d, "END" + r);
    LexWord(d, "END", r);
    var tail := c + end;
    SpaceEnds("END" + r);
    LexName(d, col, end);
    LexKeyword(d, "ELSE", tail);
    var rest := "ELSE" + (" " + tail);
    LexWhens(d, key, n, rest);
    LexKeyword(d, "CASE", whens + rest);
    var case_ := "CASE" + (" " + (whens + rest));
    LexSpace(d, case_);
    LexEquals(d, " " + case_);
    LexSpace(d, "=" + (" " + case_));
    SpaceEnds("=" + (" " + case_));
    LexName(d, col, " " + ("=" + (" " + case_)));
  }

  lemma {:induction false} YieldSetsMore(sets: seq<SetClause>, s: SetClause, k: Tokens)
    requires sets != [] && (forall x | x in sets :: NonEmptySet(x)) && NonEmptySet(s)
    ensures forall x | x in sets + [s] :: NonEmptySet(x)
    ensures YieldSets(sets + [s], k) == YieldSets(sets, Tok(Comma, YieldSet(s, k)))
  {
    hide YieldSet, NonEmptySet;
    var all := sets + [s];
    if |sets| == 1 {
      assert all[1..] == [s];
    } else {
      assert all[1..] == sets[1..] + [s];
      YieldSetsMore(sets[1..], s, k);
    }
  }

  lemma ClausesNonEmpty(d: Dialect, key: string, cols: seq<string>, n: nat)
    requires n >= 1
    ensures forall s | s in ClausesOf(d, key, cols, n) :: NonEmptySet(s)
  {
    hide NonEmptySet;
    forall i | 0 <= i < |cols|
      ensures NonEmptySet(ClausesOf(d, key, cols, n)[i])
    {
      ClauseNonEmpty(d, key, cols[i], n);
    }
  }

  lemma {:induction false} LexSets(d: Dialect, key: string, cols: seq<string>, n: nat, r: string)
    requires ValidName(key) && ValidNames(cols) && cols != [] && n >= 1 && EndsName(r)
    ensures forall s | s in ClausesOf(d, key, cols, n) :: NonEmptySet(s)
    ensures Lex(d, SetList(d, key, cols, n) + r) == YieldSets(ClausesOf(d, key, cols, n), Lex(d, r))
    decreases |cols|
  {
    hide Lex, ValidName, SetText, YieldSet, NonEmptySet, EndsName, ClauseOf;
    ClausesNonEmpty(d, key, cols, n);
    var m := |cols| - 1;
    LexSet(d, key, cols[m], n, r);
    var last := ClauseOf(d, key, cols[m], n);
    if m == 0 {
      assert ClausesOf(d, key, cols, n) == [last];
    } else {
      var before, text := cols[..m], SetText(d, key, cols[m], n);
      SpaceEnds(text + r);
      ClausesNonEmpty(d, key, before, n);
      LexSets(d, key, before, n, "," + (text + r));
      LexComma(d, text + r);
      YieldSetsMore(ClausesOf(d, key, before, n), last, Lex(d, r));
      Assoc(SetList(d, key, before, n), ",", text);
      Assoc(SetList(d, key, before, n), "," + text, r);
      Assoc(",", text, r);
    }
  }

  lemma {:induction false} RepeatEnds(n: nat)
    requires n >= 1
    ensures var s := Repeat("?,", n); s != "" && s[|s| - 1] == ','
  {
    if n > 1 {
      RepeatEnds(n - 1);
    }
  }

  lemma MarkListMore(n: nat)
    requires n >= 2
    ensures MarkList(n) == "?" + ("," + MarkList(n - 1))
  {
    RepeatEnds(n - 1);
    RepeatEnds(n);
    var s := Repeat("?,", n - 1);
    assert Repeat("?,", n) == "?," + s;
    assert ("?," + s)[..|s| + 1] == "?" + ("," + s[..|s| - 1]);
  }

  lemma {:induction false} LexMarks(d: Dialect, n: nat, r: string)
    requires n >= 1
    ensures Lex(d, MarkList(n) + r) == YieldMarks(n, Lex(d, r))
  {
    hide Lex, MarkList;
    if n == 1 {
      OneMarkList();
      LexMark(d, r);
    } else {
      MarkListMore(n);
      var rest := MarkList(n - 1);
      Assoc("?", "," + rest, r);
      Assoc(",", rest, r);
      LexMark(d, "," + (rest + r));
      LexComma(d, rest + r);
      LexMarks(d, n - 1, r);
    }
  }

  lemma OneMarkList()
    ensures MarkList(1) == "?"
  {
    assert Repeat("?,", 1) == "?,";
  }

  lemma UpdateSplits(t: string, sets: string, k: string, marks: string)
    ensures "UPDATE " + t + " SET " + sets + " WHERE " + k + " IN (" + marks + ")"
         == "UPDATE" + (" " + (t + (" " + ("SET" + (" " + (sets
            + (" " + ("WHERE" + (" " + (k + (" " + ("IN" + (" " + ("(" + (marks + ")")))))))))))))))
  {
  }

  lemma LexBracket(d: Dialect, r: string)
    ensures Lex(d, "(" + r) == Tok(LParen, Lex(d, r)) && Lex(d, ")") == Tok(RParen, End)
  {
    LexPiece(d, "(", r);
    LexPiece(d, ")", "");
    assert ")" + "" == ")";
  }

  lemma LexIn(d: Dialect, n: nat)
    requires n >= 1
    ensures Lex(d, " " + ("IN" + (" " + ("(" + (MarkList(n) + ")"))))) == InMarks(n)
  {
    hide Lex, MarkList, YieldMarks, WordToken;
    UpdateWords();
    LexMarks(d, n, ")");
    var marks := MarkList(n) + ")";
    LexBracket(d, marks);
    LexKeyword(d, "IN", "(" + marks);
    LexSpace(d, "IN" + (" " + ("(" + marks)));
  }

  /** The emitted text is read as the intended statement. */
  lemma LexUpdate(d: Dialect, table: string, key: string, cols: seq<string>, n: nat)
    requires ValidName(table) && ValidName(key) && ValidNames(cols) && cols != [] && n >= 1
    ensures NonEmpty(Intended(d, table, key, cols, n))
    ensures Lex(d, UpdateText(d, table, key, cols, n)) == Yield(Intended(d, table, key, cols, n))
  {
    hide Lex, ValidName, Quoted, Written, SetList, MarkList, YieldName, YieldSets, NonEmptySet, InMarks, EndsName;
    hide WordToken;
    UpdateWords();
    ClausesNonEmpty(d, key, cols, n);
    var t, sets, k := Quoted(d, table), SetList(d, key, cols, n), Quoted(d, key);
    var tail := " " + ("IN" + (" " + ("(" + (MarkList(n) + ")"))));
    UpdateSplits(t, sets, k, MarkList(n));
    LexIn(d, n);
    SpaceEnds("IN" + (" " + ("(" + (MarkList(n) + ")"))));
    LexName(d, key, tail);
    LexKeyword(d, "WHERE", k + tail);
    var filter := " " + ("WHERE" + (" " + (k + tail)));
    LexSpace(d, "WHERE" + (" " + (k + tail)));
    SpaceEnds("WHERE" + (" " + (k + tail)));
    LexSets(d, key, cols, n, filter);
    LexKeyword(d, "SET", sets + filter);
    var set_ := " " + ("SET" + (" " + (sets + filter)));
    LexSpace(d, "SET" + (" " + (sets + filter)));
    SpaceEnds("SET" + (" " + (sets + filter)));
    LexName(d, table, set_);
    LexKeyword(d, "UPDATE", t + set_);
  }

  /** No part of the name reaches the text unquoted and spelled like a keyword. */
  predicate NameReadable(d: Dialect, name: string) {
    forall i | 0 <= i < |Split(name, '.')| :: QuotedOrNotReserved(d, Split(name, '.')[i])
  }

  lemma WrittenIsName(d: Dialect, name: string)
    ensures IsName(Written(d, name)) <==> NameReadable(d, name)
  {
    var parts := Split(name, '.');
    forall i | 0 <= i < |parts|
      ensures Written(d, name)[i].Ident? <==> QuotedOrNotReserved(d, parts[i])
    {
      assert Written(d, name)[i] in Written(d, name);
    }
  }

  predicate AllReadable(d: Dialect, table: string, key: string, cols: seq<string>) {
    NameReadable(d, table) && NameReadable(d, key) && forall i | 0 <= i < |cols| :: NameReadable(d, cols[i])
  }

  lemma IntendedNames(d: Dialect, table: string, key: string, cols: seq<string>, n: nat)
    ensures Names(Intended(d, table, key, cols, n)) <==> AllReadable(d, table, key, cols)
  {
    hide NameReadable, IsName, Written;
    WrittenIsName(d, table);
    WrittenIsName(d, key);
    var clauses := ClausesOf(d, key, cols, n);
    forall i | 0 <= i < |cols|
      ensures clauses[i] in clauses
      ensures IsName(clauses[i].col) <==> NameReadable(d, cols[i])
      ensures clauses[i].otherwise == clauses[i].col && forall w | w in clauses[i].whens :: w == Written(d, key)
    {
      WrittenIsName(d, cols[i]);
    }
  }

  /** The text has a reading exactly when every name is quoted or not a keyword, and then it is the
      intended one. */
  lemma TextReadsBack(d: Dialect, table: string, key: string, cols: seq<string>, n: nat, u: Update)
    requires ValidName(table) && ValidName(key) && ValidNames(cols) && cols != [] && n >= 1
    ensures Reads(Lex(d, UpdateText(d, table, key, cols, n)), u)
       <==> u == Intended(d, table, key, cols, n) && AllReadable(d, table, key, cols)
  {
    hide NonEmpty, Names, Lex, Yield, AllReadable, Intended, UpdateText, ValidName, ValidNames;
    LexUpdate(d, table, key, cols, n);
    IntendedNames(d, table, key, cols, n);
    if Reads(Lex(d, UpdateText(d, table, key, cols, n)), u) {
      Unambiguous(u, Intended(d, table, key, cols, n));
    }
  }

  /** Dialects that quote names read every statement. */
  lemma QuotingReadsAll(d: Dialect, table: string, key: string, cols: seq<string>)
    requires d != Generic
    ensures AllReadable(d, table, key, cols)
  {
  }
}
