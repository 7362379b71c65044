/** The test of a column that binding finds before an empty list. */
module BindColumn {
  import opened Wrappers
  import opened SqlIdent
  import opened BindNamed
  import R = BindRegex

  /** A column: plain names joined by dots, and not a keyword. */
  predicate IsColumn(col: string) {
    IsPath(col)
    && Q.Upper(col) !in {"NOT", "AND", "OR", "WHERE", "ON", "WHEN", "THEN", "ELSE", "HAVING", "SELECT"}
  }

  predicate IsPath(col: string) {
    col != "" && StartsWord(col[0])
    && var e := WordEnd(col, 1);
       e == |col| || (col[e] == '.' && IsPath(col[e + 1..]))
  }

  /** Text that a column can follow: no quoted names, and an end that no name goes on from. */
  predicate Precedes(pre: string) {
    (forall i | 0 <= i < |pre| :: pre[i] !in {'"', '`', '['})
    && (pre == "" || !(IsWordChar(pre[|pre| - 1]) || pre[|pre| - 1] == '.'))
  }

  function Test(neg: bool): string {
    if neg then " NOT IN (" else " IN ("
  }

  // ----- where IN ( can stand -----

  lemma {:induction false} BlanksAre(s: string, i: nat)
    requires i <= |s|
    ensures var b := Blanks(s, i);
            (forall k | i <= k < b :: IsBlank(s[k])) && (b < |s| ==> !IsBlank(s[b]))
    decreases |s| - i
  {
    if i < |s| && IsBlank(s[i]) {
      BlanksAre(s, i + 1);
    }
  }

  lemma {:induction false} BlanksEnd(s: string, i: nat, b: nat)
    requires i <= b <= |s| && (b < |s| ==> !IsBlank(s[b])) && forall k | i <= k < b :: IsBlank(s[k])
    ensures Blanks(s, i) == b
    decreases b - i
  {
    if i < b {
      BlanksEnd(s, i + 1, b);
    }
  }

  lemma WordAt(s: string, i: nat, w: string)
    requires w != ""
    ensures IsWord(s, i, w) ==> i + |w| <= |s| && Q.ToUpper(s[i]) == w[0] && Q.ToUpper(s[i + |w| - 1]) == w[|w| - 1]
    ensures i + |w| <= |s| && s[i..i + |w|] == w && (forall k | 0 <= k < |w| :: 'A' <= w[k] <= 'Z') ==> IsWord(s, i, w)
  {
    if IsWord(s, i, w) {
      assert Q.ToUpper(s[i + 0]) == w[0];
    }
    if i + |w| <= |s| && s[i..i + |w|] == w {
      assert forall k | 0 <= k < |w| :: s[i + k] == w[k];
    }
  }

  /** IN ( at the end of the text is found there only. */
  lemma InAtEnd(t: string, b: nat)
    ensures var s := t + " IN (";
            InAt(s, b) <==> b == |s| - 4
  {
    hide IsWord, Blanks;
    var s := t + " IN (";
    var n := |s|;
    assert s[n - 5] == ' ' && s[n - 4] == 'I' && s[n - 3] == 'N' && s[n - 2] == ' ' && s[n - 1] == '(';
    WordAt(s, b, "IN");
    if InAt(s, b) {
      BlanksAre(s, b + 2);
      BlanksAre(s, Blanks(s, b + 2) + 1);
      assert Blanks(s, b + 2) == n - 1;
      assert b + 2 > n - 3;
    }
    if b == n - 4 {
      assert s[b..b + 2] == "IN";
      BlanksEnd(s, n - 2, n - 1);
      BlanksEnd(s, n, n);
    }
  }

  /** So NOT IN ( can only start before the blank that comes before it. */
  lemma NotInAtEnd(t: string, b: nat)
    requires t != "" && !IsBlank(t[|t| - 1])
    ensures var s := t + " IN (";
            NotInAt(s, b) <==> b + 3 == |t| && IsWord(s, b, "NOT")
  {
    hide IsWord, Blanks, InAt;
    var s := t + " IN (";
    assert s[|t| - 1] == t[|t| - 1] && s[|t|] == ' ' && s[|t| + 1] == 'I';
    WordAt(s, b, "NOT");
    if NotInAt(s, b) {
      InAtEnd(t, Blanks(s, b + 3));
      BlanksAre(s, b + 3);
      assert Blanks(s, b + 3) == |t| + 1;
    }
    if b + 3 == |t| {
      BlanksEnd(s, b + 3, |t| + 1);
      InAtEnd(t, |t| + 1);
    }
  }

  // ----- where a name can end -----

  lemma {:induction false} WordEndBefore(s: string, i: nat, e: nat)
    requires i <= e < |s| && !IsWordChar(s[e])
    ensures WordEnd(s, i) <= e
    decreases e - i
  {
    if i < e && IsWordChar(s[i]) {
      WordEndBefore(s, i + 1, e);
    }
  }

  /** Without quotes, a name that starts before a character no name goes on over ends before it. */
  lemma {:induction false} NameEndBefore(s: string, i: nat, e: nat)
    requires i <= e < |s| && !IsWordChar(s[e]) && s[e] != '.' && forall k | i <= k <= e :: s[k] !in {'"', '`', '['}
    ensures NameEnd(s, i).Some? ==> NameEnd(s, i).value <= e
    decreases e - i
  {
    hide WordEnd, L.Until;
    if i < e && StartsWord(s[i]) {
      WordEndBefore(s, i + 1, e);
      var w := WordEnd(s, i + 1);
      if s[w] == '.' {
        NameEndBefore(s, w + 1, e);
      }
    }
  }

  lemma {:induction false} WordEndIn(s: string, i: nat, col: string, j: nat)
    requires j <= |col| && i + |col| < |s| && s[i..i + |col|] == col && !IsWordChar(s[i + |col|])
    ensures WordEnd(s, i + j) == i + WordEnd(col, j)
    decreases |col| - j
  {
    if j < |col| {
      assert s[i + j] == s[i..i + |col|][j] == col[j];
      WordEndIn(s, i, col, j + 1);
    }
  }

  /** A column is found as a whole. */
  lemma {:induction false} PathEnd(s: string, i: nat, col: string)
    requires IsPath(col) && i + |col| < |s| && s[i..i + |col|] == col
    requires !IsWordChar(s[i + |col|]) && s[i + |col|] != '.'
    ensures NameEnd(s, i) == Some(i + |col|)
    decreases |col|
  {
    hide WordEnd;
    assert s[i] == col[0];
    WordEndIn(s, i, col, 1);
    var e := WordEnd(col, 1);
    if e < |col| {
      assert s[i + e] == col[e];
      assert s[i + e + 1..i + |col|] == col[e + 1..];
      PathEnd(s, i + e + 1, col[e + 1..]);
    }
  }

  lemma {:induction false} PathFacts(col: string)
    requires IsPath(col)
    ensures col != "" && StartsWord(col[0]) && IsWordChar(col[|col| - 1])
    decreases |col|
  {
    hide IsWordChar;
    WordChars(col, 1);
    var e := WordEnd(col, 1);
    if e < |col| {
      PathFacts(col[e + 1..]);
    }
    StartsIsWord(col[0]);
  }

  lemma StartsIsWord(c: char)
    requires StartsWord(c)
    ensures IsWordChar(c)
  {
  }

  lemma {:induction false} WordChars(s: string, i: nat)
    requires i <= |s|
    ensures forall k | i <= k < WordEnd(s, i) :: IsWordChar(s[k])
    decreases |s| - i
  {
    hide IsWordChar;
    if i < |s| && IsWordChar(s[i]) {
      WordChars(s, i + 1);
    }
  }

  lemma WordIsNoBlank(c: char)
    requires IsWordChar(c)
    ensures !IsBlank(c)
  {
  }

  // ----- the test is found -----

  /** The text before IN. */
  function Head(pre: string, col: string, neg: bool): string {
    pre + col + if neg then " NOT" else ""
  }

  lemma HeadFacts(pre: string, col: string, neg: bool)
    requires IsPath(col)
    ensures var t, s, n := Head(pre, col, neg), pre + col + Test(neg), |pre| + |col|;
            && s == t + " IN (" && t != "" && !IsBlank(t[|t| - 1]) && |t| == (if neg then n + 4 else n)
  {
    hide IsPath, IsWordChar, StartsWord, IsBlank;
    PathFacts(col);
    WordIsNoBlank(col[|col| - 1]);
    TIsNoBlank();
    if neg {
      assert pre + col + " NOT" + " IN (" == pre + col + (" NOT" + " IN (");
      assert " NOT" + " IN (" == Test(true);
    } else {
      assert pre + col + "" == pre + col;
    }
  }

  lemma ColumnAt(pre: string, col: string, neg: bool)
    requires IsPath(col)
    ensures var s, n := pre + col + Test(neg), |pre| + |col|;
            && n < |s| && s[|pre|..n] == col && s[n] == ' ' && !IsBlank(s[|pre|])
            && (forall k | 0 <= k < |pre| :: s[k] == pre[k])
            && (neg ==> n + 4 < |s| && s[n + 1..n + 4] == "NOT")
  {
    hide IsPath, IsWordChar, StartsWord, IsBlank;
    PathFacts(col);
    StartsIsWord(col[0]);
    WordIsNoBlank(col[0]);
    Middle(pre, col, Test(neg));
  }

  lemma Middle(a: string, b: string, c: string)
    ensures var s, n := a + b + c, |a| + |b|;
            s[|a|..n] == b && s[n..] == c && (b != "" ==> s[|a|] == b[0]) && forall k | 0 <= k < |a| :: s[k] == a[k]
    ensures |c| >= 4 ==> (a + b + c)[|a| + |b| + 1..|a| + |b| + 4] == c[1..4] && (a + b + c)[|a| + |b|] == c[0]
  {
  }

  lemma TIsNoBlank()
    ensures !IsBlank('T')
  {
  }

  /** No test is found before the column. */
  lemma NoneBefore(pre: string, col: string, neg: bool, a: nat)
    requires Precedes(pre) && IsColumn(col) && a < |pre|
    ensures TestAt(pre + col + Test(neg), a) == None
  {
    hide NameEnd, Blanks, InAt, NotInAt, IsPath, IsWordChar, IsBlank, Test, Head, IsWord;
    var s, t := pre + col + Test(neg), Head(pre, col, neg);
    HeadFacts(pre, col, neg);
    ColumnAt(pre, col, neg);
    var last := |pre| - 1;
    assert s[last] == pre[last];
    NameEndBefore(s, a, last);
    var e := NameEnd(s, a);
    if e.Some? {
      var b := Blanks(s, e.value);
      BlanksAre(s, e.value);
      assert b <= |pre|;
      InAtEnd(t, b);
      NotInAtEnd(t, b);
      NoNotToTheEnd(pre, col, s, b);
    }
  }

  /** A NOT that reaches to the end of the column would be the column, or go on from the text before it. */
  lemma NoNotToTheEnd(pre: string, col: string, s: string, b: nat)
    requires Precedes(pre) && IsColumn(col) && |pre| + |col| <= |s| && b <= |pre|
    requires (forall k | 0 <= k < |pre| :: s[k] == pre[k]) && s[|pre|..|pre| + |col|] == col
    ensures !(IsWord(s, b, "NOT") && b + 3 == |pre| + |col|)
  {
    hide IsPath, IsWordChar;
    PathFacts(col);
    if b + 3 == |pre| + |col| {
      if b < |pre| {
        var k := |pre| - 1 - b;
        LetterIsWord(s[b + k]);
        WordCharAt(s, b, "NOT", k);
      } else {
        WordIsUpper(s, b, "NOT");
      }
    }
  }

  lemma WordIsUpper(s: string, b: nat, w: string)
    requires b + |w| <= |s|
    ensures IsWord(s, b, w) ==> Q.Upper(s[b..b + |w|]) == w
  {
    var u := s[b..b + |w|];
    forall k | 0 <= k < |w|
      ensures IsWord(s, b, w) ==> Q.Upper(u)[k] == w[k]
    {
      assert u[k] == s[b + k];
      WordCharAt(s, b, w, k);
    }
  }

  lemma WordCharAt(s: string, b: nat, w: string, k: nat)
    requires k < |w| && b + |w| <= |s|
    ensures IsWord(s, b, w) ==> Q.ToUpper(s[b + k]) == w[k]
  {
  }

  lemma LetterIsWord(c: char)
    ensures Q.ToUpper(c) in {'N', 'O', 'T'} ==> IsWordChar(c)
  {
  }

  lemma FoundHere(pre: string, col: string, neg: bool)
    requires IsColumn(col)
    ensures TestAt(pre + col + Test(neg), |pre|) == Some((|pre| + |col|, neg))
  {
    hide NameEnd, Blanks, InAt, NotInAt, IsPath, Test, IsColumn;
    TestFacts(pre, col, neg);
  }

  lemma TestFacts(pre: string, col: string, neg: bool)
    requires IsColumn(col)
    ensures var s, n := pre + col + Test(neg), |pre| + |col|;
            n < |s| && NameEnd(s, |pre|) == Some(n) && Blanks(s, n) == n + 1 && (NotInAt(s, n + 1) <==> neg)
            && (!neg ==> InAt(s, n + 1))
  {
    hide NameEnd, Blanks, InAt, NotInAt, IsPath, IsWordChar, Test, Head, IsColumn, IsWord, IsBlank;
    var s, t, n := pre + col + Test(neg), Head(pre, col, neg), |pre| + |col|;
    ColumnIsPath(col);
    HeadFacts(pre, col, neg);
    ColumnAt(pre, col, neg);
    SpaceIsNoWord();
    PathEnd(s, |pre|, col);
    OneBlank(s, n, t, neg);
    InAtEnd(t, n + 1);
    NotInAtEnd(t, n + 1);
    WordAt(s, n + 1, "NOT");
  }

  lemma ColumnIsPath(col: string)
    requires IsColumn(col)
    ensures IsPath(col)
  {
    hide IsPath;
  }

  lemma OneBlank(s: string, n: nat, t: string, neg: bool)
    requires s == t + " IN (" && n < |s| && s[n] == ' ' && |t| == (if neg then n + 4 else n)
    requires neg ==> s[n + 1..n + 4] == "NOT"
    ensures Blanks(s, n) == n + 1
  {
    hide Blanks;
    assert neg ==> s[n + 1] == s[n + 1..n + 4][0];
    assert !neg ==> s[n + 1] == " IN ("[1];
    BlanksEnd(s, n, n + 1);
  }

  lemma SpaceIsNoWord()
    ensures !IsWordChar(' ')
  {
  }

  lemma {:induction false} FirstIsAt(s: string, a: nat, m: nat)
    requires a <= m < |s| && TestAt(s, m).Some? && forall k | a <= k < m :: TestAt(s, k) == None
    ensures FirstTest(s, a) == Some((m, TestAt(s, m).value.0, TestAt(s, m).value.1))
    decreases m - a
  {
    hide TestAt;
    if a < m {
      FirstIsAt(s, a + 1, m);
    }
  }

  lemma ColumnFound(pre: string, col: string, neg: bool)
    requires Precedes(pre) && IsColumn(col)
    ensures ColumnTest(pre + col + Test(neg)) == Some((|pre|, neg))
  {
    hide TestAt, Test, Precedes, FirstTest;
    var s := pre + col + Test(neg);
    ColumnAt(pre, col, neg);
    forall k | 0 <= k < |pre|
      ensures TestAt(s, k) == None
    {
      NoneBefore(pre, col, neg, k);
    }
    FoundHere(pre, col, neg);
    FirstIsAt(s, 0, |pre|);
  }

  /** An empty list makes `column IN (...)` false and `column NOT IN (...)` true. */
  lemma EmptyListIsConstant(d: Dialect, pre: string, col: string, neg: bool, name: string, rest: seq<Piece>,
                            params: Params, args: seq<Value>)
    requires Precedes(pre) && IsColumn(col)
    requires name in params && Expand(params[name]) == [] && AfterClose(rest).Some?
    ensures Render(d, [Par(name)] + rest, params, pre + col + Test(neg), args)
         == Render(d, AfterClose(rest).value, params, pre + if neg then "1=1" else "1=0", args)
  {
    hide Expand, ColumnTest, AfterClose, EndsInNotIn, Precedes, IsColumn, Test;
    var s := pre + col + Test(neg);
    ColumnFound(pre, col, neg);
    assert ([Par(name)] + rest)[1..] == rest;
    assert s[..|pre|] == pre;
    ValueRendered(d, name, rest, params, s, args);
  }

  // ----- what each value gives -----

  lemma Rendered(d: Dialect, name: string, rest: seq<Piece>, params: Params, out: string, args: seq<Value>)
    requires name in params
    ensures Render(d, [Par(name)] + rest, params, out, args) == RenderValue(d, name, rest, params, out, args)
  {
    hide RenderValue;
    assert ([Par(name)] + rest)[1..] == rest;
  }

  /** An empty list in the test of a column: the test becomes a constant. */
  lemma EmptyListInTest(d: Dialect, name: string, rest: seq<Piece>, params: Params, out: string, args: seq<Value>,
                        a: nat, neg: bool, n: nat)
    requires name in params && params[name] == Q.List([])
    requires R.TestsColumn(out, a, neg) && R.Closes(rest, n)
    ensures a <= |out| && Render(d, [Par(name)] + rest, params, out, args)
                          == Render(d, rest[n..], params, out[..a] + if neg then "1=1" else "1=0", args)
  {
    hide R.TestsColumn, R.Closes, ColumnTest, CloseAt, Render;
    R.ColumnTestIff(out, a, neg);
    R.CloseIff(rest, n);
    Rendered(d, name, rest, params, out, args);
  }

  /** An empty list elsewhere: NULL, or an error in the test of something other than a column. */
  lemma EmptyListElsewhere(d: Dialect, name: string, rest: seq<Piece>, params: Params, out: string, args: seq<Value>)
    requires name in params && params[name] == Q.List([])
    requires forall a, neg, n :: !(R.TestsColumn(out, a, neg) && R.Closes(rest, n))
    ensures Render(d, [Par(name)] + rest, params, out, args)
            == if R.TestsNotIn(out) then Err(NotInOfExpression(name)) else Render(d, rest, params, out + "NULL", args)
  {
    hide R.TestsColumn, R.Closes, ColumnTest, CloseAt, Render, EndsInNotIn;
    if ColumnTest(out).Some? && CloseAt(rest).Some? {
      R.ColumnTestIff(out, ColumnTest(out).value.0, ColumnTest(out).value.1);
      R.CloseIff(rest, CloseAt(rest).value);
    }
    R.NotInFrom(out, 0);
    Rendered(d, name, rest, params, out, args);
  }

  /** What any other value is bound to: all elements of a list in order, everything else as it is. */
  lemma ValueGives(d: Dialect, name: string, rest: seq<Piece>, params: Params, out: string, args: seq<Value>)
    requires name in params && params[name] != Q.List([])
    ensures var vs := match params[name] case List(es) => es case v => [v];
            Render(d, [Par(name)] + rest, params, out, args)
            == Render(d, rest, params, out + Join(Q.Placeholders(d, |args|, |vs|), ","), args + vs)
  {
    hide Render, Join, Q.Placeholders, ColumnTest, EndsInNotIn, AfterClose;
    Rendered(d, name, rest, params, out, args);
  }

  /** All values that the text names, in order: the elements of lists, and other values themselves. */
  function Named(ps: seq<Piece>, params: Params): seq<Value> {
    if ps == [] then []
    else
      (if ps[0].Par? && ps[0].name in params then
         match params[ps[0].name]
         case List(es) => es
         case v => [v]
       else [])
      + Named(ps[1..], params)
  }

  lemma {:induction false} NoneInside(ps: seq<Piece>, params: Params)
    requires AfterClose(ps).Some?
    ensures Named(ps, params) == Named(AfterClose(ps).value, params)
  {
    AfterFirst(ps);
    if ps[0] != Ch(')') {
      NoneInside(ps[1..], params);
    }
  }

  /** The arguments are those values, whatever empty lists do to the text. */
  lemma {:induction false} ArgumentsAreNamed(d: Dialect, ps: seq<Piece>, params: Params, out: string, args: seq<Value>)
    requires Render(d, ps, params, out, args).Ok?
    ensures Render(d, ps, params, out, args).value.args == args + Named(ps, params)
    decreases |ps|
  {
    hide RenderValue, ColumnTest, EndsInNotIn, AfterClose, Join, Q.Placeholders;
    if ps == [] {
    } else if ps[0].Ch? {
      ArgumentsAreNamed(d, ps[1..], params, out + [ps[0].c], args);
    } else {
      var name, rest := ps[0].name, ps[1..];
      ValueRendered(d, name, rest, params, out, args);
      var vs, test := Expand(params[name]), ColumnTest(out);
      if vs != [] {
        ArgumentsAreNamed(d, rest, params, out + Join(Q.Placeholders(d, |args|, |vs|), ","), args + vs);
      } else if test.Some? && AfterClose(rest).Some? {
        NoneInside(rest, params);
        ArgumentsAreNamed(d, AfterClose(rest).value, params, out[..test.value.0] + Constant(test.value.1), args);
      } else {
        ArgumentsAreNamed(d, rest, params, out + "NULL", args);
      }
    }
  }
}
