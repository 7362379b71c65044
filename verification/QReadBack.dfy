/** The text of a condition is read back as exactly one tree, the intended one, if and only if
    no unquoted column part is spelled like a keyword. */
module QReadBack {
  import opened Wrappers
  import opened SqlIdent
  import opened SqlGrammar
  import opened SqlLexer
  import opened Q
  import opened QParse

  // ----- readable conditions: the tokens are what the tree derives -----

  lemma {:induction false} ReadableColumn(d: Dialect, parts: seq<string>, k: Tokens)
    requires |parts| >= 1 && forall i | 0 <= i < |parts| :: QuotedOrNotReserved(d, parts[i])
    ensures PartToks(d, parts, k) == YieldColumn(ColumnOf(parts), k)
  {
    if |parts| > 1 {
      assert forall i | 0 <= i < |parts[1..]| :: parts[1..][i] == parts[i + 1];
      ReadableColumn(d, parts[1..], k);
    }
  }

  lemma ReadableLeafToks(d: Dialect, q: Q, n: nat, k: Tokens)
    requires LeafError(q).None? && ReadableLeaf(d, q)
    ensures LeafToks(d, q, n, k) == YieldOr(LeafTree(d, q, n), k)
  {
    if LeafTest(d, q, n).Some? {
      var test := LeafTest(d, q, n).value;
      ReadableColumn(d, Split(q.field, '.'), YieldTest(test, k));
      YieldSingle(FPred(ColP(FieldColumn(q), test)), k);
    }
  }

  lemma {:induction false} ReadableToks(d: Dialect, oq: Option<Q>, n: nat, k: Tokens)
    requires FirstError(oq).None? && Readable(d, oq)
    ensures Toks(d, oq, n, k) == YieldOr(Tree(d, oq, n), k)
    decreases oq, 0
  {
    if oq.Some? {
      var q := oq.value;
      match q.ResolvedKind()
      case KLeaf =>
        ReadableLeafToks(d, q, n, k);
      case KNot =>
        ReadableToks(d, q.not_, n, Tok(RParen, k));
        YieldSingle(FNot(FParen(Tree(d, q.not_, n))), k);
      case kind =>
        if q.Group().Slice? {
          var subs := q.Group().elems;
          SameParts(d, subs, n);
          if Trees(d, subs, n) != [] {
            ReadableGroup(d, subs, n, kind == KOr, k);
          }
        }
    }
  }

  lemma {:induction false} SameParts(d: Dialect, subs: seq<Option<Q>>, n: nat)
    ensures |Trees(d, subs, n)| == |Parts(d, subs, n)|
  {
    if subs != [] {
      SameParts(d, subs[1..], n + |Args(subs[0])|);
      if subs[0].None? {
        SameParts(d, subs[1..], n);
      }
    }
  }

  function YieldGroup(or: bool, trees: seq<OrE<Hole>>, k: Tokens): Tokens
    requires |trees| >= 1
  {
    if or then YieldOr(OrOf(trees), k) else YieldAnd(AndOf(trees), k)
  }

  lemma YieldGroupStep(or: bool, trees: seq<OrE<Hole>>, k: Tokens)
    requires |trees| >= 1
    ensures YieldGroup(or, trees, k)
         == Tok(LParen, YieldOr(trees[0], Tok(RParen, if |trees| == 1 then k
                        else Tok(Kw(if or then OR else AND), YieldGroup(or, trees[1..], k)))))
  {
    var f := FParen(trees[0]);
    if or {
      if |trees| == 1 {
        YieldSingle(f, k);
      } else {
        var k' := Tok(Kw(OR), YieldOr(OrOf(trees[1..]), k));
        assert YieldAnd(AndOne(f), k') == YieldFactor(f, k');
      }
    } else {
      var k' := if |trees| == 1 then k else Tok(Kw(AND), YieldAnd(AndOf(trees[1..]), k));
      assert YieldAnd(AndOf(trees), k) == YieldFactor(f, k');
    }
  }

  lemma {:induction false} ReadableGroup(d: Dialect, subs: seq<Option<Q>>, n: nat, or: bool, k: Tokens)
    requires FirstErrorIn(subs).None? && ReadableAll(d, subs)
    requires Trees(d, subs, n) != []
    ensures GroupToks(d, subs, n, if or then OR else AND, true, k) == YieldGroup(or, Trees(d, subs, n), k)
    decreases subs, 1
  {
    if subs[0].None? {
      ReadableGroup(d, subs[1..], n, or, k);
    } else {
      var sep, n' := if or then OR else AND, n + |Args(subs[0])|;
      var rest := Trees(d, subs[1..], n');
      SameParts(d, subs[1..], n');
      YieldGroupStep(or, Trees(d, subs, n), k);
      assert Trees(d, subs, n)[1..] == rest;
      if rest == [] {
        NoParts(d, subs[1..], n', sep, k);
      } else {
        LaterParts(d, subs[1..], n', sep, k);
        ReadableGroup(d, subs[1..], n', or, k);
      }
      ReadableToks(d, subs[0], n, Tok(RParen, GroupToks(d, subs[1..], n', sep, false, k)));
    }
  }

  // ----- the others have no parse: a test must come directly after a column -----

  datatype Prev = Other | AfterNum | AfterIdent | AfterIdentNot

  function Advance(p: Prev, t: Token): Prev {
    match t
    case Ident(_) => AfterIdent
    case Num(_) => AfterNum
    case Kw(k) => if k == NOT && p == AfterIdent then AfterIdentNot else Other
    case _ => Other
  }

  /** Whether t may come after p. */
  predicate MayFollow(p: Prev, t: Token) {
    match t
    case Dot => p == AfterIdent
    case CmpTok(_) => p == AfterIdent || p == AfterNum
    case Kw(k) => (k == IS ==> p == AfterIdent) && (k == IN || k == LIKE ==> p == AfterIdent || p == AfterIdentNot)
    case _ => true
  }

  /** Every token may come after the one before it. */
  predicate Adjacent(p: Prev, k: Tokens)
    decreases k
  {
    match k
    case End => true
    case Tok(t, rest) => MayFollow(p, t) && Adjacent(Advance(p, t), rest)
  }

  lemma {:induction false} AdjacentVals(v: Vals<Hole>, p: Prev, k: Tokens)
    requires Adjacent(Other, k)
    ensures Adjacent(p, YieldVals(v, k))
  {
    if v.More? {
      AdjacentVals(v.rest, Other, k);
      assert Adjacent(Other, Tok(Comma, YieldVals(v.rest, k)));
    }
  }

  lemma {:induction false} AdjacentColumn(c: Column, p: Prev, k: Tokens)
    requires Adjacent(AfterIdent, k)
    ensures Adjacent(p, YieldColumn(c, k))
  {
    if c.Qualified? {
      AdjacentColumn(c.rest, Other, k);
      assert Adjacent(AfterIdent, Tok(Dot, YieldColumn(c.rest, k)));
    }
  }

  lemma AdjacentTest(t: Test<Hole>, k: Tokens)
    requires Adjacent(Other, k)
    ensures Adjacent(AfterIdent, YieldTest(t, k))
  {
    match t
    case CmpT(op, h) =>
      assert Adjacent(Other, Tok(HoleTok(h), k));
    case LikeT(negated, h) =>
      assert Adjacent(Other, Tok(HoleTok(h), k));
      assert forall p | p == AfterIdent || p == AfterIdentNot :: Adjacent(p, Tok(Kw(LIKE), Tok(HoleTok(h), k)));
    case NullT(negated) =>
      assert Adjacent(Other, Tok(Kw(NULL), k));
      assert Adjacent(Other, Negated(negated, Tok(Kw(NULL), k)));
    case InT(negated, vals) =>
      AdjacentVals(vals, Other, Tok(RParen, k));
      var list := Tok(LParen, YieldVals(vals, Tok(RParen, k)));
      assert Adjacent(Other, list);
      assert forall p | p == AfterIdent || p == AfterIdentNot :: Adjacent(p, Tok(Kw(IN), list));
  }

  /** More may come after a number than after a bracket. */
  lemma AdjacentAfterNum(k: Tokens)
    requires Adjacent(Other, k)
    ensures Adjacent(AfterNum, k)
  {
  }

  lemma AdjacentPred(pred: Predicate<Hole>, p: Prev, k: Tokens)
    requires Adjacent(Other, k)
    ensures Adjacent(p, YieldPred(pred, k))
  {
    match pred
    case ColP(col, test) =>
      AdjacentTest(test, k);
      AdjacentColumn(col, p, YieldTest(test, k));
    case NumP(a, op, b) =>
      AdjacentAfterNum(k);
      assert Adjacent(Other, Tok(Num(b), k));
      assert Adjacent(AfterNum, Tok(CmpTok(op), Tok(Num(b), k)));
  }

  lemma {:induction false} AdjacentFactor(f: Factor<Hole>, p: Prev, k: Tokens)
    requires Adjacent(Other, k)
    ensures Adjacent(p, YieldFactor(f, k))
    decreases f
  {
    match f
    case FNot(g) =>
      AdjacentFactor(g, Advance(p, Kw(NOT)), k);
    case FParen(e) =>
      AdjacentOr(e, Other, Tok(RParen, k));
    case FPred(pred) =>
      AdjacentPred(pred, p, k);
  }

  lemma {:induction false} AdjacentAnd(t: AndE<Hole>, p: Prev, k: Tokens)
    requires Adjacent(Other, k)
    ensures Adjacent(p, YieldAnd(t, k))
    decreases t
  {
    if t.AndOne? {
      AdjacentFactor(t.f, p, k);
    } else {
      AdjacentAnd(t.rest, Other, k);
      AdjacentFactor(t.f, p, Tok(Kw(AND), YieldAnd(t.rest, k)));
    }
  }

  lemma {:induction false} AdjacentOr(e: OrE<Hole>, p: Prev, k: Tokens)
    requires Adjacent(Other, k)
    ensures Adjacent(p, YieldOr(e, k))
    decreases e
  {
    if e.OrOne? {
      AdjacentAnd(e.t, p, k);
    } else {
      AdjacentOr(e.rest, Other, k);
      AdjacentAnd(e.t, p, Tok(Kw(OR), YieldOr(e.rest, k)));
    }
  }

  lemma TestNeedsColumn(p: Prev, test: Test<Hole>, k: Tokens)
    requires Adjacent(p, YieldTest(test, k))
    ensures p == AfterIdent || p == AfterIdentNot || p == AfterNum
  {
    match test
    case CmpT(_, _) =>
    case NullT(_) =>
    case LikeT(negated, h) =>
      var like := Tok(Kw(LIKE), Tok(HoleTok(h), k));
      assert negated ==> Adjacent(Advance(p, Kw(NOT)), like);
    case InT(negated, vals) =>
      var list := Tok(Kw(IN), Tok(LParen, YieldVals(vals, Tok(RParen, k))));
      assert negated ==> Adjacent(Advance(p, Kw(NOT)), list);
  }

  lemma {:induction false} AdjacentParts(d: Dialect, parts: seq<string>, p: Prev, test: Test<Hole>, k: Tokens)
    requires |parts| >= 1 && p != AfterIdent
    requires Adjacent(p, PartToks(d, parts, YieldTest(test, k)))
    ensures forall i | 0 <= i < |parts| :: QuotedOrNotReserved(d, parts[i])
  {
    var t := PartToken(d, parts[0]);
    assert t.Ident? ==> t == Ident(parts[0]);
    if |parts| == 1 {
      assert Adjacent(Advance(p, t), YieldTest(test, k));
      TestNeedsColumn(Advance(p, t), test, k);
    } else {
      AdjacentParts(d, parts[1..], Other, test, k);
      assert forall i | 1 <= i < |parts| :: parts[i] == parts[1..][i - 1];
    }
  }

  predicate Closes(k: Tokens) {
    k == End || Starts(k, RParen)
  }

  /** Reading past a condition: it was readable, and what comes after it is still in order. */
  lemma {:induction false} AdjacentToks(d: Dialect, oq: Option<Q>, n: nat, k: Tokens)
    requires FirstError(oq).None? && Closes(k)
    requires Adjacent(Other, Toks(d, oq, n, k))
    ensures Readable(d, oq) && Adjacent(Other, k)
    decreases oq, 0
  {
    if oq.Some? {
      var q := oq.value;
      match q.ResolvedKind()
      case KLeaf =>
        AdjacentLeaf(d, q, n, k);
      case KNot =>
        var inner := Toks(d, q.not_, n, Tok(RParen, k));
        assert Adjacent(Other, Tok(LParen, inner));
        AdjacentToks(d, q.not_, n, Tok(RParen, k));
      case kind =>
        if q.Group().Slice? {
          var subs := q.Group().elems;
          if Parts(d, subs, n) == [] {
            AllNil(d, subs, n);
            AdjacentConstant(kind != KOr, k);
          } else {
            AdjacentGroup(d, subs, n, if kind == KOr then OR else AND, true, k);
          }
        } else {
          AdjacentConstant(kind != KOr, k);
        }
    } else {
      AdjacentConstant(true, k);
    }
  }

  lemma AdjacentConstant(truth: bool, k: Tokens)
    requires Adjacent(Other, YieldOr(Constant(truth), k)) && Closes(k)
    ensures Adjacent(Other, k)
  {
    var last := Tok(Num(if truth then 1 else 0), k);
    YieldSingle(FPred(NumP(1, Eq, if truth then 1 else 0)), k);
    assert YieldOr(Constant(truth), k) == Tok(Num(1), Tok(CmpTok(Eq), last));
    assert Adjacent(AfterNum, Tok(CmpTok(Eq), last));
    assert Adjacent(Other, last);
    assert Adjacent(AfterNum, k);
  }

  lemma {:induction false} AdjacentLeaf(d: Dialect, q: Q, n: nat, k: Tokens)
    requires LeafError(q).None? && Closes(k)
    requires Adjacent(Other, LeafToks(d, q, n, k))
    ensures ReadableLeaf(d, q) && Adjacent(Other, k)
  {
    if LeafTest(d, q, n).None? {
      AdjacentConstant(ParseOp(q.op).value != In, k);
    } else {
      var test := LeafTest(d, q, n).value;
      AdjacentParts(d, Split(q.field, '.'), Other, test, k);
      AdjacentEnd(d, Split(q.field, '.'), Other, YieldTest(test, k));
      AdjacentAfterTest(test, k);
    }
  }

  lemma {:induction false} AdjacentEnd(d: Dialect, parts: seq<string>, p: Prev, k: Tokens)
    requires |parts| >= 1 && Adjacent(p, PartToks(d, parts, k))
    ensures exists p' :: Adjacent(p', k)
  {
    if |parts| > 1 {
      AdjacentEnd(d, parts[1..], Other, k);
    } else {
      assert Adjacent(Advance(p, PartToken(d, parts[0])), k);
    }
  }

  lemma AdjacentAfterTest(test: Test<Hole>, k: Tokens)
    requires exists p :: Adjacent(p, YieldTest(test, k))
    requires Closes(k)
    ensures Adjacent(Other, k)
  {
    var p :| Adjacent(p, YieldTest(test, k));
    match test
    case CmpT(op, h) =>
      assert Adjacent(Other, Tok(HoleTok(h), k));
    case LikeT(negated, h) =>
      var like := Tok(Kw(LIKE), Tok(HoleTok(h), k));
      assert negated ==> Adjacent(Advance(p, Kw(NOT)), like);
      assert Adjacent(Other, Tok(HoleTok(h), k));
    case NullT(negated) =>
      var nullTok := Tok(Kw(NULL), k);
      assert Adjacent(Other, Negated(negated, nullTok));
      assert Adjacent(Other, nullTok);
    case InT(negated, vals) =>
      var list := YieldVals(vals, Tok(RParen, k));
      assert negated ==> Adjacent(Advance(p, Kw(NOT)), Tok(Kw(IN), Tok(LParen, list)));
      assert Adjacent(Other, Tok(LParen, list));
      AdjacentAfterVals(vals, Tok(RParen, k));
  }

  lemma {:induction false} AdjacentAfterVals(vals: Vals<Hole>, k: Tokens)
    requires Adjacent(Other, YieldVals(vals, k))
    ensures Adjacent(Other, k)
  {
    if vals.More? {
      assert Adjacent(Other, Tok(Comma, YieldVals(vals.rest, k)));
      AdjacentAfterVals(vals.rest, k);
    }
  }

  lemma {:induction false} AllNil(d: Dialect, subs: seq<Option<Q>>, n: nat)
    requires Parts(d, subs, n) == []
    ensures ReadableAll(d, subs)
  {
    if subs != [] {
      AllNil(d, subs[1..], n);
    }
  }

  lemma {:induction false} AdjacentGroup(d: Dialect, subs: seq<Option<Q>>, n: nat, sep: Keyword, first: bool, k: Tokens)
    requires FirstErrorIn(subs).None? && (sep == AND || sep == OR) && Closes(k)
    requires Adjacent(Other, GroupToks(d, subs, n, sep, first, k))
    ensures ReadableAll(d, subs) && Adjacent(Other, k)
    decreases subs, 1
  {
    if subs != [] {
      if subs[0].None? {
        AdjacentGroup(d, subs[1..], n, sep, first, k);
      } else {
        var n' := n + |Args(subs[0])|;
        var rest := GroupToks(d, subs[1..], n', sep, false, k);
        var inner := Toks(d, subs[0], n, Tok(RParen, rest));
        assert Adjacent(Other, Tok(LParen, inner));
        AdjacentToks(d, subs[0], n, Tok(RParen, rest));
        AdjacentGroup(d, subs[1..], n', sep, false, k);
      }
    }
  }

  // ----- main results -----

  /** What the database reads in the text of a condition. */
  function Read(d: Dialect, oq: Option<Q>): Tokens {
    Lex(d, Text(d, oq, 0))
  }

  /** The emitted text has a parse exactly when the condition is readable. */
  lemma HasParseIffReadable(d: Dialect, oq: Option<Q>)
    requires FirstError(oq).None?
    ensures (exists e :: Parses(Read(d, oq), e)) <==> Readable(d, oq)
  {
    hide Lex, LexOne, Text, Toks;
    ReadsToks(d, oq);
    if Readable(d, oq) {
      ReadableToks(d, oq, 0, End);
      assert Parses(Read(d, oq), Tree(d, oq, 0));
    }
    if e :| Parses(Read(d, oq), e) {
      AdjacentOr(e, Other, End);
      AdjacentToks(d, oq, 0, End);
    }
  }

  /** That parse is unique: it is the intended tree. */
  lemma ParseIsTree(d: Dialect, oq: Option<Q>, e: OrE<Hole>)
    requires FirstError(oq).None? && Parses(Read(d, oq), e)
    ensures e == Tree(d, oq, 0)
  {
    HasParseIffReadable(d, oq);
    ReadsToks(d, oq);
    ReadableToks(d, oq, 0, End);
    Unambiguous(Read(d, oq), e, Tree(d, oq, 0));
  }

  lemma ReadsToks(d: Dialect, oq: Option<Q>)
    requires FirstError(oq).None?
    ensures Read(d, oq) == Toks(d, oq, 0, End)
  {
    LexText(d, oq, 0, "");
    assert Text(d, oq, 0) + "" == Text(d, oq, 0);
  }

  /** Dialects that quote names read every condition that builds. */
  lemma {:induction false} QuotingMakesReadable(d: Dialect, oq: Option<Q>)
    requires d != Generic
    ensures Readable(d, oq)
    decreases oq, 0
  {
    if oq.Some? {
      match oq.value.ResolvedKind()
      case KLeaf =>
      case KNot => QuotingMakesReadable(d, oq.value.not_);
      case _ =>
        if oq.value.Group().Slice? {
          QuotingMakesAllReadable(d, oq.value.Group().elems);
        }
    }
  }

  lemma {:induction false} QuotingMakesAllReadable(d: Dialect, subs: seq<Option<Q>>)
    requires d != Generic
    ensures ReadableAll(d, subs)
    decreases subs, 1
  {
    if subs != [] {
      QuotingMakesReadable(d, subs[0]);
      QuotingMakesAllReadable(d, subs[1..]);
    }
  }

  /** A column named NOT: fine once quoted, but its Generic text `NOT = ?` has no parse. */
  lemma ReservedNameExample(d: Dialect)
    ensures var q := Q("NOT", "=", Int(1), NilSlice, NilSlice, None, KLeaf);
            FirstError(Some(q)).None? && ((exists e :: Parses(Read(d, Some(q)), e)) <==> d != Generic)
  {
    hide Read, Parses, Readable, FirstError;
    var q := Q("NOT", "=", Int(1), NilSlice, NilSlice, None, KLeaf);
    NotIsReserved(d, q);
    HasParseIffReadable(d, Some(q));
  }

  lemma NotIsReserved(d: Dialect, q: Q)
    requires q == Q("NOT", "=", Int(1), NilSlice, NilSlice, None, KLeaf)
    ensures FirstError(Some(q)).None? && (Readable(d, Some(q)) <==> d != Generic)
  {
    hide ParseOp, Split, WordToken;
    SplitNot();
    ParseEq();
    KeywordTokens();
    var parts := Split(q.field, '.');
    assert parts[0] == "NOT";
  }

  lemma SplitNot()
    ensures Split("NOT", '.') == ["NOT"]
  {
    assert "NOT"[1..] == "OT" && "OT"[1..] == "T" && "T"[1..] == "";
    assert Split("", '.') == [""];
    assert ['T'] + "" == "T" && ['O'] + "T" == "OT" && ['N'] + "OT" == "NOT";
    assert Split("T", '.') == ["T"];
    assert Split("OT", '.') == ["OT"];
  }

  lemma ParseEq()
    ensures ParseOp("=") == Some(Cmp(Eq))
  {
    var s := "=";
    assert s[1..] == "" && s[0] == '=';
    assert !IsSpace('=') && WordLength("") == 0;
    assert WordLength(s) == 1;
    assert s[..1] == s;
    assert Fields(s) == ["="];
    assert Upper("=") == "=";
  }
}
