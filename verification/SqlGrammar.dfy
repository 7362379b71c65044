/** The boolean value expressions of section 6.34 of ISO/IEC 9075-2:2003 that conditions use:
    NOT binds tighter than AND, AND tighter than OR. */
module SqlGrammar {
  import opened Q

  /** A placeholder as written: the next argument, or the argument with a number. */
  datatype Hole = Next | Numbered(n: nat)

  datatype Keyword =
    | AND | OR | NOT | IN | LIKE | IS | NULL
    | UPDATE | SET | WHERE | CASE | WHEN | THEN | ELSE | END
    | INSERT | INTO | VALUES

  datatype Token =
    | Kw(k: Keyword)
    | Ident(name: string)
    | Dot
    | Comma
    | LParen
    | RParen
    | CmpTok(op: CmpOp)
    | Num(v: nat)
    | HoleTok(hole: Hole)
    | Bad(c: char)

  // ----- parse trees; P is what stands in a value position -----

  datatype Column = Last(part: string) | Qualified(part: string, rest: Column)

  datatype Vals<P> = One(p: P) | More(p: P, rest: Vals<P>)

  datatype Predicate<P> = ColP(col: Column, test: Test<P>) | NumP(a: nat, op: CmpOp, b: nat)

  datatype Test<P> =
    | CmpT(op: CmpOp, p: P)
    | LikeT(negated: bool, p: P)
    | NullT(negated: bool)
    | InT(negated: bool, vals: Vals<P>)

  datatype OrE<P> = OrOne(t: AndE<P>) | OrMore(t: AndE<P>, rest: OrE<P>)

  datatype AndE<P> = AndOne(f: Factor<P>) | AndMore(f: Factor<P>, rest: AndE<P>)

  datatype Factor<P> = FNot(f: Factor<P>) | FParen(e: OrE<P>) | FPred(pred: Predicate<P>)

  // ----- what a parse tree derives, given the tokens that come after it -----

  datatype Tokens = End | Tok(t: Token, rest: Tokens)

  function YieldColumn(c: Column, k: Tokens): Tokens {
    match c
    case Last(part) => Tok(Ident(part), k)
    case Qualified(part, rest) => Tok(Ident(part), Tok(Dot, YieldColumn(rest, k)))
  }

  function YieldVals(v: Vals<Hole>, k: Tokens): Tokens {
    match v
    case One(p) => Tok(HoleTok(p), k)
    case More(p, rest) => Tok(HoleTok(p), Tok(Comma, YieldVals(rest, k)))
  }

  function Negated(negated: bool, k: Tokens): Tokens {
    if negated then Tok(Kw(NOT), k) else k
  }

  function YieldTest(t: Test<Hole>, k: Tokens): Tokens {
    match t
    case CmpT(op, h) => Tok(CmpTok(op), Tok(HoleTok(h), k))
    case LikeT(negated, h) => Negated(negated, Tok(Kw(LIKE), Tok(HoleTok(h), k)))
    case NullT(negated) => Tok(Kw(IS), Negated(negated, Tok(Kw(NULL), k)))
    case InT(negated, vals) => Negated(negated, Tok(Kw(IN), Tok(LParen, YieldVals(vals, Tok(RParen, k)))))
  }

  function YieldPred(p: Predicate<Hole>, k: Tokens): Tokens {
    match p
    case ColP(col, test) => YieldColumn(col, YieldTest(test, k))
    case NumP(a, op, b) => Tok(Num(a), Tok(CmpTok(op), Tok(Num(b), k)))
  }

  function YieldFactor(f: Factor<Hole>, k: Tokens): Tokens {
    match f
    case FNot(g) => Tok(Kw(NOT), YieldFactor(g, k))
    case FParen(e) => Tok(LParen, YieldOr(e, Tok(RParen, k)))
    case FPred(p) => YieldPred(p, k)
  }

  function YieldAnd(t: AndE<Hole>, k: Tokens): Tokens {
    match t
    case AndOne(f) => YieldFactor(f, k)
    case AndMore(f, rest) => YieldFactor(f, Tok(Kw(AND), YieldAnd(rest, k)))
  }

  function YieldOr(e: OrE<Hole>, k: Tokens): Tokens {
    match e
    case OrOne(t) => YieldAnd(t, k)
    case OrMore(t, rest) => YieldAnd(t, Tok(Kw(OR), YieldOr(rest, k)))
  }

  ghost predicate Parses(toks: Tokens, e: OrE<Hole>) {
    YieldOr(e, End) == toks
  }

  // ----- the grammar is unambiguous -----

  predicate Starts(k: Tokens, t: Token) {
    k.Tok? && k.t == t
  }

  lemma {:induction false} UniqueColumn(a: Column, b: Column, r: Tokens, s: Tokens)
    requires YieldColumn(a, r) == YieldColumn(b, s)
    requires !Starts(r, Dot) && !Starts(s, Dot)
    ensures a == b && r == s
  {
    if a.Qualified? && b.Qualified? {
      UniqueColumn(a.rest, b.rest, r, s);
    }
  }

  lemma {:induction false} UniqueVals(a: Vals<Hole>, b: Vals<Hole>, r: Tokens, s: Tokens)
    requires YieldVals(a, r) == YieldVals(b, s)
    requires !Starts(r, Comma) && !Starts(s, Comma)
    ensures a == b && r == s
  {
    if a.More? && b.More? {
      UniqueVals(a.rest, b.rest, r, s);
    }
  }

  lemma UniquePred(p: Predicate<Hole>, q: Predicate<Hole>, r: Tokens, s: Tokens)
    requires YieldPred(p, r) == YieldPred(q, s)
    ensures p == q && r == s
  {
    if p.ColP? && q.ColP? {
      UniqueColumn(p.col, q.col, YieldTest(p.test, r), YieldTest(q.test, s));
      if p.test.InT? && q.test.InT? {
        UniqueVals(p.test.vals, q.test.vals, Tok(RParen, r), Tok(RParen, s));
      }
    }
  }

  lemma {:induction false} UniqueFactor(f: Factor<Hole>, g: Factor<Hole>, r: Tokens, s: Tokens)
    requires YieldFactor(f, r) == YieldFactor(g, s)
    ensures f == g && r == s
    decreases f
  {
    if f.FNot? && g.FNot? {
      UniqueFactor(f.f, g.f, r, s);
    } else if f.FParen? && g.FParen? {
      UniqueOr(f.e, g.e, Tok(RParen, r), Tok(RParen, s));
    } else if f.FPred? && g.FPred? {
      UniquePred(f.pred, g.pred, r, s);
    }
  }

  lemma {:induction false} UniqueAnd(t: AndE<Hole>, u: AndE<Hole>, r: Tokens, s: Tokens)
    requires YieldAnd(t, r) == YieldAnd(u, s)
    requires !Starts(r, Kw(AND)) && !Starts(s, Kw(AND))
    ensures t == u && r == s
    decreases t
  {
    var a := if t.AndOne? then r else Tok(Kw(AND), YieldAnd(t.rest, r));
    var b := if u.AndOne? then s else Tok(Kw(AND), YieldAnd(u.rest, s));
    UniqueFactor(t.f, u.f, a, b);
    if t.AndMore? && u.AndMore? {
      UniqueAnd(t.rest, u.rest, r, s);
    }
  }

  lemma {:induction false} UniqueOr(e: OrE<Hole>, f: OrE<Hole>, r: Tokens, s: Tokens)
    requires YieldOr(e, r) == YieldOr(f, s)
    requires !Starts(r, Kw(AND)) && !Starts(s, Kw(AND))
    requires !Starts(r, Kw(OR)) && !Starts(s, Kw(OR))
    ensures e == f && r == s
    decreases e
  {
    var a := if e.OrOne? then r else Tok(Kw(OR), YieldOr(e.rest, r));
    var b := if f.OrOne? then s else Tok(Kw(OR), YieldOr(f.rest, s));
    UniqueAnd(e.t, f.t, a, b);
    if e.OrMore? && f.OrMore? {
      UniqueOr(e.rest, f.rest, r, s);
    }
  }

  /** Every token sequence has at most one parse. */
  lemma Unambiguous(toks: Tokens, e: OrE<Hole>, f: OrE<Hole>)
    requires Parses(toks, e) && Parses(toks, f)
    ensures e == f
  {
    UniqueOr(e, f, End, End);
  }
}
