/** Placeholders and errors: each argument has its placeholder, and Build fails exactly on a bad leaf. */
module QPlaceholders {
  import opened Wrappers
  import opened SqlIdent
  import opened SqlGrammar
  import opened SqlLexer
  import opened Q
  import opened QParse
  import opened QReadBack

  // ----- placeholders are numbered in order, one per argument -----

  function HoleSeq(k: Tokens): seq<Hole> {
    match k
    case End => []
    case Tok(HoleTok(h), rest) => [h] + HoleSeq(rest)
    case Tok(_, rest) => HoleSeq(rest)
  }

  function Numbering(d: Dialect, n: nat, count: nat): (r: seq<Hole>)
    ensures |r| == count
  {
    seq(count, i requires 0 <= i < count => HoleAt(d, n + i + 1))
  }

  lemma NumberingSplit(d: Dialect, n: nat, a: nat, b: nat, s: seq<Hole>)
    ensures Numbering(d, n, a + b) + s == Numbering(d, n, a) + (Numbering(d, n + a, b) + s)
  {
  }

  function ValsHoles(v: Vals<Hole>): seq<Hole> {
    match v
    case One(h) => [h]
    case More(h, rest) => [h] + ValsHoles(rest)
  }

  function TestHoles(t: Test<Hole>): seq<Hole> {
    match t
    case CmpT(_, h) => [h]
    case LikeT(_, h) => [h]
    case NullT(_) => []
    case InT(_, vals) => ValsHoles(vals)
  }

  lemma {:induction false} YieldValsHoles(v: Vals<Hole>, k: Tokens)
    ensures HoleSeq(YieldVals(v, k)) == ValsHoles(v) + HoleSeq(k)
  {
    if v.More? {
      YieldValsHoles(v.rest, k);
      assert HoleSeq(Tok(Comma, YieldVals(v.rest, k))) == HoleSeq(YieldVals(v.rest, k));
    }
  }

  lemma YieldTestHoles(t: Test<Hole>, k: Tokens)
    ensures HoleSeq(YieldTest(t, k)) == TestHoles(t) + HoleSeq(k)
  {
    match t
    case InT(negated, vals) =>
      var list := YieldVals(vals, Tok(RParen, k));
      YieldValsHoles(vals, Tok(RParen, k));
      assert HoleSeq(Tok(LParen, list)) == HoleSeq(list);
      assert HoleSeq(Negated(negated, Tok(Kw(IN), Tok(LParen, list)))) == HoleSeq(list);
    case NullT(negated) =>
      assert HoleSeq(Negated(negated, Tok(Kw(NULL), k))) == HoleSeq(k);
    case LikeT(negated, h) =>
      var like := Tok(Kw(LIKE), Tok(HoleTok(h), k));
      assert HoleSeq(Negated(negated, like)) == HoleSeq(like);
      assert HoleSeq(like) == [h] + HoleSeq(k);
    case CmpT(_, h) =>
      assert HoleSeq(Tok(HoleTok(h), k)) == [h] + HoleSeq(k);
  }

  lemma {:induction false} HoleListNumbering(d: Dialect, n: nat, count: nat)
    requires count >= 1
    ensures ValsHoles(HoleList(d, n, count)) == Numbering(d, n, count)
    decreases count
  {
    if count > 1 {
      HoleListNumbering(d, n + 1, count - 1);
    }
  }

  lemma LeafTestNumbering(d: Dialect, q: Q, n: nat)
    requires LeafError(q).None? && LeafTest(d, q, n).Some?
    ensures TestHoles(LeafTest(d, q, n).value) == Numbering(d, n, |LeafArgs(q)|)
  {
    if LeafTest(d, q, n).value.InT? {
      HoleListNumbering(d, n, |ListValues(q.value)|);
    }
  }

  lemma {:induction false} PartHoles(d: Dialect, parts: seq<string>, k: Tokens)
    requires |parts| >= 1
    ensures HoleSeq(PartToks(d, parts, k)) == HoleSeq(k)
  {
    if |parts| > 1 {
      PartHoles(d, parts[1..], k);
    }
  }

  lemma ConstantHoles(truth: bool, k: Tokens)
    ensures HoleSeq(YieldOr(Constant(truth), k)) == HoleSeq(k)
  {
    var last := Tok(Num(if truth then 1 else 0), k);
    YieldSingle(FPred(NumP(1, Eq, if truth then 1 else 0)), k);
    assert HoleSeq(Tok(CmpTok(Eq), last)) == HoleSeq(last) == HoleSeq(k);
  }

  lemma LeafHoles(d: Dialect, q: Q, n: nat, k: Tokens)
    requires LeafError(q).None?
    ensures HoleSeq(LeafToks(d, q, n, k)) == Numbering(d, n, |LeafArgs(q)|) + HoleSeq(k)
  {
    if LeafTest(d, q, n).None? {
      ConstantHoles(ParseOp(q.op).value != In, k);
    } else {
      PartHoles(d, Split(q.field, '.'), YieldTest(LeafTest(d, q, n).value, k));
      YieldTestHoles(LeafTest(d, q, n).value, k);
      LeafTestNumbering(d, q, n);
    }
  }

  lemma NotIsNoHole(inner: Tokens)
    ensures HoleSeq(Tok(Kw(NOT), Tok(LParen, inner))) == HoleSeq(inner)
  {
    assert HoleSeq(Tok(LParen, inner)) == HoleSeq(inner);
  }

  lemma CloseIsNoHole(k: Tokens)
    ensures HoleSeq(Tok(RParen, k)) == HoleSeq(k)
  {
  }

  lemma {:induction false} ToksHoles(d: Dialect, oq: Option<Q>, n: nat, k: Tokens)
    requires FirstError(oq).None?
    ensures HoleSeq(Toks(d, oq, n, k)) == Numbering(d, n, |Args(oq)|) + HoleSeq(k)
    decreases oq, 0
  {
    hide HoleSeq, LeafToks, LeafArgs, LeafError, YieldOr;
    if oq.None? {
      ConstantHoles(true, k);
    } else {
      var q := oq.value;
      match q.ResolvedKind()
      case KLeaf =>
        LeafHoles(d, q, n, k);
      case KNot =>
        var inner := Toks(d, q.not_, n, Tok(RParen, k));
        ToksHoles(d, q.not_, n, Tok(RParen, k));
        CloseIsNoHole(k);
        NotIsNoHole(inner);
      case kind =>
        ConstantHoles(kind != KOr, k);
        if q.Group().Slice? {
          GroupToksHoles(d, q.Group().elems, n, if kind == KOr then OR else AND, true, k);
          NoPartsNoArgs(d, q.Group().elems, n);
        }
    }
  }

  lemma {:induction false} NoPartsNoArgs(d: Dialect, subs: seq<Option<Q>>, n: nat)
    ensures Parts(d, subs, n) == [] ==> ArgsIn(subs) == []
  {
    if subs != [] {
      NoPartsNoArgs(d, subs[1..], n);
    }
  }

  lemma {:induction false} GroupToksHoles(d: Dialect, subs: seq<Option<Q>>, n: nat, sep: Keyword, first: bool,
                                          k: Tokens)
    requires FirstErrorIn(subs).None?
    ensures HoleSeq(GroupToks(d, subs, n, sep, first, k)) == Numbering(d, n, |ArgsIn(subs)|) + HoleSeq(k)
    decreases subs, 1
  {
    if subs != [] {
      var own := |Args(subs[0])|;
      if subs[0].None? {
        GroupToksHoles(d, subs[1..], n, sep, first, k);
      } else {
        GroupToksHoles(d, subs[1..], n + own, sep, false, k);
        var rest := GroupToks(d, subs[1..], n + own, sep, false, k);
        ToksHoles(d, subs[0], n, Tok(RParen, rest));
        NumberingSplit(d, n, own, |ArgsIn(subs[1..])|, HoleSeq(k));
        var part := Tok(LParen, Toks(d, subs[0], n, Tok(RParen, rest)));
        assert HoleSeq(Tok(Kw(sep), part)) == HoleSeq(part);
      }
    }
  }

  /** The text holds one placeholder per argument, the k-th being number k. */
  lemma PlaceholdersInOrder(d: Dialect, oq: Option<Q>)
    requires FirstError(oq).None?
    ensures HoleSeq(Read(d, oq)) == Numbering(d, 0, |Args(oq)|)
  {
    ReadsToks(d, oq);
    ToksHoles(d, oq, 0, End);
  }

  // ----- Build fails exactly on a bad leaf that it reaches -----

  function Leaves(oq: Option<Q>): seq<Q>
    decreases oq, 0
  {
    if oq.None? then []
    else
      var q := oq.value;
      match q.ResolvedKind()
      case KLeaf => [q]
      case KNot => Leaves(q.not_)
      case _ => if q.Group().NilSlice? then [] else LeavesIn(q.Group().elems)
  }

  function LeavesIn(subs: seq<Option<Q>>): seq<Q>
    decreases subs, 1
  {
    if subs == [] then [] else Leaves(subs[0]) + LeavesIn(subs[1..])
  }

  /** e is the error of the first leaf that has one. */
  ghost predicate IsFirstError(leaves: seq<Q>, e: Option<Error>) {
    if e.None? then forall i | 0 <= i < |leaves| :: LeafError(leaves[i]).None?
    else exists i | 0 <= i < |leaves| ::
        LeafError(leaves[i]) == e && forall j | 0 <= j < i :: LeafError(leaves[j]).None?
  }

  lemma FirstErrorSplit(a: seq<Q>, e: Option<Error>, b: seq<Q>, f: Option<Error>)
    requires IsFirstError(a, e) && IsFirstError(b, f)
    ensures IsFirstError(a + b, if e.Some? then e else f)
  {
    if e.Some? {
      var i :| 0 <= i < |a| && LeafError(a[i]) == e && forall j | 0 <= j < i :: LeafError(a[j]).None?;
      assert LeafError((a + b)[i]) == e;
    } else if f.Some? {
      var i :| 0 <= i < |b| && LeafError(b[i]) == f && forall j | 0 <= j < i :: LeafError(b[j]).None?;
      assert LeafError((a + b)[|a| + i]) == f;
    }
  }

  lemma {:induction false} ErrorIsFirstBadLeaf(oq: Option<Q>)
    ensures IsFirstError(Leaves(oq), FirstError(oq))
    decreases oq, 0
  {
    if oq.Some? {
      var q := oq.value;
      match q.ResolvedKind()
      case KLeaf =>
        assert LeafError([q][0]) == LeafError(q);
      case KNot => ErrorIsFirstBadLeaf(q.not_);
      case _ =>
        if q.Group().Slice? {
          ErrorIsFirstBadLeafIn(q.Group().elems);
        }
    }
  }

  lemma {:induction false} ErrorIsFirstBadLeafIn(subs: seq<Option<Q>>)
    ensures IsFirstError(LeavesIn(subs), FirstErrorIn(subs))
    decreases subs, 1
  {
    if subs != [] {
      ErrorIsFirstBadLeaf(subs[0]);
      ErrorIsFirstBadLeafIn(subs[1..]);
      FirstErrorSplit(Leaves(subs[0]), FirstError(subs[0]), LeavesIn(subs[1..]), FirstErrorIn(subs[1..]));
    }
  }
}
