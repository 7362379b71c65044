/** What the emitted text means once the arguments are bound: the same three-valued truth as
    the condition tree, in every dialect. */
module QMeaning {
  import opened Wrappers
  import opened SqlIdent
  import opened SqlGrammar
  import opened SqlLexer
  import opened Q
  import opened QParse
  import opened QReadBack

  // ----- three-valued logic -----

  datatype Truth = True | False | Unknown

  function Of(b: bool): Truth {
    if b then True else False
  }

  function And3(a: Truth, b: Truth): Truth {
    if a == False || b == False then False
    else if a == Unknown || b == Unknown then Unknown
    else True
  }

  function Not3(a: Truth): Truth {
    match a
    case True => False
    case False => True
    case Unknown => Unknown
  }

  function Or3(a: Truth, b: Truth): Truth {
    Not3(And3(Not3(a), Not3(b)))
  }

  /** A row and the database's comparisons of non-NULL values. */
  datatype World = World(cell: seq<string> -> Value,
                         compare: (CmpOp, Value, Value) -> bool,
                         like: (Value, Value) -> bool)

  function Compare(w: World, op: CmpOp, a: Value, b: Value): Truth {
    if a == Nil || b == Nil then Unknown else Of(w.compare(op, a, b))
  }

  function Matches(w: World, a: Value, b: Value): Truth {
    if a == Nil || b == Nil then Unknown else Of(w.like(a, b))
  }

  /** a IN (vals): some value is equal. */
  function Member(w: World, a: Value, vals: seq<Value>): Truth {
    if vals == [] then False else Or3(Compare(w, Eq, a, vals[0]), Member(w, a, vals[1..]))
  }

  // ----- the meaning of a condition tree -----

  function LeafMeaning(w: World, q: Q): Truth {
    var v := w.cell(Split(q.field, '.'));
    match ParseOp(q.op)
    case None => Unknown
    case Some(op) =>
      match op
      case IsNull => Of(v == Nil)
      case IsNotNull => Of(v != Nil)
      case Like => Matches(w, v, q.value)
      case NotLike => Not3(Matches(w, v, q.value))
      case In => Member(w, v, ListValues(q.value))
      case NotIn => Not3(Member(w, v, ListValues(q.value)))
      case Cmp(c) =>
        if q.value == Nil && c == Eq then Of(v == Nil)
        else if q.value == Nil && c == Ne then Of(v != Nil)
        else Compare(w, c, v, q.value)
  }

  function Meaning(w: World, oq: Option<Q>): Truth
    decreases oq, 0
  {
    if oq.None? then True
    else
      var q := oq.value;
      match q.ResolvedKind()
      case KLeaf => LeafMeaning(w, q)
      case KNot => Not3(Meaning(w, q.not_))
      case KAnd => if q.Group().NilSlice? then True else AllOf(w, q.Group().elems)
      case KOr => if q.Group().NilSlice? then False else SomeOf(w, q.Group().elems)
  }

  /** The conjunction of the children that are not nil. */
  function AllOf(w: World, subs: seq<Option<Q>>): Truth
    decreases subs, 1
  {
    if subs == [] then True
    else if subs[0].None? then AllOf(w, subs[1..])
    else And3(Meaning(w, subs[0]), AllOf(w, subs[1..]))
  }

  function SomeOf(w: World, subs: seq<Option<Q>>): Truth
    decreases subs, 1
  {
    if subs == [] then False
    else if subs[0].None? then SomeOf(w, subs[1..])
    else Or3(Meaning(w, subs[0]), SomeOf(w, subs[1..]))
  }

  // ----- the meaning of a parse tree with values in its value positions -----

  function ColumnName(c: Column): seq<string> {
    match c
    case Last(part) => [part]
    case Qualified(part, rest) => [part] + ColumnName(rest)
  }

  function EvalVals(w: World, a: Value, vals: Vals<Value>): Truth {
    match vals
    case One(p) => Compare(w, Eq, a, p)
    case More(p, rest) => Or3(Compare(w, Eq, a, p), EvalVals(w, a, rest))
  }

  function EvalTest(w: World, a: Value, t: Test<Value>): Truth {
    match t
    case CmpT(op, p) => Compare(w, op, a, p)
    case LikeT(negated, p) => if negated then Not3(Matches(w, a, p)) else Matches(w, a, p)
    case NullT(negated) => Of((a == Nil) != negated)
    case InT(negated, vals) => if negated then Not3(EvalVals(w, a, vals)) else EvalVals(w, a, vals)
  }

  function EvalNum(op: CmpOp, a: nat, b: nat): Truth {
    match op
    case Eq => Of(a == b)
    case Ne => Of(a != b)
    case Gt => Of(a > b)
    case Gte => Of(a >= b)
    case Lt => Of(a < b)
    case Lte => Of(a <= b)
  }

  function EvalFactor(w: World, f: Factor<Value>): Truth {
    match f
    case FNot(g) => Not3(EvalFactor(w, g))
    case FParen(e) => EvalOr(w, e)
    case FPred(ColP(col, test)) => EvalTest(w, w.cell(ColumnName(col)), test)
    case FPred(NumP(a, op, b)) => EvalNum(op, a, b)
  }

  function EvalAnd(w: World, t: AndE<Value>): Truth {
    match t
    case AndOne(f) => EvalFactor(w, f)
    case AndMore(f, rest) => And3(EvalFactor(w, f), EvalAnd(w, rest))
  }

  function EvalOr(w: World, e: OrE<Value>): Truth {
    match e
    case OrOne(t) => EvalAnd(w, t)
    case OrMore(t, rest) => Or3(EvalAnd(w, t), EvalOr(w, rest))
  }

  // ----- binding: pos placeholders come before the tree -----

  function ArgAt(args: seq<Value>, i: int): Value {
    if 0 <= i < |args| then args[i] else Nil
  }

  function BindHole(h: Hole, args: seq<Value>, pos: nat): Value {
    match h
    case Next => ArgAt(args, pos)
    case Numbered(n) => ArgAt(args, n - 1)
  }

  function HolesVals(v: Vals<Hole>): nat {
    match v
    case One(_) => 1
    case More(_, rest) => 1 + HolesVals(rest)
  }

  function BindVals(v: Vals<Hole>, args: seq<Value>, pos: nat): Vals<Value> {
    match v
    case One(h) => One(BindHole(h, args, pos))
    case More(h, rest) => More(BindHole(h, args, pos), BindVals(rest, args, pos + 1))
  }

  function HolesTest(t: Test<Hole>): nat {
    match t
    case CmpT(_, _) => 1
    case LikeT(_, _) => 1
    case NullT(_) => 0
    case InT(_, vals) => HolesVals(vals)
  }

  function BindTest(t: Test<Hole>, args: seq<Value>, pos: nat): Test<Value> {
    match t
    case CmpT(op, h) => CmpT(op, BindHole(h, args, pos))
    case LikeT(negated, h) => LikeT(negated, BindHole(h, args, pos))
    case NullT(negated) => NullT(negated)
    case InT(negated, vals) => InT(negated, BindVals(vals, args, pos))
  }

  function HolesFactor(f: Factor<Hole>): nat {
    match f
    case FNot(g) => HolesFactor(g)
    case FParen(e) => HolesOr(e)
    case FPred(ColP(_, test)) => HolesTest(test)
    case FPred(NumP(_, _, _)) => 0
  }

  function HolesAnd(t: AndE<Hole>): nat {
    match t
    case AndOne(f) => HolesFactor(f)
    case AndMore(f, rest) => HolesFactor(f) + HolesAnd(rest)
  }

  function HolesOr(e: OrE<Hole>): nat {
    match e
    case OrOne(t) => HolesAnd(t)
    case OrMore(t, rest) => HolesAnd(t) + HolesOr(rest)
  }

  function BindFactor(f: Factor<Hole>, args: seq<Value>, pos: nat): Factor<Value> {
    match f
    case FNot(g) => FNot(BindFactor(g, args, pos))
    case FParen(e) => FParen(BindOr(e, args, pos))
    case FPred(ColP(col, test)) => FPred(ColP(col, BindTest(test, args, pos)))
    case FPred(NumP(a, op, b)) => FPred(NumP(a, op, b))
  }

  function BindAnd(t: AndE<Hole>, args: seq<Value>, pos: nat): AndE<Value> {
    match t
    case AndOne(f) => AndOne(BindFactor(f, args, pos))
    case AndMore(f, rest) => AndMore(BindFactor(f, args, pos), BindAnd(rest, args, pos + HolesFactor(f)))
  }

  function BindOr(e: OrE<Hole>, args: seq<Value>, pos: nat): OrE<Value> {
    match e
    case OrOne(t) => OrOne(BindAnd(t, args, pos))
    case OrMore(t, rest) => OrMore(BindAnd(t, args, pos), BindOr(rest, args, pos + HolesAnd(t)))
  }

  // ----- the meaning is kept -----

  lemma {:induction false} ColumnNameOf(parts: seq<string>)
    requires |parts| >= 1
    ensures ColumnName(ColumnOf(parts)) == parts
  {
    if |parts| > 1 {
      ColumnNameOf(parts[1..]);
    }
  }

  /** The arguments at positions n and up are those of the condition. */
  predicate Bound(args: seq<Value>, n: nat, own: seq<Value>) {
    n + |own| <= |args| && args[n..n + |own|] == own
  }

  lemma BoundSplit(args: seq<Value>, n: nat, a: seq<Value>, b: seq<Value>)
    requires Bound(args, n, a + b)
    ensures Bound(args, n, a) && Bound(args, n + |a|, b)
  {
    assert a == (a + b)[..|a|] && b == (a + b)[|a|..];
  }

  lemma {:induction false} ValsMeaning(d: Dialect, w: World, a: Value, vals: seq<Value>, args: seq<Value>, n: nat)
    requires |vals| >= 1 && Bound(args, n, vals)
    ensures HolesVals(HoleList(d, n, |vals|)) == |vals|
    ensures EvalVals(w, a, BindVals(HoleList(d, n, |vals|), args, n)) == Member(w, a, vals)
    decreases |vals|
  {
    hide Placeholder;
    assert args[n] == args[n..n + |vals|][0] == vals[0];
    if |vals| > 1 {
      assert args[n + 1..n + 1 + |vals[1..]|] == args[n..n + |vals|][1..];
      ValsMeaning(d, w, a, vals[1..], args, n + 1);
    } else {
      assert Member(w, a, vals[1..]) == False;
    }
  }

  lemma TestIsKept(d: Dialect, w: World, q: Q, args: seq<Value>, n: nat)
    requires LeafError(q).None? && Bound(args, n, LeafArgs(q)) && LeafTest(d, q, n).Some?
    ensures HolesTest(LeafTest(d, q, n).value) == |LeafArgs(q)|
    ensures EvalTest(w, w.cell(Split(q.field, '.')), BindTest(LeafTest(d, q, n).value, args, n)) == LeafMeaning(w, q)
  {
    hide HoleList, HolesVals, BindVals, EvalVals, Member, Split, ParseOp, ListValues;
    match LeafTest(d, q, n).value
    case InT(_, _) =>
      ValsMeaning(d, w, w.cell(Split(q.field, '.')), ListValues(q.value), args, n);
    case NullT(_) =>
    case _ =>
      assert args[n] == args[n..n + 1][0] == q.value;
  }

  lemma LeafIsKept(d: Dialect, w: World, q: Q, args: seq<Value>, n: nat)
    requires LeafError(q).None? && Bound(args, n, LeafArgs(q))
    ensures HolesOr(LeafTree(d, q, n)) == |LeafArgs(q)|
    ensures EvalOr(w, BindOr(LeafTree(d, q, n), args, n)) == LeafMeaning(w, q)
  {
    if LeafTest(d, q, n).None? {
      SingleIsKept(w, FPred(NumP(1, Eq, if ParseOp(q.op).value != In then 1 else 0)), args, n);
    } else {
      var f := FPred(ColP(FieldColumn(q), LeafTest(d, q, n).value));
      SingleIsKept(w, f, args, n);
      ColumnNameOf(Split(q.field, '.'));
      TestIsKept(d, w, q, args, n);
    }
  }

  lemma SingleHoles(f: Factor<Hole>, args: seq<Value>, n: nat)
    ensures HolesOr(Single(f)) == HolesFactor(f)
    ensures BindOr(Single(f), args, n) == OrOne(AndOne(BindFactor(f, args, n)))
  {
    assert HolesAnd(AndOne(f)) == HolesFactor(f);
    assert BindAnd(AndOne(f), args, n) == AndOne(BindFactor(f, args, n));
  }

  lemma SingleIsKept(w: World, f: Factor<Hole>, args: seq<Value>, n: nat)
    ensures HolesOr(Single(f)) == HolesFactor(f)
    ensures BindOr(Single(f), args, n) == OrOne(AndOne(BindFactor(f, args, n)))
    ensures EvalOr(w, BindOr(Single(f), args, n)) == EvalFactor(w, BindFactor(f, args, n))
  {
    SingleHoles(f, args, n);
    var g := BindFactor(f, args, n);
    assert EvalAnd(w, AndOne(g)) == EvalFactor(w, g);
  }

  /** A condition's tree takes its own arguments and has its own meaning. */
  lemma {:induction false} MeaningIsKept(d: Dialect, w: World, oq: Option<Q>, args: seq<Value>, n: nat)
    requires FirstError(oq).None? && Bound(args, n, Args(oq))
    ensures HolesOr(Tree(d, oq, n)) == |Args(oq)|
    ensures EvalOr(w, BindOr(Tree(d, oq, n), args, n)) == Meaning(w, oq)
    decreases oq, 0
  {
    if oq.None? {
      SingleIsKept(w, FPred(NumP(1, Eq, 1)), args, n);
    } else {
      var q := oq.value;
      match q.ResolvedKind()
      case KLeaf =>
        LeafIsKept(d, w, q, args, n);
      case KNot =>
        MeaningIsKept(d, w, q.not_, args, n);
        var inner := FParen(Tree(d, q.not_, n));
        SingleIsKept(w, FNot(inner), args, n);
        assert EvalFactor(w, BindFactor(inner, args, n)) == Meaning(w, q.not_);
        assert HolesFactor(inner) == HolesOr(Tree(d, q.not_, n));
      case kind =>
        var trees := if q.Group().NilSlice? then [] else Trees(d, q.Group().elems, n);
        if q.Group().Slice? {
          GroupIsKept(d, w, q.Group().elems, kind == KOr, args, n);
        }
        if trees == [] {
          SingleIsKept(w, FPred(NumP(1, Eq, if kind != KOr then 1 else 0)), args, n);
        } else {
          assert BindOr(OrOne(AndOf(trees)), args, n) == OrOne(BindAnd(AndOf(trees), args, n));
        }
    }
  }

  function GroupHoles(or: bool, trees: seq<OrE<Hole>>): nat {
    if trees == [] then 0 else if or then HolesOr(OrOf(trees)) else HolesAnd(AndOf(trees))
  }

  function GroupTruth(w: World, or: bool, trees: seq<OrE<Hole>>, args: seq<Value>, n: nat): Truth {
    if trees == [] then Of(!or)
    else if or then EvalOr(w, BindOr(OrOf(trees), args, n))
    else EvalAnd(w, BindAnd(AndOf(trees), args, n))
  }

  function Combine(or: bool, a: Truth, b: Truth): Truth {
    if or then Or3(a, b) else And3(a, b)
  }

  lemma GroupHolesStep(trees: seq<OrE<Hole>>)
    requires |trees| >= 1
    ensures forall or :: GroupHoles(or, trees) == HolesOr(trees[0]) + GroupHoles(or, trees[1..])
  {
    var f := FParen(trees[0]);
    assert HolesAnd(AndOne(f)) == HolesFactor(f) == HolesOr(trees[0]);
  }

  lemma GroupStep(w: World, or: bool, trees: seq<OrE<Hole>>, args: seq<Value>, n: nat)
    requires |trees| >= 1
    ensures GroupHoles(or, trees) == HolesOr(trees[0]) + GroupHoles(or, trees[1..])
    ensures GroupTruth(w, or, trees, args, n)
         == Combine(or, EvalOr(w, BindOr(trees[0], args, n)),
                    GroupTruth(w, or, trees[1..], args, n + HolesOr(trees[0])))
  {
    var f := FParen(trees[0]);
    SingleIsKept(w, f, args, n);
    var g := BindFactor(f, args, n);
    assert HolesAnd(AndOne(f)) == HolesOr(trees[0]);
    assert BindAnd(AndOne(f), args, n) == AndOne(g);
    assert EvalAnd(w, AndOne(g)) == EvalOr(w, BindOr(trees[0], args, n));
  }

  lemma {:induction false} GroupIsKept(d: Dialect, w: World, subs: seq<Option<Q>>, or: bool, args: seq<Value>, n: nat)
    requires FirstErrorIn(subs).None? && Bound(args, n, ArgsIn(subs))
    ensures GroupHoles(or, Trees(d, subs, n)) == |ArgsIn(subs)|
    ensures GroupTruth(w, or, Trees(d, subs, n), args, n) == if or then SomeOf(w, subs) else AllOf(w, subs)
    decreases subs, 1
  {
    if subs != [] {
      var own, rest := Args(subs[0]), ArgsIn(subs[1..]);
      BoundSplit(args, n, own, rest);
      GroupIsKept(d, w, subs[1..], or, args, n + |own|);
      if subs[0].Some? {
        var trees := Trees(d, subs, n);
        assert trees[1..] == Trees(d, subs[1..], n + |own|);
        MeaningIsKept(d, w, subs[0], args, n);
        GroupStep(w, or, trees, args, n);
      } else {
        assert own + rest == rest;
      }
    }
  }

  // ----- every dialect stands for the same expression -----

  function ValueList(args: seq<Value>, n: nat, count: nat): Vals<Value>
    requires count >= 1
    decreases count
  {
    if count == 1 then One(ArgAt(args, n)) else More(ArgAt(args, n), ValueList(args, n + 1, count - 1))
  }

  lemma {:induction false} BindHoleList(d: Dialect, count: nat, args: seq<Value>, n: nat)
    requires count >= 1
    ensures HolesVals(HoleList(d, n, count)) == count
    ensures BindVals(HoleList(d, n, count), args, n) == ValueList(args, n, count)
    decreases count
  {
    if count > 1 {
      BindHoleList(d, count - 1, args, n + 1);
    }
  }

  /** Unquoted and with the arguments in place, the trees of two dialects are equal. */
  lemma {:induction false} SameInEveryDialect(d: Dialect, e: Dialect, oq: Option<Q>, args: seq<Value>, n: nat)
    requires FirstError(oq).None?
    ensures HolesOr(Tree(d, oq, n)) == HolesOr(Tree(e, oq, n)) == |Args(oq)|
    ensures BindOr(Tree(d, oq, n), args, n) == BindOr(Tree(e, oq, n), args, n)
    decreases oq, 0
  {
    hide BindOr, HolesOr, GroupTree, LeafTree, LeafArgs, LeafError;
    if oq.None? {
      SingleHoles(FPred(NumP(1, Eq, 1)), args, n);
    } else {
      var q := oq.value;
      match q.ResolvedKind()
      case KLeaf =>
        SameLeaf(d, e, q, args, n);
      case KNot =>
        SameInEveryDialect(d, e, q.not_, args, n);
        SameNot(Tree(d, q.not_, n), Tree(e, q.not_, n), args, n);
      case kind =>
        SameGroupTree(kind, [], [], args, n);
        if q.Group().Slice? {
          var subs := q.Group().elems;
          SameGroup(d, e, subs, args, n);
          SameGroupTree(kind, Trees(d, subs, n), Trees(e, subs, n), args, n);
        }
    }
  }

  lemma SameGroupTree(kind: Kind, s: seq<OrE<Hole>>, t: seq<OrE<Hole>>, args: seq<Value>, n: nat)
    requires |s| == |t| && GroupHoles(kind == KOr, s) == GroupHoles(kind == KOr, t)
    requires s != [] ==> BindOr(OrOf(s), args, n) == BindOr(OrOf(t), args, n)
    requires s != [] ==> BindAnd(AndOf(s), args, n) == BindAnd(AndOf(t), args, n)
    ensures HolesOr(GroupTree(kind, s)) == HolesOr(GroupTree(kind, t)) == GroupHoles(kind == KOr, s)
    ensures BindOr(GroupTree(kind, s), args, n) == BindOr(GroupTree(kind, t), args, n)
  {
    if s == [] {
      SingleHoles(FPred(NumP(1, Eq, if kind != KOr then 1 else 0)), args, n);
    }
  }

  lemma SameNot(s: OrE<Hole>, t: OrE<Hole>, args: seq<Value>, n: nat)
    requires HolesOr(s) == HolesOr(t) && BindOr(s, args, n) == BindOr(t, args, n)
    ensures HolesOr(Single(FNot(FParen(s)))) == HolesOr(Single(FNot(FParen(t)))) == HolesOr(s)
    ensures BindOr(Single(FNot(FParen(s))), args, n) == BindOr(Single(FNot(FParen(t))), args, n)
  {
    SingleHoles(FNot(FParen(s)), args, n);
    SingleHoles(FNot(FParen(t)), args, n);
  }

  lemma SameTest(d: Dialect, e: Dialect, q: Q, args: seq<Value>, n: nat)
    requires LeafError(q).None? && LeafTest(d, q, n).Some?
    ensures LeafTest(e, q, n).Some?
    ensures HolesTest(LeafTest(d, q, n).value) == HolesTest(LeafTest(e, q, n).value) == |LeafArgs(q)|
    ensures BindTest(LeafTest(d, q, n).value, args, n) == BindTest(LeafTest(e, q, n).value, args, n)
  {
    hide HolesVals, BindVals;
    match ParseOp(q.op).value
    case In =>
      BindHoleList(d, |ListValues(q.value)|, args, n);
      BindHoleList(e, |ListValues(q.value)|, args, n);
    case NotIn =>
      BindHoleList(d, |ListValues(q.value)|, args, n);
      BindHoleList(e, |ListValues(q.value)|, args, n);
    case _ =>
  }

  lemma SameLeaf(d: Dialect, e: Dialect, q: Q, args: seq<Value>, n: nat)
    requires LeafError(q).None?
    ensures HolesOr(LeafTree(d, q, n)) == HolesOr(LeafTree(e, q, n)) == |LeafArgs(q)|
    ensures BindOr(LeafTree(d, q, n), args, n) == BindOr(LeafTree(e, q, n), args, n)
  {
    hide BindTest, HolesTest, FieldColumn, HoleList, HoleAt;
    if LeafTest(d, q, n).None? {
      SingleHoles(FPred(NumP(1, Eq, if ParseOp(q.op).value != In then 1 else 0)), args, n);
    } else {
      SameTest(d, e, q, args, n);
      SingleHoles(FPred(ColP(FieldColumn(q), LeafTest(d, q, n).value)), args, n);
      SingleHoles(FPred(ColP(FieldColumn(q), LeafTest(e, q, n).value)), args, n);
    }
  }

  lemma {:induction false} SameGroup(d: Dialect, e: Dialect, subs: seq<Option<Q>>, args: seq<Value>, n: nat)
    requires FirstErrorIn(subs).None?
    ensures |Trees(d, subs, n)| == |Trees(e, subs, n)|
    ensures forall or :: GroupHoles(or, Trees(d, subs, n)) == GroupHoles(or, Trees(e, subs, n)) == |ArgsIn(subs)|
    ensures var s, t := Trees(d, subs, n), Trees(e, subs, n);
            s != [] ==> BindOr(OrOf(s), args, n) == BindOr(OrOf(t), args, n)
    ensures var s, t := Trees(d, subs, n), Trees(e, subs, n);
            s != [] ==> BindAnd(AndOf(s), args, n) == BindAnd(AndOf(t), args, n)
    decreases subs, 1
  {
    hide BindOr, BindAnd, HolesOr, GroupHoles, OrOf, AndOf, Tree;
    if subs == [] {
      NoTrees();
    } else {
      var n' := n + |Args(subs[0])|;
      SameGroup(d, e, subs[1..], args, n');
      if subs[0].Some? {
        var s, t := Trees(d, subs, n), Trees(e, subs, n);
        assert s[1..] == Trees(d, subs[1..], n') && t[1..] == Trees(e, subs[1..], n');
        SameInEveryDialect(d, e, subs[0], args, n);
        GroupHolesStep(s);
        GroupHolesStep(t);
        SameStep(s, t, args, n);
      }
    }
  }

  lemma NoTrees()
    ensures forall or :: GroupHoles(or, []) == 0
  {
  }

  lemma SameStep(s: seq<OrE<Hole>>, t: seq<OrE<Hole>>, args: seq<Value>, n: nat)
    requires |s| == |t| >= 1
    requires HolesOr(s[0]) == HolesOr(t[0]) && BindOr(s[0], args, n) == BindOr(t[0], args, n)
    requires |s| > 1 ==> BindOr(OrOf(s[1..]), args, n + HolesOr(s[0])) == BindOr(OrOf(t[1..]), args, n + HolesOr(s[0]))
    requires |s| > 1 ==>
               BindAnd(AndOf(s[1..]), args, n + HolesOr(s[0])) == BindAnd(AndOf(t[1..]), args, n + HolesOr(s[0]))
    ensures BindOr(OrOf(s), args, n) == BindOr(OrOf(t), args, n)
    ensures BindAnd(AndOf(s), args, n) == BindAnd(AndOf(t), args, n)
  {
    var f, g := FParen(s[0]), FParen(t[0]);
    assert BindFactor(f, args, n) == BindFactor(g, args, n) && HolesFactor(f) == HolesOr(s[0]) == HolesFactor(g);
    assert BindAnd(AndOne(f), args, n) == BindAnd(AndOne(g), args, n);
    assert HolesAnd(AndOne(f)) == HolesOr(s[0]) == HolesAnd(AndOne(g));
  }

  // ----- main results, about what Build returns -----

  /** Whatever parse the database finds in Build's text, with Build's arguments bound it has
      the truth of the condition on every row. */
  lemma TextMeansCondition(d: Dialect, w: World, oq: Option<Q>, e: OrE<Hole>)
    requires FirstError(oq).None? && Parses(Read(d, oq), e)
    ensures EvalOr(w, BindOr(e, Args(oq), 0)) == Meaning(w, oq)
  {
    ParseIsTree(d, oq, e);
    assert Args(oq)[0..|Args(oq)|] == Args(oq);
    MeaningIsKept(d, w, oq, Args(oq), 0);
  }

  /** The texts of two dialects are the same expression over the same columns and values. */
  lemma DialectsAgree(d: Dialect, d': Dialect, oq: Option<Q>, e: OrE<Hole>, e': OrE<Hole>)
    requires FirstError(oq).None? && Parses(Read(d, oq), e) && Parses(Read(d', oq), e')
    ensures BindOr(e, Args(oq), 0) == BindOr(e', Args(oq), 0)
  {
    ParseIsTree(d, oq, e);
    ParseIsTree(d', oq, e');
    SameInEveryDialect(d, d', oq, Args(oq), 0);
  }
}
