/** The text that the compiler emits has exactly one parse, and which one. */
module QParse {
  import opened Wrappers
  import opened SqlIdent
  import opened SqlGrammar
  import opened SqlLexer
  import opened Q

  // ----- the tree that a condition stands for -----

  function ColumnOf(parts: seq<string>): Column
    requires |parts| >= 1
  {
    if |parts| == 1 then Last(parts[0]) else Qualified(parts[0], ColumnOf(parts[1..]))
  }

  function FieldColumn(q: Q): Column {
    ColumnOf(Split(q.field, '.'))
  }

  function Single(f: Factor<Hole>): OrE<Hole> {
    OrOne(AndOne(f))
  }

  function Constant(truth: bool): OrE<Hole> {
    Single(FPred(NumP(1, Eq, if truth then 1 else 0)))
  }

  /** Placeholders n + 1 up to n + count. */
  function HoleList(d: Dialect, n: nat, count: nat): Vals<Hole>
    requires count >= 1
    decreases count
  {
    if count == 1 then One(HoleAt(d, n + 1)) else More(HoleAt(d, n + 1), HoleList(d, n + 1, count - 1))
  }

  /** The test of a leaf, or None for a list test that is decided without reading the column. */
  function LeafTest(d: Dialect, q: Q, n: nat): Option<Test<Hole>>
    requires ParseOp(q.op).Some?
  {
    var h := HoleAt(d, n + 1);
    var vals := ListValues(q.value);
    match ParseOp(q.op).value
    case IsNull => Some(NullT(false))
    case IsNotNull => Some(NullT(true))
    case Like => Some(LikeT(false, h))
    case NotLike => Some(LikeT(true, h))
    case In => if |vals| == 0 then None else Some(InT(false, HoleList(d, n, |vals|)))
    case NotIn => if |vals| == 0 then None else Some(InT(true, HoleList(d, n, |vals|)))
    case Cmp(c) =>
      if (c == Eq || c == Ne) && q.value == Nil then Some(NullT(c == Ne)) else Some(CmpT(c, h))
  }

  function LeafTree(d: Dialect, q: Q, n: nat): OrE<Hole> {
    if ParseOp(q.op).None? then Constant(true)
    else
      match LeafTest(d, q, n)
      case None => Constant(ParseOp(q.op).value != In)
      case Some(test) => Single(FPred(ColP(FieldColumn(q), test)))
  }

  function Tree(d: Dialect, oq: Option<Q>, n: nat): OrE<Hole>
    decreases oq, 0
  {
    if oq.None? then Constant(true)
    else
      var q := oq.value;
      match q.ResolvedKind()
      case KLeaf => LeafTree(d, q, n)
      case KNot => Single(FNot(FParen(Tree(d, q.not_, n))))
      case kind =>
        GroupTree(kind, if q.Group().NilSlice? then [] else Trees(d, q.Group().elems, n))
  }

  function Trees(d: Dialect, subs: seq<Option<Q>>, n: nat): seq<OrE<Hole>>
    decreases subs, 1
  {
    if subs == [] then []
    else if subs[0].None? then Trees(d, subs[1..], n)
    else [Tree(d, subs[0], n)] + Trees(d, subs[1..], n + |Args(subs[0])|)
  }

  function GroupTree(kind: Kind, trees: seq<OrE<Hole>>): OrE<Hole> {
    if |trees| == 0 then Constant(kind != KOr)
    else if kind == KOr then OrOf(trees)
    else OrOne(AndOf(trees))
  }

  function AndOf(trees: seq<OrE<Hole>>): AndE<Hole>
    requires |trees| >= 1
  {
    if |trees| == 1 then AndOne(FParen(trees[0])) else AndMore(FParen(trees[0]), AndOf(trees[1..]))
  }

  function OrOf(trees: seq<OrE<Hole>>): OrE<Hole>
    requires |trees| >= 1
  {
    if |trees| == 1 then Single(FParen(trees[0])) else OrMore(AndOne(FParen(trees[0])), OrOf(trees[1..]))
  }

  // ----- which conditions can be read back -----

  predicate QuotedOrNotReserved(d: Dialect, p: string) {
    PartToken(d, p) == Ident(p)
  }

  /** No column name that reaches the text has an unquoted part spelled like a keyword. */
  predicate ReadableLeaf(d: Dialect, q: Q) {
    ParseOp(q.op).Some? && LeafTest(d, q, 0).Some? ==>
      var parts := Split(q.field, '.');
      forall i | 0 <= i < |parts| :: QuotedOrNotReserved(d, parts[i])
  }

  predicate Readable(d: Dialect, oq: Option<Q>)
    decreases oq, 0
  {
    if oq.None? then true
    else
      var q := oq.value;
      match q.ResolvedKind()
      case KLeaf => ReadableLeaf(d, q)
      case KNot => Readable(d, q.not_)
      case _ => q.Group().NilSlice? || ReadableAll(d, q.Group().elems)
  }

  predicate ReadableAll(d: Dialect, subs: seq<Option<Q>>)
    decreases subs, 1
  {
    subs == [] || (Readable(d, subs[0]) && ReadableAll(d, subs[1..]))
  }

  // ----- the tokens of the text, followed by k -----

  function PartToks(d: Dialect, parts: seq<string>, k: Tokens): Tokens
    requires |parts| >= 1
  {
    Tok(PartToken(d, parts[0]), if |parts| == 1 then k else Tok(Dot, PartToks(d, parts[1..], k)))
  }

  function LeafToks(d: Dialect, q: Q, n: nat, k: Tokens): Tokens {
    if ParseOp(q.op).None? then k
    else
      match LeafTest(d, q, n)
      case None => YieldOr(Constant(ParseOp(q.op).value != In), k)
      case Some(test) => PartToks(d, Split(q.field, '.'), YieldTest(test, k))
  }

  function Toks(d: Dialect, oq: Option<Q>, n: nat, k: Tokens): Tokens
    decreases oq, 0
  {
    if oq.None? then YieldOr(Constant(true), k)
    else
      var q := oq.value;
      match q.ResolvedKind()
      case KLeaf => LeafToks(d, q, n, k)
      case KNot => Tok(Kw(NOT), Tok(LParen, Toks(d, q.not_, n, Tok(RParen, k))))
      case kind =>
        if q.Group().NilSlice? || Parts(d, q.Group().elems, n) == [] then YieldOr(Constant(kind != KOr), k)
        else GroupToks(d, q.Group().elems, n, if kind == KOr then OR else AND, true, k)
  }

  function GroupToks(d: Dialect, subs: seq<Option<Q>>, n: nat, sep: Keyword, first: bool, k: Tokens): Tokens
    decreases subs, 1
  {
    if subs == [] then k
    else if subs[0].None? then GroupToks(d, subs[1..], n, sep, first, k)
    else
      var part := Tok(LParen, Toks(d, subs[0], n, Tok(RParen,
        GroupToks(d, subs[1..], n + |Args(subs[0])|, sep, false, k))));
      if first then part else Tok(Kw(sep), part)
  }

  // ----- the text is read as those tokens -----

  /** What may follow a condition in the text. */
  predicate Follows(r: string) {
    r == "" || r[0] == ')'
  }

  lemma Assoc(a: string, b: string, c: string)
    ensures a + b + c == a + (b + c)
  {
  }

  lemma JoinCons(parts: seq<string>, sep: string, r: string)
    requires |parts| >= 2
    ensures Join(parts, sep) + r == parts[0] + (sep + (Join(parts[1..], sep) + r))
  {
    var tail := Join(parts[1..], sep);
    Assoc(parts[0], sep, tail);
    Assoc(parts[0], sep + tail, r);
    Assoc(sep, tail, r);
  }

  lemma {:induction false} LexField(d: Dialect, parts: seq<string>, r: string)
    requires |parts| >= 1 && forall i | 0 <= i < |parts| :: ValidPart(parts[i])
    requires EndsName(r)
    ensures Lex(d, Join(QuoteParts(d, parts), ".") + r) == PartToks(d, parts, Lex(d, r))
  {
    hide Lex, LexOne;
    var quoted := QuoteParts(d, parts);
    if |parts| == 1 {
      LexPart(d, parts[0], r);
    } else {
      var tail := Join(QuoteParts(d, parts[1..]), ".") + r;
      assert Join(quoted, ".") + r == quoted[0] + ("." + tail) by {
        JoinCons(quoted, ".", r);
        assert quoted[1..] == QuoteParts(d, parts[1..]);
      }
      LexPart(d, parts[0], "." + tail);
      LexPunctuation(d, tail);
      LexField(d, parts[1..], r);
    }
  }

  lemma {:induction false} LexHoles(d: Dialect, n: nat, count: nat, r: string)
    requires count >= 1 && EndsName(r)
    ensures Lex(d, Join(Placeholders(d, n, count), ", ") + r) == YieldVals(HoleList(d, n, count), Lex(d, r))
    decreases count
  {
    hide Lex, LexOne, Placeholder, EndsName;
    CommaEndsName();
    var ps := Placeholders(d, n, count);
    assert ps[0] == Placeholder(d, n + 1);
    if count == 1 {
      LexPlaceholder(d, n + 1, r);
    } else {
      var tail := Join(Placeholders(d, n + 1, count - 1), ", ") + r;
      assert Join(ps, ", ") + r == ps[0] + (", " + tail) by {
        JoinCons(ps, ", ", r);
        assert ps[1..] == Placeholders(d, n + 1, count - 1);
      }
      LexPlaceholder(d, n + 1, ", " + tail);
      LexPunctuation(d, tail);
      LexHoles(d, n + 1, count - 1, r);
    }
  }

  lemma CommaEndsName()
    ensures forall t :: EndsName(", " + t)
  {
  }

  lemma KeywordTokens()
    ensures WordToken("AND") == Kw(AND) && WordToken("OR") == Kw(OR) && WordToken("NOT") == Kw(NOT)
    ensures WordToken("IN") == Kw(IN) && WordToken("LIKE") == Kw(LIKE)
    ensures WordToken("IS") == Kw(IS) && WordToken("NULL") == Kw(NULL)
  {
    hide WordToken;
    CapitalsToken("AND");
    CapitalsToken("OR");
    CapitalsToken("NOT");
    CapitalsToken("IN");
    CapitalsToken("LIKE");
    CapitalsToken("IS");
    CapitalsToken("NULL");
  }

  /** A word with a space before it. */
  lemma LexNextWord(d: Dialect, w: string, text: string, r: string)
    requires w != "" && IsNameStart(w[0]) && forall i | 0 <= i < |w| :: IsNameChar(w[i])
    requires text == " " + w && EndsName(r)
    ensures Lex(d, text + r) == Tok(WordToken(w), Lex(d, r))
  {
    hide Lex, LexOne, WordToken, IsNameStart, IsNameChar, EndsName;
    Assoc(" ", w, r);
    LexSpace(d, w + r);
    LexWord(d, w, r);
  }

  lemma LexIsNull(d: Dialect, r: string)
    requires EndsName(r)
    ensures Lex(d, " " + "IS NULL" + r) == Tok(Kw(IS), Tok(Kw(NULL), Lex(d, r)))
  {
    hide Lex, LexOne, WordToken;
    KeywordTokens();
    LexNextWord(d, "NULL", " NULL", r);
    assert " " + "IS NULL" == " IS" + " NULL";
    Assoc(" IS", " NULL", r);
    LexNextWord(d, "IS", " IS", " NULL" + r);
  }

  lemma LexIsNotNull(d: Dialect, r: string)
    requires EndsName(r)
    ensures Lex(d, " " + "IS NOT NULL" + r) == Tok(Kw(IS), Tok(Kw(NOT), Tok(Kw(NULL), Lex(d, r))))
  {
    hide Lex, LexOne, WordToken;
    KeywordTokens();
    LexNextWord(d, "NULL", " NULL", r);
    var rest := " NULL" + r;
    SplitNotNull(r);
    LexNextWord(d, "NOT", " NOT", rest);
    LexNextWord(d, "IS", " IS", " NOT" + rest);
  }

  lemma LexNullWords(d: Dialect, negated: bool, r: string)
    requires EndsName(r)
    ensures Lex(d, " " + OpText(if negated then IsNotNull else IsNull) + r) == YieldTest(NullT(negated), Lex(d, r))
  {
    hide Lex, LexOne;
    if negated {
      LexIsNotNull(d, r);
    } else {
      LexIsNull(d, r);
    }
  }

  lemma SplitNotNull(r: string)
    ensures " " + "IS NOT NULL" + r == " IS" + (" NOT" + (" NULL" + r))
  {
    var tail := " NOT" + " NULL";
    assert " " + "IS NOT NULL" == " IS" + tail;
    Assoc(" IS", tail, r);
    Assoc(" NOT", " NULL", r);
  }

  /** What the operator between a column and its values is read as. */
  function OpToks(op: Op, k: Tokens): Tokens {
    match op
    case Cmp(c) => Tok(CmpTok(c), k)
    case In => Tok(Kw(IN), k)
    case NotIn => Tok(Kw(NOT), Tok(Kw(IN), k))
    case Like => Tok(Kw(LIKE), k)
    case NotLike => Tok(Kw(NOT), Tok(Kw(LIKE), k))
    case IsNull => k
    case IsNotNull => k
  }

  lemma LexOp(d: Dialect, op: Op, r: string)
    requires op != IsNull && op != IsNotNull
    ensures Lex(d, " " + OpText(op) + " " + r) == OpToks(op, Lex(d, r))
  {
    hide Lex, LexOne, WordToken;
    KeywordTokens();
    match op
    case Cmp(c) => LexCmp(d, c, r);
    case In => LexSpacedWord(d, "IN", r);
    case Like => LexSpacedWord(d, "LIKE", r);
    case NotIn => LexNotOp(d, "IN", "NOT IN", r);
    case NotLike => LexNotOp(d, "LIKE", "NOT LIKE", r);
  }

  lemma LexNotOp(d: Dialect, word: string, text: string, r: string)
    requires (word == "IN" && text == "NOT IN") || (word == "LIKE" && text == "NOT LIKE")
    ensures Lex(d, " " + text + " " + r) == Tok(Kw(NOT), Tok(WordToken(word), Lex(d, r)))
  {
    hide Lex, LexOne, WordToken;
    KeywordTokens();
    var spaced := word + (" " + r);
    assert " " + text + " " + r == " " + "NOT" + " " + spaced by {
      assert " " + text == " " + "NOT" + " " + word;
      Assoc(" " + text, " ", r);
      Assoc(" " + "NOT" + " ", word, " " + r);
    }
    LexSpacedWord(d, "NOT", spaced);
    LexWord(d, word, " " + r);
    LexSpace(d, r);
  }

  /** The text of a leaf after its column name. */
  function TestText(d: Dialect, q: Q, n: nat): string
    requires ParseOp(q.op).Some? && LeafTest(d, q, n).Some?
  {
    var op := ParseOp(q.op).value;
    match LeafTest(d, q, n).value
    case NullT(negated) => " " + OpText(if negated then IsNotNull else IsNull)
    case InT(_, _) => " " + OpText(op) + " " + ("(" + (Join(Placeholders(d, n, |ListValues(q.value)|), ", ") + ")"))
    case _ => " " + OpText(op) + " " + Placeholder(d, n + 1)
  }

  lemma ListTextSplits(f: string, o: string, list: string)
    ensures f + " " + o + " (" + list + ")" == f + (" " + o + " " + ("(" + (list + ")")))
  {
    assert " (" == " " + "(";
    var head := " " + o + " ";
    Assoc(f, " ", o);
    Assoc(f + (" " + o), " ", "(");
    Assoc(f, " " + o, " ");
    assert f + " " + o + " (" == f + head + "(";
    Assoc(f + head, "(", list);
    Assoc(f + head, "(" + list, ")");
    Assoc("(", list, ")");
    Assoc(f, head, "(" + (list + ")"));
  }

  lemma ValueTextSplits(f: string, o: string, h: string)
    ensures f + " " + o + " " + h == f + (" " + o + " " + h)
  {
    Assoc(f, " ", o);
    Assoc(f, " " + o, " ");
    Assoc(f, " " + o + " ", h);
  }

  /** Both ways in which leaf writes a null test. */
  lemma NullTextSplits(f: string, negated: bool)
    ensures var o := OpText(if negated then IsNotNull else IsNull);
            f + " " + o == f + (" " + o) && f + (if negated then " IS NOT NULL" else " IS NULL") == f + (" " + o)
  {
    Assoc(f, " ", OpText(if negated then IsNotNull else IsNull));
    assert " " + "IS NULL" == " IS NULL" && " " + "IS NOT NULL" == " IS NOT NULL";
  }

  lemma LeafTextSplits(d: Dialect, q: Q, n: nat)
    requires ParseOp(q.op).Some? && LeafTest(d, q, n).Some?
    ensures LeafText(d, q, n) == Quoted(d, q.field) + TestText(d, q, n)
  {
    hide Quoted, OpText, ParseOp, Join, Placeholder, Placeholders;
    var f, o := Quoted(d, q.field), OpText(ParseOp(q.op).value);
    match LeafTest(d, q, n).value
    case NullT(negated) =>
      NullTextSplits(f, negated);
    case InT(_, _) =>
      ListTextSplits(f, o, Join(Placeholders(d, n, |ListValues(q.value)|), ", "));
    case _ =>
      ValueTextSplits(f, o, Placeholder(d, n + 1));
  }

  lemma LexList(d: Dialect, n: nat, count: nat, r: string)
    requires count >= 1
    ensures Lex(d, "(" + (Join(Placeholders(d, n, count), ", ") + ")") + r)
         == Tok(LParen, YieldVals(HoleList(d, n, count), Tok(RParen, Lex(d, r))))
  {
    hide Lex, LexOne;
    var list := Join(Placeholders(d, n, count), ", ");
    Assoc("(", list + ")", r);
    Assoc(list, ")", r);
    LexPunctuation(d, list + (")" + r));
    LexHoles(d, n, count, ")" + r);
    LexPunctuation(d, r);
  }

  lemma LexTest(d: Dialect, q: Q, n: nat, r: string)
    requires ParseOp(q.op).Some? && LeafTest(d, q, n).Some?
    requires EndsName(r)
    ensures Lex(d, TestText(d, q, n) + r) == YieldTest(LeafTest(d, q, n).value, Lex(d, r))
  {
    hide Lex, LexOne, Quoted, OpText, ParseOp, Join, Placeholder, Placeholders, EndsName, HoleList;
    var op := ParseOp(q.op).value;
    match LeafTest(d, q, n).value
    case NullT(negated) =>
      LexNullWords(d, negated, r);
    case InT(_, _) =>
      var list := "(" + (Join(Placeholders(d, n, |ListValues(q.value)|), ", ") + ")");
      Assoc(" " + OpText(op) + " ", list, r);
      LexOp(d, op, list + r);
      LexList(d, n, |ListValues(q.value)|, r);
    case _ =>
      var h := Placeholder(d, n + 1);
      Assoc(" " + OpText(op) + " ", h, r);
      LexOp(d, op, h + r);
      LexPlaceholder(d, n + 1, r);
  }

  lemma YieldSingle(f: Factor<Hole>, k: Tokens)
    ensures YieldOr(Single(f), k) == YieldFactor(f, k)
  {
    assert YieldAnd(AndOne(f), k) == YieldFactor(f, k);
  }

  lemma LexConstantTree(d: Dialect, truth: bool, r: string)
    requires EndsName(r)
    ensures Lex(d, (if truth then "1=1" else "1=0") + r) == YieldOr(Constant(truth), Lex(d, r))
  {
    hide Lex, LexOne;
    LexConstant(d, truth, r);
    YieldSingle(FPred(NumP(1, Eq, if truth then 1 else 0)), Lex(d, r));
  }

  lemma LexColumnTest(d: Dialect, q: Q, n: nat, r: string)
    requires LeafError(q).None? && LeafTest(d, q, n).Some? && EndsName(r)
    ensures Lex(d, LeafText(d, q, n) + r)
         == PartToks(d, Split(q.field, '.'), YieldTest(LeafTest(d, q, n).value, Lex(d, r)))
  {
    hide Lex, LexOne;
    var f, t := Quoted(d, q.field), TestText(d, q, n);
    LeafTextSplits(d, q, n);
    Assoc(f, t, r);
    LexField(d, Split(q.field, '.'), t + r);
    LexTest(d, q, n, r);
  }

  lemma LexLeaf(d: Dialect, q: Q, n: nat, r: string)
    requires LeafError(q).None? && Follows(r)
    ensures Lex(d, LeafText(d, q, n) + r) == LeafToks(d, q, n, Lex(d, r))
  {
    hide Lex, LexOne, Split, QuoteParts, Placeholder;
    if LeafTest(d, q, n).None? {
      LexConstantTree(d, ParseOp(q.op).value != In, r);
    } else {
      LexColumnTest(d, q, n, r);
    }
  }

  lemma {:induction false} LexText(d: Dialect, oq: Option<Q>, n: nat, r: string)
    requires FirstError(oq).None? && Follows(r)
    ensures Lex(d, Text(d, oq, n) + r) == Toks(d, oq, n, Lex(d, r))
    decreases oq, 0
  {
    hide Lex, LexOne;
    if oq.None? {
      LexConstantTree(d, true, r);
    } else {
      var q := oq.value;
      match q.ResolvedKind()
      case KLeaf =>
        LexLeaf(d, q, n, r);
      case KNot =>
        LexText(d, q.not_, n, ")" + r);
        LexNot(d, Text(d, q.not_, n), r);
        LexPunctuation(d, r);
      case kind =>
        if q.Group().NilSlice? || Parts(d, q.Group().elems, n) == [] {
          LexConstantTree(d, kind != KOr, r);
        } else {
          LexGroup(d, q.Group().elems, n, kind == KOr, r);
        }
    }
  }

  lemma LexNot(d: Dialect, w: string, r: string)
    ensures Lex(d, "NOT (" + w + ")" + r) == Tok(Kw(NOT), Tok(LParen, Lex(d, w + (")" + r))))
  {
    hide Lex, LexOne, WordToken;
    KeywordTokens();
    var rest := w + (")" + r);
    assert "NOT (" + w + ")" + r == "NOT" + (" " + ("(" + rest)) by {
      assert "NOT (" == "NOT" + (" " + "(");
      Assoc("NOT (", w, ")");
      Assoc("NOT (", w + ")", r);
      Assoc(w, ")", r);
      Assoc("NOT", " " + "(", rest);
      Assoc(" ", "(", rest);
    }
    LexWord(d, "NOT", " " + ("(" + rest));
    LexSpace(d, "(" + rest);
    LexPunctuation(d, rest);
  }

  function Separator(or: bool): string {
    if or then " OR " else " AND "
  }

  lemma LexSeparator(d: Dialect, or: bool, r: string)
    ensures Lex(d, Separator(or) + r) == Tok(Kw(if or then OR else AND), Lex(d, r))
  {
    hide Lex, LexOne, WordToken;
    KeywordTokens();
    assert " OR " == " " + "OR" + " " && " AND " == " " + "AND" + " ";
    LexSpacedWord(d, if or then "OR" else "AND", r);
  }

  /** One parenthesised part followed by the text after it. */
  lemma LexParenthesised(d: Dialect, w: string, r: string)
    ensures Lex(d, "(" + w + ")" + r) == Tok(LParen, Lex(d, w + (")" + r)))
  {
    hide Lex, LexOne;
    Assoc("(", w, ")");
    Assoc("(", w + ")", r);
    Assoc(w, ")", r);
    LexPunctuation(d, w + (")" + r));
  }

  lemma {:induction false} LexGroup(d: Dialect, subs: seq<Option<Q>>, n: nat, or: bool, r: string)
    requires FirstErrorIn(subs).None? && Follows(r)
    requires Parts(d, subs, n) != []
    ensures Lex(d, Join(Parts(d, subs, n), Separator(or)) + r)
         == GroupToks(d, subs, n, if or then OR else AND, true, Lex(d, r))
    decreases subs, 1
  {
    hide Lex, LexOne;
    if subs[0].None? {
      LexGroup(d, subs[1..], n, or, r);
    } else {
      var n' := n + |Args(subs[0])|;
      var w, rest := Text(d, subs[0], n), Parts(d, subs[1..], n');
      var tail := if rest == [] then r else Separator(or) + (Join(rest, Separator(or)) + r);
      if rest != [] {
        assert Parts(d, subs, n)[1..] == rest;
        JoinCons(Parts(d, subs, n), Separator(or), r);
        LexSeparator(d, or, Join(rest, Separator(or)) + r);
        LexGroup(d, subs[1..], n', or, r);
        LaterParts(d, subs[1..], n', if or then OR else AND, Lex(d, r));
      } else {
        NoParts(d, subs[1..], n', if or then OR else AND, Lex(d, r));
      }
      assert Join(Parts(d, subs, n), Separator(or)) + r == ("(" + w + ")") + tail;
      LexParenthesised(d, w, tail);
      LexText(d, subs[0], n, ")" + tail);
      LexPunctuation(d, tail);
    }
  }

  lemma {:induction false} NoParts(d: Dialect, subs: seq<Option<Q>>, n: nat, sep: Keyword, k: Tokens)
    requires Parts(d, subs, n) == []
    ensures GroupToks(d, subs, n, sep, false, k) == k
  {
    if subs != [] {
      NoParts(d, subs[1..], n, sep, k);
    }
  }

  lemma {:induction false} LaterParts(d: Dialect, subs: seq<Option<Q>>, n: nat, sep: Keyword, k: Tokens)
    requires Parts(d, subs, n) != []
    ensures GroupToks(d, subs, n, sep, false, k) == Tok(Kw(sep), GroupToks(d, subs, n, sep, true, k))
  {
    if subs[0].None? {
      LaterParts(d, subs[1..], n, sep, k);
    }
  }
}
