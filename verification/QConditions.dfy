/** Conditions as a caller writes them, with their truth, and what the emitted text means for them. */
module QConditions {
  import opened Wrappers
  import opened SqlIdent
  import opened SqlGrammar
  import opened Q
  import opened QReadBack
  import opened QMeaning
  import opened QSpelling

  /** nil, a comparison with its operator as written, And, Or and Not. */
  datatype Condition =
    | Absent
    | Where(field: string, op: string, value: Value)
    | All(subs: seq<Condition>)
    | Any(subs: seq<Condition>)
    | No(sub: Condition)

  /** What the constructors build. */
  function Built(c: Condition): Option<Q> {
    match c
    case Absent => None
    case Where(field, op, value) => Some(Q(field, op, value, NilSlice, NilSlice, None, KLeaf))
    case All(subs) => Some(Q("", "", Nil, Slice(BuiltAll(subs)), NilSlice, None, KAnd))
    case Any(subs) => Some(Q("", "", Nil, NilSlice, Slice(BuiltAll(subs)), None, KOr))
    case No(sub) => Some(Q("", "", Nil, NilSlice, NilSlice, Built(sub), KNot))
  }

  function BuiltAll(subs: seq<Condition>): seq<Option<Q>> {
    if subs == [] then [] else [Built(subs[0])] + BuiltAll(subs[1..])
  }

  /** The elements a value contributes to a list test. */
  function Elements(v: Value): seq<Value> {
    if v == Nil then [] else if v.List? then v.elems else [v]
  }

  /** The truth of a comparison whose operator is written op, for a cell of the row. */
  ghost function Test(w: World, cell: Value, op: string, v: Value): Truth {
    if Spells(op, ["="]) then if v == Nil then Of(cell == Nil) else Compare(w, Eq, cell, v)
    else if Spells(op, ["!="]) || Spells(op, ["<>"]) then if v == Nil then Of(cell != Nil) else Compare(w, Ne, cell, v)
    else if Spells(op, [">"]) then Compare(w, Gt, cell, v)
    else if Spells(op, [">="]) then Compare(w, Gte, cell, v)
    else if Spells(op, ["<"]) then Compare(w, Lt, cell, v)
    else if Spells(op, ["<="]) then Compare(w, Lte, cell, v)
    else if Spells(op, ["IN"]) then Member(w, cell, Elements(v))
    else if Spells(op, ["NOT", "IN"]) then Not3(Member(w, cell, Elements(v)))
    else if Spells(op, ["LIKE"]) then Matches(w, cell, v)
    else if Spells(op, ["NOT", "LIKE"]) then Not3(Matches(w, cell, v))
    else if Spells(op, ["IS", "NULL"]) then Of(cell == Nil)
    else if Spells(op, ["IS", "NOT", "NULL"]) then Of(cell != Nil)
    else Unknown
  }

  /** The truth of a condition on a row: an absent one is true, and counts for nothing in a group. */
  ghost function Holds(w: World, c: Condition): Truth {
    match c
    case Absent => True
    case Where(field, op, value) => Test(w, w.cell(Split(field, '.')), op, value)
    case All(subs) => HoldAll(w, subs)
    case Any(subs) => HoldAny(w, subs)
    case No(sub) => Not3(Holds(w, sub))
  }

  ghost function HoldAll(w: World, subs: seq<Condition>): Truth {
    if subs == [] then True
    else if subs[0].Absent? then HoldAll(w, subs[1..])
    else And3(Holds(w, subs[0]), HoldAll(w, subs[1..]))
  }

  ghost function HoldAny(w: World, subs: seq<Condition>): Truth {
    if subs == [] then False
    else if subs[0].Absent? then HoldAny(w, subs[1..])
    else Or3(Holds(w, subs[0]), HoldAny(w, subs[1..]))
  }

  // ----- what the compiler's tree means -----

  lemma TestIsLeaf(w: World, field: string, op: string, v: Value)
    ensures LeafMeaning(w, Q(field, op, v, NilSlice, NilSlice, None, KLeaf))
            == Test(w, w.cell(Split(field, '.')), op, v)
  {
    hide Spells, Normalized, Split, Member;
    NormalForms(op);
  }

  lemma {:induction false} MeaningHolds(w: World, c: Condition)
    ensures Meaning(w, Built(c)) == Holds(w, c)
    decreases c, 0
  {
    hide Test, LeafMeaning;
    match c
    case Absent =>
    case Where(field, op, value) => TestIsLeaf(w, field, op, value);
    case All(subs) => GroupHolds(w, subs);
    case Any(subs) => GroupHolds(w, subs);
    case No(sub) => MeaningHolds(w, sub);
  }

  lemma {:induction false} GroupHolds(w: World, subs: seq<Condition>)
    ensures AllOf(w, BuiltAll(subs)) == HoldAll(w, subs) && SomeOf(w, BuiltAll(subs)) == HoldAny(w, subs)
    decreases subs, 1
  {
    hide Test, LeafMeaning;
    if subs != [] {
      MeaningHolds(w, subs[0]);
      GroupHolds(w, subs[1..]);
      assert BuiltAll(subs)[1..] == BuiltAll(subs[1..]);
      assert subs[0].Absent? <==> Built(subs[0]).None?;
    }
  }

  // ----- which conditions build -----

  /** A field of one to three names, and an operator written with its words. */
  ghost predicate WellWritten(c: Condition) {
    match c
    case Absent => true
    case Where(field, op, _) =>
      && (exists parts :: NameOf(field, parts))
      && exists o: Op, words | words in Spellings(o) :: Spells(op, words)
    case All(subs) => forall i | 0 <= i < |subs| :: WellWritten(subs[i])
    case Any(subs) => forall i | 0 <= i < |subs| :: WellWritten(subs[i])
    case No(sub) => WellWritten(sub)
  }

  lemma {:induction false} BuildsIff(c: Condition)
    ensures FirstError(Built(c)).None? <==> WellWritten(c)
    decreases c, 0
  {
    hide Spells, NameOf, ValidName, ParseOp;
    match c
    case Absent =>
    case Where(field, op, _) =>
      ValidNameIff(field);
      WrittenIff(op);
    case All(subs) => GroupBuildsIff(subs);
    case Any(subs) => GroupBuildsIff(subs);
    case No(sub) => BuildsIff(sub);
  }

  lemma WrittenIff(op: string)
    ensures ParseOp(op).Some? <==> exists o: Op, words | words in Spellings(o) :: Spells(op, words)
  {
    hide Spells, Spellings, ParseOp;
    forall o: Op
      ensures ParseOp(op) == Some(o) <==> exists words | words in Spellings(o) :: Spells(op, words)
    {
      ParseOpIff(op, o);
    }
    if ParseOp(op).Some? {
      var o := ParseOp(op).value;
      var words :| words in Spellings(o) && Spells(op, words);
    }
  }

  /** What is wrong with a leaf: its field before its operator. */
  lemma LeafErrorTells(field: string, op: string, v: Value)
    ensures FirstError(Built(Where(field, op, v)))
         == if !exists parts :: NameOf(field, parts) then Some(BadField(field))
            else if !exists o: Op, words | words in Spellings(o) :: Spells(op, words) then Some(BadOp(op))
            else None
  {
    hide Spells, NameOf, ValidName, ParseOp;
    ValidNameIff(field);
    WrittenIff(op);
  }

  lemma {:induction false} GroupBuildsIff(subs: seq<Condition>)
    ensures FirstErrorIn(BuiltAll(subs)).None? <==> forall i | 0 <= i < |subs| :: WellWritten(subs[i])
    decreases subs, 1
  {
    hide WellWritten, FirstError, Built;
    if subs != [] {
      BuildsIff(subs[0]);
      GroupBuildsIff(subs[1..]);
      assert BuiltAll(subs)[1..] == BuiltAll(subs[1..]);
      assert forall i | 0 < i < |subs| :: subs[i] == subs[1..][i - 1];
    }
  }

  // ----- main results -----

  /** Whatever a database parses in the text built for a condition has, with the arguments bound, the
      truth of the condition as it is written. */
  lemma TextHolds(d: Dialect, w: World, c: Condition, e: OrE<Hole>)
    requires WellWritten(c) && Parses(Read(d, Built(c)), e)
    ensures FirstError(Built(c)).None?
    ensures EvalOr(w, BindOr(e, Args(Built(c)), 0)) == Holds(w, c)
  {
    hide WellWritten, Meaning, Holds, Read, Parses, FirstError, BindOr, EvalOr;
    BuildsIff(c);
    TextMeansCondition(d, w, Built(c), e);
    MeaningHolds(w, c);
  }

  /** A struct written out with groups in it, and no constructor, is taken for its first group. */
  lemma StructIsGroup(d: Dialect, q: Q, n: nat)
    requires q.kind == KLeaf
    ensures q.and_.Slice? ==> SameAs(d, Some(q), Some(Q("", "", Nil, q.and_, NilSlice, None, KAnd)), n)
    ensures q.and_.NilSlice? && q.or_.Slice? ==> SameAs(d, Some(q), Some(Q("", "", Nil, NilSlice, q.or_, None, KOr)), n)
    ensures q.and_.NilSlice? && q.or_.NilSlice? && q.not_.Some? ==>
              SameAs(d, Some(q), Some(Q("", "", Nil, NilSlice, NilSlice, q.not_, KNot)), n)
  {
  }

  predicate SameAs(d: Dialect, p: Option<Q>, q: Option<Q>, n: nat) {
    FirstError(p) == FirstError(q) && Text(d, p, n) == Text(d, q, n) && Args(p) == Args(q)
  }

  /** Where replaces an operator that it can read by the operator's own text, which changes nothing. */
  lemma WhereKeepsMeaning(d: Dialect, field: string, op: string, v: Value, n: nat)
    ensures var own := if ParseOp(op).Some? then OpText(ParseOp(op).value) else op;
            SameAs(d, Built(Where(field, own, v)), Built(Where(field, op, v)), n) || ParseOp(op).None?
  {
    hide ParseOp, Quoted, ListValues, ValidName, Join, OpText;
    if ParseOp(op).Some? {
      OwnTextIsRead(ParseOp(op).value);
    }
  }
}
