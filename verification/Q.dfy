/** The WHERE-condition compiler: pkg/q/q.go. */
module Q {
  import opened Wrappers
  import opened SqlIdent

  /** The values a caller binds (Go's `any`); `Nil` is SQL's NULL once bound. */
  datatype Value = Nil | Int(i: int) | Str(s: string) | Bytes(bytes: seq<bv8>) | List(elems: seq<Value>)

  datatype CmpOp = Eq | Ne | Gt | Gte | Lt | Lte
  datatype Op = Cmp(c: CmpOp) | In | NotIn | Like | NotLike | IsNull | IsNotNull

  function CmpText(c: CmpOp): string {
    match c
    case Eq => "="
    case Ne => "!="
    case Gt => ">"
    case Gte => ">="
    case Lt => "<"
    case Lte => "<="
  }

  function OpText(op: Op): string {
    match op
    case Cmp(c) => CmpText(c)
    case In => "IN"
    case NotIn => "NOT IN"
    case Like => "LIKE"
    case NotLike => "NOT LIKE"
    case IsNull => "IS NULL"
    case IsNotNull => "IS NOT NULL"
  }

  // ----- ParseOp -----

  /** unicode.IsSpace */
  predicate IsSpace(c: char) {
    c in {'\t', '\n', '\U{0B}', '\U{0C}', '\r', ' ', '\U{85}', '\U{A0}', '\U{1680}',
          '\U{2028}', '\U{2029}', '\U{202F}', '\U{205F}', '\U{3000}'}
    || '\U{2000}' <= c <= '\U{200A}'
  }

  /** unicode.ToUpper, as far as it can produce an ASCII letter: besides a-z, the
      dotless i and the long s also map to one. Other characters stay outside ASCII. */
  function ToUpper(c: char): char {
    if 'a' <= c <= 'z' then c - 'a' + 'A'
    else if c == '\U{131}' then 'I'
    else if c == '\U{17F}' then 'S'
    else c
  }

  function Upper(s: string): (r: string)
    ensures |r| == |s| && forall i | 0 <= i < |s| :: r[i] == ToUpper(s[i])
  {
    seq(|s|, i requires 0 <= i < |s| => ToUpper(s[i]))
  }

  /** strings.Fields: the maximal runs of non-space characters. */
  function Fields(s: string): seq<string> {
    if s == "" then []
    else if IsSpace(s[0]) then Fields(s[1..])
    else
      var n := WordLength(s);
      [s[..n]] + Fields(s[n..])
  }

  function WordLength(s: string): (n: nat)
    ensures n <= |s|
    ensures s != "" && !IsSpace(s[0]) ==> n > 0
  {
    if s == "" || IsSpace(s[0]) then 0 else 1 + WordLength(s[1..])
  }

  function Normalized(s: string): string {
    Upper(Join(Fields(s), " "))
  }

  function ParseOp(s: string): Option<Op> {
    var norm := Normalized(s);
    if norm == "=" then Some(Cmp(Eq))
    else if norm == "!=" || norm == "<>" then Some(Cmp(Ne))
    else if norm == ">" then Some(Cmp(Gt))
    else if norm == ">=" then Some(Cmp(Gte))
    else if norm == "<" then Some(Cmp(Lt))
    else if norm == "<=" then Some(Cmp(Lte))
    else if norm == "IN" then Some(In)
    else if norm == "NOT IN" then Some(NotIn)
    else if norm == "LIKE" then Some(Like)
    else if norm == "NOT LIKE" then Some(NotLike)
    else if norm == "IS NULL" then Some(IsNull)
    else if norm == "IS NOT NULL" then Some(IsNotNull)
    else None
  }

  // ----- condition trees -----

  datatype Kind = KLeaf | KAnd | KOr | KNot

  /** A Go slice of children: nil, or a possibly empty list of pointers. */
  datatype Children = NilSlice | Slice(elems: seq<Option<Q>>)

  /** The Go struct with all its fields; `None` is a nil pointer. */
  datatype Q = Q(field: string, op: string, value: Value,
                 and_: Children, or_: Children, not_: Option<Q>, kind: Kind)
  {
    function ResolvedKind(): Kind {
      if kind != KLeaf then kind
      else if and_.Slice? then KAnd
      else if or_.Slice? then KOr
      else if not_.Some? then KNot
      else KLeaf
    }

    /** The children of an And or Or group. */
    function Group(): Children {
      if ResolvedKind() == KOr then or_ else and_
    }
  }

  datatype Error = BadField(field: string) | BadOp(op: string)

  /** expand, with a value that is not a list taken as its own single element. */
  function ListValues(v: Value): seq<Value> {
    match v
    case Nil => []
    case List(elems) => elems
    case _ => [v]
  }

  function LeafError(q: Q): Option<Error> {
    if !ValidName(q.field) then Some(BadField(q.field))
    else if ParseOp(q.op).None? then Some(BadOp(q.op))
    else None
  }

  /** The error of the first bad leaf that the compiler reaches, if any. */
  function FirstError(oq: Option<Q>): Option<Error>
    decreases oq, 0
  {
    if oq.None? then None
    else
      var q := oq.value;
      match q.ResolvedKind()
      case KLeaf => LeafError(q)
      case KNot => FirstError(q.not_)
      case _ => if q.Group().NilSlice? then None else FirstErrorIn(q.Group().elems)
  }

  function FirstErrorIn(subs: seq<Option<Q>>): Option<Error>
    decreases subs, 1
  {
    if subs == [] then None
    else
      var e := FirstError(subs[0]);
      if e.Some? then e else FirstErrorIn(subs[1..])
  }

  function LeafArgs(q: Q): seq<Value> {
    match ParseOp(q.op)
    case None => []
    case Some(IsNull) => []
    case Some(IsNotNull) => []
    case Some(In) => ListValues(q.value)
    case Some(NotIn) => ListValues(q.value)
    case Some(Cmp(c)) => if (c == Eq || c == Ne) && q.value == Nil then [] else [q.value]
    case Some(_) => [q.value]
  }

  /** The values bound by a condition, in the order in which they are bound. */
  function Args(oq: Option<Q>): seq<Value>
    decreases oq, 0
  {
    if oq.None? then []
    else
      var q := oq.value;
      match q.ResolvedKind()
      case KLeaf => LeafArgs(q)
      case KNot => Args(q.not_)
      case _ => if q.Group().NilSlice? then [] else ArgsIn(q.Group().elems)
  }

  function ArgsIn(subs: seq<Option<Q>>): seq<Value>
    decreases subs, 1
  {
    if subs == [] then [] else Args(subs[0]) + ArgsIn(subs[1..])
  }

  /** `count` placeholders, the first being number n + 1. */
  function Placeholders(d: Dialect, n: nat, count: nat): (r: seq<string>)
    ensures |r| == count
  {
    seq(count, i requires 0 <= i < count => Placeholder(d, n + i + 1))
  }

  /** The text of a leaf when n values were bound before it. */
  function LeafText(d: Dialect, q: Q, n: nat): string {
    var field := Quoted(d, q.field);
    match ParseOp(q.op)
    case None => ""
    case Some(op) =>
      match op
      case IsNull => field + " " + OpText(op)
      case IsNotNull => field + " " + OpText(op)
      case In => ListText(d, q, op, n)
      case NotIn => ListText(d, q, op, n)
      case Cmp(c) =>
        if c == Eq && q.value == Nil then field + " IS NULL"
        else if c == Ne && q.value == Nil then field + " IS NOT NULL"
        else field + " " + OpText(op) + " " + Placeholder(d, n + 1)
      case _ => field + " " + OpText(op) + " " + Placeholder(d, n + 1)
  }

  function ListText(d: Dialect, q: Q, op: Op, n: nat): string {
    var vals := ListValues(q.value);
    if |vals| == 0 then (if op == In then "1=0" else "1=1")
    else Quoted(d, q.field) + " " + OpText(op) + " (" + Join(Placeholders(d, n, |vals|), ", ") + ")"
  }

  /** The text of a condition when n values were bound before it. */
  function Text(d: Dialect, oq: Option<Q>, n: nat): string
    decreases oq, 0
  {
    if oq.None? then "1=1"
    else
      var q := oq.value;
      match q.ResolvedKind()
      case KLeaf => LeafText(d, q, n)
      case KNot => "NOT (" + Text(d, q.not_, n) + ")"
      case kind =>
        var parts := if q.Group().NilSlice? then [] else Parts(d, q.Group().elems, n);
        if parts == [] then (if kind == KOr then "1=0" else "1=1")
        else Join(parts, if kind == KOr then " OR " else " AND ")
  }

  function Parts(d: Dialect, subs: seq<Option<Q>>, n: nat): seq<string>
    decreases subs, 1
  {
    if subs == [] then []
    else if subs[0].None? then Parts(d, subs[1..], n)
    else ["(" + Text(d, subs[0], n) + ")"] + Parts(d, subs[1..], n + |Args(subs[0])|)
  }

  /** What one turn of the loop over the children contributes. */
  lemma ChildStep(d: Dialect, subs: seq<Option<Q>>, i: nat, n: nat)
    requires i < |subs|
    ensures FirstErrorIn(subs[i..])
         == if FirstError(subs[i]).Some? then FirstError(subs[i]) else FirstErrorIn(subs[i + 1..])
    ensures ArgsIn(subs[i..]) == Args(subs[i]) + ArgsIn(subs[i + 1..])
    ensures Parts(d, subs[i..], n)
         == if subs[i].None? then Parts(d, subs[i + 1..], n)
            else ["(" + Text(d, subs[i], n) + ")"] + Parts(d, subs[i + 1..], n + |Args(subs[i])|)
  {
    assert subs[i..][0] == subs[i] && subs[i..][1..] == subs[i + 1..];
  }

  lemma NoChildren(d: Dialect, n: nat)
    ensures FirstErrorIn([]).None? && ArgsIn([]) == [] && Parts(d, [], n) == []
  {
  }

  // ----- the builder -----

  lemma Reassociate<T>(a: seq<T>, b: seq<T>, c: seq<T>)
    ensures a + b + c == a + (b + c)
  {
  }

  class Builder {
    const d: Dialect
    var args: seq<Value>

    constructor (d: Dialect)
      ensures this.d == d && args == []
    {
      this.d := d;
      args := [];
    }

    method Ph(v: Value) returns (s: string)
      modifies this
      ensures args == old(args) + [v]
      ensures s == Placeholder(d, |args|)
    {
      args := args + [v];
      s := Placeholder(d, |args|);
    }

    method Build(oq: Option<Q>) returns (r: Result<string, Error>)
      modifies this
      ensures match FirstError(oq)
              case Some(e) => r == Err(e)
              case None => r == Ok(Text(d, oq, |old(args)|)) && args == old(args) + Args(oq)
      decreases oq, 0
    {
      if oq.None? {
        return Ok("1=1");
      }
      var q := oq.value;
      match q.ResolvedKind() {
        case KLeaf =>
          r := Leaf(q);
        case KNot =>
          var w := Build(q.not_);
          if w.Err? {
            return w;
          }
          return Ok("NOT (" + w.value + ")");
        case _ =>
          var group, sep, empty := q.and_, " AND ", "1=1";
          if q.ResolvedKind() == KOr {
            group, sep, empty := q.or_, " OR ", "1=0";
          }
          if group.NilSlice? {
            return Ok(empty);
          }
          var parts := BuildParts(group.elems);
          if parts.Err? {
            return Err(parts.error);
          }
          if |parts.value| == 0 {
            return Ok(empty);
          }
          return Ok(Join(parts.value, sep));
      }
    }

    /** The loop of build over the children of a group. */
    method BuildParts(subs: seq<Option<Q>>) returns (r: Result<seq<string>, Error>)
      modifies this
      ensures match FirstErrorIn(subs)
              case Some(e) => r == Err(e)
              case None => r == Ok(Parts(d, subs, |old(args)|)) && args == old(args) + ArgsIn(subs)
      decreases subs, 1
    {
      hide FirstErrorIn, Parts, ArgsIn;
      var parts: seq<string> := [];
      assert subs[0..] == subs && parts + Parts(d, subs, |args|) == Parts(d, subs, |args|);
      for i := 0 to |subs|
        invariant FirstErrorIn(subs) == FirstErrorIn(subs[i..])
        invariant args + ArgsIn(subs[i..]) == old(args) + ArgsIn(subs)
        invariant parts + Parts(d, subs[i..], |args|) == Parts(d, subs, |old(args)|)
      {
        ChildStep(d, subs, i, |args|);
        if subs[i].None? {
          continue;
        }
        ghost var before := args;
        var w := Build(subs[i]);
        if w.Err? {
          return Err(w.error);
        }
        ghost var laterArgs, laterParts := ArgsIn(subs[i + 1..]), Parts(d, subs[i + 1..], |args|);
        var part := "(" + w.value + ")";
        Reassociate(before, Args(subs[i]), laterArgs);
        Reassociate(parts, [part], laterParts);
        parts := parts + [part];
      }
      NoChildren(d, |args|);
      assert subs[|subs|..] == [] && parts + [] == parts && args + [] == args;
      return Ok(parts);
    }

    method Leaf(q: Q) returns (r: Result<string, Error>)
      modifies this
      ensures match LeafError(q)
              case Some(e) => r == Err(e)
              case None => r == Ok(LeafText(d, q, |old(args)|)) && args == old(args) + LeafArgs(q)
    {
      var field := QuoteIdent(d, q.field);
      if field.None? {
        return Err(BadField(q.field));
      }
      var pop := ParseOp(q.op);
      if pop.None? {
        return Err(BadOp(q.op));
      }
      var op := pop.value;
      match op {
        case IsNull => return Ok(field.value + " " + OpText(op));
        case IsNotNull => return Ok(field.value + " " + OpText(op));
        case In => r := ListLeaf(q, op, field.value); return;
        case NotIn => r := ListLeaf(q, op, field.value); return;
        case Cmp(c) =>
          if (c == Eq || c == Ne) && q.value == Nil {
            return Ok(field.value + (if c == Eq then " IS NULL" else " IS NOT NULL"));
          }
        case _ =>
      }
      var p := Ph(q.value);
      return Ok(field.value + " " + OpText(op) + " " + p);
    }

    /** The IN and NOT IN branch of leaf. */
    method ListLeaf(q: Q, op: Op, field: string) returns (r: Result<string, Error>)
      requires field == Quoted(d, q.field) && (op == In || op == NotIn)
      modifies this
      ensures r == Ok(ListText(d, q, op, |old(args)|)) && args == old(args) + ListValues(q.value)
    {
      var vals := ListValues(q.value);
      if |vals| == 0 {
        return Ok(if op == In then "1=0" else "1=1");
      }
      var ps: seq<string> := [];
      for i := 0 to |vals|
        invariant args == old(args) + vals[..i]
        invariant ps == Placeholders(d, |old(args)|, i)
      {
        var p := Ph(vals[i]);
        ps := ps + [p];
      }
      return Ok(field + " " + OpText(op) + " (" + Join(ps, ", ") + ")");
    }
  }

  /** Q.Build: text and arguments, or the first error and no arguments. */
  method Build(d: Dialect, oq: Option<Q>) returns (r: Result<(string, seq<Value>), Error>)
    ensures match FirstError(oq)
            case Some(e) => r == Err(e)
            case None => r == Ok((Text(d, oq, 0), Args(oq)))
  {
    var b := new Builder(d);
    var w := b.Build(oq);
    if w.Err? {
      return Err(w.error);
    }
    assert [] + Args(oq) == Args(oq);
    return Ok((w.value, b.args));
  }
}
