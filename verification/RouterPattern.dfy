/** The grammar of route patterns: parsing succeeds exactly on the texts of the grammar, and reads
    them as the grammar means them. */
module RouterPattern {
  import opened Wrappers
  import opened SqlIdent
  import opened Router

  // ----- the grammar -----

  /** What stands in braces: balanced braces, with escaped characters that do not count. */
  datatype Expr =
    | End
    | Plain(c: char, rest: Expr)
    | Escaped(c: char, rest: Expr)
    | Group(inner: Expr, rest: Expr)

  predicate IsExpr(e: Expr) {
    match e
    case End => true
    case Plain(c, rest) => c !in {'\\', '{', '}'} && IsExpr(rest)
    case Escaped(_, rest) => IsExpr(rest)
    case Group(inner, rest) => IsExpr(inner) && IsExpr(rest)
  }

  function Text(e: Expr): string {
    match e
    case End => ""
    case Plain(c, rest) => [c] + Text(rest)
    case Escaped(c, rest) => ['\\', c] + Text(rest)
    case Group(inner, rest) => "{" + Text(inner) + "}" + Text(rest)
  }

  /** No colon outside inner braces. */
  predicate NoColon(e: Expr) {
    match e
    case End => true
    case Plain(c, rest) => c != ':' && NoColon(rest)
    case Escaped(_, rest) => NoColon(rest)
    case Group(_, rest) => NoColon(rest)
  }

  /** A literal character, {name} or {name:regex}, :name with or without a mark, or a joker. */
  datatype Piece =
    | Literal(c: char)
    | Brace(name: Expr, regex: Option<Expr>)
    | Colon(id: string, mark: Option<char>)
    | Joker(c: char)

  function Print(x: Piece): (t: string)
    ensures t != ""
  {
    match x
    case Literal(c) => [c]
    case Brace(name, regex) => "{" + Text(name) + AfterName(regex) + "}"
    case Colon(id, mark) => ":" + id + if mark.None? then "" else [mark.value]
    case Joker(c) => [c]
  }

  function AfterName(regex: Option<Expr>): string {
    if regex.None? then "" else ":" + Text(regex.value)
  }

  function PrintAll(xs: seq<Piece>): string {
    if xs == [] then "" else Print(xs[0]) + PrintAll(xs[1..])
  }

  predicate ColonName(name: string) {
    name != "" && forall i | 0 <= i < |name| :: IsNameChar(name[i])
  }

  /** A piece that can stand between the character before it and the text after it. A pattern starts
      as after a slash. */
  predicate Fits(before: char, x: Piece, after: string) {
    match x
    case Literal(c) =>
      c != '{' && !(c == ':' && before in {'/', '-', '.'} && after != "" && IsNameChar(after[0]))
      && !(c in {'*', '+'} && before == '/')
    case Brace(name, regex) =>
      IsExpr(name) && NoColon(name) && TrimSpace(Text(name)) != "" && (regex.Some? ==> IsExpr(regex.value))
    case Colon(id, mark) =>
      ColonName(id) && before in {'/', '-', '.'}
      && if mark.Some? then mark.value in {'?', '+', '*'}
         else after == "" || (!IsNameChar(after[0]) && after[0] !in {'?', '+', '*'})
    case Joker(c) => c in {'*', '+'} && before == '/'
  }

  predicate Clean(before: char, xs: seq<Piece>)
    decreases xs
  {
    xs == []
    || (Fits(before, xs[0], PrintAll(xs[1..])) && Clean(Print(xs[0])[|Print(xs[0])| - 1], xs[1..]))
  }

  /** What a piece means. */
  function Meaning(x: Piece): Segment
    requires !x.Literal?
  {
    match x
    case Brace(name, _) => Param(TrimSpace(Text(name)), Named, false)
    case Colon(id, mark) =>
      if mark.None? then Param(id, Named, false)
      else if mark.value == '?' then Param(id, Optional, false)
      else Param(id, if mark.value == '+' then Named else Wildcard, true)
    case Joker(c) => Param([c], if c == '+' then Named else Wildcard, true)
  }

  /** What a pattern means: neighbouring characters are one literal. */
  function Segments(xs: seq<Piece>, lit: string): seq<Segment>
    decreases xs
  {
    var before := if lit == "" then [] else [Lit(lit)];
    if xs == [] then before
    else if xs[0].Literal? then Segments(xs[1..], lit + [xs[0].c])
    else before + [Meaning(xs[0])] + Segments(xs[1..], "")
  }

  // ----- places in a text -----

  /** The text t stands in p at i. */
  predicate At(p: string, i: nat, t: string) {
    i + |t| <= |p| && p[i..i + |t|] == t
  }

  lemma AtSplit(p: string, i: nat, a: string, b: string)
    requires At(p, i, a + b)
    ensures At(p, i, a) && At(p, i + |a|, b)
  {
    assert p[i..i + |a|] == (a + b)[..|a|] == a;
    assert p[i + |a|..i + |a| + |b|] == (a + b)[|a|..] == b;
  }

  lemma AtJoin(p: string, i: nat, a: string, b: string)
    requires At(p, i, a) && At(p, i + |a|, b)
    ensures At(p, i, a + b)
  {
    assert p[i..i + |a + b|] == p[i..i + |a|] + p[i + |a|..i + |a| + |b|];
  }

  lemma AtChar(p: string, i: nat, c: char)
    ensures At(p, i, [c]) <==> i < |p| && p[i] == c
  {
  }

  function Before(p: string, i: nat): char
    requires i <= |p|
  {
    if i == 0 then '/' else p[i - 1]
  }

  lemma AtEnd(p: string, i: nat, t: string)
    requires At(p, i, t) && t != ""
    ensures Before(p, i + |t|) == t[|t| - 1]
  {
    assert p[i..i + |t|][|t| - 1] == p[i + |t| - 1];
  }

  // ----- braces -----

  /** The first colon outside inner braces. */
  function FirstColon(e: Expr, j: nat): (r: Option<nat>)
    ensures r.Some? ==> j <= r.value < j + |Text(e)|
    ensures NoColon(e) ==> r.None?
  {
    match e
    case End => None
    case Plain(c, rest) => if c == ':' then Some(j) else FirstColon(rest, j + 1)
    case Escaped(_, rest) => FirstColon(rest, j + 2)
    case Group(inner, rest) => FirstColon(rest, j + |Text(inner)| + 2)
  }

  /** The colon that the scan knows after an expression. */
  function ColonAfter(e: Expr, j: nat, depth: nat, colon: Option<nat>): (r: Option<nat>)
    ensures (colon.Some? ==> colon.value < j) ==> r.Some? ==> r.value < j + |Text(e)|
  {
    if depth == 1 && colon.None? then FirstColon(e, j) else colon
  }

  /** One character of a scan. */
  lemma ScanStep(p: string, j: nat, depth: nat, colon: Option<nat>)
    requires j < |p| && depth > 0 && (colon.Some? ==> colon.value < j)
    ensures p[j] == '\\' ==> Scan(p, j, depth, colon) == Scan(p, j + 2, depth, colon)
    ensures p[j] == '{' ==> Scan(p, j, depth, colon) == Scan(p, j + 1, depth + 1, colon)
    ensures p[j] == '}' ==> Scan(p, j, depth, colon) == Scan(p, j + 1, depth - 1, colon)
    ensures p[j] !in {'\\', '{', '}'} ==> Scan(p, j, depth, colon) == Scan(p, j + 1, depth, Seen(p[j], j, depth, colon))
  {
  }

  function Seen(c: char, j: nat, depth: nat, colon: Option<nat>): (r: Option<nat>)
    ensures (colon.Some? ==> colon.value < j) ==> r.Some? ==> r.value < j + 1
  {
    if c == ':' && depth == 1 && colon.None? then Some(j) else colon
  }

  lemma ScanEnds(p: string, j: nat, depth: nat, colon: Option<nat>)
    requires (j >= |p| || depth == 0) && (colon.Some? ==> colon.value < j)
    ensures Scan(p, j, depth, colon) == (j, depth, colon)
  {
  }

  lemma PlainParts(e: Expr, j: nat, depth: nat, colon: Option<nat>)
    requires e.Plain? && IsExpr(e)
    ensures Text(e) == [e.c] + Text(e.rest) && |Text(e)| == 1 + |Text(e.rest)|
    ensures e.c !in {'\\', '{', '}'} && IsExpr(e.rest)
    ensures ColonAfter(e, j, depth, colon) == ColonAfter(e.rest, j + 1, depth, Seen(e.c, j, depth, colon))
  {
  }

  lemma EscapedParts(e: Expr, j: nat, depth: nat, colon: Option<nat>)
    requires e.Escaped? && IsExpr(e)
    ensures Text(e) == ['\\'] + [e.c] + Text(e.rest) && |Text(e)| == 2 + |Text(e.rest)| && IsExpr(e.rest)
    ensures ColonAfter(e, j, depth, colon) == ColonAfter(e.rest, j + 2, depth, colon)
  {
  }

  lemma GroupParts(e: Expr)
    requires e.Group? && IsExpr(e)
    ensures |Text(e)| == 2 + |Text(e.inner)| + |Text(e.rest)| && IsExpr(e.inner) && IsExpr(e.rest)
  {
    hide FirstColon;
  }

  lemma GroupColon(e: Expr, j: nat, depth: nat, colon: Option<nat>)
    requires e.Group? && depth > 0
    ensures ColonAfter(e.inner, j + 1, depth + 1, colon) == colon
    ensures ColonAfter(e, j, depth, colon) == ColonAfter(e.rest, j + 2 + |Text(e.inner)|, depth, colon)
  {
    hide Text, IsExpr;
  }

  /** Scanning passes an expression at the depth it met it. */
  lemma {:induction false} ScanPasses(p: string, j: nat, depth: nat, colon: Option<nat>, e: Expr)
    requires IsExpr(e) && At(p, j, Text(e)) && depth > 0 && (colon.Some? ==> colon.value < j)
    ensures Scan(p, j, depth, colon) == Scan(p, j + |Text(e)|, depth, ColonAfter(e, j, depth, colon))
    decreases e, 1
  {
    hide At, Scan, ColonAfter, IsExpr, Text;
    match e
    case End => NothingPassed(j, depth, colon);
    case Plain(_, _) => ScanPlainPasses(p, j, depth, colon, e);
    case Escaped(_, _) => ScanEscapedPasses(p, j, depth, colon, e);
    case Group(_, _) => ScanGroupPasses(p, j, depth, colon, e);
  }

  lemma {:induction false} ScanPlainPasses(p: string, j: nat, depth: nat, colon: Option<nat>, e: Expr)
    requires e.Plain? && IsExpr(e) && At(p, j, Text(e)) && depth > 0 && (colon.Some? ==> colon.value < j)
    ensures Scan(p, j, depth, colon) == Scan(p, j + |Text(e)|, depth, ColonAfter(e, j, depth, colon))
    decreases e, 0
  {
    hide At, Scan, ColonAfter, IsExpr, Text;
    PlainParts(e, j, depth, colon);
    AtSplit(p, j, [e.c], Text(e.rest));
    AtChar(p, j, e.c);
    ScanStep(p, j, depth, colon);
    ScanPasses(p, j + 1, depth, Seen(e.c, j, depth, colon), e.rest);
  }

  lemma {:induction false} ScanEscapedPasses(p: string, j: nat, depth: nat, colon: Option<nat>, e: Expr)
    requires e.Escaped? && IsExpr(e) && At(p, j, Text(e)) && depth > 0 && (colon.Some? ==> colon.value < j)
    ensures Scan(p, j, depth, colon) == Scan(p, j + |Text(e)|, depth, ColonAfter(e, j, depth, colon))
    decreases e, 0
  {
    hide At, Scan, ColonAfter, IsExpr, Text;
    EscapedParts(e, j, depth, colon);
    AtSplit(p, j, ['\\'] + [e.c], Text(e.rest));
    AtSplit(p, j, ['\\'], [e.c]);
    AtChar(p, j, '\\');
    ScanStep(p, j, depth, colon);
    ScanPasses(p, j + 2, depth, colon, e.rest);
  }

  lemma {:induction false} ScanGroupPasses(p: string, j: nat, depth: nat, colon: Option<nat>, e: Expr)
    requires e.Group? && IsExpr(e) && At(p, j, Text(e)) && depth > 0 && (colon.Some? ==> colon.value < j)
    ensures Scan(p, j, depth, colon) == Scan(p, j + |Text(e)|, depth, ColonAfter(e, j, depth, colon))
    decreases e, 0
  {
    hide At, Scan, ColonAfter, IsExpr, Text;
    GroupParts(e);
    GroupColon(e, j, depth, colon);
    GroupAt(p, j, e.inner, e.rest);
    var k := j + 1 + |Text(e.inner)|;
    ScanStep(p, j, depth, colon);
    ScanPasses(p, j + 1, depth + 1, colon, e.inner);
    ScanStep(p, k, depth + 1, colon);
    ScanPasses(p, k + 1, depth, colon, e.rest);
  }

  lemma NothingPassed(j: nat, depth: nat, colon: Option<nat>)
    ensures Text(End) == "" && ColonAfter(End, j, depth, colon) == colon
  {
  }

  lemma GroupAt(p: string, j: nat, inner: Expr, rest: Expr)
    requires At(p, j, Text(Group(inner, rest)))
    ensures j + |Text(inner)| + 1 < |p| && p[j] == '{' && p[j + 1 + |Text(inner)|] == '}'
    ensures At(p, j + 1, Text(inner)) && At(p, j + |Text(inner)| + 2, Text(rest))
  {
    hide At;
    var i := j + 1 + |Text(inner)|;
    AtSplit(p, j, "{" + Text(inner) + "}", Text(rest));
    AtSplit(p, j, "{" + Text(inner), "}");
    AtSplit(p, j, "{", Text(inner));
    AtChar(p, j, '{');
    AtChar(p, i, '}');
  }

  /** The scan of a brace ends at its end, knowing the colon before the regular expression. */
  lemma BraceScan(p: string, i: nat, name: Expr, regex: Option<Expr>)
    requires IsExpr(name) && NoColon(name) && (regex.Some? ==> IsExpr(regex.value))
    requires At(p, i, Print(Brace(name, regex)))
    ensures i < |p| && p[i] == '{' && At(p, i + 1, Text(name))
    ensures var c := i + 1 + |Text(name)|;
            Scan(p, i + 1, 1, None) == (i + |Print(Brace(name, regex))|, 0, if regex.None? then None else Some(c))
  {
    hide At, Scan, Text, IsExpr, ColonAfter, FirstColon, NoColon;
    if regex.None? {
      PlainBraceScan(p, i, name);
    } else {
      var c := i + 1 + |Text(name)|;
      RegexAt(p, i, Text(name), Text(regex.value));
      NameScan(p, i, name);
      RegexScan(p, c, regex.value);
    }
  }

  lemma PlainBraceScan(p: string, i: nat, name: Expr)
    requires IsExpr(name) && NoColon(name) && At(p, i, "{" + Text(name) + "" + "}")
    ensures i < |p| && p[i] == '{' && At(p, i + 1, Text(name))
    ensures Scan(p, i + 1, 1, None) == (i + |Text(name)| + 2, 0, None)
  {
    hide At, Scan, Text, IsExpr, NoColon;
    assert "{" + Text(name) + "" == "{" + Text(name);
    AtSplit(p, i, "{" + Text(name), "}");
    NameScan(p, i, name);
    AtChar(p, i + 1 + |Text(name)|, '}');
    ScanCloses(p, i + 1 + |Text(name)|, None);
  }

  lemma NameScan(p: string, i: nat, name: Expr)
    requires IsExpr(name) && NoColon(name) && At(p, i, "{" + Text(name))
    ensures i < |p| && p[i] == '{' && At(p, i + 1, Text(name))
    ensures Scan(p, i + 1, 1, None) == Scan(p, i + 1 + |Text(name)|, 1, None)
  {
    hide At, Scan, Text, IsExpr, NoColon, ColonAfter, FirstColon;
    AtSplit(p, i, "{", Text(name));
    AtChar(p, i, '{');
    ScanPasses(p, i + 1, 1, None, name);
    NoColonAfter(name, i + 1);
  }

  lemma RegexScan(p: string, c: nat, regex: Expr)
    requires IsExpr(regex) && c + |Text(regex)| + 1 < |p|
    requires p[c] == ':' && At(p, c + 1, Text(regex)) && p[c + 1 + |Text(regex)|] == '}'
    ensures Scan(p, c, 1, None) == (c + 2 + |Text(regex)|, 0, Some(c))
  {
    hide At, Scan, Text, IsExpr;
    ScanStep(p, c, 1, None);
    ScanPasses(p, c + 1, 1, Some(c), regex);
    ScanCloses(p, c + 1 + |Text(regex)|, Some(c));
  }

  lemma ScanCloses(p: string, j: nat, colon: Option<nat>)
    requires j < |p| && p[j] == '}' && (colon.Some? ==> colon.value < j)
    ensures Scan(p, j, 1, colon) == (j + 1, 0, colon)
  {
    hide Scan;
    ScanStep(p, j, 1, colon);
    ScanEnds(p, j + 1, 0, colon);
  }

  lemma NoColonAfter(e: Expr, j: nat)
    requires NoColon(e)
    ensures ColonAfter(e, j, 1, None) == None
  {
  }

  lemma RegexAt(p: string, i: nat, name: string, regex: string)
    requires At(p, i, "{" + name + (":" + regex) + "}")
    ensures var c := i + 1 + |name|;
            At(p, i, "{" + name) && c + |regex| + 1 < |p| && p[c] == ':' && At(p, c + 1, regex)
            && p[c + 1 + |regex|] == '}'
  {
    hide At;
    var c := i + 1 + |name|;
    AtSplit(p, i, "{" + name + (":" + regex), "}");
    AtSplit(p, i, "{" + name, ":" + regex);
    AtSplit(p, c, ":", regex);
    AtChar(p, c, ':');
    AtChar(p, c + 1 + |regex|, '}');
  }

  /** A brace is read as its name, when that is not blank. */
  lemma BraceRead(p: string, i: nat, name: Expr, regex: Option<Expr>)
    requires IsExpr(name) && NoColon(name) && (regex.Some? ==> IsExpr(regex.value))
    requires At(p, i, Print(Brace(name, regex)))
    ensures i < |p| && p[i] == '{'
    ensures BraceParam(p, i) == if TrimSpace(Text(name)) == "" then None
                                else Some((Param(TrimSpace(Text(name)), Named, false), i + |Print(Brace(name, regex))|))
  {
    hide At, Scan, TrimSpace, Text, IsExpr;
    BraceScan(p, i, name, regex);
    NameAt(p, i + 1, Text(name));
  }

  lemma NameAt(p: string, i: nat, t: string)
    requires At(p, i, t)
    ensures i + |t| <= |p| && p[i..i + |t|] == t
  {
  }

  /** The texts of expressions, each closed by a brace. */
  function Closed(es: seq<Expr>): string {
    if es == [] then "" else Text(es[0]) + ("}" + Closed(es[1..]))
  }

  predicate AreExprs(es: seq<Expr>) {
    forall e | e in es :: IsExpr(e)
  }

  /** A scan that comes back to depth zero has passed one expression for each level. */
  lemma {:induction false} ScanWasOf(p: string, j: nat, depth: nat, colon: Option<nat>) returns (es: seq<Expr>)
    requires depth > 0 && (colon.Some? ==> colon.value < j) && Scan(p, j, depth, colon).1 == 0
    ensures |es| == depth && AreExprs(es) && At(p, j, Closed(es)) && Scan(p, j, depth, colon).0 == j + |Closed(es)|
    decreases |p| - j
  {
    hide At, AreExprs, IsExpr, Scan, Text, Closed;
    var c := p[j];
    AtChar(p, j, c);
    ScanStep(p, j, depth, colon);
    if c == '\\' {
      es := ScanWasOf(p, j + 2, depth, colon);
      EscapedAt(p, j);
      es := Longer(p, j, es, Escaped(p[j + 1], es[0]), [c, p[j + 1]]);
    } else if c == '{' {
      es := ScanWasOf(p, j + 1, depth + 1, colon);
      es := Grouped(p, j, es);
    } else if c == '}' {
      if depth > 1 {
        es := ScanWasOf(p, j + 1, depth - 1, colon);
      } else {
        es := [];
        ScanEnds(p, j + 1, 0, colon);
        NothingAt(p, j + 1);
      }
      es := Ended(p, j, es);
    } else {
      es := ScanWasOf(p, j + 1, depth, Seen(c, j, depth, colon));
      es := Longer(p, j, es, Plain(c, es[0]), [c]);
    }
  }

  lemma EscapedAt(p: string, j: nat)
    requires j + 1 < |p|
    ensures At(p, j, [p[j], p[j + 1]])
  {
  }

  lemma NothingAt(p: string, i: nat)
    requires i <= |p|
    ensures At(p, i, Closed([])) && AreExprs([]) && Closed([]) == ""
  {
  }

  /** One character, or an escaped one, in front. */
  predicate Extends(e: Expr, first: Expr, t: string) {
    |t| > 0 && if t[0] == '\\' then |t| == 2 && first == Escaped(t[1], e)
               else |t| == 1 && t[0] !in {'{', '}'} && first == Plain(t[0], e)
  }

  lemma ExtendsText(e: Expr, first: Expr, t: string)
    requires Extends(e, first, t)
    ensures Text(first) == t + Text(e) && (IsExpr(e) ==> IsExpr(first))
  {
  }

  lemma Longer(p: string, j: nat, es: seq<Expr>, first: Expr, t: string) returns (longer: seq<Expr>)
    requires es != [] && AreExprs(es) && Extends(es[0], first, t)
    requires At(p, j, t) && At(p, j + |t|, Closed(es))
    ensures |longer| == |es| && AreExprs(longer) && At(p, j, Closed(longer)) && |Closed(longer)| == |t| + |Closed(es)|
  {
    hide At, IsExpr, Text, Extends;
    ExtendsText(es[0], first, t);
    longer := [first] + es[1..];
    assert es[0] in es && forall e | e in longer :: e == first || e in es;
    assert longer[1..] == es[1..];
    assert Closed(longer) == t + (Text(es[0]) + ("}" + Closed(es[1..])));
    AtJoin(p, j, t, Closed(es));
  }

  lemma Grouped(p: string, j: nat, es: seq<Expr>) returns (fewer: seq<Expr>)
    requires |es| >= 2 && AreExprs(es) && At(p, j, "{") && At(p, j + 1, Closed(es))
    ensures |fewer| == |es| - 1 && AreExprs(fewer) && At(p, j, Closed(fewer)) && |Closed(fewer)| == 1 + |Closed(es)|
  {
    hide At;
    fewer := [Group(es[0], es[1])] + es[2..];
    assert es[0] in es && es[1] in es && forall e | e in fewer :: e == fewer[0] || e in es;
    var rest := "}" + Closed(es[2..]);
    assert fewer[1..] == es[2..] && es[1..][1..] == es[2..];
    assert Closed(es) == Text(es[0]) + ("}" + (Text(es[1]) + rest));
    Regroup(Text(es[0]), Text(es[1]), rest);
    assert Closed(fewer) == "{" + Closed(es);
    AtJoin(p, j, "{", Closed(es));
  }

  lemma Regroup(inner: string, next: string, rest: string)
    ensures "{" + inner + "}" + next + rest == "{" + (inner + ("}" + (next + rest)))
  {
    assert "{" + inner + "}" + next + rest == "{" + inner + "}" + (next + rest);
  }

  lemma Ended(p: string, j: nat, es: seq<Expr>) returns (more: seq<Expr>)
    requires AreExprs(es) && At(p, j, "}") && At(p, j + 1, Closed(es))
    ensures |more| == |es| + 1 && AreExprs(more) && At(p, j, Closed(more)) && |Closed(more)| == 1 + |Closed(es)|
  {
    hide At;
    more := [End] + es;
    assert more[1..] == es;
    assert "" + ("}" + Closed(es)) == "}" + Closed(es);
    assert Closed(more) == "}" + Closed(es);
    AtJoin(p, j, "}", Closed(es));
  }

  /** The name and the regular expression of what stands in braces. */
  predicate IsSplit(e: Expr, name: Expr, regex: Option<Expr>) {
    IsExpr(name) && NoColon(name) && (regex.Some? ==> IsExpr(regex.value)) && Text(e) == Text(name) + AfterName(regex)
  }

  lemma {:induction false} SplitAtColon(e: Expr) returns (name: Expr, regex: Option<Expr>)
    requires IsExpr(e)
    ensures IsSplit(e, name, regex)
    decreases e
  {
    hide IsSplit;
    match e
    case End =>
      name, regex := End, None;
      SplitHere(e);
    case Plain(c, rest) =>
      if c == ':' {
        name, regex := End, Some(rest);
        SplitHere(e);
      } else {
        name, regex := SplitAtColon(rest);
        SplitLater(e, rest, [c], name, regex);
        name := Plain(c, name);
      }
    case Escaped(c, rest) =>
      name, regex := SplitAtColon(rest);
      SplitLater(e, rest, ['\\', c], name, regex);
      name := Escaped(c, name);
    case Group(inner, rest) =>
      name, regex := SplitAtColon(rest);
      SplitLater(e, rest, "{" + Text(inner) + "}", name, regex);
      name := Group(inner, name);
  }

  lemma SplitHere(e: Expr)
    requires IsExpr(e)
    ensures e == End ==> IsSplit(e, End, None)
    ensures e.Plain? && e.c == ':' ==> IsSplit(e, End, Some(e.rest))
  {
  }

  lemma SplitLater(e: Expr, rest: Expr, t: string, name: Expr, regex: Option<Expr>)
    requires IsExpr(e) && Text(e) == t + Text(rest) && IsSplit(rest, name, regex)
    ensures e.Plain? && e.c != ':' && e.rest == rest && t == [e.c] ==> IsSplit(e, Plain(e.c, name), regex)
    ensures e.Escaped? && e.rest == rest && t == ['\\', e.c] ==> IsSplit(e, Escaped(e.c, name), regex)
    ensures e.Group? && e.rest == rest && t == "{" + Text(e.inner) + "}" ==> IsSplit(e, Group(e.inner, name), regex)
  {
    hide AfterName;
    assert t + (Text(name) + AfterName(regex)) == t + Text(name) + AfterName(regex);
  }

  lemma BraceWas(p: string, i: nat) returns (x: Piece)
    requires i < |p| && p[i] == '{' && BraceParam(p, i).Some?
    ensures x.Brace? && At(p, i, Print(x)) && Fits(Before(p, i), x, p[i + |Print(x)|..])
    ensures BraceParam(p, i).value == (Meaning(x), i + |Print(x)|)
  {
    hide At, TrimSpace, Scan, IsExpr, AreExprs, Text;
    var es := ScanWasOf(p, i + 1, 1, None);
    FirstIs(es);
    var name, regex := SplitAtColon(es[0]);
    x := Brace(name, regex);
    AtChar(p, i, '{');
    AtJoin(p, i, "{", Closed(es));
    assert "{" + Closed(es) == Print(x) by { PrintOf(es[0], name, regex); }
    BraceRead(p, i, name, regex);
  }

  lemma FirstIs(es: seq<Expr>)
    requires |es| == 1 && AreExprs(es)
    ensures IsExpr(es[0]) && Closed(es) == Text(es[0]) + "}"
  {
    assert es[1..] == [] && "}" + "" == "}";
  }

  lemma PrintOf(e: Expr, name: Expr, regex: Option<Expr>)
    requires Text(e) == Text(name) + AfterName(regex)
    ensures "{" + (Text(e) + "}") == Print(Brace(name, regex))
  {
  }

  // ----- colons -----

  lemma {:induction false} NameEndsAt(p: string, j: nat, e: nat)
    requires j <= e <= |p| && (e < |p| ==> !IsNameChar(p[e])) && forall k | j <= k < e :: IsNameChar(p[k])
    ensures NameEnd(p, j) == e
    decreases e - j
  {
    if j < e {
      NameEndsAt(p, j + 1, e);
    }
  }

  lemma ColonRead(p: string, i: nat, x: Piece)
    requires x.Colon? && At(p, i, Print(x)) && Fits(Before(p, i), x, p[i + |Print(x)|..])
    ensures i < |p| && StartsColonParam(p, i) && ColonParam(p, i) == (Meaning(x), i + |Print(x)|)
  {
    hide NameEnd, IsNameChar, At, Print;
    var e := i + 1 + |x.id|;
    ColonAt(p, i, x);
    NameAt(p, i + 1, x.id);
    MarkIsNoName();
    EndInside(p, i, Print(x));
    NameEndsAt(p, i + 1, e) by { NameAtEach(p, i + 1, x.id); }
  }

  lemma ColonAt(p: string, i: nat, x: Piece)
    requires x.Colon? && At(p, i, Print(x))
    ensures i < |p| && p[i] == ':' && At(p, i + 1, x.id)
    ensures |Print(x)| == 1 + |x.id| + if x.mark.None? then 0 else 1
    ensures x.mark.Some? ==> i + 1 + |x.id| < |p| && p[i + 1 + |x.id|] == x.mark.value
  {
    hide At;
    var mark := if x.mark.None? then "" else [x.mark.value];
    assert Print(x) == ":" + x.id + mark;
    AtSplit(p, i, ":" + x.id, mark);
    AtSplit(p, i, ":", x.id);
    AtChar(p, i, ':');
    if x.mark.Some? {
      AtChar(p, i + 1 + |x.id|, x.mark.value);
    }
  }

  lemma NameAtEach(p: string, i: nat, name: string)
    requires At(p, i, name) && ColonName(name)
    ensures forall k | i <= k < i + |name| :: IsNameChar(p[k])
  {
    hide IsNameChar;
    forall k | i <= k < i + |name|
      ensures IsNameChar(p[k])
    {
      assert p[k] == p[i..i + |name|][k - i] == name[k - i];
    }
  }

  lemma EndInside(p: string, i: nat, t: string)
    requires At(p, i, t)
    ensures i + |t| <= |p| && (i + |t| < |p| ==> p[i + |t|..] != "" && p[i + |t|..][0] == p[i + |t|])
  {
  }

  lemma MarkIsNoName()
    ensures forall c | c in {'?', '+', '*'} :: !IsNameChar(c)
  {
  }

  lemma {:induction false} NameEndIs(p: string, j: nat)
    requires j <= |p|
    ensures var e := NameEnd(p, j);
            (e < |p| ==> !IsNameChar(p[e]))
            && (forall k | j <= k < e :: IsNameChar(p[k]))
            && (j < |p| && IsNameChar(p[j]) ==> e > j)
    decreases |p| - j
  {
    if j < |p| && IsNameChar(p[j]) {
      NameEndIs(p, j + 1);
    }
  }

  lemma ColonShape(p: string, i: nat, e: nat, marked: bool)
    requires i + 1 < e <= |p| && p[i] == ':' && (marked ==> e < |p|)
    ensures var x := Colon(p[i + 1..e], if marked then Some(p[e]) else None);
            At(p, i, Print(x)) && |Print(x)| == e - i + if marked then 1 else 0
  {
    var t := ":" + p[i + 1..e];
    assert p[i..e] == t;
    if marked {
      assert p[i..e + 1] == t + [p[e]];
    } else {
      assert t + "" == t;
    }
  }

  lemma ColonWas(p: string, i: nat) returns (x: Piece)
    requires i < |p| && StartsColonParam(p, i)
    ensures x.Colon? && At(p, i, Print(x)) && Fits(Before(p, i), x, p[i + |Print(x)|..])
    ensures ColonParam(p, i) == (Meaning(x), i + |Print(x)|)
  {
    hide IsNameChar, NameEnd, At, Print;
    NameEndIs(p, i + 1);
    var e := NameEnd(p, i + 1);
    var marked := e < |p| && p[e] in {'?', '+', '*'};
    x := Colon(p[i + 1..e], if marked then Some(p[e]) else None);
    ColonShape(p, i, e, marked);
    assert ColonName(x.id);
  }

  // ----- patterns -----

  lemma LiteralRead(p: string, i: nat, c: char)
    requires i < |p| && p[i] == c
    ensures Fits(Before(p, i), Literal(c), p[i + 1..]) <==> p[i] != '{' && !StartsColonParam(p, i) && !StartsJoker(p, i)
    ensures Fits(Before(p, i), Joker(c), p[i + 1..]) <==> StartsJoker(p, i)
  {
  }

  lemma PieceRead(p: string, i: nat, x: Piece, lit: string)
    requires At(p, i, Print(x)) && Fits(Before(p, i), x, p[i + |Print(x)|..])
    ensures i < |p| && i + |Print(x)| <= |p|
    ensures ParseFrom(p, i, lit)
         == if x.Literal? then ParseFrom(p, i + 1, lit + [x.c])
            else Prepend(Flush(lit) + [Meaning(x)], ParseFrom(p, i + |Print(x)|, ""))
  {
    hide Scan, BraceParam, ColonParam, TrimSpace, IsNameChar, IsExpr, Text, AfterName, At, NoColon;
    NameAt(p, i, Print(x));
    match x
    case Literal(c) =>
      AtChar(p, i, c);
      LiteralRead(p, i, c);
    case Brace(name, regex) => BraceRead(p, i, name, regex);
    case Colon(_, _) => ColonRead(p, i, x);
    case Joker(c) =>
      AtChar(p, i, c);
      LiteralRead(p, i, c);
  }

  lemma PieceWas(p: string, i: nat, lit: string) returns (x: Piece)
    requires i < |p| && ParseFrom(p, i, lit).Ok?
    ensures At(p, i, Print(x)) && Fits(Before(p, i), x, p[i + |Print(x)|..])
  {
    hide BraceParam, StartsColonParam, StartsJoker, Fits, At, ParseFrom;
    if p[i] == '{' {
      BraceOk(p, i, lit);
      x := BraceWas(p, i);
    } else if StartsColonParam(p, i) {
      x := ColonWas(p, i);
    } else {
      LiteralRead(p, i, p[i]);
      AtChar(p, i, p[i]);
      x := if StartsJoker(p, i) then Joker(p[i]) else Literal(p[i]);
    }
  }

  lemma BraceOk(p: string, i: nat, lit: string)
    requires i < |p| && p[i] == '{' && ParseFrom(p, i, lit).Ok?
    ensures BraceParam(p, i).Some?
  {
    hide BraceParam;
  }

  lemma Follows(p: string, i: nat, t: string, rest: string)
    requires i <= |p| && p[i..] == t + rest
    ensures At(p, i, t) && p[i + |t|..] == rest
  {
    assert p[i..][..|t|] == p[i..i + |t|];
    assert p[i..][|t|..] == p[i + |t|..];
  }

  lemma {:induction false} PiecesRead(p: string, i: nat, lit: string, xs: seq<Piece>)
    requires i <= |p| && p[i..] == PrintAll(xs) && Clean(Before(p, i), xs)
    ensures ParseFrom(p, i, lit) == Ok(Segments(xs, lit))
    decreases xs
  {
    hide ParseFrom, Fits, Print, Meaning, At;
    if xs == [] {
      NothingLeft(p, i, lit);
    } else {
      var x := xs[0];
      Follows(p, i, Print(x), PrintAll(xs[1..]));
      PieceRead(p, i, x, lit);
      AtEnd(p, i, Print(x));
      if x.Literal? {
        LiteralLength(x);
        PiecesRead(p, i + 1, lit + [x.c], xs[1..]);
      } else {
        PiecesRead(p, i + |Print(x)|, "", xs[1..]);
      }
    }
  }

  lemma NothingLeft(p: string, i: nat, lit: string)
    requires i <= |p| && p[i..] == ""
    ensures ParseFrom(p, i, lit) == Ok(Flush(lit))
  {
  }

  lemma LiteralLength(x: Piece)
    requires x.Literal?
    ensures Print(x) == [x.c]
  {
  }

  lemma {:induction false} PiecesWere(p: string, i: nat, lit: string) returns (xs: seq<Piece>)
    requires i <= |p| && ParseFrom(p, i, lit).Ok?
    ensures p[i..] == PrintAll(xs) && Clean(Before(p, i), xs)
    decreases |p| - i
  {
    hide ParseFrom, Fits, Print, Meaning, At;
    xs := [];
    if i < |p| {
      var x := PieceWas(p, i, lit);
      PieceRead(p, i, x, lit);
      AtEnd(p, i, Print(x));
      NameAt(p, i, Print(x));
      if x.Literal? {
        LiteralLength(x);
      }
      var rest := PiecesWere(p, i + |Print(x)|, if x.Literal? then lit + [x.c] else "");
      xs := [x] + rest;
      assert xs[1..] == rest;
      assert p[i..] == p[i..i + |Print(x)|] + p[i + |Print(x)|..];
    }
  }

  // ----- blanks around a name -----

  predicate Blank(t: string) {
    forall i | 0 <= i < |t| :: t[i] as int == 32 || 9 <= t[i] as int <= 13
  }

  predicate IsTrimmed(s: string, a: string, t: string, b: string) {
    s == a + t + b && Blank(a) && Blank(b) && (t != "" ==> !Blank(t[..1]) && !Blank(t[|t| - 1..]))
  }

  lemma BlankBefore(c: char, s: string, a: string, t: string, b: string)
    requires IsBlank(c) && IsTrimmed(s, a, t, b)
    ensures IsTrimmed([c] + s, [c] + a, t, b)
  {
    assert [c] + (a + t + b) == [c] + a + t + b;
  }

  lemma BlankAfter(c: char, s: string, a: string, t: string, b: string)
    requires IsBlank(c) && IsTrimmed(s, a, t, b)
    ensures IsTrimmed(s + [c], a, t, b + [c])
  {
    assert a + t + b + [c] == a + t + (b + [c]);
  }

  lemma NoBlanks(s: string)
    requires s == "" || (!IsBlank(s[0]) && !IsBlank(s[|s| - 1]))
    ensures IsTrimmed(s, "", s, "")
  {
    assert s == "" + s + "";
  }

  /** Trimming takes away the blanks before and behind, and nothing else. */
  lemma {:induction false} TrimIs(s: string) returns (a: string, b: string)
    ensures IsTrimmed(s, a, TrimSpace(s), b)
  {
    hide IsTrimmed;
    a, b := "", "";
    var t := TrimSpace(s);
    if s == "" || (!IsBlank(s[0]) && !IsBlank(s[|s| - 1])) {
      NoBlanks(s);
    } else if IsBlank(s[0]) {
      a, b := TrimIs(s[1..]);
      BlankBefore(s[0], s[1..], a, t, b);
      a := [s[0]] + a;
      assert s == [s[0]] + s[1..];
    } else {
      var m := |s| - 1;
      a, b := TrimIs(s[..m]);
      BlankAfter(s[m], s[..m], a, t, b);
      b := b + [s[m]];
      assert s == s[..m] + [s[m]];
    }
  }

  // ----- main results -----

  /** Parsing the text of a pattern gives what the pattern means. */
  lemma ParsePrint(xs: seq<Piece>)
    requires Clean('/', xs)
    ensures ParseFrom(PrintAll(xs), 0, "") == Ok(Segments(xs, ""))
  {
    hide Clean, ParseFrom, PrintAll;
    var p := PrintAll(xs);
    assert p[0..] == p;
    PiecesRead(p, 0, "", xs);
  }

  /** Parsing succeeds exactly on the texts of patterns. */
  lemma ParsesExactlyPatterns(p: string)
    ensures ParseFrom(p, 0, "").Ok? <==> exists xs :: Clean('/', xs) && PrintAll(xs) == p
  {
    hide Clean, ParseFrom, PrintAll;
    assert p[0..] == p;
    if ParseFrom(p, 0, "").Ok? {
      var xs := PiecesWere(p, 0, "");
      assert Clean('/', xs) && PrintAll(xs) == p;
    }
    forall xs | Clean('/', xs) && PrintAll(xs) == p
      ensures ParseFrom(p, 0, "").Ok?
    {
      ParsePrint(xs);
    }
  }

  /** However a text is cut into pieces, it means one thing. */
  lemma MeaningIsUnique(a: seq<Piece>, b: seq<Piece>)
    requires Clean('/', a) && Clean('/', b) && PrintAll(a) == PrintAll(b)
    ensures Segments(a, "") == Segments(b, "")
  {
    ParsePrint(a);
    ParsePrint(b);
  }
}
