/** Named parameters ${name} in SQL text: bindNamed in pkg/db/builders.go. */
module BindNamed {
  import opened Wrappers
  import opened SqlIdent
  import L = SqlLexer
  import Q

  type Value = Q.Value
  type Params = map<string, Value>

  /** NotInOfExpression: an empty list where NOT IN tests something other than a column. */
  datatype Error = NotClosed | Missing(name: string) | NotInOfExpression(name: string)

  datatype Piece = Ch(c: char) | Par(name: string) | Unclosed

  predicate StartsParam(s: string, i: nat) {
    i + 2 < |s| && s[i] == '$' && s[i + 1] == '{'
  }

  /** The text from i on, cut into characters and parameters. */
  function Pieces(s: string, i: nat): seq<Piece>
    requires i <= |s|
    decreases |s| - i
  {
    if i == |s| then []
    else if StartsParam(s, i) then
      var n := L.Until(s[i + 2..], '}');
      if i + 2 + n == |s| then [Unclosed] else [Par(s[i + 2..i + 2 + n])] + Pieces(s, i + 3 + n)
    else [Ch(s[i])] + Pieces(s, i + 1)
  }

  function Print(ps: seq<Piece>): string
    requires Unclosed !in ps
  {
    if ps == [] then ""
    else (match ps[0] case Ch(c) => [c] case Par(name) => "${" + name + "}") + Print(ps[1..])
  }

  lemma {:induction false} UntilStops(s: string, c: char)
    ensures var n := L.Until(s, c); n < |s| ==> s[n] == c
  {
    if s != "" && s[0] != c {
      UntilStops(s[1..], c);
    }
  }

  /** One step of the cutting: the first piece and the position after it. */
  lemma NextPiece(s: string, i: nat) returns (next: nat)
    requires i < |s| && Pieces(s, i)[0] != Unclosed
    ensures i < next <= |s| && Pieces(s, i) == [Pieces(s, i)[0]] + Pieces(s, next)
    ensures Print([Pieces(s, i)[0]]) == s[i..next]
  {
    if StartsParam(s, i) {
      var n := L.Until(s[i + 2..], '}');
      UntilStops(s[i + 2..], '}');
      next := i + 3 + n;
      assert s[i + 2..][n] == s[i + 2 + n];
      var p := Par(s[i + 2..i + 2 + n]);
      assert [p][1..] == [] && Print([]) == "";
      assert s[i..next] == "${" + p.name + "}" + "";
    } else {
      next := i + 1;
      assert [Ch(s[i])][1..] == [] && Print([]) == "";
      assert s[i..next] == [s[i]] + "";
    }
  }

  lemma PrintCons(p: Piece, ps: seq<Piece>)
    requires p != Unclosed && Unclosed !in ps
    ensures Print([p] + ps) == Print([p]) + Print(ps)
  {
    assert ([p] + ps)[1..] == ps && [p][1..] == [] && Print([]) == "";
    assert Print([p]) + "" == Print([p]);
  }

  /** Cutting loses nothing. */
  lemma {:induction false} PrintPieces(s: string, i: nat)
    requires i <= |s| && Unclosed !in Pieces(s, i)
    ensures Print(Pieces(s, i)) == s[i..]
    decreases |s| - i
  {
    hide Pieces, Print;
    if i < |s| {
      PieceAt(s, i);
      var next := NextPiece(s, i);
      var p := Pieces(s, i)[0];
      assert p in Pieces(s, i) && forall q | q in Pieces(s, next) :: q in Pieces(s, i);
      PrintPieces(s, next);
      PrintCons(p, Pieces(s, next));
      assert s[i..] == s[i..next] + s[next..];
    } else {
      NoPieces(s);
    }
  }

  lemma NoPieces(s: string)
    ensures Pieces(s, |s|) == [] && Print([]) == ""
  {
  }

  /** Pieces whose text can be cut in one way only. */
  predicate Clear(ps: seq<Piece>) {
    ps == []
    || ((match ps[0] case Ch(c) => c != '$' case Par(name) => '}' !in name case Unclosed => false) && Clear(ps[1..]))
  }

  lemma {:induction false} ClearIsClosed(ps: seq<Piece>)
    requires Clear(ps)
    ensures Unclosed !in ps
  {
    if ps != [] {
      ClearIsClosed(ps[1..]);
    }
  }

  lemma ParamAt(s: string, pre: string, name: string, rest: string)
    requires s == pre + ("${" + name + "}") + rest && '}' !in name
    ensures StartsParam(s, |pre|) && |pre| + 2 + |name| < |s|
    ensures L.Until(s[|pre| + 2..], '}') == |name| && s[|pre| + 2..|pre| + 2 + |name|] == name
  {
    hide L.Until;
    var i := |pre|;
    assert s == (pre + "${") + (name + ['}'] + rest);
    assert s[i + 2..] == name + ['}'] + rest;
    L.UntilOf(name, '}', rest);
    assert s[i + 2..][..|name|] == s[i + 2..i + 2 + |name|];
  }

  lemma NextParam(s: string, i: nat, name: string)
    requires StartsParam(s, i) && i + 2 + |name| < |s|
    requires L.Until(s[i + 2..], '}') == |name| && s[i + 2..i + 2 + |name|] == name
    ensures Pieces(s, i) == [Par(name)] + Pieces(s, i + 3 + |name|)
  {
    hide L.Until;
  }

  lemma CharCut(pre: string, c: char, rest: string)
    requires c != '$'
    ensures var s := pre + [c] + rest; Pieces(s, |pre|) == [Ch(c)] + Pieces(s, |pre| + 1)
  {
    hide L.Until;
    var s, i := pre + [c] + rest, |pre|;
    assert s[i] == c;
  }

  lemma OnePrinted(p: Piece)
    requires p != Unclosed
    ensures Print([p]) == match p case Ch(c) => [c] case Par(name) => "${" + name + "}"
  {
    assert [p][1..] == [] && Print([]) == "";
  }

  /** Cutting undoes printing. */
  lemma {:induction false} PiecesOfPrint(pre: string, ps: seq<Piece>)
    requires Clear(ps) && Unclosed !in ps
    ensures Pieces(pre + Print(ps), |pre|) == ps
    decreases ps
  {
    hide Pieces, Print, StartsParam, L.Until;
    if ps == [] {
      NoPieces(pre);
      assert pre + "" == pre;
    } else {
      var first, rest := Print([ps[0]]), Print(ps[1..]);
      assert [ps[0]] + ps[1..] == ps;
      PrintCons(ps[0], ps[1..]);
      OnePrinted(ps[0]);
      assert pre + (first + rest) == pre + first + rest;
      PiecesOfPrint(pre + first, ps[1..]);
      match ps[0] {
        case Ch(c) => CharCut(pre, c, rest);
        case Par(name) =>
          ParamAt(pre + first + rest, pre, name, rest);
          NextParam(pre + first + rest, |pre|, name);
      }
    }
  }

  function Expand(v: Value): seq<Value> {
    if v.List? then v.elems else [v]
  }

  datatype Bound = Bound(text: string, args: seq<Value>)

  // ----- the text before an empty list -----

  /** White space of regular expressions. */
  predicate IsBlank(c: char) {
    c in {'\t', '\n', '\U{0C}', '\r', ' '}
  }

  function Blanks(s: string, i: nat): (e: nat)
    requires i <= |s|
    ensures i <= e <= |s|
    decreases |s| - i
  {
    if i < |s| && IsBlank(s[i]) then Blanks(s, i + 1) else i
  }

  /** Characters of names, in either case: the Kelvin sign and the long s are cases of k and s. */
  predicate StartsWord(c: char) {
    IsNameStart(c) || c in {'\U{212A}', '\U{17F}'}
  }

  predicate IsWordChar(c: char) {
    IsNameChar(c) || c in {'\U{212A}', '\U{17F}'}
  }

  function WordEnd(s: string, i: nat): (e: nat)
    requires i <= |s|
    ensures i <= e <= |s|
    decreases |s| - i
  {
    if i < |s| && IsWordChar(s[i]) then WordEnd(s, i + 1) else i
  }

  /** The end of a plain or quoted name at i. */
  function PartEnd(s: string, i: nat): (e: Option<nat>)
    requires i <= |s|
    ensures e.Some? ==> i < e.value <= |s|
  {
    if i == |s| then None
    else if StartsWord(s[i]) then Some(WordEnd(s, i + 1))
    else if s[i] in {'"', '`', '['} then
      var n := L.Until(s[i + 1..], if s[i] == '[' then ']' else s[i]);
      if n == 0 || i + 1 + n == |s| then None else Some(i + 2 + n)
    else None
  }

  /** The end of names joined by dots. */
  function NameEnd(s: string, i: nat): (e: Option<nat>)
    requires i <= |s|
    ensures e.Some? ==> i < e.value <= |s|
    decreases |s| - i
  {
    match PartEnd(s, i)
    case None => None
    case Some(e) => if e < |s| && s[e] == '.' then NameEnd(s, e + 1) else Some(e)
  }

  predicate IsWord(s: string, i: nat, w: string) {
    i + |w| <= |s| && forall k | 0 <= k < |w| :: Q.ToUpper(s[i + k]) == w[k] && s[i + k] != '\U{131}'
  }

  /** IN ( stands at i, at the end of the text. */
  predicate InAt(s: string, i: nat) {
    IsWord(s, i, "IN")
    && var b := Blanks(s, i + 2);
       b < |s| && s[b] == '(' && Blanks(s, b + 1) == |s|
  }

  predicate NotInAt(s: string, i: nat) {
    IsWord(s, i, "NOT")
    && var b := Blanks(s, i + 3);
       b > i + 3 && InAt(s, b)
  }

  /** A name at a and then IN ( or NOT IN ( at the end of the text: where the name ends, and whether
      NOT is there. */
  function TestAt(s: string, a: nat): (r: Option<(nat, bool)>)
    requires a <= |s|
    ensures r.Some? ==> a < r.value.0 <= |s|
  {
    match NameEnd(s, a)
    case None => None
    case Some(e) =>
      var b := Blanks(s, e);
      if b == e then None
      else if NotInAt(s, b) then Some((e, true))
      else if InAt(s, b) then Some((e, false))
      else None
  }

  /** The first such test from a on: where it starts, where its name ends, and whether NOT is there. */
  function FirstTest(s: string, a: nat): (r: Option<(nat, nat, bool)>)
    requires a <= |s|
    ensures r.Some? ==> a <= r.value.0 < r.value.1 <= |s|
    decreases |s| - a
  {
    if a == |s| then None
    else
      match TestAt(s, a)
      case Some((e, neg)) => Some((a, e, neg))
      case None => FirstTest(s, a + 1)
  }

  const KEYWORDS := {"NOT", "AND", "OR", "WHERE", "ON", "WHEN", "THEN", "ELSE", "HAVING", "SELECT"}

  /** The column test at the end of the text: where it starts, and whether it is NOT IN. */
  function ColumnTest(s: string): (r: Option<(nat, bool)>)
    ensures r.Some? ==> r.value.0 < |s|
  {
    match FirstTest(s, 0)
    case None => None
    case Some((a, e, neg)) => if Q.Upper(s[a..e]) in KEYWORDS then None else Some((a, neg))
  }

  /** NOT IN ( at the end of the text, from i on, as words of its own. */
  predicate EndsInNotIn(s: string, i: nat)
    requires i <= |s|
    decreases |s| - i
  {
    (NotInAt(s, i) && (i == 0 || !IsNameChar(s[i - 1]))) || (i < |s| && EndsInNotIn(s, i + 1))
  }

  /** How many pieces it takes to the end of the bracket that closes the list, if only white space
      stands before it. */
  function CloseAt(ps: seq<Piece>): (r: Option<nat>)
    ensures r.Some? ==> 0 < r.value <= |ps|
  {
    if ps == [] then None
    else if ps[0] == Ch(')') then Some(1)
    else if ps[0].Ch? && Q.IsSpace(ps[0].c) && CloseAt(ps[1..]).Some? then Some(CloseAt(ps[1..]).value + 1)
    else None
  }

  function AfterClose(ps: seq<Piece>): (r: Option<seq<Piece>>)
    ensures r.Some? ==> |r.value| < |ps|
  {
    if CloseAt(ps).Some? then Some(ps[CloseAt(ps).value..]) else None
  }

  function Constant(neg: bool): string {
    if neg then "1=1" else "1=0"
  }

  // ----- binding -----

  /** Text and arguments of the pieces, after what is already written. An empty list makes the test
      of a column a constant, together with the text of the test that is already there. */
  function Render(d: Dialect, ps: seq<Piece>, params: Params, out: string, args: seq<Value>): Result<Bound, Error>
    decreases |ps|, 1
  {
    if ps == [] then Ok(Bound(out, args))
    else
      match ps[0]
      case Unclosed => Err(NotClosed)
      case Ch(c) => Render(d, ps[1..], params, out + [c], args)
      case Par(name) =>
        if name !in params then Err(Missing(name))
        else RenderValue(d, name, ps[1..], params, out, args)
  }

  /** A value, and then the rest. */
  function RenderValue(d: Dialect, name: string, rest: seq<Piece>, params: Params, out: string,
                       args: seq<Value>): Result<Bound, Error>
    requires name in params
    decreases |rest|, 2
  {
    var vs := Expand(params[name]);
    if vs != [] then Render(d, rest, params, out + Join(Q.Placeholders(d, |args|, |vs|), ","), args + vs)
    else
      match (ColumnTest(out), AfterClose(rest))
      case (Some((a, neg)), Some(more)) => Render(d, more, params, out[..a] + Constant(neg), args)
      case _ =>
        if EndsInNotIn(out, 0) then Err(NotInOfExpression(name))
        else Render(d, rest, params, out + "NULL", args)
  }

  lemma ValueRendered(d: Dialect, name: string, rest: seq<Piece>, params: Params, out: string, args: seq<Value>)
    requires name in params
    ensures var vs, r := Expand(params[name]), RenderValue(d, name, rest, params, out, args);
            var test, more := ColumnTest(out), AfterClose(rest);
            if vs != [] then r == Render(d, rest, params, out + Join(Q.Placeholders(d, |args|, |vs|), ","), args + vs)
            else if test.Some? && more.Some? then
              r == Render(d, more.value, params, out[..test.value.0] + Constant(test.value.1), args)
            else if EndsInNotIn(out, 0) then r == Err(NotInOfExpression(name))
            else r == Render(d, rest, params, out + "NULL", args)
  {
  }

  lemma JoinMore(ps: seq<string>, p: string, sep: string)
    requires ps != []
    ensures Join(ps + [p], sep) == Join(ps, sep) + sep + p
  {
    if |ps| > 1 {
      JoinMore(ps[1..], p, sep);
      assert (ps + [p])[1..] == ps[1..] + [p];
      var j := Join(ps[1..], sep);
      assert ps[0] + sep + (j + sep + p) == ps[0] + sep + j + sep + p;
    } else {
      assert (ps + [p])[1..] == [p];
    }
  }

  lemma {:induction false} PlaceholdersMore(d: Dialect, n: nat, count: nat)
    ensures Q.Placeholders(d, n, count + 1) == Q.Placeholders(d, n, count) + [Placeholder(d, n + count + 1)]
  {
  }

  /** One placeholder per element, with commas between them. */
  method BindList(d: Dialect, vals: seq<Value>, n: nat) returns (text: string)
    ensures text == Join(Q.Placeholders(d, n, |vals|), ",")
  {
    hide Placeholder, Join;
    text := "";
    NoneJoined(d, n);
    for k := 0 to |vals|
      invariant text == Join(Q.Placeholders(d, n, k), ",")
    {
      PlaceholdersMore(d, n, k);
      var p := Placeholder(d, n + k + 1);
      if k > 0 {
        JoinMore(Q.Placeholders(d, n, k), p, ",");
        text := text + "," + p;
      } else {
        OneJoined(p);
        assert Q.Placeholders(d, n, 1) == [p];
        text := p;
      }
    }
  }

  lemma NoneJoined(d: Dialect, n: nat)
    ensures Join(Q.Placeholders(d, n, 0), ",") == ""
  {
  }

  lemma OneJoined(p: string)
    ensures Join([p], ",") == p
  {
  }

  predicate AllSpace(s: string) {
    s == "" || (Q.IsSpace(s[0]) && AllSpace(s[1..]))
  }

  /** The closing bracket in the text and among its pieces. */
  lemma {:induction false} CloseIs(s: string, i: nat)
    requires i <= |s|
    ensures var n := L.Until(s[i..], ')');
            AfterClose(Pieces(s, i))
            == if i + n < |s| && AllSpace(s[i..i + n]) then Some(Pieces(s, i + n + 1)) else None
    decreases |s| - i
  {
    hide Pieces, AfterClose, AllSpace;
    if i < |s| && s[i] != ')' {
      CloseIs(s, i + 1);
      assert s[i..][1..] == s[i + 1..];
      var n := L.Until(s[i + 1..], ')');
      AllSpaceCons(s, i, i + 1 + n);
      NoClose(s, i);
    } else {
      CloseHere(s, i);
    }
  }

  lemma AllSpaceCons(s: string, i: nat, e: nat)
    requires i < e <= |s|
    ensures AllSpace(s[i..e]) <==> Q.IsSpace(s[i]) && AllSpace(s[i + 1..e])
  {
    assert s[i..e][1..] == s[i + 1..e];
  }

  lemma NoClose(s: string, i: nat)
    requires i < |s| && s[i] != ')'
    ensures AfterClose(Pieces(s, i)) == if Q.IsSpace(s[i]) then AfterClose(Pieces(s, i + 1)) else None
  {
    hide AfterClose, L.Until, Q.IsSpace;
    PieceAt(s, i);
    AfterFirst(Pieces(s, i));
    DollarIsNoSpace();
  }

  lemma PieceAt(s: string, i: nat)
    requires i < |s|
    ensures var ps := Pieces(s, i);
            ps != [] && if StartsParam(s, i) then !ps[0].Ch? else ps[0] == Ch(s[i]) && ps[1..] == Pieces(s, i + 1)
  {
    hide L.Until;
  }

  lemma DollarIsNoSpace()
    ensures !Q.IsSpace('$')
  {
  }

  lemma AfterFirst(ps: seq<Piece>)
    requires ps != []
    ensures AfterClose(ps) == if ps[0] == Ch(')') then Some(ps[1..])
                              else if ps[0].Ch? && Q.IsSpace(ps[0].c) then AfterClose(ps[1..]) else None
  {
    hide Q.IsSpace;
    if CloseAt(ps).Some? {
      assert ps[CloseAt(ps).value..] == ps[1..][CloseAt(ps).value - 1..];
    }
  }

  lemma CloseHere(s: string, i: nat)
    requires i <= |s| && (i < |s| ==> s[i] == ')')
    ensures AllSpace(s[i..i]) && AfterClose(Pieces(s, i)) == if i < |s| then Some(Pieces(s, i + 1)) else None
  {
    hide AfterClose, L.Until;
    if i < |s| {
      PieceAt(s, i);
      AfterFirst(Pieces(s, i));
    } else {
      assert AfterClose([]) == None by { NothingCloses(); }
    }
  }

  lemma NothingCloses()
    ensures AfterClose([]) == None
  {
  }

  /** What rendering makes of the piece at i. */
  lemma RenderAt(d: Dialect, s: string, i: nat, params: Params, out: string, args: seq<Value>)
    requires i < |s|
    ensures var r := Render(d, Pieces(s, i), params, out, args);
            if StartsParam(s, i) then
              var k := L.Until(s[i + 2..], '}');
              if i + 2 + k == |s| then r == Err(NotClosed)
              else
                var name := s[i + 2..i + 2 + k];
                if name !in params then r == Err(Missing(name))
                else r == RenderValue(d, name, Pieces(s, i + 3 + k), params, out, args)
            else r == Render(d, Pieces(s, i + 1), params, out + [s[i]], args)
  {
    hide L.Until, Join, Q.Placeholders, Expand, ColumnTest, EndsInNotIn, AfterClose;
    var ps := Pieces(s, i);
    if StartsParam(s, i) {
      var k := L.Until(s[i + 2..], '}');
      assert i + 2 + k < |s| ==> ps[0] == Par(s[i + 2..i + 2 + k]) && ps[1..] == Pieces(s, i + 3 + k);
    } else {
      assert ps[0] == Ch(s[i]) && ps[1..] == Pieces(s, i + 1);
    }
  }

  method Bind(d: Dialect, s: string, params: Params) returns (r: Result<Bound, Error>)
    ensures r == Render(d, Pieces(s, 0), params, "", [])
  {
    hide Expand, Render, Pieces, L.Until, Join, Q.Placeholders, ColumnTest, EndsInNotIn, AllSpace, AfterClose;
    hide RenderValue;
    var out, args: seq<Value>, i := "", [], 0;
    while i < |s|
      invariant i <= |s|
      invariant Render(d, Pieces(s, i), params, out, args) == Render(d, Pieces(s, 0), params, "", [])
      decreases |s| - i
    {
      RenderAt(d, s, i, params, out, args);
      if !StartsParam(s, i) {
        out, i := out + [s[i]], i + 1;
        continue;
      }
      var n := L.Until(s[i + 2..], '}');
      if i + 2 + n == |s| {
        return Err(NotClosed);
      }
      var name := s[i + 2..i + 2 + n];
      if name !in params {
        return Err(Missing(name));
      }
      i := i + 3 + n;
      ghost var rest := Pieces(s, i);
      var vs := Expand(params[name]);
      ValueRendered(d, name, rest, params, out, args);
      if vs != [] {
        var text := BindList(d, vs, |args|);
        out, args := out + text, args + vs;
        continue;
      }
      var close := L.Until(s[i..], ')');
      CloseIs(s, i);
      var test := ColumnTest(out);
      if test.Some? && i + close < |s| && AllSpace(s[i..i + close]) {
        out := out[..test.value.0] + Constant(test.value.1);
        i := i + close + 1;
      } else if EndsInNotIn(out, 0) {
        return Err(NotInOfExpression(name));
      } else {
        out := out + "NULL";
      }
    }
    NothingRendered(d, s, params, out, args);
    r := Ok(Bound(out, args));
  }

  lemma NothingRendered(d: Dialect, s: string, params: Params, out: string, args: seq<Value>)
    ensures Render(d, Pieces(s, |s|), params, out, args) == Ok(Bound(out, args))
  {
  }

  // ----- errors -----

  /** What is wrong with a piece after the text that is already written. */
  function Fault(p: Piece, rest: seq<Piece>, params: Params, out: string): Option<Error> {
    match p
    case Ch(_) => None
    case Unclosed => Some(NotClosed)
    case Par(name) =>
      if name !in params then Some(Missing(name))
      else if Expand(params[name]) == [] && (ColumnTest(out).None? || CloseAt(rest).None?) && EndsInNotIn(out, 0) then
        Some(NotInOfExpression(name))
      else None
  }

  /** Rendering comes to the piece at i, and that piece is wrong. */
  predicate FailsAt(d: Dialect, ps: seq<Piece>, params: Params, out: string, args: seq<Value>, i: nat, e: Error) {
    i < |ps|
    && var r := Render(d, ps[..i], params, out, args);
       r.Ok? && Fault(ps[i], ps[i + 1..], params, r.value.text) == Some(e)
  }

  /** How many pieces the first step of rendering takes, and what is written after it. */
  function Step(d: Dialect, ps: seq<Piece>, params: Params, out: string,
                args: seq<Value>): (r: (nat, string, seq<Value>))
    requires ps != [] && Fault(ps[0], ps[1..], params, out) == None
    ensures 0 < r.0 <= |ps|
  {
    if ps[0].Ch? then (1, out + [ps[0].c], args)
    else
      var vs, test, close := Expand(params[ps[0].name]), ColumnTest(out), CloseAt(ps[1..]);
      if vs != [] then (1, out + Join(Q.Placeholders(d, |args|, |vs|), ","), args + vs)
      else if test.Some? && close.Some? then (1 + close.value, out[..test.value.0] + Constant(test.value.1), args)
      else (1, out + "NULL", args)
  }

  lemma StepTaken(d: Dialect, ps: seq<Piece>, params: Params, out: string, args: seq<Value>)
    requires ps != []
    ensures var r := Render(d, ps, params, out, args);
            match Fault(ps[0], ps[1..], params, out)
            case Some(e) => r == Err(e)
            case None => var (k, out', args') := Step(d, ps, params, out, args);
                         r == Render(d, ps[k..], params, out', args')
  {
    hide Expand, ColumnTest, EndsInNotIn, Join, Q.Placeholders, CloseAt;
    if ps[0].Par? && CloseAt(ps[1..]).Some? {
      assert ps[1..][CloseAt(ps[1..]).value..] == ps[1 + CloseAt(ps[1..]).value..];
    }
  }

  lemma {:induction false} CloseOfPrefix(ps: seq<Piece>, m: nat)
    requires m <= |ps|
    ensures CloseAt(ps[..m]) == if CloseAt(ps).Some? && CloseAt(ps).value <= m then CloseAt(ps) else None
    ensures CloseAt(ps).Some? ==> forall j | 0 <= j < CloseAt(ps).value :: ps[j].Ch?
  {
    if ps != [] && m > 0 {
      assert ps[..m][1..] == ps[1..][..m - 1];
      CloseOfPrefix(ps[1..], m - 1);
      assert forall j | 0 < j < |ps| :: ps[j] == ps[1..][j - 1];
    } else if ps != [] {
      CloseOfPrefix(ps[1..], 0);
      assert forall j | 0 < j < |ps| :: ps[j] == ps[1..][j - 1];
    }
  }

  /** The first step does not look beyond the pieces it takes; all but the first of them are characters. */
  lemma StepOfPrefix(d: Dialect, ps: seq<Piece>, params: Params, out: string, args: seq<Value>, m: nat)
    requires 0 < m <= |ps| && Fault(ps[..m][0], ps[..m][1..], params, out) == None
    ensures Fault(ps[0], ps[1..], params, out) == None
    ensures var k := Step(d, ps, params, out, args).0;
            if m < k then ps[m].Ch?
            else
              Step(d, ps[..m], params, out, args) == Step(d, ps, params, out, args)
              && ps[..m][k..] == ps[k..][..m - k]
  {
    hide Expand, ColumnTest, EndsInNotIn, Join, Q.Placeholders, CloseAt, Render;
    CloseOfPrefix(ps[1..], m - 1);
    assert ps[..m][1..] == ps[1..][..m - 1];
    assert m < |ps| ==> ps[m] == ps[1..][m - 1];
  }

  lemma FaultOfPrefix(d: Dialect, ps: seq<Piece>, params: Params, out: string, args: seq<Value>, m: nat)
    requires ps != [] && Fault(ps[0], ps[1..], params, out) == None && Step(d, ps, params, out, args).0 <= m <= |ps|
    ensures Fault(ps[..m][0], ps[..m][1..], params, out) == None
  {
    hide Expand, ColumnTest, EndsInNotIn, Join, Q.Placeholders, CloseAt, Render;
    CloseOfPrefix(ps[1..], m - 1);
    assert ps[..m][1..] == ps[1..][..m - 1];
  }

  lemma NothingYet(d: Dialect, ps: seq<Piece>, params: Params, out: string, args: seq<Value>)
    ensures Render(d, ps[..0], params, out, args) == Ok(Bound(out, args))
  {
  }

  lemma {:induction false} FailsSomewhere(d: Dialect, ps: seq<Piece>, params: Params, out: string, args: seq<Value>)
    returns (i: nat)
    requires Render(d, ps, params, out, args).Err?
    ensures FailsAt(d, ps, params, out, args, i, Render(d, ps, params, out, args).error)
    decreases |ps|
  {
    hide Fault, Render, Step;
    assert ps != [] by { NothingYet(d, ps, params, out, args); assert ps[..0] == []; }
    StepTaken(d, ps, params, out, args);
    i := 0;
    NothingYet(d, ps, params, out, args);
    if Fault(ps[0], ps[1..], params, out) == None {
      var (k, out', args') := Step(d, ps, params, out, args);
      var j := FailsSomewhere(d, ps[k..], params, out', args');
      i := k + j;
      FaultOfPrefix(d, ps, params, out, args, i);
      StepTaken(d, ps[..i], params, out, args);
      StepOfPrefix(d, ps, params, out, args, i);
    }
  }

  lemma {:induction false} FailureIsResult(d: Dialect, ps: seq<Piece>, params: Params, out: string, args: seq<Value>,
                                           i: nat, e: Error)
    requires FailsAt(d, ps, params, out, args, i, e)
    ensures Render(d, ps, params, out, args) == Err(e)
    decreases |ps|
  {
    hide Fault, Render, Step;
    StepTaken(d, ps, params, out, args);
    if i == 0 {
      NothingYet(d, ps, params, out, args);
    } else {
      StepTaken(d, ps[..i], params, out, args);
      StepOfPrefix(d, ps, params, out, args, i);
      var (k, out', args') := Step(d, ps, params, out, args);
      CharIsNoFault(ps[i], ps[i + 1..], params, Render(d, ps[..i], params, out, args).value.text);
      FailureIsResult(d, ps[k..], params, out', args', i - k, e);
    }
  }

  lemma CharIsNoFault(p: Piece, rest: seq<Piece>, params: Params, out: string)
    ensures p.Ch? ==> Fault(p, rest, params, out) == None
  {
  }

  /** Binding fails exactly on the first piece that is wrong: a parameter that is not closed, one that
      is not given, or an empty list in a NOT IN that does not test a column. */
  lemma FailsExactly(d: Dialect, s: string, params: Params, e: Error)
    ensures Render(d, Pieces(s, 0), params, "", []) == Err(e)
       <==> exists i :: FailsAt(d, Pieces(s, 0), params, "", [], i, e)
  {
    hide Render, Pieces, FailsAt;
    var ps := Pieces(s, 0);
    if Render(d, ps, params, "", []) == Err(e) {
      var i := FailsSomewhere(d, ps, params, "", []);
    }
    forall i | FailsAt(d, ps, params, "", [], i, e)
      ensures Render(d, ps, params, "", []) == Err(e)
    {
      FailureIsResult(d, ps, params, "", [], i, e);
    }
  }
}
