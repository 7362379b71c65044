/** Named routes and reverse URLs: pkg/router/router.go. Strings stand for byte strings: every
    character is below 256. */
module Router {
  import opened Wrappers
  import opened SqlIdent

  datatype Kind = Named | Optional | Wildcard | Printf

  datatype Segment = Lit(text: string) | Param(name: string, kind: Kind, greedy: bool)

  datatype Error = RouteNotFound | InvalidPattern | InvalidParams

  predicate Required(s: Segment) {
    s.Param? && (s.kind == Named || s.kind == Printf)
  }

  // ----- parsePattern -----

  predicate IsBlank(c: char) {
    c == ' ' || '\t' <= c <= '\r'
  }

  function TrimSpace(s: string): string {
    if s == "" then ""
    else if IsBlank(s[0]) then TrimSpace(s[1..])
    else if IsBlank(s[|s| - 1]) then TrimSpace(s[..|s| - 1])
    else s
  }

  /** The scan for the brace that closes a parameter: where it stops, at which depth, and where the
      colon of the outermost level is. */
  function Scan(p: string, j: nat, depth: nat, colon: Option<nat>): (r: (nat, nat, Option<nat>))
    requires colon.Some? ==> colon.value < j
    ensures r.0 >= j && (depth > 0 && r.1 == 0 ==> j < r.0 <= |p|)
    ensures r.2.Some? ==> colon == r.2 || j <= r.2.value < r.0
    ensures depth > 0 && r.1 == 0 ==> (r.2.Some? ==> r.2.value < r.0 - 1)
    decreases |p| - j
  {
    if j >= |p| || depth == 0 then (j, depth, colon)
    else
      match p[j]
      case '\\' => Scan(p, j + 2, depth, colon)
      case '{' => Scan(p, j + 1, depth + 1, colon)
      case '}' => Scan(p, j + 1, depth - 1, colon)
      case ':' => Scan(p, j + 1, depth, if depth == 1 && colon.None? then Some(j) else colon)
      case _ => Scan(p, j + 1, depth, colon)
  }

  function NameEnd(p: string, j: nat): (e: nat)
    requires j <= |p|
    ensures j <= e <= |p|
    decreases |p| - j
  {
    if j < |p| && IsNameChar(p[j]) then NameEnd(p, j + 1) else j
  }

  function Flush(lit: string): seq<Segment> {
    if lit == "" then [] else [Lit(lit)]
  }

  function Prepend(segs: seq<Segment>, r: Result<seq<Segment>, Error>): Result<seq<Segment>, Error> {
    match r
    case Ok(rest) => Ok(segs + rest)
    case Err(e) => Err(e)
  }

  predicate StartsColonParam(p: string, i: nat)
    requires i < |p|
  {
    p[i] == ':' && i + 1 < |p| && IsNameChar(p[i + 1]) && (i == 0 || p[i - 1] in {'/', '-', '.'})
  }

  predicate StartsJoker(p: string, i: nat)
    requires i < |p|
  {
    (p[i] == '*' || p[i] == '+') && (i == 0 || p[i - 1] == '/')
  }

  /** The parameter of a brace at i, and where the pattern goes on. */
  function BraceParam(p: string, i: nat): (r: Option<(Segment, nat)>)
    requires i < |p|
    ensures r.Some? ==> i < r.value.1 <= |p|
  {
    var (j, depth, colon) := Scan(p, i + 1, 1, None);
    if depth != 0 then None
    else
      var nameEnd := if colon.Some? then colon.value else j - 1;
      var name := TrimSpace(p[i + 1..nameEnd]);
      if name == "" then None else Some((Param(name, Named, false), j))
  }

  function ColonParam(p: string, i: nat): (r: (Segment, nat))
    requires i < |p| && StartsColonParam(p, i)
    ensures i < r.1 <= |p|
  {
    var j := NameEnd(p, i + 1);
    var name := p[i + 1..j];
    if j < |p| && p[j] == '?' then (Param(name, Optional, false), j + 1)
    else if j < |p| && p[j] == '+' then (Param(name, Named, true), j + 1)
    else if j < |p| && p[j] == '*' then (Param(name, Wildcard, true), j + 1)
    else (Param(name, Named, false), j)
  }

  function JokerParam(c: char): Segment {
    Param([c], if c == '+' then Named else Wildcard, true)
  }

  /** The segments of the pattern from i on, after the literal text lit. */
  function ParseFrom(p: string, i: nat, lit: string): Result<seq<Segment>, Error>
    requires i <= |p|
    decreases |p| - i
  {
    if i == |p| then Ok(Flush(lit))
    else if p[i] == '{' then
      match BraceParam(p, i)
      case None => Err(InvalidPattern)
      case Some((seg, next)) => Prepend(Flush(lit) + [seg], ParseFrom(p, next, ""))
    else if StartsColonParam(p, i) then
      var (seg, next) := ColonParam(p, i);
      Prepend(Flush(lit) + [seg], ParseFrom(p, next, ""))
    else if StartsJoker(p, i) then
      Prepend(Flush(lit) + [JokerParam(p[i])], ParseFrom(p, i + 1, ""))
    else ParseFrom(p, i + 1, lit + [p[i]])
  }

  method ParsePattern(p: string) returns (r: Result<seq<Segment>, Error>)
    ensures r == ParseFrom(p, 0, "")
  {
    var segs: seq<Segment>, lit, i := [], "", 0;
    assert Prepend([], ParseFrom(p, 0, "")) == ParseFrom(p, 0, "") by {
      if ParseFrom(p, 0, "").Ok? {
        assert [] + ParseFrom(p, 0, "").value == ParseFrom(p, 0, "").value;
      }
    }
    while i < |p|
      invariant i <= |p|
      invariant Prepend(segs, ParseFrom(p, i, lit)) == ParseFrom(p, 0, "")
    {
      if p[i] != '{' && !StartsColonParam(p, i) && !StartsJoker(p, i) {
        lit := lit + [p[i]];
        i := i + 1;
        continue;
      }
      var seg, next := JokerParam(p[i]), i + 1;
      if p[i] == '{' {
        var b := BraceParam(p, i);
        if b.None? {
          return Err(InvalidPattern);
        }
        seg, next := b.value.0, b.value.1;
      } else if StartsColonParam(p, i) {
        var c := ColonParam(p, i);
        seg, next := c.0, c.1;
      }
      PrependTwice(segs, Flush(lit) + [seg], ParseFrom(p, next, ""));
      assert segs + (Flush(lit) + [seg]) == segs + Flush(lit) + [seg];
      segs := segs + Flush(lit) + [seg];
      lit, i := "", next;
    }
    r := Ok(segs + Flush(lit));
  }

  lemma PrependTwice(a: seq<Segment>, b: seq<Segment>, r: Result<seq<Segment>, Error>)
    ensures Prepend(a, Prepend(b, r)) == Prepend(a + b, r)
  {
    if r.Ok? {
      assert a + (b + r.value) == a + b + r.value;
    }
  }

  // ----- parsePrintf -----

  predicate IsVerb(c: char) {
    c == 's' || c == 'd' || c == 'v'
  }

  function PrintfFrom(p: string, i: nat, lit: string, n: nat): seq<Segment>
    requires i <= |p|
    decreases |p| - i
  {
    if i == |p| then Flush(lit)
    else if p[i] == '%' && i + 1 < |p| && IsVerb(p[i + 1]) then
      Flush(lit) + [Param(Itoa(n), Printf, false)] + PrintfFrom(p, i + 2, "", n + 1)
    else if p[i] == '%' && i + 1 < |p| && p[i + 1] == '%' then PrintfFrom(p, i + 2, lit + "%", n)
    else PrintfFrom(p, i + 1, lit + [p[i]], n)
  }

  method ParsePrintf(p: string) returns (segs: seq<Segment>)
    ensures segs == PrintfFrom(p, 0, "", 0)
  {
    var lit, n, i := "", 0, 0;
    segs := [];
    assert [] + PrintfFrom(p, 0, "", 0) == PrintfFrom(p, 0, "", 0);
    while i < |p|
      invariant i <= |p|
      invariant segs + PrintfFrom(p, i, lit, n) == PrintfFrom(p, 0, "", 0)
    {
      if p[i] == '%' && i + 1 < |p| && IsVerb(p[i + 1]) {
        ghost var rest := PrintfFrom(p, i + 2, "", n + 1);
        var param := Param(Itoa(n), Printf, false);
        assert segs + (Flush(lit) + [param] + rest) == (segs + Flush(lit) + [param]) + rest;
        segs := segs + Flush(lit) + [param];
        lit, n, i := "", n + 1, i + 2;
      } else if p[i] == '%' && i + 1 < |p| && p[i + 1] == '%' {
        lit, i := lit + "%", i + 2;
      } else {
        lit, i := lit + [p[i]], i + 1;
      }
    }
    segs := segs + Flush(lit);
  }

  // ----- escaping -----

  predicate IsBytes(s: string) {
    forall i | 0 <= i < |s| :: s[i] as int < 256
  }

  /** What url.PathEscape leaves alone: the unreserved characters of section 2.3 of RFC 3986 and
      those reserved ones that have no meaning inside a segment. */
  predicate IsSafe(c: char) {
    'a' <= c <= 'z' || 'A' <= c <= 'Z' || '0' <= c <= '9'
    || c == '-' || c == '_' || c == '.' || c == '~'
    || c == '$' || c == '&' || c == '+' || c == ':' || c == '=' || c == '@'
  }

  function HexDigit(k: nat): (c: char)
    requires k < 16
    ensures '0' <= c <= '9' || 'A' <= c <= 'F'
  {
    if k < 10 then '0' + k as char else 'A' + (k - 10) as char
  }

  function HexValue(c: char): Option<nat> {
    if '0' <= c <= '9' then Some(c as int - '0' as int)
    else if 'A' <= c <= 'F' then Some(c as int - 'A' as int + 10)
    else if 'a' <= c <= 'f' then Some(c as int - 'a' as int + 10)
    else None
  }

  function EscapeChar(c: char): string
    requires c as int < 256
  {
    if IsSafe(c) then [c] else ['%', HexDigit(c as int / 16), HexDigit(c as int % 16)]
  }

  /** url.PathEscape */
  function PathEscape(s: string): string
    requires IsBytes(s)
  {
    if s == "" then "" else EscapeChar(s[0]) + PathEscape(s[1..])
  }

  lemma {:induction false} SplitBytes(s: string)
    requires IsBytes(s)
    ensures forall i | 0 <= i < |Split(s, '/')| :: IsBytes(Split(s, '/')[i])
  {
    if s != "" {
      SplitBytes(s[1..]);
    }
  }

  function EscapeAll(parts: seq<string>): (r: seq<string>)
    requires forall i | 0 <= i < |parts| :: IsBytes(parts[i])
    ensures |r| == |parts|
  {
    seq(|parts|, i requires 0 <= i < |parts| => PathEscape(parts[i]))
  }

  /** escapePathKeepSlash */
  function EscapeKeepSlash(s: string): string
    requires IsBytes(s)
  {
    SplitBytes(s);
    Join(EscapeAll(Split(s, '/')), "/")
  }

  // ----- filling in parameters -----

  datatype Params = Positional(vals: seq<string>) | ByName(m: map<string, string>)

  function CountParams(segs: seq<Segment>): nat {
    if segs == [] then 0 else (if segs[0].Param? then 1 else 0) + CountParams(segs[1..])
  }

  function CountRequired(segs: seq<Segment>): (n: nat)
    ensures n <= CountParams(segs)
  {
    if segs == [] then 0 else (if Required(segs[0]) then 1 else 0) + CountRequired(segs[1..])
  }

  function CountUsed(segs: seq<Segment>, m: map<string, string>): nat {
    if segs == [] then 0 else (if segs[0].Param? && segs[0].name in m then 1 else 0) + CountUsed(segs[1..], m)
  }

  /** The values of named parameters, aligned with the segments. */
  function NamedValues(segs: seq<Segment>, m: map<string, string>): (r: seq<Option<string>>)
    ensures |r| == |segs|
  {
    seq(|segs|, i requires 0 <= i < |segs| =>
      if segs[i].Param? && segs[i].name in m then Some(m[segs[i].name]) else None)
  }

  function FillNamed(segs: seq<Segment>, m: map<string, string>): Result<seq<Option<string>>, Error> {
    if exists i | 0 <= i < |segs| :: Required(segs[i]) && segs[i].name !in m then Err(InvalidParams)
    else if CountUsed(segs, m) != |m| then Err(InvalidParams)
    else Ok(NamedValues(segs, m))
  }

  /** Required parameters always take a value; optional ones from the left while any are spare. */
  function PositionalValues(segs: seq<Segment>, vals: seq<string>, spare: nat): (r: seq<Option<string>>)
    ensures |r| == |segs|
    decreases segs
  {
    if segs == [] then []
    else if !segs[0].Param? || vals == [] || (!Required(segs[0]) && spare == 0) then
      [None] + PositionalValues(segs[1..], vals, spare)
    else
      [Some(vals[0])] + PositionalValues(segs[1..], vals[1..], if Required(segs[0]) then spare else spare - 1)
  }

  function FillPositional(segs: seq<Segment>, vals: seq<string>): Result<seq<Option<string>>, Error> {
    var required := CountRequired(segs);
    if |vals| < required || |vals| > CountParams(segs) then Err(InvalidParams)
    else Ok(PositionalValues(segs, vals, |vals| - required))
  }

  function Fill(segs: seq<Segment>, params: Params): Result<seq<Option<string>>, Error> {
    match params
    case Positional(vals) => FillPositional(segs, vals)
    case ByName(m) => FillNamed(segs, m)
  }

  predicate AllBytes(values: seq<Option<string>>) {
    forall i | 0 <= i < |values| && values[i].Some? :: IsBytes(values[i].value)
  }

  /** A dropped optional parameter takes the slash before it along, unless more of that segment follows. */
  function DropSlash(out: string, rest: seq<Segment>): string {
    if out != "" && out[|out| - 1] == '/'
       && (rest == [] || (rest[0].Lit? && rest[0].text != "" && rest[0].text[0] == '/'))
    then out[..|out| - 1] else out
  }

  function BuildFrom(segs: seq<Segment>, values: seq<Option<string>>, out: string): Result<string, Error>
    requires |values| == |segs| && AllBytes(values)
    decreases segs
  {
    if segs == [] then Ok(out)
    else
      var s, v, rest, values' := segs[0], values[0], segs[1..], values[1..];
      if s.Lit? then BuildFrom(rest, values', out + s.text)
      else if v.None? || (s.kind == Optional && v.value == "") then
        BuildFrom(rest, values', if s.kind == Optional then DropSlash(out, rest) else out)
      else if s.kind == Named && v.value == "" then Err(InvalidParams)
      else BuildFrom(rest, values', out + if s.greedy then EscapeKeepSlash(v.value) else PathEscape(v.value))
  }

  predicate ParamBytes(params: Params) {
    match params
    case Positional(vals) => forall v | v in vals :: IsBytes(v)
    case ByName(m) => forall k | k in m :: IsBytes(m[k])
  }

  lemma {:induction false} PositionalBytes(segs: seq<Segment>, vals: seq<string>, spare: nat)
    requires forall v | v in vals :: IsBytes(v)
    ensures AllBytes(PositionalValues(segs, vals, spare))
    decreases segs
  {
    if segs != [] {
      if !segs[0].Param? || vals == [] || (!Required(segs[0]) && spare == 0) {
        PositionalBytes(segs[1..], vals, spare);
      } else {
        PositionalBytes(segs[1..], vals[1..], if Required(segs[0]) then spare else spare - 1);
      }
    }
  }

  lemma FillBytes(segs: seq<Segment>, params: Params)
    requires ParamBytes(params)
    ensures var r := Fill(segs, params); r.Ok? ==> |r.value| == |segs| && AllBytes(r.value)
  {
    match params
    case Positional(vals) =>
      if |vals| >= CountRequired(segs) {
        PositionalBytes(segs, vals, |vals| - CountRequired(segs));
      }
    case ByName(_) =>
  }

  predicate NoParams(params: Params) {
    match params
    case Positional(vals) => vals == []
    case ByName(m) => m == map[]
  }

  /** The segments that are filled: a printf pattern counts only when it has no other parameters
      and positional values are given. */
  function Segments(pattern: string, params: Params): Result<seq<Segment>, Error> {
    match ParseFrom(pattern, 0, "")
    case Err(e) => Err(e)
    case Ok(segs) =>
      if CountParams(segs) == 0 && params.Positional? && params.vals != []
         && CountParams(PrintfFrom(pattern, 0, "", 0)) > 0
      then Ok(PrintfFrom(pattern, 0, "", 0))
      else Ok(segs)
  }

  function Reverse(pattern: string, params: Params): Result<string, Error>
    requires ParamBytes(params)
  {
    match Segments(pattern, params)
    case Err(e) => Err(e)
    case Ok(segs) =>
      if CountParams(segs) == 0 then
        if NoParams(params) then Ok(pattern) else Err(InvalidParams)
      else
        match Fill(segs, params)
        case Err(e) => Err(e)
        case Ok(values) =>
          FillBytes(segs, params);
          match BuildFrom(segs, values, "")
          case Err(e) => Err(e)
          case Ok(out) => Ok(if out == "" then "/" else out)
  }

  // ----- the program -----

  method BuildUrl(segs: seq<Segment>, values: seq<Option<string>>) returns (r: Result<string, Error>)
    requires |values| == |segs| && AllBytes(values)
    ensures r == BuildFrom(segs, values, "")
  {
    var b := "";
    for i := 0 to |segs|
      invariant BuildFrom(segs[i..], values[i..], b) == BuildFrom(segs, values, "")
    {
      assert segs[i..][1..] == segs[i + 1..] && values[i..][1..] == values[i + 1..];
      var s, v := segs[i], values[i];
      if s.Lit? {
        b := b + s.text;
        continue;
      }
      if v.None? || (s.kind == Optional && v.value == "") {
        if s.kind == Optional {
          b := DropSlash(b, segs[i + 1..]);
        }
        continue;
      }
      if s.kind == Named && v.value == "" {
        return Err(InvalidParams);
      }
      b := b + (if s.greedy then EscapeKeepSlash(v.value) else PathEscape(v.value));
    }
    r := Ok(b);
  }

  /** Fill by name: loop over the segments, counting the keys that are used. */
  method FillByName(segs: seq<Segment>, m: map<string, string>) returns (r: Result<seq<Option<string>>, Error>)
    ensures r == FillNamed(segs, m)
  {
    var values: seq<Option<string>>, used := [], 0;
    for i := 0 to |segs|
      invariant values == NamedValues(segs[..i], m)
      invariant used + CountUsed(segs[i..], m) == CountUsed(segs, m)
      invariant forall j | 0 <= j < i :: Required(segs[j]) ==> segs[j].name in m
    {
      assert segs[i..][0] == segs[i] && segs[i..][1..] == segs[i + 1..];
      var s := segs[i];
      if s.Param? && s.name in m {
        values := values + [Some(m[s.name])];
        used := used + 1;
      } else if Required(s) {
        return Err(InvalidParams);
      } else {
        values := values + [None];
      }
    }
    assert segs[..|segs|] == segs;
    r := if used != |m| then Err(InvalidParams) else Ok(values);
  }

  /** Whether a segment takes one of the remaining arguments. */
  predicate Takes(s: Segment, spare: nat) {
    s.Param? && (Required(s) || spare > 0)
  }

  lemma PositionalStep(segs: seq<Segment>, i: nat, vals: seq<string>, k: nat, spare: nat)
    requires i < |segs| && k <= |vals|
    requires |vals| - k == spare + CountRequired(segs[i..])
    ensures var s := segs[i];
            if Takes(s, spare) then
              k < |vals| && var spare' := if Required(s) then spare else spare - 1;
              PositionalValues(segs[i..], vals[k..], spare)
                == [Some(vals[k])] + PositionalValues(segs[i + 1..], vals[k + 1..], spare')
              && |vals| - k - 1 == spare' + CountRequired(segs[i + 1..])
            else
              PositionalValues(segs[i..], vals[k..], spare)
                == [None] + PositionalValues(segs[i + 1..], vals[k..], spare)
              && |vals| - k == spare + CountRequired(segs[i + 1..])
  {
    assert segs[i..][0] == segs[i] && segs[i..][1..] == segs[i + 1..];
    if k < |vals| {
      assert vals[k..][1..] == vals[k + 1..];
    }
  }

  lemma Associates<T>(a: seq<T>, x: T, b: seq<T>)
    ensures a + ([x] + b) == a + [x] + b
  {
  }

  /** Fill by position: k arguments are used up, spare ones are left for optional parameters. */
  method FillByPosition(segs: seq<Segment>, vals: seq<string>) returns (r: Result<seq<Option<string>>, Error>)
    ensures r == FillPositional(segs, vals)
  {
    hide PositionalValues, CountRequired, CountParams;
    var required, params := CountRequired(segs), CountParams(segs);
    if |vals| < required || |vals| > params {
      return Err(InvalidParams);
    }
    var spare: nat := |vals| - required;
    var values: seq<Option<string>>, k := [], 0;
    ghost var all := PositionalValues(segs, vals, spare);
    assert segs[0..] == segs && vals[0..] == vals;
    assert values + all == all;
    for i := 0 to |segs|
      invariant k <= |vals|
      invariant values + PositionalValues(segs[i..], vals[k..], spare) == all
      invariant |vals| - k == spare + CountRequired(segs[i..])
    {
      PositionalStep(segs, i, vals, k, spare);
      var s := segs[i];
      var v: Option<string> := None;
      if s.Param? && (Required(s) || spare > 0) {
        if !Required(s) {
          spare := spare - 1;
        }
        v := Some(vals[k]);
        k := k + 1;
      }
      Associates(values, v, PositionalValues(segs[i + 1..], vals[k..], spare));
      values := values + [v];
    }
    assert PositionalValues(segs[|segs|..], vals[k..], spare) == [];
    assert values + [] == values;
    r := Ok(values);
  }

  class Registry {
    var templates: map<string, string>

    constructor ()
      ensures templates == map[]
    {
      templates := map[];
    }

    method RegisterRoute(name: string, pattern: string)
      modifies this
      ensures templates == old(templates)[name := pattern]
    {
      templates := templates[name := pattern];
    }

    method UnregisterRoute(name: string)
      modifies this
      ensures templates == old(templates) - {name}
    {
      templates := templates - {name};
    }

    method ReverseURL(name: string, params: Params) returns (r: Result<string, Error>)
      requires ParamBytes(params)
      ensures r == if name in templates then Reverse(templates[name], params) else Err(RouteNotFound)
    {
      if name !in templates {
        return Err(RouteNotFound);
      }
      var pattern := templates[name];
      var parsed := ParsePattern(pattern);
      if parsed.Err? {
        return Err(parsed.error);
      }
      var segs := parsed.value;
      if CountParams(segs) == 0 && params.Positional? && params.vals != [] {
        var ps := ParsePrintf(pattern);
        if CountParams(ps) > 0 {
          segs := ps;
        }
      }
      if CountParams(segs) == 0 {
        return if NoParams(params) then Ok(pattern) else Err(InvalidParams);
      }
      var values;
      match params {
        case ByName(m) => values := FillByName(segs, m);
        case Positional(vals) => values := FillByPosition(segs, vals);
      }
      FillBytes(segs, params);
      if values.Err? {
        return Err(values.error);
      }
      var out := BuildUrl(segs, values.value);
      if out.Ok? && out.value == "" {
        return Ok("/");
      }
      r := out;
    }
  }
}
