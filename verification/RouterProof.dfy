/** Reverse URLs can be read back, and what the parameter checks accept. */
module RouterProof {
  import opened Wrappers
  import opened SqlIdent
  import opened Router

  // ----- unescaping (section 2.1 of RFC 3986) -----

  function Unescape(s: string): Option<string> {
    if s == "" then Some("")
    else if s[0] != '%' then
      match Unescape(s[1..])
      case None => None
      case Some(r) => Some([s[0]] + r)
    else if |s| < 3 || HexValue(s[1]).None? || HexValue(s[2]).None? then None
    else
      match Unescape(s[3..])
      case None => None
      case Some(r) => Some([(16 * HexValue(s[1]).value + HexValue(s[2]).value) as char] + r)
  }

  lemma {:induction false} UnescapeChar(c: char, t: string)
    requires c as int < 256
    ensures Unescape(EscapeChar(c) + t) == match Unescape(t) case None => None case Some(r) => Some([c] + r)
  {
    var e := EscapeChar(c);
    if IsSafe(c) {
      assert (e + t)[1..] == t;
    } else {
      assert (e + t)[3..] == t;
      assert HexValue(HexDigit(c as int / 16)) == Some(c as int / 16);
      assert HexValue(HexDigit(c as int % 16)) == Some(c as int % 16);
    }
  }

  /** Escaping loses nothing. */
  lemma {:induction false} UnescapeEscape(s: string)
    requires IsBytes(s)
    ensures Unescape(PathEscape(s)) == Some(s)
  {
    if s != "" {
      UnescapeEscape(s[1..]);
      UnescapeChar(s[0], PathEscape(s[1..]));
      assert [s[0]] + s[1..] == s;
    }
  }

  /** An escaped value stays within one path segment. */
  lemma {:induction false} EscapedHasNoSlash(s: string)
    requires IsBytes(s)
    ensures '/' !in PathEscape(s) && (s != "" ==> PathEscape(s) != "")
  {
    if s != "" {
      EscapedHasNoSlash(s[1..]);
      assert '/' !in EscapeChar(s[0]);
    }
  }

  function EscapeButSlash(s: string): string
    requires IsBytes(s)
  {
    if s == "" then "" else (if s[0] == '/' then "/" else EscapeChar(s[0])) + EscapeButSlash(s[1..])
  }

  lemma {:induction false} KeepSlashByChar(s: string)
    requires IsBytes(s)
    ensures EscapeKeepSlash(s) == EscapeButSlash(s)
  {
    hide EscapeKeepSlash, EscapeChar;
    if s == "" {
      KeepNothing();
    } else {
      KeepSlashByChar(s[1..]);
      KeepFirst(s);
    }
  }

  lemma KeepNothing()
    ensures EscapeKeepSlash("") == ""
  {
    assert EscapeAll(Split("", '/')) == [""];
  }

  lemma KeepFirst(s: string)
    requires s != "" && IsBytes(s)
    ensures EscapeKeepSlash(s) == (if s[0] == '/' then "/" else EscapeChar(s[0])) + EscapeKeepSlash(s[1..])
  {
    hide EscapeChar;
    SplitBytes(s);
    SplitBytes(s[1..]);
    var rest := Split(s[1..], '/');
    var out := EscapeAll(rest);
    if s[0] == '/' {
      assert EscapeAll(Split(s, '/')) == [""] + out;
      assert ([""] + out)[1..] == out;
      assert "" + "/" + Join(out, "/") == "/" + Join(out, "/");
    } else {
      var first := [s[0]] + rest[0];
      assert PathEscape(first) == EscapeChar(s[0]) + out[0] by { assert first[1..] == rest[0]; }
      assert EscapeAll(Split(s, '/')) == [EscapeChar(s[0]) + out[0]] + out[1..];
      JoinHead(EscapeChar(s[0]), out, "/");
    }
  }

  lemma JoinHead(a: string, parts: seq<string>, sep: string)
    requires |parts| >= 1
    ensures Join([a + parts[0]] + parts[1..], sep) == a + Join(parts, sep)
  {
    var t := [a + parts[0]] + parts[1..];
    assert t[1..] == parts[1..];
    if |parts| > 1 {
      assert a + parts[0] + sep + Join(parts[1..], sep) == a + (parts[0] + sep + Join(parts[1..], sep));
    }
  }

  /** A wildcard value keeps its slashes and can be read back as well. */
  lemma {:induction false} UnescapeKeepSlash(s: string)
    requires IsBytes(s)
    ensures Unescape(EscapeKeepSlash(s)) == Some(s)
  {
    KeepSlashByChar(s);
    UnescapeButSlash(s);
  }

  lemma {:induction false} UnescapeButSlash(s: string)
    requires IsBytes(s)
    ensures Unescape(EscapeButSlash(s)) == Some(s)
  {
    if s != "" {
      UnescapeButSlash(s[1..]);
      if s[0] == '/' {
        assert ("/" + EscapeButSlash(s[1..]))[1..] == EscapeButSlash(s[1..]);
      } else {
        UnescapeChar(s[0], EscapeButSlash(s[1..]));
      }
      assert [s[0]] + s[1..] == s;
    }
  }

  // ----- the matcher -----

  function SegmentEnd(u: string): (n: nat)
    ensures n <= |u| && (forall i | 0 <= i < n :: u[i] != '/') && (n < |u| ==> u[n] == '/')
  {
    if u == "" || u[0] == '/' then 0 else 1 + SegmentEnd(u[1..])
  }

  /** Read the parameter values back from a URL. */
  function Match(segs: seq<Segment>, u: string): Option<seq<string>>
    decreases segs
  {
    if segs == [] then if u == "" then Some([]) else None
    else if segs[0].Lit? then if segs[0].text <= u then Match(segs[1..], u[|segs[0].text|..]) else None
    else
      var n := SegmentEnd(u);
      match (Unescape(u[..n]), Match(segs[1..], u[n..]))
      case (Some(v), Some(rest)) => if n == 0 then None else Some([v] + rest)
      case _ => None
  }

  /** Every parameter is required, stays within a path segment, and reaches to its end. */
  predicate Matchable(segs: seq<Segment>) {
    segs == []
    || (Matchable(segs[1..])
        && (segs[0].Param? ==>
              segs[0].kind == Named && !segs[0].greedy && (segs[1..] == [] || StartsWithSlash(segs[1]))))
  }

  predicate StartsWithSlash(s: Segment) {
    s.Lit? && s.text != "" && s.text[0] == '/'
  }

  /** The values given to the parameters, in order. */
  function Given(segs: seq<Segment>, values: seq<Option<string>>): seq<string>
    requires |values| == |segs| && forall i | 0 <= i < |segs| && segs[i].Param? :: values[i].Some?
    decreases segs
  {
    if segs == [] then []
    else if segs[0].Lit? then Given(segs[1..], values[1..])
    else [values[0].value] + Given(segs[1..], values[1..])
  }

  /** What building appends for matchable segments. */
  function Tail(segs: seq<Segment>, values: seq<Option<string>>): string
    requires |values| == |segs| && AllBytes(values) && forall i | 0 <= i < |segs| && segs[i].Param? :: values[i].Some?
    decreases segs
  {
    if segs == [] then ""
    else (if segs[0].Lit? then segs[0].text else PathEscape(values[0].value)) + Tail(segs[1..], values[1..])
  }

  lemma {:induction false} BuildAppends(segs: seq<Segment>, values: seq<Option<string>>, out: string)
    requires |values| == |segs| && AllBytes(values) && Matchable(segs)
    requires forall i | 0 <= i < |segs| && segs[i].Param? :: values[i].Some?
    ensures var r := BuildFrom(segs, values, out);
            if forall i | 0 <= i < |segs| && segs[i].Param? :: values[i].value != "" then
              r == Ok(out + Tail(segs, values))
            else r == Err(InvalidParams)
    decreases segs
  {
    hide PathEscape, StartsWithSlash;
    if segs == [] {
      assert out + "" == out;
    } else {
      var rest, values' := segs[1..], values[1..];
      var piece := if segs[0].Lit? then segs[0].text else PathEscape(values[0].value);
      BuildAppends(rest, values', out + piece);
      assert out + piece + Tail(rest, values') == out + (piece + Tail(rest, values'));
      assert forall i | 0 <= i < |rest| :: rest[i] == segs[i + 1] && values'[i] == values[i + 1];
    }
  }

  lemma {:induction false} MatchReadsBack(segs: seq<Segment>, values: seq<Option<string>>)
    requires |values| == |segs| && AllBytes(values) && Matchable(segs)
    requires forall i | 0 <= i < |segs| && segs[i].Param? :: values[i].Some? && values[i].value != ""
    ensures Match(segs, Tail(segs, values)) == Some(Given(segs, values))
    decreases segs
  {
    if segs != [] {
      var rest, values' := segs[1..], values[1..];
      MatchReadsBack(rest, values');
      var u, after := Tail(segs, values), Tail(rest, values');
      if segs[0].Lit? {
        assert u[|segs[0].text|..] == after;
      } else {
        var e := PathEscape(values[0].value);
        EscapedHasNoSlash(values[0].value);
        UnescapeEscape(values[0].value);
        assert after == "" || after[0] == '/';
        EndIs(e, after);
        assert u[..|e|] == e && u[|e|..] == after;
      }
    }
  }

  lemma {:induction false} EndIs(e: string, after: string)
    requires '/' !in e && (after == "" || after[0] == '/')
    ensures SegmentEnd(e + after) == |e|
  {
    if e == "" {
      assert e + after == after;
    } else {
      EndIs(e[1..], after);
      assert (e + after)[1..] == e[1..] + after;
      assert e[0] != '/';
    }
  }

  // ----- values given by position -----

  lemma {:induction false} AllRequired(segs: seq<Segment>)
    requires Matchable(segs)
    ensures CountRequired(segs) == CountParams(segs)
    ensures forall i | 0 <= i < |segs| && segs[i].Param? :: segs[i].kind == Named
  {
    if segs != [] {
      AllRequired(segs[1..]);
    }
  }

  lemma {:induction false} PositionalGiven(segs: seq<Segment>, vals: seq<string>)
    requires Matchable(segs) && |vals| == CountParams(segs)
    ensures var values := PositionalValues(segs, vals, 0);
            (forall i | 0 <= i < |segs| && segs[i].Param? :: values[i].Some?)
            && Given(segs, values) == vals
            && ((forall i | 0 <= i < |segs| && segs[i].Param? :: values[i].value != "") <==> "" !in vals)
    decreases segs
  {
    if segs != [] {
      var rest := segs[1..];
      var values := PositionalValues(segs, vals, 0);
      if segs[0].Lit? {
        PositionalGiven(rest, vals);
        var values' := PositionalValues(rest, vals, 0);
        assert values == [None] + values' && values[1..] == values';
        assert forall i | 0 <= i < |rest| :: rest[i] == segs[i + 1] && values'[i] == values[i + 1];
      } else {
        PositionalGiven(rest, vals[1..]);
        var values' := PositionalValues(rest, vals[1..], 0);
        assert values == [Some(vals[0])] + values' && values[1..] == values';
        assert forall i | 0 <= i < |rest| :: rest[i] == segs[i + 1] && values'[i] == values[i + 1];
        assert vals == [vals[0]] + vals[1..];
      }
    }
  }

  // ----- main results -----

  predicate MatchablePattern(pattern: string) {
    var r := ParseFrom(pattern, 0, "");
    r.Ok? && Matchable(r.value) && CountParams(r.value) > 0
  }

  function PatternSegments(pattern: string): seq<Segment>
    requires MatchablePattern(pattern)
  {
    ParseFrom(pattern, 0, "").value
  }

  /** For a pattern whose parameters are all required, within one path segment and up to its end,
      a reverse URL exists exactly for the right number of non-empty values, and the matcher reads
      exactly those values back from it. */
  lemma ReverseMatches(pattern: string, vals: seq<string>)
    requires MatchablePattern(pattern) && forall v | v in vals :: IsBytes(v)
    ensures var r, segs := Reverse(pattern, Positional(vals)), PatternSegments(pattern);
            (r.Ok? <==> |vals| == CountParams(segs) && "" !in vals)
            && (r.Ok? ==> Match(segs, r.value) == Some(vals))
  {
    var segs := PatternSegments(pattern);
    AllRequired(segs);
    if |vals| == CountParams(segs) {
      PositionalBytes(segs, vals, 0);
      PositionalGiven(segs, vals);
      var values := PositionalValues(segs, vals, 0);
      BuildAppends(segs, values, "");
      if "" !in vals {
        MatchReadsBack(segs, values);
        assert "" + Tail(segs, values) == Tail(segs, values);
        NotEmpty(segs, values);
      }
    }
  }

  lemma {:induction false} NotEmpty(segs: seq<Segment>, values: seq<Option<string>>)
    requires |values| == |segs| && AllBytes(values) && CountParams(segs) > 0
    requires forall i | 0 <= i < |segs| && segs[i].Param? :: values[i].Some? && values[i].value != ""
    ensures Tail(segs, values) != ""
    decreases segs
  {
    if segs[0].Param? {
      EscapedHasNoSlash(values[0].value);
    } else {
      NotEmpty(segs[1..], values[1..]);
    }
  }

  /** So different values give different URLs. */
  lemma ReverseInjective(pattern: string, a: seq<string>, b: seq<string>)
    requires MatchablePattern(pattern) && (forall v | v in a :: IsBytes(v)) && (forall v | v in b :: IsBytes(v))
    requires Reverse(pattern, Positional(a)).Ok? && Reverse(pattern, Positional(a)) == Reverse(pattern, Positional(b))
    ensures a == b
  {
    ReverseMatches(pattern, a);
    ReverseMatches(pattern, b);
  }
}
