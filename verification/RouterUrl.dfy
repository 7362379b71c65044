/** What reverse URLs are: which characters are escaped, which values go where, and what absent
    parameters take along. */
module RouterUrl {
  import opened Wrappers
  import opened Router
  import opened RouterProof
  import P = RouterPattern

  // ----- escaped values -----

  /** What is written as it is: letters, digits, ten marks, and in a value that spans segments slashes. */
  predicate Stays(c: char, slashes: bool) {
    var k := c as int;
    48 <= k <= 57 || 65 <= k <= 90 || 97 <= k <= 122
    || c in {'-', '.', '_', '~', '$', '&', '+', ':', '=', '@'}
    || (slashes && c == '/')
  }

  /** Every other byte becomes a percent sign and two upper-case hexadecimal digits. */
  function Encoded(s: string, slashes: bool): string
    requires IsBytes(s)
  {
    if s == "" then ""
    else
      var k := s[0] as int;
      (if Stays(s[0], slashes) then [s[0]] else ['%', "0123456789ABCDEF"[k / 16], "0123456789ABCDEF"[k % 16]])
      + Encoded(s[1..], slashes)
  }

  lemma DigitIs(k: nat)
    requires k < 16
    ensures HexDigit(k) == "0123456789ABCDEF"[k]
  {
  }

  lemma CharIs(c: char)
    requires c as int < 256
    ensures var k := c as int;
            EscapeChar(c)
            == if Stays(c, false) then [c] else ['%', "0123456789ABCDEF"[k / 16], "0123456789ABCDEF"[k % 16]]
  {
    DigitIs(c as int / 16);
    DigitIs(c as int % 16);
  }

  lemma {:induction false} EscapeIs(s: string)
    requires IsBytes(s)
    ensures PathEscape(s) == Encoded(s, false)
  {
    hide EscapeChar, Stays;
    if s != "" {
      CharIs(s[0]);
      EscapeIs(s[1..]);
    }
  }

  lemma {:induction false} KeepSlashIs(s: string)
    requires IsBytes(s)
    ensures EscapeKeepSlash(s) == Encoded(s, true)
  {
    hide EscapeChar, EscapeKeepSlash;
    KeepSlashByChar(s);
    if s != "" {
      CharIs(s[0]);
      KeepSlashByChar(s[1..]);
      KeepSlashIs(s[1..]);
    }
  }

  // ----- what the URL shows -----

  /** What a segment shows of itself. */
  function Piece(s: Segment, v: Option<string>): string
    requires v.Some? ==> IsBytes(v.value)
  {
    match s
    case Lit(text) => text
    case Param(_, _, greedy) => if v.None? then "" else Encoded(v.value, greedy)
  }

  predicate AbsentOptional(s: Segment, v: Option<string>) {
    s.Param? && s.kind == Optional && (v.None? || v.value == "")
  }

  /** At an absent optional parameter after which the pattern ends or goes on with a slash. */
  predicate TakesSlash(segs: seq<Segment>, values: seq<Option<string>>, j: nat)
    requires |values| == |segs| && j < |segs|
  {
    AbsentOptional(segs[j], values[j]) && (j + 1 == |segs| || (segs[j + 1].Lit? && "/" <= segs[j + 1].text))
  }

  /** Such a parameter follows, with nothing shown before it. */
  predicate SlashGoes(segs: seq<Segment>, values: seq<Option<string>>, from: nat)
    requires |values| == |segs| && AllBytes(values)
  {
    exists j | from <= j < |segs| ::
      TakesSlash(segs, values, j) && forall k | from <= k < j :: Piece(segs[k], values[k]) == ""
  }

  function Cut(t: string, goes: bool): string {
    if goes && t != "" && t[|t| - 1] == '/' then t[..|t| - 1] else t
  }

  /** The URL from a segment on: each shows itself, without a last slash that an absent optional
      parameter takes along. */
  function Url(segs: seq<Segment>, values: seq<Option<string>>, i: nat): string
    requires |values| == |segs| && AllBytes(values) && i <= |segs|
    decreases |segs| - i
  {
    if i == |segs| then ""
    else Cut(Piece(segs[i], values[i]), SlashGoes(segs, values, i + 1)) + Url(segs, values, i + 1)
  }

  /** A plain named parameter that is given nothing. */
  predicate EmptyFrom(segs: seq<Segment>, values: seq<Option<string>>, i: nat)
    requires |values| == |segs|
  {
    exists k | i <= k < |segs| :: segs[k].Param? && segs[k].kind == Named && values[k] == Some("")
  }

  lemma NothingToCut(t: string, goes: bool)
    ensures Cut(t, false) == t
    ensures Cut("", goes) == ""
    ensures t + "" == t
  {
  }

  lemma CutLast(out: string, t: string, goes: bool)
    requires t != ""
    ensures Cut(out + t, goes) == out + Cut(t, goes)
  {
    if goes && t[|t| - 1] == '/' {
      assert (out + t)[..|out + t| - 1] == out + t[..|t| - 1];
    }
  }

  /** Where a slash may be taken along, segment by segment. */
  lemma SlashStep(segs: seq<Segment>, values: seq<Option<string>>, i: nat)
    requires |values| == |segs| && AllBytes(values) && i < |segs|
    ensures SlashGoes(segs, values, i) <==>
            TakesSlash(segs, values, i) || (Piece(segs[i], values[i]) == "" && SlashGoes(segs, values, i + 1))
  {
    hide TakesSlash, Piece;
    if Piece(segs[i], values[i]) == "" && SlashGoes(segs, values, i + 1) {
      var j :| i + 1 <= j < |segs|
        && TakesSlash(segs, values, j) && forall k | i + 1 <= k < j :: Piece(segs[k], values[k]) == "";
      assert forall k | i <= k < j :: Piece(segs[k], values[k]) == "";
    }
  }

  lemma TakesOnce(segs: seq<Segment>, values: seq<Option<string>>, i: nat)
    requires |values| == |segs| && AllBytes(values) && i < |segs| && TakesSlash(segs, values, i)
    ensures !SlashGoes(segs, values, i + 1)
  {
    assert i + 1 < |segs| ==> Piece(segs[i + 1], values[i + 1]) != "";
  }

  lemma AbsentIsSilent(segs: seq<Segment>, values: seq<Option<string>>, i: nat)
    requires |values| == |segs| && AllBytes(values) && i < |segs| && AbsentOptional(segs[i], values[i])
    ensures Piece(segs[i], values[i]) == ""
    ensures EmptyFrom(segs, values, i) <==> EmptyFrom(segs, values, i + 1)
  {
  }

  lemma Appended(out: string, t: string, goes: bool, rest: string)
    ensures t != "" ==> Cut(out + t, goes) + rest == out + (Cut(t, goes) + rest)
    ensures t == "" ==> Cut(out + t, goes) + rest == Cut(out, goes) + (Cut(t, goes) + rest)
  {
    if t != "" {
      CutLast(out, t, goes);
    } else {
      NothingToCut(out, goes);
    }
  }

  lemma DropIs(out: string, rest: seq<Segment>)
    ensures DropSlash(out, rest) == Cut(out, rest == [] || (rest[0].Lit? && "/" <= rest[0].text))
  {
  }

  lemma {:induction false} BuildsUrl(segs: seq<Segment>, values: seq<Option<string>>, i: nat, out: string)
    requires |values| == |segs| && AllBytes(values) && i <= |segs|
    ensures BuildFrom(segs[i..], values[i..], out)
         == if EmptyFrom(segs, values, i) then Err(InvalidParams)
            else Ok(Cut(out, SlashGoes(segs, values, i)) + Url(segs, values, i))
    decreases |segs| - i
  {
    hide SlashGoes, Cut, DropSlash, Encoded, PathEscape, EscapeKeepSlash;
    if i == |segs| {
      NothingGoes(segs, values);
      NothingToCut(out, false);
    } else {
      var s, v, rest := segs[i], values[i], segs[i + 1..];
      assert segs[i..][0] == s && segs[i..][1..] == rest;
      assert values[i..][0] == v && values[i..][1..] == values[i + 1..];
      SlashStep(segs, values, i);
      var t, goes, u := Piece(s, v), SlashGoes(segs, values, i + 1), Url(segs, values, i + 1);
      if AbsentOptional(s, v) {
        DropIs(out, rest);
        AbsentIsSilent(segs, values, i);
        if TakesSlash(segs, values, i) {
          TakesOnce(segs, values, i);
        }
        BuildsUrl(segs, values, i + 1, DropSlash(out, rest));
        NothingToCut(out, goes);
        NothingToCut(Cut(out, true), goes);
        assert Url(segs, values, i) == "" + u == u;
      } else if s.Param? && s.kind == Named && v == Some("") {
      } else {
        assert BuildFrom(segs[i..], values[i..], out) == BuildFrom(rest, values[i + 1..], out + t) by {
          NothingToCut(out, goes);
          if v.Some? {
            EscapeIs(v.value);
            KeepSlashIs(v.value);
          }
        }
        assert EmptyFrom(segs, values, i) == EmptyFrom(segs, values, i + 1);
        BuildsUrl(segs, values, i + 1, out + t);
        Appended(out, t, goes, u);
        NothingToCut(out, goes);
      }
    }
  }

  lemma NothingGoes(segs: seq<Segment>, values: seq<Option<string>>)
    requires |values| == |segs| && AllBytes(values)
    ensures !SlashGoes(segs, values, |segs|)
  {
  }

  // ----- values by position -----

  function TheGiven(values: seq<Option<string>>): seq<string> {
    if values == [] then []
    else (if values[0].Some? then [values[0].value] else []) + TheGiven(values[1..])
  }

  predicate MayMiss(s: Segment) {
    s.Param? && (s.kind == Optional || s.kind == Wildcard)
  }

  /** The values go to the parameters in order: every one that is not optional gets one, and of the
      optional ones those further left. */
  predicate IsFilling(segs: seq<Segment>, vals: seq<string>, values: seq<Option<string>>) {
    && |values| == |segs|
    && (forall i | 0 <= i < |segs| && values[i].None? :: segs[i].Lit? || MayMiss(segs[i]))
    && (forall i | 0 <= i < |segs| && values[i].Some? :: segs[i].Param?)
    && (forall i, j | 0 <= i < j < |segs| && MayMiss(segs[i]) && MayMiss(segs[j]) && values[j].Some? :: values[i].Some?)
    && TheGiven(values) == vals
  }

  predicate NoneOptional(segs: seq<Segment>, values: seq<Option<string>>)
    requires |values| == |segs|
  {
    forall i | 0 <= i < |segs| && MayMiss(segs[i]) :: values[i].None?
  }

  /** A filling, parameter by parameter. */
  lemma FillingStep(segs: seq<Segment>, vals: seq<string>, values: seq<Option<string>>)
    requires segs != [] && |values| == |segs|
    ensures IsFilling(segs, vals, values) <==>
            var s, v := segs[0], values[0];
            if v.None? then
              && (s.Lit? || MayMiss(s))
              && (MayMiss(s) ==> NoneOptional(segs[1..], values[1..]))
              && IsFilling(segs[1..], vals, values[1..])
            else s.Param? && vals != [] && vals[0] == v.value && IsFilling(segs[1..], vals[1..], values[1..])
  {
    hide MayMiss;
    var rest, later := segs[1..], values[1..];
    assert forall i | 0 <= i < |rest| :: rest[i] == segs[i + 1] && later[i] == values[i + 1];
    if values[0].Some? {
      GivenStep(values[0].value, TheGiven(later), vals);
    } else {
      assert TheGiven(values) == [] + TheGiven(later) == TheGiven(later);
    }
    if IsFilling(segs, vals, values) {
      TailFills(segs, vals, values);
    }
  }

  lemma GivenStep(first: string, later: seq<string>, vals: seq<string>)
    ensures [first] + later == vals <==> vals != [] && vals[0] == first && vals[1..] == later
  {
  }

  lemma TailFills(segs: seq<Segment>, vals: seq<string>, values: seq<Option<string>>)
    requires segs != [] && IsFilling(segs, vals, values)
    ensures IsFilling(segs[1..], TheGiven(values[1..]), values[1..])
    ensures values[0].None? && MayMiss(segs[0]) ==> NoneOptional(segs[1..], values[1..])
  {
    hide MayMiss;
    var rest, later := segs[1..], values[1..];
    assert forall i | 0 <= i < |rest| :: rest[i] == segs[i + 1] && later[i] == values[i + 1];
  }

  /** How many values a filling places. */
  lemma {:induction false} FillingCounts(segs: seq<Segment>, vals: seq<string>, values: seq<Option<string>>)
    requires IsFilling(segs, vals, values)
    ensures CountRequired(segs) <= |vals| <= CountParams(segs)
    ensures NoneOptional(segs, values) <==> |vals| == CountRequired(segs)
    decreases segs
  {
    hide IsFilling;
    if segs == [] {
      NoFilling(vals, values);
    } else {
      FillingSize(segs, vals, values);
      FillingStep(segs, vals, values);
      FillingCounts(segs[1..], if values[0].None? then vals else vals[1..], values[1..]);
      assert NoneOptional(segs, values) <==>
             (MayMiss(segs[0]) ==> values[0].None?) && NoneOptional(segs[1..], values[1..]);
    }
  }

  lemma FillingSize(segs: seq<Segment>, vals: seq<string>, values: seq<Option<string>>)
    requires IsFilling(segs, vals, values)
    ensures |values| == |segs|
  {
  }

  lemma NoFilling(vals: seq<string>, values: seq<Option<string>>)
    ensures IsFilling([], vals, values) <==> vals == [] && values == []
  {
  }

  lemma {:induction false} PositionalFills(segs: seq<Segment>, vals: seq<string>, spare: nat)
    requires |vals| == spare + CountRequired(segs) && |vals| <= CountParams(segs)
    ensures IsFilling(segs, vals, PositionalValues(segs, vals, spare))
    decreases segs
  {
    hide IsFilling;
    var values := PositionalValues(segs, vals, spare);
    if segs == [] {
      NoFilling(vals, values);
    } else {
      FillingStep(segs, vals, values);
      if values[0].None? {
        PositionalFills(segs[1..], vals, spare);
        assert values[1..] == PositionalValues(segs[1..], vals, spare);
        FillingCounts(segs[1..], vals, values[1..]);
      } else {
        var spare' := if Required(segs[0]) then spare else spare - 1;
        PositionalFills(segs[1..], vals[1..], spare');
        assert values[1..] == PositionalValues(segs[1..], vals[1..], spare');
      }
    }
  }

  lemma {:induction false} FillingIsPositional(segs: seq<Segment>, vals: seq<string>, values: seq<Option<string>>)
    requires IsFilling(segs, vals, values) && |vals| >= CountRequired(segs)
    ensures values == PositionalValues(segs, vals, |vals| - CountRequired(segs))
    decreases segs
  {
    hide IsFilling;
    if segs == [] {
      NoFilling(vals, values);
    } else {
      FillingSize(segs, vals, values);
      FillingStep(segs, vals, values);
      var vals' := if values[0].None? then vals else vals[1..];
      FillingCounts(segs[1..], vals', values[1..]);
      FillingIsPositional(segs[1..], vals', values[1..]);
      assert values == [values[0]] + values[1..];
    }
  }

  /** Positional values are accepted exactly when there is a filling, and it is the only one. */
  lemma PositionalIff(segs: seq<Segment>, vals: seq<string>, values: seq<Option<string>>)
    ensures FillPositional(segs, vals) == Ok(values) <==> IsFilling(segs, vals, values)
  {
    hide IsFilling, CountRequired, CountParams;
    if IsFilling(segs, vals, values) {
      FillingCounts(segs, vals, values);
      FillingIsPositional(segs, vals, values);
    }
    if FillPositional(segs, vals).Ok? {
      PositionalFills(segs, vals, |vals| - CountRequired(segs));
    }
  }

  lemma FillingBytes(segs: seq<Segment>, vals: seq<string>, values: seq<Option<string>>)
    requires IsFilling(segs, vals, values) && forall v | v in vals :: IsBytes(v)
    ensures |values| == |segs| && AllBytes(values)
  {
    PositionalIff(segs, vals, values);
    FillBytes(segs, Positional(vals));
  }

  // ----- the URL -----

  /** What is written for these segments: a single slash instead of nothing. */
  predicate IsUrl(segs: seq<Segment>, values: seq<Option<string>>, u: string) {
    && |values| == |segs|
    && AllBytes(values)
    && !EmptyFrom(segs, values, 0)
    && u == if Url(segs, values, 0) == "" then "/" else Url(segs, values, 0)
  }

  lemma WholeUrl(segs: seq<Segment>, values: seq<Option<string>>, u: string)
    requires |values| == |segs| && AllBytes(values)
    ensures var r := BuildFrom(segs, values, "");
            IsUrl(segs, values, u) <==> r.Ok? && u == if r.value == "" then "/" else r.value
  {
    hide Url, BuildFrom, EmptyFrom, SlashGoes;
    BuildsUrl(segs, values, 0, "");
    assert segs[0..] == segs && values[0..] == values;
    NothingToCut("", SlashGoes(segs, values, 0));
    assert "" + Url(segs, values, 0) == Url(segs, values, 0);
  }

  /** For a pattern with parameters, a reverse URL from positional values exists exactly when the
      values fill the parameters and no plain named one is given nothing, and it shows those values. */
  lemma ReverseIff(pattern: string, vals: seq<string>, u: string)
    requires ParseFrom(pattern, 0, "").Ok? && forall v | v in vals :: IsBytes(v)
    requires exists s | s in ParseFrom(pattern, 0, "").value :: s.Param?
    ensures var segs := ParseFrom(pattern, 0, "").value;
            Reverse(pattern, Positional(vals)) == Ok(u) <==>
            exists values :: IsFilling(segs, vals, values) && IsUrl(segs, values, u)
  {
    hide IsFilling, IsUrl, BuildFrom;
    var segs := ParseFrom(pattern, 0, "").value;
    HasParams(segs);
    FillBytes(segs, Positional(vals));
    var filled := FillPositional(segs, vals);
    if filled.Ok? {
      PositionalIff(segs, vals, filled.value);
      WholeUrl(segs, filled.value, u);
    }
    forall values | IsFilling(segs, vals, values)
      ensures filled == Ok(values)
    {
      PositionalIff(segs, vals, values);
    }
  }

  lemma {:induction false} ParseError(p: string, i: nat, lit: string)
    requires i <= |p|
    ensures var r := ParseFrom(p, i, lit); r.Err? ==> r.error == InvalidPattern
    decreases |p| - i
  {
    hide BraceParam, ColonParam;
    if i < |p| {
      if p[i] == '{' {
        if BraceParam(p, i).Some? {
          ParseError(p, BraceParam(p, i).value.1, "");
        }
      } else if StartsColonParam(p, i) {
        ParseError(p, ColonParam(p, i).1, "");
      } else if StartsJoker(p, i) {
        ParseError(p, i + 1, "");
      } else {
        ParseError(p, i + 1, lit + [p[i]]);
      }
    }
  }

  /** Which error it is: the pattern's if it is none, and otherwise that of the parameters. */
  lemma ReverseFails(pattern: string, params: Params)
    requires ParamBytes(params)
    ensures var r := Reverse(pattern, params);
            r.Err? ==>
              r.error == if exists xs :: P.Clean('/', xs) && P.PrintAll(xs) == pattern then InvalidParams
                         else InvalidPattern
  {
    hide P.Clean, P.PrintAll, ParseFrom, PrintfFrom, BuildFrom;
    P.ParsesExactlyPatterns(pattern);
    ParseError(pattern, 0, "");
    if Segments(pattern, params).Ok? {
      var segs := Segments(pattern, params).value;
      var filled := Fill(segs, params);
      FillBytes(segs, params);
      if filled.Ok? {
        BuildsUrl(segs, filled.value, 0, "");
        assert segs[0..] == segs && filled.value[0..] == filled.value;
      }
    }
  }

  lemma {:induction false} HasParams(segs: seq<Segment>)
    ensures CountParams(segs) > 0 <==> exists s | s in segs :: s.Param?
  {
    if segs != [] {
      HasParams(segs[1..]);
      assert forall s :: s in segs <==> s == segs[0] || s in segs[1..];
    }
  }
}
