/** Reverse URLs filled in by name: which maps are accepted, and that their values can be read back. */
module RouterNamed {
  import opened Wrappers
  import opened Router
  import opened RouterProof
  import opened RouterUrl
  import P = RouterPattern

  function Names(segs: seq<Segment>): set<string> {
    if segs == [] then {} else (if segs[0].Param? then {segs[0].name} else {}) + Names(segs[1..])
  }

  predicate DistinctNames(segs: seq<Segment>) {
    segs == [] || (DistinctNames(segs[1..]) && (segs[0].Param? ==> segs[0].name !in Names(segs[1..])))
  }

  predicate RequiredGiven(segs: seq<Segment>, m: map<string, string>) {
    forall i | 0 <= i < |segs| :: Required(segs[i]) ==> segs[i].name in m
  }

  /** What the documentation promises: no required parameter missing, none unknown. */
  predicate GoodKeys(segs: seq<Segment>, m: map<string, string>) {
    RequiredGiven(segs, m) && m.Keys <= Names(segs)
  }

  lemma {:induction false} UsedCount(segs: seq<Segment>, m: map<string, string>)
    ensures CountUsed(segs, m) >= |Names(segs) * m.Keys|
    ensures DistinctNames(segs) ==> CountUsed(segs, m) == |Names(segs) * m.Keys|
  {
    if segs == [] {
      assert Names(segs) * m.Keys == {};
    } else {
      UsedCount(segs[1..], m);
      var rest := Names(segs[1..]) * m.Keys;
      if segs[0].Param? && segs[0].name in m {
        assert Names(segs) * m.Keys == {segs[0].name} + rest;
      } else {
        assert Names(segs) * m.Keys == rest;
      }
    }
  }

  lemma {:induction false} RepeatedCount(segs: seq<Segment>, m: map<string, string>)
    requires !DistinctNames(segs) && Names(segs) <= m.Keys
    ensures CountUsed(segs, m) > |Names(segs)|
  {
    var names := Names(segs[1..]);
    UsedCount(segs[1..], m);
    assert names * m.Keys == names;
    if segs[0].Param? {
      assert segs[0].name in m;
      if segs[0].name in names {
        assert Names(segs) == names;
      } else {
        RepeatedCount(segs[1..], m);
        assert Names(segs) == {segs[0].name} + names;
      }
    } else {
      RepeatedCount(segs[1..], m);
      assert Names(segs) == names;
    }
  }

  lemma SubsetCount<T>(a: set<T>, b: set<T>)
    ensures |a * b| <= |b| && (|a * b| == |b| <==> b <= a)
  {
    assert b == a * b + (b - a);
    assert b - a == {} <==> b <= a;
  }

  lemma {:induction false} NameListed(segs: seq<Segment>, i: nat)
    requires i < |segs| && segs[i].Param?
    ensures segs[i].name in Names(segs)
  {
    if i > 0 {
      NameListed(segs[1..], i - 1);
    }
  }

  lemma DistinctIsRight(segs: seq<Segment>, m: map<string, string>)
    requires DistinctNames(segs)
    ensures FillNamed(segs, m).Ok? <==> GoodKeys(segs, m)
  {
    UsedCount(segs, m);
    SubsetCount(Names(segs), m.Keys);
    assert |m| == |m.Keys|;
  }

  /** The map that names every parameter is turned down when a name repeats. */
  lemma RepeatedIsWrong(segs: seq<Segment>, m: map<string, string>)
    requires !DistinctNames(segs) && m.Keys == Names(segs)
    ensures FillNamed(segs, m).Err? && GoodKeys(segs, m)
  {
    RepeatedCount(segs, m);
    assert |m| == |m.Keys|;
    forall i | 0 <= i < |segs| && Required(segs[i])
      ensures segs[i].name in m
    {
      NameListed(segs, i);
    }
  }

  /** The check by counting does what is promised for every map exactly when no parameter name
      repeats in the pattern. */
  lemma NamedCheckIsRight(segs: seq<Segment>)
    ensures DistinctNames(segs) <==> forall m :: FillNamed(segs, m).Ok? <==> GoodKeys(segs, m)
  {
    if DistinctNames(segs) {
      forall m
        ensures FillNamed(segs, m).Ok? <==> GoodKeys(segs, m)
      {
        DistinctIsRight(segs, m);
      }
    } else {
      var m: map<string, string> := map k | k in Names(segs) :: "";
      RepeatedIsWrong(segs, m);
      assert !(FillNamed(segs, m).Ok? <==> GoodKeys(segs, m));
    }
  }

  /** A repeated name counts twice, so it can even hide an unknown key. */
  lemma RepeatedNameHidesUnknownKey()
    ensures var m := map["id" := "7", "page" := "2"];
            ParamBytes(ByName(m)) && Reverse("/{id}/{id}", ByName(m)) == Ok("/7/7")
            && Segments("/{id}/{id}", ByName(m)) == Ok(TwoIds()) && !GoodKeys(TwoIds(), m)
  {
    hide ParseFrom, BuildFrom, FillNamed, GoodKeys;
    var m := map["id" := "7", "page" := "2"];
    TwoIdsParsed();
    TwoIdsCounted(m);
    TwoIdsFilled(m);
    TwoIdsBuilt();
  }

  function TwoIds(): seq<Segment> {
    [Lit("/"), Param("id", Named, false), Lit("/"), Param("id", Named, false)]
  }

  lemma TwoIdsParsed()
    ensures ParseFrom("/{id}/{id}", 0, "") == Ok(TwoIds())
  {
    hide ParseFrom, P.PrintAll, P.Clean, P.Segments, P.Print, P.Meaning, P.Fits;
    var slash, id := P.Literal('/'), P.Brace(P.Plain('i', P.Plain('d', P.End)), None);
    IdFacts(slash, id);
    var a := [id] + [];
    var b := [slash] + a;
    var c := [id] + b;
    var d := [slash] + c;
    NoPieces();
    PieceFirst('/', id, [], "/");
    PieceFirst('}', slash, a, "");
    PieceFirst('/', id, b, "/");
    PieceFirst('/', slash, c, "");
    assert P.PrintAll(d) == "/{id}/{id}" by { JoinTwice("{id}"); }
    assert P.Segments(d, "") == TwoIds() by { SegmentsTwice(Param("id", Named, false)); }
    P.ParsePrint(d);
  }

  lemma JoinTwice(t: string)
    ensures "/" + (t + ("/" + (t + ""))) == "/" + t + "/" + t
    ensures "/" + "{id}" + "/" + "{id}" == "/{id}/{id}"
  {
    assert t + "" == t;
  }

  lemma SegmentsTwice(id: Segment)
    ensures "" + "/" == "/" && Flush("/") == [Lit("/")]
    ensures Flush("/") + [id] + (Flush("/") + [id] + []) == [Lit("/"), id, Lit("/"), id]
  {
  }

  lemma IdFacts(slash: P.Piece, id: P.Piece)
    requires slash == P.Literal('/') && id == P.Brace(P.Plain('i', P.Plain('d', P.End)), None)
    ensures P.Print(slash) == "/" && P.Print(id) == "{id}" && P.Meaning(id) == Param("id", Named, false)
    ensures forall after :: P.Fits('/', id, after)
    ensures forall before, after :: P.Fits(before, slash, after)
  {
    assert P.Text(id.name) == "id" && TrimSpace("id") == "id";
  }

  lemma NoPieces()
    ensures P.PrintAll([]) == "" && P.Segments([], "") == [] && forall c :: P.Clean(c, [])
  {
  }

  lemma PieceFirst(before: char, x: P.Piece, xs: seq<P.Piece>, lit: string)
    ensures P.PrintAll([x] + xs) == P.Print(x) + P.PrintAll(xs)
    ensures P.Clean(before, [x] + xs)
       <==> P.Fits(before, x, P.PrintAll(xs)) && P.Clean(P.Print(x)[|P.Print(x)| - 1], xs)
    ensures P.Segments([x] + xs, lit)
         == if x.Literal? then P.Segments(xs, lit + [x.c]) else Flush(lit) + [P.Meaning(x)] + P.Segments(xs, "")
  {
    hide P.Fits, P.Print, P.Meaning;
    assert ([x] + xs)[1..] == xs;
  }

  lemma TwoIdsCounted(m: map<string, string>)
    requires m == map["id" := "7", "page" := "2"]
    ensures CountUsed(TwoIds(), m) == 2 && |m| == 2 && CountParams(TwoIds()) == 2 && !GoodKeys(TwoIds(), m)
  {
    var slash, id := Lit("/"), Param("id", Named, false);
    var segs := TwoIds();
    assert segs[1..] == [id, slash, id] && segs[1..][1..] == [slash, id] && segs[1..][1..][1..] == [id];
    assert Names([id]) == {"id"} && Names([slash, id]) == {"id"} && Names([id, slash, id]) == {"id"};
    assert CountUsed([id], m) == 1 && CountUsed([slash, id], m) == 1 && CountUsed([id, slash, id], m) == 2;
    assert CountParams([id]) == 1 && CountParams([slash, id]) == 1 && CountParams([id, slash, id]) == 2;
    assert m.Keys == {"id", "page"} && "page" !in Names(segs);
  }

  lemma TwoIdsFilled(m: map<string, string>)
    requires m == map["id" := "7", "page" := "2"] && CountUsed(TwoIds(), m) == |m|
    ensures FillNamed(TwoIds(), m) == Ok([None, Some("7"), None, Some("7")])
  {
    hide CountUsed;
    assert NamedValues(TwoIds(), m) == [None, Some("7"), None, Some("7")];
  }

  lemma TwoIdsBuilt()
    ensures BuildFrom(TwoIds(), [None, Some("7"), None, Some("7")], "") == Ok("/7/7")
  {
    var segs, vs := TwoIds(), [None, Some("7"), None, Some("7")];
    assert PathEscape("7") == "7";
    assert segs[1..][1..][1..][1..] == [] && vs[1..][1..][1..][1..] == [];
    assert "" + "/" == "/" && "/" + "7" == "/7" && "/7" + "/" == "/7/" && "/7/" + "7" == "/7/7";
    assert BuildFrom(segs[1..][1..][1..], vs[1..][1..][1..], "/7/") == Ok("/7/7");
    assert BuildFrom(segs[1..][1..], vs[1..][1..], "/7") == Ok("/7/7");
    assert BuildFrom(segs[1..], vs[1..], "/") == Ok("/7/7");
  }

  // ----- reading named values back -----

  /** The values in the order of the pattern. */
  function InOrder(segs: seq<Segment>, m: map<string, string>): seq<string>
    requires forall i | 0 <= i < |segs| && segs[i].Param? :: segs[i].name in m
  {
    if segs == [] then []
    else (if segs[0].Param? then [m[segs[0].name]] else []) + InOrder(segs[1..], m)
  }

  lemma {:induction false} NamedGiven(segs: seq<Segment>, m: map<string, string>)
    requires forall i | 0 <= i < |segs| && segs[i].Param? :: segs[i].name in m
    ensures Given(segs, NamedValues(segs, m)) == InOrder(segs, m)
  {
    if segs != [] {
      NamedGiven(segs[1..], m);
      assert NamedValues(segs, m)[1..] == NamedValues(segs[1..], m);
    }
  }

  lemma {:induction false} MatchableRequired(segs: seq<Segment>)
    requires Matchable(segs)
    ensures forall i | 0 <= i < |segs| && segs[i].Param? :: Required(segs[i])
  {
    if segs != [] {
      MatchableRequired(segs[1..]);
    }
  }

  predicate BytesMap(m: map<string, string>) {
    forall k | k in m :: IsBytes(m[k])
  }

  /** By name as by position: what the matcher reads are the given values. */
  lemma NamedMatches(pattern: string, m: map<string, string>)
    requires MatchablePattern(pattern) && BytesMap(m)
    ensures var r, segs := Reverse(pattern, ByName(m)), PatternSegments(pattern);
            r.Ok? ==> RequiredGiven(segs, m) && (forall i | 0 <= i < |segs| && segs[i].Param? :: segs[i].name in m)
                      && Match(segs, r.value) == Some(InOrder(segs, m))
  {
    var segs := PatternSegments(pattern);
    MatchableRequired(segs);
    var r := Reverse(pattern, ByName(m));
    if r.Ok? {
      var values := NamedValues(segs, m);
      FillBytes(segs, ByName(m));
      BuildAppends(segs, values, "");
      MatchReadsBack(segs, values);
      NamedGiven(segs, m);
      NotEmpty(segs, values);
      assert "" + Tail(segs, values) == Tail(segs, values);
    }
  }

  lemma {:induction false} SameOrderSameValues(segs: seq<Segment>, a: map<string, string>, b: map<string, string>)
    requires forall i | 0 <= i < |segs| && segs[i].Param? :: segs[i].name in a && segs[i].name in b
    requires InOrder(segs, a) == InOrder(segs, b)
    ensures forall k | k in Names(segs) :: k in a && k in b && a[k] == b[k]
  {
    if segs != [] {
      if segs[0].Param? {
        assert InOrder(segs, a)[0] == a[segs[0].name] && InOrder(segs, b)[0] == b[segs[0].name];
        assert InOrder(segs, a)[1..] == InOrder(segs[1..], a) && InOrder(segs, b)[1..] == InOrder(segs[1..], b);
      } else {
        assert InOrder(segs, a) == InOrder(segs[1..], a) && InOrder(segs, b) == InOrder(segs[1..], b);
      }
      SameOrderSameValues(segs[1..], a, b);
    }
  }

  /** With distinct names, two maps that give the same URL are the same map. */
  lemma NamedInjective(pattern: string, a: map<string, string>, b: map<string, string>)
    requires MatchablePattern(pattern) && DistinctNames(PatternSegments(pattern)) && BytesMap(a) && BytesMap(b)
    requires Reverse(pattern, ByName(a)).Ok? && Reverse(pattern, ByName(a)) == Reverse(pattern, ByName(b))
    ensures a == b
  {
    var segs := PatternSegments(pattern);
    NamedMatches(pattern, a);
    NamedMatches(pattern, b);
    SameOrderSameValues(segs, a, b);
    AcceptedKeys(pattern, a);
    AcceptedKeys(pattern, b);
    assert a.Keys == b.Keys;
  }

  lemma {:induction false} RequiredNames(segs: seq<Segment>, m: map<string, string>)
    requires Matchable(segs) && RequiredGiven(segs, m)
    ensures Names(segs) <= m.Keys
  {
    if segs != [] {
      assert segs[0].Param? ==> Required(segs[0]);
      assert forall i | 0 <= i < |segs[1..]| :: segs[1..][i] == segs[i + 1];
      RequiredNames(segs[1..], m);
    }
  }

  lemma AcceptedKeys(pattern: string, m: map<string, string>)
    requires MatchablePattern(pattern) && DistinctNames(PatternSegments(pattern)) && BytesMap(m)
    requires Reverse(pattern, ByName(m)).Ok?
    ensures m.Keys == Names(PatternSegments(pattern))
  {
    var segs := PatternSegments(pattern);
    assert FillNamed(segs, m).Ok?;
    DistinctIsRight(segs, m);
    RequiredNames(segs, m);
  }

  predicate AreNamed(segs: seq<Segment>, m: map<string, string>, values: seq<Option<string>>) {
    && |values| == |segs|
    && forall i | 0 <= i < |segs| ::
         values[i] == if segs[i].Param? && segs[i].name in m then Some(m[segs[i].name]) else None
  }

  /** A reverse URL from named values exists exactly when the names are right and no plain named
      parameter is given nothing, and it shows those values. */
  lemma NamedReverseIff(pattern: string, m: map<string, string>, u: string)
    requires ParseFrom(pattern, 0, "").Ok? && BytesMap(m)
    requires var segs := ParseFrom(pattern, 0, "").value; DistinctNames(segs) && exists s | s in segs :: s.Param?
    ensures var segs := ParseFrom(pattern, 0, "").value;
            Reverse(pattern, ByName(m)) == Ok(u) <==>
            GoodKeys(segs, m) && exists values :: AreNamed(segs, m, values) && IsUrl(segs, values, u)
  {
    hide IsUrl, BuildFrom, GoodKeys, DistinctNames, ParseFrom;
    var segs := ParseFrom(pattern, 0, "").value;
    HasParams(segs);
    NamedCheckIsRight(segs);
    assert FillNamed(segs, m).Ok? <==> GoodKeys(segs, m);
    FillBytes(segs, ByName(m));
    var values := NamedValues(segs, m);
    assert AreNamed(segs, m, values);
    forall other | AreNamed(segs, m, other)
      ensures other == values
    {
    }
    if FillNamed(segs, m).Ok? {
      WholeUrl(segs, values, u);
    }
  }
}
