/** What binding means for a database that puts the arguments in the place of the question marks. */
module BindMeaning {
  import opened Wrappers
  import opened SqlIdent
  import opened BindNamed

  // ----- the text with the values where they belong -----

  /** A character of the bound text, or the place of a value. */
  datatype Item = Char(c: char) | Place(v: Value)

  function Shown(its: seq<Item>): (s: string)
    ensures |s| == |its|
  {
    seq(|its|, i requires 0 <= i < |its| => if its[i].Place? then '?' else its[i].c)
  }

  function Chars(s: string): (its: seq<Item>)
    ensures |its| == |s|
  {
    seq(|s|, i requires 0 <= i < |s| => Char(s[i]))
  }

  /** The places of a list's values, with commas between them. */
  function Places(vs: seq<Value>): seq<Item>
    requires vs != []
  {
    if |vs| == 1 then [Place(vs[0])] else [Place(vs[0]), Char(',')] + Places(vs[1..])
  }

  /** What the pieces say after what is already said. An empty list in the test of a column takes
      the test away, and puts a constant in its place. */
  function Items(ps: seq<Piece>, params: Params, its: seq<Item>): seq<Item>
    decreases |ps|
  {
    if ps == [] then its
    else if ps[0].Ch? then Items(ps[1..], params, its + [Char(ps[0].c)])
    else if ps[0].Unclosed? || ps[0].name !in params then its
    else
      var vs, test, rest := Expand(params[ps[0].name]), ColumnTest(Shown(its)), AfterClose(ps[1..]);
      if vs != [] then Items(ps[1..], params, its + Places(vs))
      else if test.Some? && rest.Some? then
        Items(rest.value, params, its[..test.value.0] + Chars(Constant(test.value.1)))
      else Items(ps[1..], params, its + Chars("NULL"))
  }

  /** The text that is meant, for a way of writing values. */
  function Meant(its: seq<Item>, text: Value -> string): string {
    if its == [] then ""
    else (if its[0].Place? then text(its[0].v) else [its[0].c]) + Meant(its[1..], text)
  }

  function Values(its: seq<Item>): seq<Value> {
    if its == [] then [] else (if its[0].Place? then [its[0].v] else []) + Values(its[1..])
  }

  /** Put the texts of the arguments in the place of the question marks, in order. */
  function Fill(s: string, texts: seq<string>): string {
    if s == "" then ""
    else if s[0] == '?' && texts != [] then texts[0] + Fill(s[1..], texts[1..])
    else [s[0]] + Fill(s[1..], texts)
  }

  function Texts(text: Value -> string, vs: seq<Value>): (r: seq<string>)
    ensures |r| == |vs|
  {
    seq(|vs|, i requires 0 <= i < |vs| => text(vs[i]))
  }

  // ----- the bound text shows the items -----

  lemma ShownJoins(a: seq<Item>, b: seq<Item>)
    ensures Shown(a + b) == Shown(a) + Shown(b)
  {
  }

  lemma ShownFacts(its: seq<Item>, k: nat, s: string)
    requires k <= |its|
    ensures Shown(its[..k]) == Shown(its)[..k] && Shown(Chars(s)) == s
  {
  }

  lemma {:induction false} PlacesShown(n: nat, vs: seq<Value>)
    requires vs != []
    ensures Shown(Places(vs)) == Join(Q.Placeholders(Generic, n, |vs|), ",")
    decreases |vs|
  {
    var ps := Q.Placeholders(Generic, n, |vs|);
    assert ps[0] == Placeholder(Generic, n + 1) == "?";
    if |vs| == 1 {
      assert Shown([Place(vs[0])]) == "?";
    } else {
      PlacesShown(n + 1, vs[1..]);
      assert ps[1..] == Q.Placeholders(Generic, n + 1, |vs| - 1);
      ShownJoins([Place(vs[0]), Char(',')], Places(vs[1..]));
      assert Shown([Place(vs[0]), Char(',')]) == "?" + ",";
    }
  }

  /** The text that binding writes shows the items that are meant. */
  lemma {:induction false} TextShowsItems(ps: seq<Piece>, params: Params, its: seq<Item>, args: seq<Value>)
    requires Render(Generic, ps, params, Shown(its), args).Ok?
    ensures Render(Generic, ps, params, Shown(its), args).value.text == Shown(Items(ps, params, its))
    decreases |ps|
  {
    hide Render, RenderValue, ColumnTest, AfterClose, EndsInNotIn, Join, Q.Placeholders, Expand, Places, Shown, Chars;
    if ps == [] {
      Ended(params, Shown(its), args);
    } else if ps[0].Ch? {
      CharRendered(ps, params, Shown(its), args);
      ShownJoins(its, [Char(ps[0].c)]);
      OneShown(ps[0].c);
      TextShowsItems(ps[1..], params, its + [Char(ps[0].c)], args);
    } else {
      ParamRendered(ps, params, Shown(its), args);
      var name, rest := ps[0].name, ps[1..];
      var vs, test := Expand(params[name]), ColumnTest(Shown(its));
      ValueRendered(Generic, name, rest, params, Shown(its), args);
      if vs != [] {
        PlacesShown(|args|, vs);
        ShownJoins(its, Places(vs));
        TextShowsItems(rest, params, its + Places(vs), args + vs);
      } else if test.Some? && AfterClose(rest).Some? {
        var kept, c := its[..test.value.0], Constant(test.value.1);
        ShownFacts(its, test.value.0, c);
        ShownJoins(kept, Chars(c));
        TextShowsItems(AfterClose(rest).value, params, kept + Chars(c), args);
      } else {
        ShownFacts(its, 0, "NULL");
        ShownJoins(its, Chars("NULL"));
        TextShowsItems(rest, params, its + Chars("NULL"), args);
      }
    }
  }

  lemma OneShown(c: char)
    ensures Shown([Char(c)]) == [c]
  {
  }

  lemma Ended(params: Params, out: string, args: seq<Value>)
    ensures Render(Generic, [], params, out, args) == Ok(Bound(out, args))
  {
  }

  lemma CharRendered(ps: seq<Piece>, params: Params, out: string, args: seq<Value>)
    requires ps != [] && ps[0].Ch?
    ensures Render(Generic, ps, params, out, args) == Render(Generic, ps[1..], params, out + [ps[0].c], args)
  {
  }

  lemma ParamRendered(ps: seq<Piece>, params: Params, out: string, args: seq<Value>)
    requires ps != [] && !ps[0].Ch? && Render(Generic, ps, params, out, args).Ok?
    ensures ps[0].Par? && ps[0].name in params
    ensures Render(Generic, ps, params, out, args) == RenderValue(Generic, ps[0].name, ps[1..], params, out, args)
  {
  }

  // ----- when every value ends up in its place -----

  /** The places hold the arguments one after the other, and the text's own question marks come when
      no argument is left. */
  predicate Aligned(its: seq<Item>, vs: seq<Value>) {
    if its == [] then true
    else if its[0].Place? then vs != [] && its[0].v == vs[0] && Aligned(its[1..], vs[1..])
    else (its[0].c == '?' ==> vs == []) && Aligned(its[1..], vs)
  }

  lemma FillOne(its: seq<Item>, vs: seq<Value>, text: Value -> string)
    requires its != []
    ensures var f := Fill(Shown(its), Texts(text, vs));
            if (its[0].Place? || its[0].c == '?') && vs != [] then
              f == text(vs[0]) + Fill(Shown(its[1..]), Texts(text, vs[1..]))
            else f == [if its[0].Place? then '?' else its[0].c] + Fill(Shown(its[1..]), Texts(text, vs))
  {
    assert Shown(its)[1..] == Shown(its[1..]);
    if vs != [] {
      assert Texts(text, vs)[1..] == Texts(text, vs[1..]);
    }
  }

  lemma {:induction false} AlignedFills(its: seq<Item>, vs: seq<Value>, text: Value -> string)
    requires Aligned(its, vs)
    ensures Fill(Shown(its), Texts(text, vs)) == Meant(its, text)
  {
    hide Fill, Shown, Texts;
    if its == [] {
      NothingFilled(Texts(text, vs));
    } else {
      FillOne(its, vs, text);
      AlignedFills(its[1..], if its[0].Place? then vs[1..] else vs, text);
    }
  }

  lemma NothingFilled(texts: seq<string>)
    ensures Fill(Shown([]), texts) == ""
  {
  }

  lemma Differ(a: string, s: string, t: string)
    requires s != t
    ensures a + s != a + t
  {
    assert (a + s)[|a|..] == s && (a + t)[|a|..] == t;
  }

  /** A way of writing values that shows a value out of its place. */
  lemma {:induction false} MisalignedShows(its: seq<Item>, vs: seq<Value>) returns (text: Value -> string)
    requires !Aligned(its, vs)
    ensures Fill(Shown(its), Texts(text, vs)) != Meant(its, text)
  {
    hide Fill, Shown, Texts;
    var x, rest := its[0], its[1..];
    if x.Char? && (x.c != '?' || vs == []) {
      text := MisalignedShows(rest, vs);
      Differ([x.c], Fill(Shown(rest), Texts(text, vs)), Meant(rest, text));
    } else if x.Place? && vs != [] && x.v == vs[0] {
      text := MisalignedShows(rest, vs[1..]);
      Differ(text(x.v), Fill(Shown(rest), Texts(text, vs[1..])), Meant(rest, text));
    } else {
      text := (v: Value) => if x.Place? && v == x.v then "x" else "y";
      FillOne(its, vs, text);
      assert Fill(Shown(its), Texts(text, vs))[0] != Meant(its, text)[0];
    }
    FillOne(its, vs, text);
  }

  /** Filling the question marks of the bound text with the arguments gives the meant text, for any
      way of writing values, exactly when the places are aligned with the arguments. */
  lemma BindingSubstitutesIff(s: string, params: Params)
    requires Render(Generic, Pieces(s, 0), params, "", []).Ok?
    ensures var b, its := Render(Generic, Pieces(s, 0), params, "", []).value, Items(Pieces(s, 0), params, []);
            (forall text: Value -> string :: Fill(b.text, Texts(text, b.args)) == Meant(its, text))
            <==> Aligned(its, b.args)
  {
    hide Render, Pieces, Fill, Meant, Aligned, Texts, Items;
    var ps := Pieces(s, 0);
    var b, its := Render(Generic, ps, params, "", []).value, Items(ps, params, []);
    assert Shown([]) == "";
    TextShowsItems(ps, params, [], []);
    if Aligned(its, b.args) {
      forall text: Value -> string
        ensures Fill(b.text, Texts(text, b.args)) == Meant(its, text)
      {
        AlignedFills(its, b.args, text);
      }
    } else {
      var text := MisalignedShows(its, b.args);
      assert Fill(b.text, Texts(text, b.args)) != Meant(its, text);
    }
  }

  // ----- when every argument has a place -----

  predicate NoPlace(its: seq<Item>) {
    Values(its) == []
  }

  /** No test that is taken away has the place of a value in it. */
  predicate KeepsPlaces(ps: seq<Piece>, params: Params, its: seq<Item>)
    decreases |ps|
  {
    if ps == [] then true
    else if ps[0].Ch? then KeepsPlaces(ps[1..], params, its + [Char(ps[0].c)])
    else if ps[0].Unclosed? || ps[0].name !in params then true
    else
      var vs, test, rest := Expand(params[ps[0].name]), ColumnTest(Shown(its)), AfterClose(ps[1..]);
      if vs != [] then KeepsPlaces(ps[1..], params, its + Places(vs))
      else if test.Some? && rest.Some? then
        NoPlace(its[test.value.0..])
        && KeepsPlaces(rest.value, params, its[..test.value.0] + Chars(Constant(test.value.1)))
      else KeepsPlaces(ps[1..], params, its + Chars("NULL"))
  }

  lemma ValuesCons(x: Item, rest: seq<Item>)
    ensures Values([x] + rest) == (if x.Place? then [x.v] else []) + Values(rest) && Values([]) == []
  {
    assert ([x] + rest)[1..] == rest;
  }

  lemma {:induction false} ValuesJoin(a: seq<Item>, b: seq<Item>)
    ensures Values(a + b) == Values(a) + Values(b)
  {
    hide Values;
    if a == [] {
      ValuesCons(Char(','), []);
      assert a + b == b;
    } else {
      ValuesJoin(a[1..], b);
      ValuesCons(a[0], a[1..] + b);
      ValuesCons(a[0], a[1..]);
      assert a + b == [a[0]] + (a[1..] + b) && a == [a[0]] + a[1..];
    }
  }

  lemma {:induction false} ValuesOfChars(s: string)
    ensures Values(Chars(s)) == []
  {
    if s != "" {
      assert Chars(s)[1..] == Chars(s[1..]);
      ValuesOfChars(s[1..]);
    }
  }

  lemma {:induction false} ValuesOfPlaces(vs: seq<Value>)
    requires vs != []
    ensures Values(Places(vs)) == vs
  {
    hide Values;
    if |vs| == 1 {
      ValuesCons(Place(vs[0]), []);
      assert Places(vs) == [Place(vs[0])] + [];
    } else {
      var rest := Places(vs[1..]);
      ValuesOfPlaces(vs[1..]);
      ValuesCons(Char(','), rest);
      ValuesCons(Place(vs[0]), [Char(',')] + rest);
      assert Places(vs) == [Place(vs[0])] + ([Char(',')] + rest);
    }
  }

  lemma ValuesSplit(its: seq<Item>, k: nat)
    requires k <= |its|
    ensures Values(its) == Values(its[..k]) + Values(its[k..])
  {
    assert its == its[..k] + its[k..];
    ValuesJoin(its[..k], its[k..]);
  }

  /** What is bound after its and args: never fewer arguments than places, and as many exactly when
      no place is taken away. */
  lemma {:induction false} PlacesKept(ps: seq<Piece>, params: Params, its: seq<Item>, args: seq<Value>)
    requires Render(Generic, ps, params, Shown(its), args).Ok? && |args| >= |Values(its)|
    ensures var b, all := Render(Generic, ps, params, Shown(its), args).value.args, Values(Items(ps, params, its));
            |b| >= |all|
            && (args == Values(its) && KeepsPlaces(ps, params, its) ==> b == all)
            && (|args| > |Values(its)| || !KeepsPlaces(ps, params, its) ==> |b| > |all|)
    decreases |ps|
  {
    hide Render, RenderValue, ColumnTest, AfterClose, EndsInNotIn, Join, Q.Placeholders, Expand, Places, Shown, Chars;
    hide Values;
    if ps == [] {
      Ended(params, Shown(its), args);
    } else if ps[0].Ch? {
      CharRendered(ps, params, Shown(its), args);
      ShownJoins(its, [Char(ps[0].c)]);
      OneShown(ps[0].c);
      ValuesJoin(its, [Char(ps[0].c)]);
      NoValue(ps[0].c);
      PlacesKept(ps[1..], params, its + [Char(ps[0].c)], args);
    } else {
      ParamRendered(ps, params, Shown(its), args);
      var name, rest := ps[0].name, ps[1..];
      var vs, test := Expand(params[name]), ColumnTest(Shown(its));
      ValueRendered(Generic, name, rest, params, Shown(its), args);
      if vs != [] {
        PlacesShown(|args|, vs);
        ShownJoins(its, Places(vs));
        ValuesJoin(its, Places(vs));
        ValuesOfPlaces(vs);
        PlacesKept(rest, params, its + Places(vs), args + vs);
      } else if test.Some? && AfterClose(rest).Some? {
        var kept, c := its[..test.value.0], Constant(test.value.1);
        ShownFacts(its, test.value.0, c);
        ShownJoins(kept, Chars(c));
        ValuesJoin(kept, Chars(c));
        ValuesOfChars(c);
        ValuesSplit(its, test.value.0);
        PlacesKept(AfterClose(rest).value, params, kept + Chars(c), args);
      } else {
        ShownFacts(its, 0, "NULL");
        ShownJoins(its, Chars("NULL"));
        ValuesJoin(its, Chars("NULL"));
        ValuesOfChars("NULL");
        PlacesKept(rest, params, its + Chars("NULL"), args);
      }
    }
  }

  lemma NoValue(c: char)
    ensures Values([Char(c)]) == []
  {
  }

  /** Every argument has its place, in order, exactly when no test that is taken away has a place in it. */
  lemma ArgumentsHavePlacesIff(s: string, params: Params)
    requires Render(Generic, Pieces(s, 0), params, "", []).Ok?
    ensures Render(Generic, Pieces(s, 0), params, "", []).value.args == Values(Items(Pieces(s, 0), params, []))
       <==> KeepsPlaces(Pieces(s, 0), params, [])
  {
    hide Render, Pieces, Items, KeepsPlaces;
    assert Shown([]) == "" && Values([]) == [];
    PlacesKept(Pieces(s, 0), params, [], []);
  }

  // ----- the text's own question marks -----

  /** No question mark of the text itself stands before a place. */
  predicate MarksLast(its: seq<Item>) {
    its == [] || (if its[0] == Char('?') then NoPlace(its[1..]) && MarksLast(its[1..]) else MarksLast(its[1..]))
  }

  /** Then only the text's own question marks can take a value away from its place. */
  lemma {:induction false} AlignedIffMarksLast(its: seq<Item>)
    ensures Aligned(its, Values(its)) <==> MarksLast(its)
  {
    if its != [] {
      AlignedIffMarksLast(its[1..]);
      if its[0].Place? {
        assert Values(its)[1..] == Values(its[1..]);
      } else {
        assert Values(its) == Values(its[1..]);
      }
    }
  }

  /** When no test that has a place in it is taken away, binding puts every value in its place exactly
      when the text has no question mark of its own before one. */
  lemma KeptBindingSubstitutesIff(s: string, params: Params)
    requires Render(Generic, Pieces(s, 0), params, "", []).Ok? && KeepsPlaces(Pieces(s, 0), params, [])
    ensures var b, its := Render(Generic, Pieces(s, 0), params, "", []).value, Items(Pieces(s, 0), params, []);
            (forall text: Value -> string :: Fill(b.text, Texts(text, b.args)) == Meant(its, text))
            <==> MarksLast(its)
  {
    hide Render, Pieces, Items, KeepsPlaces, Aligned, MarksLast, Values, Fill, Meant, Texts;
    BindingSubstitutesIff(s, params);
    ArgumentsHavePlacesIff(s, params);
    AlignedIffMarksLast(Items(Pieces(s, 0), params, []));
  }

  // ----- without empty lists -----

  predicate NoEmptyLists(params: Params) {
    forall k | k in params :: Expand(params[k]) != []
  }

  predicate NoParams(ps: seq<Piece>) {
    ps == [] || (!ps[0].Par? && NoParams(ps[1..]))
  }

  /** No question mark of the text itself stands before a parameter. */
  predicate TextMarksLast(ps: seq<Piece>) {
    ps == [] || (if ps[0] == Ch('?') then NoParams(ps[1..]) else TextMarksLast(ps[1..]))
  }

  predicate AllGiven(ps: seq<Piece>, params: Params) {
    ps == [] || ((ps[0].Ch? || (ps[0].Par? && ps[0].name in params)) && AllGiven(ps[1..], params))
  }

  lemma {:induction false} GivenWhenBound(ps: seq<Piece>, params: Params, out: string, args: seq<Value>)
    requires NoEmptyLists(params) && Render(Generic, ps, params, out, args).Ok?
    ensures AllGiven(ps, params)
    decreases |ps|
  {
    hide ColumnTest, AfterClose, EndsInNotIn, Join, Q.Placeholders, Expand, Render, RenderValue;
    if ps != [] {
      if ps[0].Ch? {
        CharRendered(ps, params, out, args);
        GivenWhenBound(ps[1..], params, out + [ps[0].c], args);
      } else {
        ParamRendered(ps, params, out, args);
        ValueRendered(Generic, ps[0].name, ps[1..], params, out, args);
        var vs := Expand(params[ps[0].name]);
        GivenWhenBound(ps[1..], params, out + Join(Q.Placeholders(Generic, |args|, |vs|), ","), args + vs);
      }
    }
  }

  /** The items one piece after the other. */
  function Listed(ps: seq<Piece>, params: Params): seq<Item>
    requires AllGiven(ps, params) && NoEmptyLists(params)
  {
    if ps == [] then []
    else (if ps[0].Ch? then [Char(ps[0].c)] else Places(Expand(params[ps[0].name]))) + Listed(ps[1..], params)
  }

  lemma {:induction false} ItemsListed(ps: seq<Piece>, params: Params, its: seq<Item>)
    requires AllGiven(ps, params) && NoEmptyLists(params)
    ensures Items(ps, params, its) == its + Listed(ps, params) && KeepsPlaces(ps, params, its)
    decreases |ps|
  {
    hide ColumnTest, AfterClose, Expand, Places, Shown, Chars;
    if ps != [] {
      var first := if ps[0].Ch? then [Char(ps[0].c)] else Places(Expand(params[ps[0].name]));
      ItemsListed(ps[1..], params, its + first);
      assert its + (first + Listed(ps[1..], params)) == its + first + Listed(ps[1..], params);
    }
  }

  lemma {:induction false} MarksOfPlaces(vs: seq<Value>, its: seq<Item>)
    requires vs != []
    ensures MarksLast(Places(vs) + its) <==> MarksLast(its)
  {
    if |vs| == 1 {
      assert ([Place(vs[0])] + its)[1..] == its;
    } else {
      MarksOfPlaces(vs[1..], its);
      var rest := Places(vs[1..]) + its;
      assert Places(vs) + its == [Place(vs[0]), Char(',')] + rest;
      assert ([Place(vs[0]), Char(',')] + rest)[1..] == [Char(',')] + rest && ([Char(',')] + rest)[1..] == rest;
    }
  }

  lemma {:induction false} NoPlaceNoParams(ps: seq<Piece>, params: Params)
    requires AllGiven(ps, params) && NoEmptyLists(params)
    ensures NoPlace(Listed(ps, params)) <==> NoParams(ps)
    ensures NoParams(ps) ==> MarksLast(Listed(ps, params)) && TextMarksLast(ps)
  {
    hide Values;
    if ps == [] {
      NoValue(',');
      ValuesCons(Char(','), []);
    } else {
      var rest := Listed(ps[1..], params);
      NoPlaceNoParams(ps[1..], params);
      if ps[0].Ch? {
        ValuesCons(Char(ps[0].c), rest);
        assert ([Char(ps[0].c)] + rest)[1..] == rest;
      } else {
        var vs := Expand(params[ps[0].name]);
        ValuesJoin(Places(vs), rest);
        ValuesOfPlaces(vs);
      }
    }
  }

  lemma {:induction false} MarksOfText(ps: seq<Piece>, params: Params)
    requires AllGiven(ps, params) && NoEmptyLists(params)
    ensures MarksLast(Listed(ps, params)) <==> TextMarksLast(ps)
  {
    hide NoPlace, Expand, Places;
    if ps != [] {
      var rest := Listed(ps[1..], params);
      MarksOfText(ps[1..], params);
      if ps[0].Ch? {
        NoPlaceNoParams(ps[1..], params);
        assert ([Char(ps[0].c)] + rest)[1..] == rest;
      } else {
        MarksOfPlaces(Expand(params[ps[0].name]), rest);
      }
    }
  }

  /** Without empty lists, binding puts every value in its place exactly when the text has no question
      mark of its own before a parameter. */
  lemma PlainBindingSubstitutesIff(s: string, params: Params)
    requires NoEmptyLists(params) && Render(Generic, Pieces(s, 0), params, "", []).Ok?
    ensures var b, its := Render(Generic, Pieces(s, 0), params, "", []).value, Items(Pieces(s, 0), params, []);
            (forall text: Value -> string :: Fill(b.text, Texts(text, b.args)) == Meant(its, text))
            <==> TextMarksLast(Pieces(s, 0))
  {
    hide Render, Pieces, Items, KeepsPlaces, Aligned, MarksLast, Values, Fill, Meant, Texts, NoEmptyLists, AllGiven;
    hide Listed;
    var ps := Pieces(s, 0);
    GivenWhenBound(ps, params, "", []);
    ItemsListed(ps, params, []);
    assert [] + Listed(ps, params) == Listed(ps, params);
    KeptBindingSubstitutesIff(s, params);
    MarksOfText(ps, params);
  }

  // ----- texts that fail -----

  function Letters(w: string): (ps: seq<Piece>)
    ensures |ps| == |w|
  {
    seq(|w|, i requires 0 <= i < |w| => Ch(w[i]))
  }

  lemma {:induction false} LettersRendered(w: string, ps: seq<Piece>, params: Params, out: string, args: seq<Value>)
    ensures Render(Generic, Letters(w) + ps, params, out, args) == Render(Generic, ps, params, out + w, args)
  {
    hide Render;
    if w == "" {
      assert Letters(w) + ps == ps && out + w == out;
    } else {
      CharRendered(Letters(w) + ps, params, out, args);
      assert (Letters(w) + ps)[1..] == Letters(w[1..]) + ps;
      assert out + [w[0]] + w[1..] == out + w;
      LettersRendered(w[1..], ps, params, out + [w[0]], args);
    }
  }

  lemma OneRendered(name: string, rest: seq<Piece>, params: Params, out: string, args: seq<Value>)
    requires name in params && !params[name].List?
    ensures Render(Generic, [Par(name)] + rest, params, out, args)
            == Render(Generic, rest, params, out + "?", args + [params[name]])
  {
    hide ColumnTest, EndsInNotIn, AfterClose;
    assert ([Par(name)] + rest)[1..] == rest;
    assert Q.Placeholders(Generic, |args|, 1)[0] == Placeholder(Generic, |args| + 1) == "?";
    ValueRendered(Generic, name, rest, params, out, args);
  }

  /** In `? ${x}` the text's own question mark takes the value. */
  lemma StrayMarkTakesValue(v: Value)
    requires !v.List?
    ensures var params := map["x" := v];
            Render(Generic, Pieces("? ${x}", 0), params, "", []) == Ok(Bound("? ?", [v]))
            && exists text: Value -> string ::
                 Fill("? ?", Texts(text, [v])) != Meant(Items(Pieces("? ${x}", 0), params, []), text)
  {
    hide Render, Fill, Texts, Meant, Items, Pieces, TextMarksLast;
    var params, ps := map["x" := v], Letters("? ") + [Par("x")];
    StrayPieces(ps);
    LettersRendered("? ", [Par("x")], params, "", []);
    OneRendered("x", [], params, "? ", []);
    assert [Par("x")] + [] == [Par("x")] && "" + "? " == "? " && "? " + "?" == "? ?" && [] + [v] == [v];
    Ended(params, "? ?", [v]);
    assert Render(Generic, Pieces("? ${x}", 0), params, "", []) == Ok(Bound("? ?", [v]));
    PlainBindingSubstitutesIff("? ${x}", params);
  }

  lemma StrayPieces(ps: seq<Piece>)
    requires ps == Letters("? ") + [Par("x")]
    ensures Pieces("? ${x}", 0) == ps && !TextMarksLast(ps)
  {
    hide Print, Pieces;
    NothingPrinted();
    ParPrinted("x", []);
    assert [Par("x")] + [] == [Par("x")];
    LettersPrinted("? ", [Par("x")]);
    PiecesOfPrint("", ps);
    assert "" + Print(ps) == "? ${x}";
    assert ps[0] == Ch('?') && ps[1..][0] == Ch(' ') && ps[1..][1..] == [Par("x")];
    assert !NoParams(ps[1..][1..]) && !NoParams(ps[1..]);
  }

  lemma NothingPrinted()
    ensures Print([]) == "" && Clear([])
  {
  }

  lemma ParPrinted(name: string, ps: seq<Piece>)
    requires Unclosed !in ps && Clear(ps) && '}' !in name
    ensures Unclosed !in [Par(name)] + ps && Clear([Par(name)] + ps)
    ensures Print([Par(name)] + ps) == "${" + name + "}" + Print(ps)
  {
    assert ([Par(name)] + ps)[1..] == ps;
  }

  /** The place of a value between square brackets goes with the column: `[${i}] IN (${e})` is bound
      to 1=0, but keeps the argument. */
  lemma BracketsLosePlace(v: Value)
    requires !v.List?
    ensures var params := map["i" := v, "e" := Q.List([])];
            Render(Generic, Pieces("[${i}] IN (${e})", 0), params, "", []) == Ok(Bound("1=0", [v]))
            && !KeepsPlaces(Pieces("[${i}] IN (${e})", 0), params, [])
  {
    hide Render, Pieces, KeepsPlaces, Items;
    var params, tail := map["i" := v, "e" := Q.List([])], [Par("e"), Ch(')')];
    var ps := Letters("[") + ([Par("i")] + (Letters("] IN (") + tail));
    BracketsPieces(ps);
    LettersRendered("[", [Par("i")] + (Letters("] IN (") + tail), params, "", []);
    OneRendered("i", Letters("] IN (") + tail, params, "[", []);
    LettersRendered("] IN (", tail, params, "[?", [v]);
    assert "" + "[" == "[" && "[" + "?" == "[?" && "[?" + "] IN (" == "[?] IN (" && [] + [v] == [v];
    TailRendered(params, [v]);
    if KeepsPlaces(ps, params, []) {
      ArgumentsHavePlacesIff("[${i}] IN (${e})", params);
      TextShowsItems(ps, params, [], []);
      assert Shown([]) == "";
      PlacesAreMarks(Items(ps, params, []));
    }
  }

  lemma {:induction false} PlacesAreMarks(its: seq<Item>)
    requires '?' !in Shown(its)
    ensures Values(its) == []
  {
    if its != [] {
      assert Shown(its)[0] in Shown(its);
      assert Shown(its)[1..] == Shown(its[1..]);
      PlacesAreMarks(its[1..]);
    }
  }

  lemma BracketsPieces(ps: seq<Piece>)
    requires ps == Letters("[") + ([Par("i")] + (Letters("] IN (") + [Par("e"), Ch(')')]))
    ensures Pieces("[${i}] IN (${e})", 0) == ps
  {
    hide Print, Clear, Pieces;
    NothingPrinted();
    LettersPrinted(")", []);
    ParPrinted("e", Letters(")") + []);
    var a := [Par("e"), Ch(')')];
    assert [Par("e")] + (Letters(")") + []) == a;
    LettersPrinted("] IN (", a);
    ParPrinted("i", Letters("] IN (") + a);
    LettersPrinted("[", [Par("i")] + (Letters("] IN (") + a));
    PiecesOfPrint("", ps);
    assert "" + Print(ps) == "[${i}] IN (${e})";
  }

  lemma {:induction false} LettersPrinted(w: string, ps: seq<Piece>)
    requires Unclosed !in ps && Clear(ps) && '$' !in w
    ensures Unclosed !in Letters(w) + ps && Clear(Letters(w) + ps) && Print(Letters(w) + ps) == w + Print(ps)
  {
    if w == "" {
      assert Letters(w) + ps == ps;
    } else {
      LettersPrinted(w[1..], ps);
      assert (Letters(w) + ps)[1..] == Letters(w[1..]) + ps;
      assert [w[0]] + (w[1..] + Print(ps)) == w + Print(ps);
    }
  }

  lemma TailRendered(params: Params, args: seq<Value>)
    requires "e" in params && params["e"] == Q.List([])
    ensures Render(Generic, [Par("e"), Ch(')')], params, "[?] IN (", args) == Ok(Bound("1=0", args))
  {
    hide ColumnTest, EndsInNotIn, AfterClose;
    var tail := [Par("e"), Ch(')')];
    BracketsAreName();
    assert AfterClose([Ch(')')]) == Some([]) by { ClosesHere(); }
    assert tail[1..] == [Ch(')')] && "[?] IN ("[..0] + "1=0" == "1=0";
    ValueRendered(Generic, "e", [Ch(')')], params, "[?] IN (", args);
  }

  lemma ClosesHere()
    ensures AfterClose([Ch(')')]) == Some([])
  {
  }

  lemma BracketsAreName()
    ensures ColumnTest("[?] IN (") == Some((0, false))
  {
    var s := "[?] IN (";
    assert s[1..][0] == '?' && s[1..][1..][0] == ']';
    assert L.Until(s[1..], ']') == 1;
    assert NameEnd(s, 0) == Some(3);
    assert Blanks(s, 3) == 4 && Blanks(s, 6) == 7 && Blanks(s, 8) == 8;
    assert TestAt(s, 0) == Some((3, false));
    assert Q.Upper(s[0..3])[0] == '[';
  }
}
