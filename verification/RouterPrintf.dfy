/** The grammar of printf patterns: every text is one, and it is read as the grammar means it. */
module RouterPrintf {
  import opened Wrappers
  import opened SqlIdent
  import opened Router
  import opened RouterUrl

  /** A character, a doubled percent sign, or a verb. */
  datatype Piece = Literal(c: char) | Percent | Verb(c: char)

  function Print(x: Piece): string {
    match x
    case Literal(c) => [c]
    case Percent => "%%"
    case Verb(c) => ['%', c]
  }

  function PrintAll(xs: seq<Piece>): string {
    if xs == [] then "" else Print(xs[0]) + PrintAll(xs[1..])
  }

  /** The verbs are s, d and v; a percent sign is a literal only where nothing else can be read. */
  predicate Clean(xs: seq<Piece>) {
    xs == []
    || (Clean(xs[1..])
        && match xs[0]
           case Literal(c) =>
             c == '%' ==> PrintAll(xs[1..]) == "" || PrintAll(xs[1..])[0] !in {'s', 'd', 'v', '%'}
           case Percent => true
           case Verb(c) => c in {'s', 'd', 'v'})
  }

  /** Verbs are parameters named by their numbers; what stands between them is text. */
  function Meaning(xs: seq<Piece>, lit: string, n: nat): seq<Segment>
    decreases xs
  {
    var before := if lit == "" then [] else [Lit(lit)];
    if xs == [] then before
    else
      match xs[0]
      case Literal(c) => Meaning(xs[1..], lit + [c], n)
      case Percent => Meaning(xs[1..], lit + "%", n)
      case Verb(_) => before + [Param(Itoa(n), Printf, false)] + Meaning(xs[1..], "", n + 1)
  }

  lemma PieceAt(p: string, i: nat, x: Piece, rest: string)
    requires i <= |p| && p[i..] == Print(x) + rest
    ensures i + |Print(x)| <= |p| && p[i + |Print(x)|..] == rest
    ensures p[i] == Print(x)[0]
    ensures |Print(x)| == 2 ==> p[i + 1] == Print(x)[1]
    ensures |Print(x)| == 1 ==> (i + 1 == |p| <==> rest == "") && (rest != "" ==> p[i + 1] == rest[0])
  {
    var n := |Print(x)|;
    assert |p[i..]| == n + |rest|;
    assert p[i + n..] == p[i..][n..] == rest;
    assert p[i] == p[i..][0];
    if n == 2 {
      assert p[i + 1] == p[i..][1];
    } else if rest != "" {
      assert p[i + 1] == p[i..][1] == rest[0];
    }
  }

  lemma {:induction false} ReadsFrom(p: string, i: nat, xs: seq<Piece>, lit: string, n: nat)
    requires i <= |p| && p[i..] == PrintAll(xs) && Clean(xs)
    ensures PrintfFrom(p, i, lit, n) == Meaning(xs, lit, n)
    decreases xs
  {
    if xs != [] {
      var x, rest := xs[0], xs[1..];
      PieceAt(p, i, x, PrintAll(rest));
      match x
      case Literal(c) => ReadsFrom(p, i + 1, rest, lit + [c], n);
      case Percent => ReadsFrom(p, i + 2, rest, lit + "%", n);
      case Verb(_) => ReadsFrom(p, i + 2, rest, "", n + 1);
    }
  }

  /** A printed text is read as it is meant. */
  lemma PrintfReads(xs: seq<Piece>)
    requires Clean(xs)
    ensures PrintfFrom(PrintAll(xs), 0, "", 0) == Meaning(xs, "", 0)
  {
    var p := PrintAll(xs);
    assert p[0..] == p;
    ReadsFrom(p, 0, xs, "", 0);
  }

  /** And every text is the print of one. */
  lemma {:induction false} EveryTextPrinted(p: string) returns (xs: seq<Piece>)
    ensures Clean(xs) && PrintAll(xs) == p
  {
    if p == "" {
      xs := [];
    } else {
      var x, k :=
        if p[0] == '%' && |p| > 1 && p[1] in {'s', 'd', 'v'} then Verb(p[1])
        else if p[0] == '%' && |p| > 1 && p[1] == '%' then Percent
        else Literal(p[0]),
        if p[0] == '%' && |p| > 1 && p[1] in {'s', 'd', 'v', '%'} then 2 else 1;
      var rest := EveryTextPrinted(p[k..]);
      xs := [x] + rest;
      assert xs[1..] == rest;
      assert Print(x) == p[..k] && p == p[..k] + p[k..];
    }
  }

  predicate HasVerb(xs: seq<Piece>) {
    exists i | 0 <= i < |xs| :: xs[i].Verb?
  }

  lemma {:induction false} VerbIsParam(xs: seq<Piece>, lit: string, n: nat)
    ensures HasVerb(xs) <==> exists s | s in Meaning(xs, lit, n) :: s.Param?
    decreases xs
  {
    if xs != [] {
      var rest := xs[1..];
      assert HasVerb(xs) <==> xs[0].Verb? || HasVerb(rest) by {
        if i :| 0 <= i < |rest| && rest[i].Verb? {
          assert xs[i + 1].Verb?;
        }
        if i :| 0 < i < |xs| && xs[i].Verb? {
          assert rest[i - 1].Verb?;
        }
      }
      match xs[0]
      case Literal(c) => VerbIsParam(rest, lit + [c], n);
      case Percent => VerbIsParam(rest, lit + "%", n);
      case Verb(_) =>
        var m := Meaning(xs, lit, n);
        assert Param(Itoa(n), Printf, false) in m;
    }
  }

  /** A pattern without other parameters takes positional values for its verbs, exactly when it has
      any; without verbs it takes none and is its own URL. */
  lemma PrintfReverseIff(xs: seq<Piece>, vals: seq<string>, u: string)
    requires Clean(xs) && forall v | v in vals :: IsBytes(v)
    requires var r := ParseFrom(PrintAll(xs), 0, ""); r.Ok? && !exists s | s in r.value :: s.Param?
    ensures Reverse(PrintAll(xs), Positional(vals)) == Ok(u) <==>
            if vals == [] then u == PrintAll(xs)
            else
              var segs := Meaning(xs, "", 0);
              HasVerb(xs) && exists values :: IsFilling(segs, vals, values) && IsUrl(segs, values, u)
  {
    hide IsFilling, IsUrl, BuildFrom, ParseFrom, PrintfFrom, Clean, Meaning, PrintAll;
    var segs := Meaning(xs, "", 0);
    PrintfReads(xs);
    HasParams(ParseFrom(PrintAll(xs), 0, "").value);
    HasParams(segs);
    VerbIsParam(xs, "", 0);
    if vals != [] && HasVerb(xs) {
      FillBytes(segs, Positional(vals));
      var filled := FillPositional(segs, vals);
      if filled.Ok? {
        PositionalIff(segs, vals, filled.value);
        WholeUrl(segs, filled.value, u);
      }
      forall values | IsFilling(segs, vals, values)
        ensures filled == Ok(values)
      {
        PositionalIff(segs, vals, values);
      }
    }
  }
}
