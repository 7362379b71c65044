/** The regular expressions that binding searches the text with before an empty list, as grammars in
    character codes: the matching functions find exactly what these describe. */
module BindRegex {
  import opened Wrappers
  import opened BindNamed
  import L = SqlLexer
  import Q

  // ----- the grammars -----

  predicate Space(c: char) {
    var k := c as int; k == 9 || k == 10 || k == 12 || k == 13 || k == 32
  }

  /** A letter in either case, and what counts as one, or an underscore. */
  predicate Letter(c: char) {
    var k := c as int; 65 <= k <= 90 || 97 <= k <= 122 || k == 95 || k == 0x212A || k == 0x17F
  }

  predicate LetterOrDigit(c: char) {
    Letter(c) || 48 <= c as int <= 57
  }

  predicate Plain(t: string) {
    t != "" && Letter(t[0]) && forall k | 0 < k < |t| :: LetterOrDigit(t[k])
  }

  predicate Quoted(t: string, open: char, close: char) {
    |t| > 2 && t[0] == open && t[|t| - 1] == close && forall k | 0 < k < |t| - 1 :: t[k] != close
  }

  predicate Part(t: string) {
    Plain(t) || Quoted(t, '"', '"') || Quoted(t, '`', '`') || Quoted(t, '[', ']')
  }

  /** Parts with dots between them stand from i to e. */
  predicate NameFrom(s: string, i: nat, e: nat)
    requires e <= |s|
    decreases e - i
  {
    exists m | i < m <= e :: Part(s[i..m]) && (m == e || (s[m] == '.' && NameFrom(s, m + 1, e)))
  }

  predicate Spaces(s: string, i: nat, j: nat) {
    i <= j <= |s| && forall k | i <= k < j :: Space(s[k])
  }

  /** A word of capital letters, in either case. */
  predicate Spelled(s: string, i: nat, w: string) {
    i + |w| <= |s| && forall k | 0 <= k < |w| :: s[i + k] == w[k] || s[i + k] as int == w[k] as int + 32
  }

  /** IN and an opening bracket end the text. */
  predicate EndsIn(s: string, q: nat) {
    Spelled(s, q, "IN")
    && exists r | q + 2 <= r < |s| :: Spaces(s, q + 2, r) && s[r] == '(' && Spaces(s, r + 1, |s|)
  }

  predicate EndsNotIn(s: string, p: nat) {
    Spelled(s, p, "NOT") && exists q | p + 3 < q < |s| :: Spaces(s, p + 3, q) && EndsIn(s, q)
  }

  /** A name from a to e, and then IN or NOT IN and an opening bracket end the text. */
  predicate IsTest(s: string, a: nat, e: nat, neg: bool) {
    a < e <= |s| && NameFrom(s, a, e)
    && exists p | e < p < |s| :: Spaces(s, e, p) && if neg then EndsNotIn(s, p) else EndsIn(s, p)
  }

  // ----- single characters and words -----

  lemma CharsAre(c: char)
    ensures IsBlank(c) <==> Space(c)
    ensures StartsWord(c) <==> Letter(c)
    ensures IsWordChar(c) <==> LetterOrDigit(c)
  {
  }

  lemma LetterSpelled(c: char, w: char)
    requires w in {'N', 'O', 'T', 'I'}
    ensures Q.ToUpper(c) == w && c != '\U{131}' <==> c == w || c as int == w as int + 32
  {
  }

  lemma SpelledIff(s: string, i: nat, w: string)
    requires w == "NOT" || w == "IN"
    ensures IsWord(s, i, w) <==> Spelled(s, i, w)
  {
    if i + |w| <= |s| {
      forall k | 0 <= k < |w|
        ensures Q.ToUpper(s[i + k]) == w[k] && s[i + k] != '\U{131}'
           <==> s[i + k] == w[k] || s[i + k] as int == w[k] as int + 32
      {
        LetterSpelled(s[i + k], w[k]);
      }
    }
  }

  /** The spaces that are skipped are all there are. */
  lemma {:induction false} BlanksIff(s: string, i: nat, b: nat)
    requires i <= |s|
    ensures Blanks(s, i) == b <==> Spaces(s, i, b) && (b < |s| ==> !Space(s[b]))
    decreases |s| - i
  {
    if i < |s| {
      CharsAre(s[i]);
      if IsBlank(s[i]) {
        BlanksIff(s, i + 1, b);
      }
    }
  }

  lemma SpacesStop(s: string, i: nat, b: nat)
    requires Spaces(s, i, b) && b < |s| && !Space(s[b])
    ensures Blanks(s, i) == b
  {
    BlanksIff(s, i, b);
  }

  lemma BlanksAreSpaces(s: string, i: nat)
    requires i <= |s|
    ensures Spaces(s, i, Blanks(s, i))
    ensures Blanks(s, i) < |s| ==> !Space(s[Blanks(s, i)])
  {
    BlanksIff(s, i, Blanks(s, i));
  }

  // ----- IN and NOT IN at the end -----

  lemma InIff(s: string, q: nat)
    ensures InAt(s, q) <==> EndsIn(s, q)
  {
    hide Blanks, Spaces, IsWord, Spelled;
    SpelledIff(s, q, "IN");
    if IsWord(s, q, "IN") {
      WordFits(s, q, "IN");
      var b := Blanks(s, q + 2);
      BlanksAreSpaces(s, q + 2);
      if b < |s| {
        BlanksAreSpaces(s, b + 1);
      }
      forall r | q + 2 <= r < |s| && Spaces(s, q + 2, r) && s[r] == '(' && Spaces(s, r + 1, |s|)
        ensures b == r && Blanks(s, r + 1) == |s|
      {
        SpacesStop(s, q + 2, r);
        BlanksIff(s, r + 1, |s|);
      }
    }
  }

  lemma WordFits(s: string, i: nat, w: string)
    requires IsWord(s, i, w)
    ensures i + |w| <= |s|
  {
  }

  lemma FirstLetter(s: string, i: nat, w: string)
    requires w != "" && Spelled(s, i, w)
    ensures i < |s| && (s[i] == w[0] || s[i] as int == w[0] as int + 32)
  {
    assert w[0] == w[0];
  }

  lemma InIsNoSpace(s: string, q: nat)
    requires EndsIn(s, q)
    ensures q < |s| && !Space(s[q])
  {
    hide Spelled, Spaces;
    FirstLetter(s, q, "IN");
  }

  lemma NotIsNoSpace(s: string, p: nat)
    requires EndsNotIn(s, p)
    ensures p < |s| && !Space(s[p]) && !EndsIn(s, p)
  {
    hide Spelled, Spaces;
    FirstLetter(s, p, "NOT");
    if EndsIn(s, p) {
      FirstLetter(s, p, "IN");
    }
  }

  lemma NotInIff(s: string, p: nat)
    ensures NotInAt(s, p) <==> EndsNotIn(s, p)
  {
    hide Blanks, Spaces, IsWord, Spelled, InAt, EndsIn;
    SpelledIff(s, p, "NOT");
    if IsWord(s, p, "NOT") {
      WordFits(s, p, "NOT");
      var b := Blanks(s, p + 3);
      BlanksAreSpaces(s, p + 3);
      InIff(s, b);
      forall q | p + 3 < q < |s| && Spaces(s, p + 3, q) && EndsIn(s, q)
        ensures q == b
      {
        InIsNoSpace(s, q);
        SpacesStop(s, p + 3, q);
      }
      if EndsIn(s, b) {
        InIsNoSpace(s, b);
      }
    }
  }

  // ----- names -----

  lemma {:induction false} WordEndIs(s: string, i: nat)
    requires i <= |s|
    ensures var e := WordEnd(s, i);
            (forall k | i <= k < e :: LetterOrDigit(s[k])) && (e < |s| ==> !LetterOrDigit(s[e]))
    decreases |s| - i
  {
    if i < |s| {
      CharsAre(s[i]);
      if IsWordChar(s[i]) {
        WordEndIs(s, i + 1);
      }
    }
  }

  lemma {:induction false} WordEndsAt(s: string, i: nat, e: nat)
    requires i <= e <= |s| && (forall k | i <= k < e :: LetterOrDigit(s[k])) && (e < |s| ==> !LetterOrDigit(s[e]))
    ensures WordEnd(s, i) == e
    decreases e - i
  {
    if i < |s| {
      CharsAre(s[i]);
    }
    if i < e {
      WordEndsAt(s, i + 1, e);
    }
  }

  lemma {:induction false} UntilIs(s: string, c: char)
    ensures var n := L.Until(s, c); (forall k | 0 <= k < n :: s[k] != c) && (n < |s| ==> s[n] == c)
  {
    if s != "" && s[0] != c {
      UntilIs(s[1..], c);
      assert forall k | 0 < k < |s| :: s[k] == s[1..][k - 1];
    }
  }

  /** A quoted part, by where its closing mark is. */
  lemma QuotedIff(s: string, i: nat, e: nat, open: char, close: char)
    requires i < e <= |s|
    ensures Quoted(s[i..e], open, close) <==>
            s[i] == open && L.Until(s[i + 1..], close) > 0 && i + 2 + L.Until(s[i + 1..], close) == e
  {
    hide L.Until;
    var t, rest := s[i..e], s[i + 1..];
    var n := L.Until(rest, close);
    UntilIs(rest, close);
    assert forall k | 0 < k < |t| :: t[k] == rest[k - 1];
    assert t[0] == s[i];
    assert n + 1 < |t| ==> t[n + 1] == rest[n];
    assert |t| > 1 ==> rest[|t| - 2] == t[|t| - 1];
  }

  lemma PlainIff(s: string, i: nat, e: nat)
    requires i < e <= |s| && (e < |s| ==> !LetterOrDigit(s[e]))
    ensures Plain(s[i..e]) <==> StartsWord(s[i]) && WordEnd(s, i + 1) == e
  {
    hide Letter, LetterOrDigit, StartsWord, IsWordChar, WordEnd;
    var t := s[i..e];
    CharsAre(s[i]);
    assert forall k | 0 <= k < |t| :: t[k] == s[i + k];
    WordEndIs(s, i + 1);
    if Plain(t) {
      assert forall k | i + 1 <= k < e :: LetterOrDigit(s[k]) by {
        assert forall k | i + 1 <= k < e :: s[k] == t[k - i];
      }
      WordEndsAt(s, i + 1, e);
    }
  }

  lemma PartIff(s: string, i: nat, e: nat)
    requires i < e <= |s| && (e < |s| ==> !LetterOrDigit(s[e]))
    ensures Part(s[i..e]) <==> PartEnd(s, i) == Some(e)
  {
    hide L.Until, WordEnd, Plain, Quoted, LetterOrDigit;
    PlainIff(s, i, e);
    QuotedIff(s, i, e, '"', '"');
    QuotedIff(s, i, e, '`', '`');
    QuotedIff(s, i, e, '[', ']');
  }

  lemma NoWordAfter(s: string, i: nat)
    requires i <= |s|
    ensures PartEnd(s, i).Some? && PartEnd(s, i).value < |s| ==>
            s[i] in {'"', '`', '['} || !LetterOrDigit(s[PartEnd(s, i).value])
  {
    if i < |s| {
      CharsAre(s[i]);
      WordEndIs(s, i + 1);
    }
  }

  /** A quoted part ends at its first closing mark, whatever follows. */
  lemma QuotedPartIff(s: string, i: nat, e: nat)
    requires i < e <= |s| && s[i] in {'"', '`', '['}
    ensures Part(s[i..e]) <==> PartEnd(s, i) == Some(e)
  {
    hide L.Until, WordEnd, Quoted, LetterOrDigit;
    QuotedIff(s, i, e, '"', '"');
    QuotedIff(s, i, e, '`', '`');
    QuotedIff(s, i, e, '[', ']');
    assert s[i..e][0] == s[i];
  }

  /** Where a name stops: nothing that a name could go on with. */
  predicate Stops(s: string, e: nat) {
    e < |s| ==> !LetterOrDigit(s[e]) && s[e] != '.'
  }

  lemma PartOf(s: string, i: nat)
    requires i <= |s| && PartEnd(s, i).Some?
    ensures Part(s[i..PartEnd(s, i).value])
  {
    hide Part, PartEnd;
    NoWordAfter(s, i);
    PartEndInside(s, i);
    if s[i] in {'"', '`', '['} {
      QuotedPartIff(s, i, PartEnd(s, i).value);
    } else {
      PartIff(s, i, PartEnd(s, i).value);
    }
  }

  lemma PartEndInside(s: string, i: nat)
    requires i <= |s| && PartEnd(s, i).Some?
    ensures i < PartEnd(s, i).value <= |s|
  {
  }

  /** What is found as a name is one. */
  lemma {:induction false} NameFound(s: string, i: nat)
    requires i <= |s| && NameEnd(s, i).Some?
    ensures NameFrom(s, i, NameEnd(s, i).value)
    decreases |s| - i
  {
    hide Part, PartEnd;
    PartOf(s, i);
    PartEndInside(s, i);
    var m := PartEnd(s, i).value;
    if m < |s| && s[m] == '.' {
      NameFound(s, m + 1);
    }
  }

  /** A name that stops is found. */
  lemma {:induction false} NameIsFound(s: string, i: nat, e: nat)
    requires i < e <= |s| && NameFrom(s, i, e) && Stops(s, e)
    ensures NameEnd(s, i) == Some(e)
    decreases e - i
  {
    hide Part, PartEnd, LetterOrDigit;
    var m :| i < m <= e && Part(s[i..m]) && (m == e || (s[m] == '.' && NameFrom(s, m + 1, e)));
    DotIsNoLetter();
    PartIff(s, i, m);
    if m < e {
      NotEmpty(s, m + 1, e);
      NameIsFound(s, m + 1, e);
    }
  }

  lemma DotIsNoLetter()
    ensures !LetterOrDigit('.')
  {
  }

  lemma NotEmpty(s: string, i: nat, e: nat)
    requires e <= |s| && NameFrom(s, i, e)
    ensures i < e
  {
  }

  lemma SpaceStops(s: string, e: nat)
    requires e < |s| && Space(s[e])
    ensures Stops(s, e)
  {
  }

  /** The whole test is found exactly where it stands. */
  lemma TestIff(s: string, a: nat, e: nat, neg: bool)
    requires a <= |s|
    ensures TestAt(s, a) == Some((e, neg)) <==> IsTest(s, a, e, neg)
  {
    hide NameEnd, NameFrom, Blanks, InAt, NotInAt, EndsIn, EndsNotIn, Space;
    if NameEnd(s, a).Some? {
      var n := NameEnd(s, a).value;
      NameFound(s, a);
      NameInside(s, a);
      var b := Blanks(s, n);
      BlanksAreSpaces(s, n);
      InIff(s, b);
      NotInIff(s, b);
      AtEnd(s, b);
    }
    if IsTest(s, a, e, neg) {
      var p :| e < p < |s| && Spaces(s, e, p) && if neg then EndsNotIn(s, p) else EndsIn(s, p);
      SpaceStops(s, e);
      NameIsFound(s, a, e);
      AtEnd(s, p);
      SpacesStop(s, e, p);
      InIff(s, p);
      NotInIff(s, p);
    }
  }

  lemma NameInside(s: string, i: nat)
    requires i <= |s| && NameEnd(s, i).Some?
    ensures i < NameEnd(s, i).value <= |s|
  {
  }

  lemma AtEnd(s: string, p: nat)
    ensures EndsIn(s, p) || EndsNotIn(s, p) ==> p < |s| && !Space(s[p])
    ensures !(EndsIn(s, p) && EndsNotIn(s, p))
  {
    hide EndsIn, EndsNotIn, Space;
    if EndsNotIn(s, p) {
      NotIsNoSpace(s, p);
    } else if EndsIn(s, p) {
      InIsNoSpace(s, p);
    }
  }

  lemma {:induction false} FirstIff(s: string, from: nat, a: nat, e: nat, neg: bool)
    requires from <= |s|
    ensures FirstTest(s, from) == Some((a, e, neg)) <==>
            from <= a < |s| && IsTest(s, a, e, neg) && forall b: nat, f, n | from <= b < a :: !IsTest(s, b, f, n)
    decreases |s| - from
  {
    hide IsTest, TestAt;
    if from < |s| {
      forall f: nat, n
        ensures TestAt(s, from) == Some((f, n)) <==> IsTest(s, from, f, n)
      {
        TestIff(s, from, f, n);
      }
      if TestAt(s, from).None? {
        FirstIff(s, from + 1, a, e, neg);
      }
    }
  }

  /** The test of a column ends the text: it is the first place from which the rest of the text is a
      name, IN or NOT IN and an opening bracket, and its name is none of ten keywords. */
  ghost predicate TestsColumn(s: string, a: nat, neg: bool) {
    exists e | a < e <= |s| ::
      && IsTest(s, a, e, neg)
      && (forall b: nat, f, n | 0 <= b < a :: !IsTest(s, b, f, n))
      && Q.Upper(s[a..e]) !in {"NOT", "AND", "OR", "WHERE", "ON", "WHEN", "THEN", "ELSE", "HAVING", "SELECT"}
  }

  lemma ColumnTestIff(s: string, a: nat, neg: bool)
    ensures ColumnTest(s) == Some((a, neg)) <==> TestsColumn(s, a, neg)
  {
    hide IsTest, FirstTest;
    var first := FirstTest(s, 0);
    if first.Some? {
      FirstIff(s, 0, first.value.0, first.value.1, first.value.2);
    }
    forall e: nat | a < e <= |s| && IsTest(s, a, e, neg) && (forall b: nat, f, n | 0 <= b < a :: !IsTest(s, b, f, n))
      ensures FirstTest(s, 0) == Some((a, e, neg))
    {
      FirstIff(s, 0, a, e, neg);
    }
  }

  /** NOT IN and an opening bracket end the text, as words of their own. */
  predicate TestsNotIn(s: string) {
    exists p | 0 <= p < |s| :: EndsNotIn(s, p) && (p == 0 || !AsciiWord(s[p - 1]))
  }

  predicate AsciiWord(c: char) {
    var k := c as int; 48 <= k <= 57 || 65 <= k <= 90 || k == 95 || 97 <= k <= 122
  }

  lemma {:induction false} NotInFrom(s: string, i: nat)
    requires i <= |s|
    ensures EndsInNotIn(s, i) <==> exists p | i <= p < |s| :: EndsNotIn(s, p) && (p == 0 || !AsciiWord(s[p - 1]))
    decreases |s| - i
  {
    hide EndsNotIn, NotInAt;
    NotInIff(s, i);
    AtEnd(s, i);
    if i < |s| {
      NotInFrom(s, i + 1);
    }
  }

  /** The bracket that closes the list: only spaces stand before it. */
  predicate Closes(ps: seq<Piece>, n: nat) {
    0 < n <= |ps| && ps[n - 1] == Ch(')') && forall k | 0 <= k < n - 1 :: ps[k].Ch? && Q.IsSpace(ps[k].c)
  }

  lemma {:induction false} CloseIff(ps: seq<Piece>, n: nat)
    ensures CloseAt(ps) == Some(n) <==> Closes(ps, n)
    decreases ps
  {
    hide Q.IsSpace;
    BracketIsNoSpace();
    if ps != [] {
      assert forall k | 0 < k < |ps| :: ps[k] == ps[1..][k - 1];
      if n > 1 {
        CloseIff(ps[1..], n - 1);
      }
    }
  }

  lemma BracketIsNoSpace()
    ensures !Q.IsSpace(')')
  {
  }
}
