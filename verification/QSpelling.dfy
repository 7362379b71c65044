/** How operators may be written: their words in any letter case, with any blanks around and between. */
module QSpelling {
  import opened Wrappers
  import opened SqlIdent
  import opened Q

  // ----- words and blanks -----

  /** unicode.IsSpace, in character codes. */
  predicate Blank(c: char) {
    var k := c as int;
    9 <= k <= 13 || k in {32, 133, 160, 5760, 8232, 8233, 8239, 8287, 12288} || 8192 <= k <= 8202
  }

  predicate AllBlank(s: string) {
    forall i | 0 <= i < |s| :: Blank(s[i])
  }

  predicate IsWord(s: string) {
    s != "" && forall i | 0 <= i < |s| :: !Blank(s[i])
  }

  /** The words with the gaps before, between and after them. */
  function Spaced(gaps: seq<string>, words: seq<string>): string
    requires |gaps| == |words| + 1
  {
    if words == [] then gaps[0] else gaps[0] + (words[0] + Spaced(gaps[1..], words[1..]))
  }

  predicate AreGaps(gaps: seq<string>, words: seq<string>) {
    && |gaps| == |words| + 1
    && (forall i | 0 <= i < |gaps| :: AllBlank(gaps[i]))
    && (forall i | 0 < i < |words| :: gaps[i] != "")
  }

  /** The blank-separated words of a text. */
  ghost predicate IsWords(s: string, words: seq<string>) {
    exists gaps :: IsSpaced(s, gaps, words)
  }

  predicate IsSpaced(s: string, gaps: seq<string>, words: seq<string>) {
    (forall i | 0 <= i < |words| :: IsWord(words[i])) && AreGaps(gaps, words) && Spaced(gaps, words) == s
  }

  lemma BlankIsSpace(c: char)
    ensures Blank(c) <==> IsSpace(c)
  {
  }

  lemma {:induction false} SkipGap(gap: string, t: string)
    requires AllBlank(gap)
    ensures Fields(gap + t) == Fields(t)
  {
    if gap == "" {
      assert gap + t == t;
    } else {
      BlankIsSpace(gap[0]);
      assert (gap + t)[1..] == gap[1..] + t;
      SkipGap(gap[1..], t);
    }
  }

  lemma {:induction false} WordEnds(word: string, t: string)
    requires (forall i | 0 <= i < |word| :: !Blank(word[i])) && (t == "" || Blank(t[0]))
    ensures WordLength(word + t) == |word|
  {
    hide Blank, IsSpace;
    if word == "" {
      assert word + t == t;
      if t != "" {
        BlankIsSpace(t[0]);
      }
    } else {
      BlankIsSpace(word[0]);
      assert (word + t)[1..] == word[1..] + t;
      WordEnds(word[1..], t);
    }
  }

  lemma FirstWord(word: string, t: string)
    requires IsWord(word) && (t == "" || Blank(t[0]))
    ensures Fields(word + t) == [word] + Fields(t)
  {
    hide Blank, IsSpace, WordLength;
    BlankIsSpace(word[0]);
    WordEnds(word, t);
    assert (word + t)[..|word|] == word && (word + t)[|word|..] == t;
  }

  lemma {:induction false} FieldsOf(gaps: seq<string>, words: seq<string>)
    requires AreGaps(gaps, words) && forall i | 0 <= i < |words| :: IsWord(words[i])
    ensures Fields(Spaced(gaps, words)) == words
    decreases |words|
  {
    hide IsWord, Fields;
    if words == [] {
      SkipGap(gaps[0], "");
      assert gaps[0] + "" == gaps[0];
      NoFields();
    } else {
      var rest := Spaced(gaps[1..], words[1..]);
      SkipGap(gaps[0], words[0] + rest);
      RestIsGap(gaps, words);
      FirstWord(words[0], rest);
      FieldsOf(gaps[1..], words[1..]);
    }
  }

  lemma NoFields()
    ensures Fields("") == []
  {
  }

  lemma RestIsGap(gaps: seq<string>, words: seq<string>)
    requires AreGaps(gaps, words) && words != []
    ensures AreGaps(gaps[1..], words[1..])
    ensures var rest := Spaced(gaps[1..], words[1..]); rest == "" || Blank(rest[0])
  {
    hide Blank;
    var rest := Spaced(gaps[1..], words[1..]);
    if gaps[1] != "" {
      assert rest[0] == gaps[1][0];
    }
  }

  /** Every text has its words. */
  lemma {:induction false} FieldsAre(s: string) returns (gaps: seq<string>)
    ensures IsSpaced(s, gaps, Fields(s))
    ensures s != "" && Blank(s[0]) ==> gaps[0] != ""
    decreases |s|
  {
    hide Blank, IsSpace, WordLength, IsSpaced, Fields;
    if s == "" {
      gaps := [""];
      NothingSpaced();
    } else {
      BlankIsSpace(s[0]);
      if Blank(s[0]) {
        var later := FieldsAre(s[1..]);
        gaps := BlankFirst(s, later);
      } else {
        var n := WordLength(s);
        WordIs(s);
        WordIsLong(s);
        var later := FieldsAre(s[n..]);
        gaps := WordFirst(s, n, later);
      }
    }
  }

  lemma NothingSpaced()
    ensures IsSpaced("", [""], Fields(""))
  {
  }

  lemma BlankFirst(s: string, later: seq<string>) returns (gaps: seq<string>)
    requires s != "" && Blank(s[0]) && IsSpaced(s[1..], later, Fields(s[1..]))
    ensures IsSpaced(s, gaps, Fields(s)) && gaps[0] != ""
  {
    hide Blank, IsWord, IsSpace;
    BlankIsSpace(s[0]);
    gaps := [[s[0]] + later[0]] + later[1..];
    assert gaps[1..] == later[1..];
    assert [s[0]] + s[1..] == s;
    assert Fields(s) == Fields(s[1..]);
  }

  lemma WordIsLong(s: string)
    requires s != "" && !Blank(s[0])
    ensures WordLength(s) > 0
  {
    BlankIsSpace(s[0]);
  }

  lemma WordFirst(s: string, n: nat, later: seq<string>) returns (gaps: seq<string>)
    requires s != "" && !Blank(s[0]) && 0 < n == WordLength(s) && forall i | 0 <= i < n :: !Blank(s[i])
    requires IsSpaced(s[n..], later, Fields(s[n..])) && (n < |s| ==> later[0] != "")
    ensures IsSpaced(s, gaps, Fields(s))
  {
    hide Blank, IsSpace, WordLength;
    BlankIsSpace(s[0]);
    var rest := Fields(s[n..]);
    gaps := [""] + later;
    var words := [s[..n]] + rest;
    assert Fields(s) == words && gaps[1..] == later && words[1..] == rest;
    assert "" + (s[..n] + s[n..]) == s;
    assert forall i | 0 < i < |words| :: words[i] == rest[i - 1];
    if n == |s| {
      assert s[n..] == "";
      NothingSpaced();
      NoFields();
    }
  }

  lemma {:induction false} WordIs(s: string)
    ensures var n := WordLength(s);
            (forall i | 0 <= i < n :: !Blank(s[i])) && (n < |s| ==> Blank(s[n]))
  {
    hide Blank, IsSpace;
    if s != "" {
      BlankIsSpace(s[0]);
      if !IsSpace(s[0]) {
        WordIs(s[1..]);
        assert forall i | 0 < i < |s| :: s[i] == s[1..][i - 1];
      }
    }
  }

  lemma WordsAreFields(s: string, words: seq<string>)
    ensures IsWords(s, words) <==> words == Fields(s)
  {
    hide Fields, AreGaps, Spaced;
    var gaps := FieldsAre(s);
    if IsWords(s, words) {
      var g :| IsSpaced(s, g, words);
      FieldsOf(g, words);
    }
  }

  // ----- letter case -----

  /** c stands for the capital or sign u: itself, its small letter, or one of the two other letters
      whose capital is ASCII (the dotless i and the long s). */
  predicate StandsFor(c: char, u: char) {
    c == u || ('A' <= u <= 'Z' && c as int == u as int + 32)
    || (u == 'I' && c as int == 0x131) || (u == 'S' && c as int == 0x17F)
  }

  predicate SameWord(w: string, capitals: string) {
    |w| == |capitals| && forall i | 0 <= i < |w| :: StandsFor(w[i], capitals[i])
  }

  /** The words of s, in any letter case, are these. */
  ghost predicate Spells(s: string, words: seq<string>) {
    exists ws :: IsWords(s, ws) && SameWords(ws, words)
  }

  predicate SameWords(ws: seq<string>, words: seq<string>) {
    |ws| == |words| && forall i | 0 <= i < |ws| :: SameWord(ws[i], words[i])
  }

  /** Capitals and comparison signs. */
  predicate IsPlain(w: string) {
    w != "" && forall i | 0 <= i < |w| :: 'A' <= w[i] <= 'Z' || w[i] in {'=', '!', '<', '>'}
  }

  lemma UpperIsSame(w: string, capitals: string)
    requires IsPlain(capitals)
    ensures Upper(w) == capitals <==> SameWord(w, capitals)
  {
    if Upper(w) == capitals {
      forall i | 0 <= i < |w|
        ensures StandsFor(w[i], capitals[i])
      {
        assert Upper(w)[i] == ToUpper(w[i]);
      }
    }
  }

  function Uppers(ws: seq<string>): (r: seq<string>)
    ensures |r| == |ws|
  {
    seq(|ws|, i requires 0 <= i < |ws| => Upper(ws[i]))
  }

  lemma {:induction false} UpperJoins(ws: seq<string>)
    ensures Upper(Join(ws, " ")) == Join(Uppers(ws), " ")
  {
    if |ws| > 1 {
      UpperJoins(ws[1..]);
      assert Uppers(ws)[1..] == Uppers(ws[1..]);
      var rest := Join(ws[1..], " ");
      assert Upper(ws[0] + " " + rest) == Upper(ws[0]) + " " + Upper(rest);
    }
  }

  lemma NoBlankInside(w: string)
    ensures IsWord(w) ==> ' ' !in Upper(w)
    ensures IsPlain(w) ==> ' ' !in w
  {
    assert forall i | 0 <= i < |w| :: Upper(w)[i] == ToUpper(w[i]);
  }

  lemma JoinsDiffer(a: seq<string>, b: seq<string>)
    requires b != [] && (forall i | 0 <= i < |a| :: ' ' !in a[i]) && (forall i | 0 <= i < |b| :: ' ' !in b[i])
    requires b[0] != ""
    ensures Join(a, " ") == Join(b, " ") <==> a == b
  {
    StartsNotEmpty(b);
    SplitJoin(b, ' ');
    if a != [] {
      SplitJoin(a, ' ');
    }
  }

  lemma StartsNotEmpty(b: seq<string>)
    requires b != [] && b[0] != ""
    ensures Join(b, " ") != ""
  {
  }

  /** The normal form of an operator is made of its words. */
  lemma NormalizedIff(s: string, words: seq<string>)
    requires words != [] && forall i | 0 <= i < |words| :: IsPlain(words[i])
    ensures Normalized(s) == Join(words, " ") <==> Spells(s, words)
  {
    hide Fields, IsWords, Upper, SameWord, IsPlain, IsWord, Join;
    var ws := Fields(s);
    WordsAreFields(s, ws);
    WordsAreWords(s);
    UpperJoins(ws);
    forall i | 0 <= i < |ws|
      ensures ' ' !in Uppers(ws)[i]
    {
      NoBlankInside(ws[i]);
    }
    forall i | 0 <= i < |words|
      ensures ' ' !in words[i] && words[i] != ""
    {
      NoBlankInside(words[i]);
      PlainNotEmpty(words[i]);
    }
    JoinsDiffer(Uppers(ws), words);
    UppersAre(ws, words);
    forall v | IsWords(s, v)
      ensures v == ws
    {
      WordsAreFields(s, v);
    }
  }

  lemma PlainNotEmpty(w: string)
    requires IsPlain(w)
    ensures w != ""
  {
  }

  lemma WordsAreWords(s: string)
    ensures forall i | 0 <= i < |Fields(s)| :: IsWord(Fields(s)[i])
  {
    hide Fields, IsWord;
    var gaps := FieldsAre(s);
  }

  lemma UppersAre(ws: seq<string>, words: seq<string>)
    requires forall i | 0 <= i < |words| :: IsPlain(words[i])
    ensures Uppers(ws) == words <==> SameWords(ws, words)
  {
    hide IsPlain, SameWord, Upper;
    if |ws| == |words| {
      forall i | 0 <= i < |ws|
        ensures Upper(ws[i]) == words[i] <==> SameWord(ws[i], words[i])
      {
        UpperIsSame(ws[i], words[i]);
      }
      if Uppers(ws) == words {
        assert forall i | 0 <= i < |ws| :: Uppers(ws)[i] == Upper(ws[i]);
      }
    }
  }

  // ----- the table of operators -----

  /** Each operator with the words it may be written with. */
  function Spellings(op: Op): set<seq<string>> {
    match op
    case Cmp(Eq) => {["="]}
    case Cmp(Ne) => {["!="], ["<>"]}
    case Cmp(Gt) => {[">"]}
    case Cmp(Gte) => {[">="]}
    case Cmp(Lt) => {["<"]}
    case Cmp(Lte) => {["<="]}
    case In => {["IN"]}
    case NotIn => {["NOT", "IN"]}
    case Like => {["LIKE"]}
    case NotLike => {["NOT", "LIKE"]}
    case IsNull => {["IS", "NULL"]}
    case IsNotNull => {["IS", "NOT", "NULL"]}
  }

  lemma NormalForms(s: string)
    ensures Normalized(s) == "=" <==> Spells(s, ["="])
    ensures Normalized(s) == "!=" <==> Spells(s, ["!="])
    ensures Normalized(s) == "<>" <==> Spells(s, ["<>"])
    ensures Normalized(s) == ">" <==> Spells(s, [">"])
    ensures Normalized(s) == ">=" <==> Spells(s, [">="])
    ensures Normalized(s) == "<" <==> Spells(s, ["<"])
    ensures Normalized(s) == "<=" <==> Spells(s, ["<="])
    ensures Normalized(s) == "IN" <==> Spells(s, ["IN"])
    ensures Normalized(s) == "NOT IN" <==> Spells(s, ["NOT", "IN"])
    ensures Normalized(s) == "LIKE" <==> Spells(s, ["LIKE"])
    ensures Normalized(s) == "NOT LIKE" <==> Spells(s, ["NOT", "LIKE"])
    ensures Normalized(s) == "IS NULL" <==> Spells(s, ["IS", "NULL"])
    ensures Normalized(s) == "IS NOT NULL" <==> Spells(s, ["IS", "NOT", "NULL"])
  {
    hide Normalized, Spells;
    OneWord(s, "=");
    OneWord(s, "!=");
    OneWord(s, "<>");
    OneWord(s, ">");
    OneWord(s, ">=");
    OneWord(s, "<");
    OneWord(s, "<=");
    OneWord(s, "IN");
    OneWord(s, "LIKE");
    TwoWords(s, "NOT", "IN", "NOT IN");
    TwoWords(s, "NOT", "LIKE", "NOT LIKE");
    TwoWords(s, "IS", "NULL", "IS NULL");
    NormalizedIff(s, ["IS", "NOT", "NULL"]);
    assert Join(["IS", "NOT", "NULL"], " ") == "IS" + " " + Join(["NOT", "NULL"], " ") == "IS NOT NULL" by {
      assert ["IS", "NOT", "NULL"][1..] == ["NOT", "NULL"];
      JoinTwo("NOT", "NULL");
    }
  }

  lemma OneWord(s: string, w: string)
    requires IsPlain(w)
    ensures Normalized(s) == w <==> Spells(s, [w])
  {
    hide Normalized, Spells, IsPlain;
    NormalizedIff(s, [w]);
  }

  lemma TwoWords(s: string, v: string, w: string, text: string)
    requires IsPlain(v) && IsPlain(w) && text == v + " " + w
    ensures Normalized(s) == text <==> Spells(s, [v, w])
  {
    hide Normalized, Spells, IsPlain, Join;
    NormalizedIff(s, [v, w]);
    JoinTwo(v, w);
  }

  lemma JoinTwo(v: string, w: string)
    ensures Join([v, w], " ") == v + " " + w
  {
    assert [v, w][1..] == [w];
  }

  /** ParseOp reads exactly the operators that are written with their words. */
  lemma ParseOpIff(s: string, op: Op)
    ensures ParseOp(s) == Some(op) <==> exists words | words in Spellings(op) :: Spells(s, words)
  {
    hide Normalized, Spells;
    NormalForms(s);
  }

  // ----- the operators' own texts -----

  lemma {:induction false} JoinedWords(words: seq<string>) returns (gaps: seq<string>)
    requires words != [] && forall i | 0 <= i < |words| :: IsWord(words[i])
    ensures IsSpaced(Join(words, " "), gaps, words) && gaps[0] == ""
  {
    hide IsWord, Blank;
    SpaceIsBlank();
    if |words| == 1 {
      gaps := ["", ""];
      assert Spaced([""], []) == "";
      assert gaps[1..] == [""] && words[1..] == [];
      assert words[0] + "" == words[0] && "" + words[0] == words[0];
    } else {
      var later := JoinedWords(words[1..]);
      gaps := ["", " "] + later[1..];
      assert forall i | 2 <= i < |gaps| :: gaps[i] == later[i - 1];
      var rest := words[1..];
      assert gaps[1..] == [" "] + later[1..] && gaps[1..][1..] == later[1..];
      var tail := rest[0] + Spaced(later[1..], rest[1..]);
      assert Spaced(later, rest) == "" + tail == tail;
      assert Spaced(gaps[1..], rest) == " " + tail;
      assert "" + (words[0] + (" " + tail)) == words[0] + " " + tail;
    }
  }

  lemma SpaceIsBlank()
    ensures AllBlank(" ") && AllBlank("")
  {
  }

  lemma PlainIsWord(w: string)
    requires IsPlain(w)
    ensures IsWord(w) && SameWord(w, w)
  {
  }

  lemma CapitalsSpell(words: seq<string>)
    requires words != [] && forall i | 0 <= i < |words| :: IsPlain(words[i])
    ensures Spells(Join(words, " "), words)
  {
    hide IsPlain, IsWord, SameWord;
    forall i | 0 <= i < |words|
      ensures IsWord(words[i]) && SameWord(words[i], words[i])
    {
      PlainIsWord(words[i]);
    }
    var gaps := JoinedWords(words);
    assert IsWords(Join(words, " "), words) && SameWords(words, words);
  }

  /** Where keeps the text of the operator it has read, which is read again as the same operator. */
  lemma OwnTextIsRead(op: Op)
    ensures ParseOp(OpText(op)) == Some(op)
  {
    hide Spells, Normalized, Join;
    var text := OpText(op);
    NormalForms(text);
    match op
    case Cmp(_) => OneSpells(text);
    case In => OneSpells("IN");
    case Like => OneSpells("LIKE");
    case NotIn =>
      TwoSpell("NOT", "IN");
      assert "NOT" + " " + "IN" == text;
    case NotLike =>
      TwoSpell("NOT", "LIKE");
      assert "NOT" + " " + "LIKE" == text;
    case IsNull =>
      TwoSpell("IS", "NULL");
      assert "IS" + " " + "NULL" == text;
    case IsNotNull =>
      ThreeSpell("IS", "NOT", "NULL");
      assert "IS" + " " + ("NOT" + " " + "NULL") == text;
  }

  lemma OneSpells(w: string)
    requires IsPlain(w)
    ensures Spells(w, [w])
  {
    hide IsPlain;
    CapitalsSpell([w]);
  }

  lemma TwoSpell(v: string, w: string)
    requires IsPlain(v) && IsPlain(w)
    ensures Spells(v + " " + w, [v, w])
  {
    hide IsPlain, Join;
    CapitalsSpell([v, w]);
    JoinTwo(v, w);
  }

  lemma ThreeSpell(u: string, v: string, w: string)
    requires IsPlain(u) && IsPlain(v) && IsPlain(w)
    ensures Spells(u + " " + (v + " " + w), [u, v, w])
  {
    hide IsPlain, Join;
    CapitalsSpell([u, v, w]);
    JoinThree(u, v, w);
  }

  lemma JoinThree(u: string, v: string, w: string)
    ensures Join([u, v, w], " ") == u + " " + (v + " " + w)
  {
    assert [u, v, w][1..] == [v, w];
    JoinTwo(v, w);
  }
}
