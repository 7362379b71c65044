/** How a dialect reads SQL text as tokens, and what it reads in the compiler's pieces of text. */
module SqlLexer {
  import opened Wrappers
  import opened SqlIdent
  import opened SqlGrammar
  import opened Q

  function NameRun(s: string): (n: nat)
    ensures n <= |s|
  {
    if s == "" || !IsNameChar(s[0]) then 0 else 1 + NameRun(s[1..])
  }

  function DigitRun(s: string): (n: nat)
    ensures n <= |s| && forall i | 0 <= i < n :: IsDigit(s[i])
  {
    if s == "" || !IsDigit(s[0]) then 0 else 1 + DigitRun(s[1..])
  }

  /** How many characters precede the first c, or the length if there is none. */
  function Until(s: string, c: char): (n: nat)
    ensures n <= |s|
  {
    if s == "" || s[0] == c then 0 else 1 + Until(s[1..], c)
  }

  function KeywordOf(u: string): Option<Keyword> {
    if u == "AND" then Some(AND)
    else if u == "OR" then Some(OR)
    else if u == "NOT" then Some(NOT)
    else if u == "IN" then Some(IN)
    else if u == "LIKE" then Some(LIKE)
    else if u == "IS" then Some(IS)
    else if u == "NULL" then Some(NULL)
    else if u == "UPDATE" then Some(UPDATE)
    else if u == "SET" then Some(SET)
    else if u == "WHERE" then Some(WHERE)
    else if u == "CASE" then Some(CASE)
    else if u == "WHEN" then Some(WHEN)
    else if u == "THEN" then Some(THEN)
    else if u == "ELSE" then Some(ELSE)
    else if u == "END" then Some(END)
    else if u == "INSERT" then Some(INSERT)
    else if u == "INTO" then Some(INTO)
    else if u == "VALUES" then Some(VALUES)
    else None
  }

  /** Keywords are recognised in any letter case. */
  function WordToken(w: string): Token {
    match KeywordOf(Upper(w))
    case Some(k) => Kw(k)
    case None => Ident(w)
  }

  /** A word in capitals. */
  lemma CapitalsToken(w: string)
    requires forall i | 0 <= i < |w| :: 'A' <= w[i] <= 'Z'
    ensures WordToken(w) == match KeywordOf(w) case Some(k) => Kw(k) case None => Ident(w)
  {
    assert Upper(w) == w;
  }

  function OpenQuote(d: Dialect): char {
    match d
    case MySQL => '`'
    case SQLServer => '['
    case _ => '"'
  }

  function CloseQuote(d: Dialect): char {
    match d
    case MySQL => '`'
    case SQLServer => ']'
    case _ => '"'
  }

  /** The token at the start of s and its length. A question mark is a placeholder of the library that
      passes the statement on, whatever the dialect's own placeholders are. */
  function LexOne(d: Dialect, s: string): (r: (Token, nat))
    requires s != ""
    ensures 1 <= r.1 <= |s|
  {
    var c := s[0];
    var next := if |s| > 1 then s[1] else ' ';
    if c == '(' then (LParen, 1)
    else if c == ')' then (RParen, 1)
    else if c == ',' then (Comma, 1)
    else if c == '.' then (Dot, 1)
    else if c == '=' then (CmpTok(Eq), 1)
    else if c == '!' && next == '=' then (CmpTok(Ne), 2)
    else if c == '<' then
      if next == '=' then (CmpTok(Lte), 2) else if next == '>' then (CmpTok(Ne), 2) else (CmpTok(Lt), 1)
    else if c == '>' then
      if next == '=' then (CmpTok(Gte), 2) else (CmpTok(Gt), 1)
    else if c == '?' then (HoleTok(Next), 1)
    else if c == '$' && d == Postgres && IsDigit(next) then
      var n := DigitRun(s[1..]);
      (HoleTok(Numbered(Atoi(s[1..1 + n]))), 1 + n)
    else if c == '@' && next == 'p' && d == SQLServer then
      var n := DigitRun(s[2..]);
      (HoleTok(Numbered(Atoi(s[2..2 + n]))), 2 + n)
    else if c == OpenQuote(d) && d != Generic && Until(s[1..], CloseQuote(d)) < |s| - 1 then
      var n := Until(s[1..], CloseQuote(d));
      (Ident(s[1..1 + n]), n + 2)
    else if IsDigit(c) then
      var n := DigitRun(s);
      (Num(Atoi(s[..n])), n)
    else if IsNameStart(c) then
      var n := NameRun(s);
      (WordToken(s[..n]), n)
    else (Bad(c), 1)
  }

  function Lex(d: Dialect, s: string): Tokens
    decreases |s|
  {
    if s == "" then End
    else if s[0] == ' ' then Lex(d, s[1..])
    else
      var one := LexOne(d, s);
      Tok(one.0, Lex(d, s[one.1..]))
  }

  // ----- what is read from one piece followed by r -----

  lemma LexSpace(d: Dialect, r: string)
    ensures Lex(d, " " + r) == Lex(d, r)
  {
    assert (" " + r)[1..] == r;
  }

  lemma LexPiece(d: Dialect, piece: string, r: string)
    requires piece != "" && piece[0] != ' ' && LexOne(d, piece + r).1 == |piece|
    ensures Lex(d, piece + r) == Tok(LexOne(d, piece + r).0, Lex(d, r))
  {
    assert (piece + r)[|piece|..] == r;
  }

  lemma LexPunctuation(d: Dialect, r: string)
    ensures Lex(d, "(" + r) == Tok(LParen, Lex(d, r))
    ensures Lex(d, ")" + r) == Tok(RParen, Lex(d, r))
    ensures Lex(d, ", " + r) == Tok(Comma, Lex(d, r))
    ensures Lex(d, "." + r) == Tok(Dot, Lex(d, r))
  {
    LexPiece(d, "(", r);
    LexPiece(d, ")", r);
    LexPiece(d, ".", r);
    LexPiece(d, ",", " " + r);
    LexSpace(d, r);
    assert ", " + r == "," + (" " + r);
  }

  predicate EndsName(r: string) {
    r == "" || !IsNameChar(r[0])
  }

  lemma {:induction false} NameRunOf(w: string, r: string)
    requires forall i | 0 <= i < |w| :: IsNameChar(w[i])
    requires EndsName(r)
    ensures NameRun(w + r) == |w|
  {
    if w == "" {
      assert w + r == r;
    } else {
      assert (w + r)[1..] == w[1..] + r;
      NameRunOf(w[1..], r);
    }
  }

  lemma {:induction false} DigitRunOf(w: string, r: string)
    requires forall i | 0 <= i < |w| :: IsDigit(w[i])
    requires EndsName(r)
    ensures DigitRun(w + r) == |w|
  {
    if w == "" {
      assert w + r == r;
    } else {
      assert (w + r)[1..] == w[1..] + r;
      DigitRunOf(w[1..], r);
    }
  }

  lemma {:induction false} UntilOf(w: string, c: char, r: string)
    requires forall i | 0 <= i < |w| :: w[i] != c
    ensures Until(w + [c] + r, c) == |w|
  {
    if w != "" {
      assert (w + [c] + r)[1..] == w[1..] + [c] + r;
      UntilOf(w[1..], c, r);
    }
  }

  lemma LexWord(d: Dialect, w: string, r: string)
    requires w != "" && IsNameStart(w[0]) && forall i | 0 <= i < |w| :: IsNameChar(w[i])
    requires EndsName(r)
    ensures Lex(d, w + r) == Tok(WordToken(w), Lex(d, r))
  {
    NameRunOf(w, r);
    assert (w + r)[0] == w[0];
    assert (w + r)[..|w|] == w;
    LexPiece(d, w, r);
  }

  lemma SpaceEndsName(r: string)
    ensures EndsName(" " + r)
  {
  }

  /** A word with a space on each side. */
  lemma LexSpacedWord(d: Dialect, w: string, r: string)
    requires w != "" && IsNameStart(w[0]) && forall i | 0 <= i < |w| :: IsNameChar(w[i])
    ensures Lex(d, " " + w + " " + r) == Tok(WordToken(w), Lex(d, r))
  {
    hide Lex, LexOne, WordToken, IsNameStart, IsNameChar;
    assert " " + w + " " + r == " " + (w + (" " + r));
    LexSpace(d, w + (" " + r));
    assert EndsName(" " + r) by { SpaceEndsName(r); }
    LexWord(d, w, " " + r);
    LexSpace(d, r);
  }

  /** The token of one part of a column name: only the unquoted Generic form can be mistaken for a keyword. */
  function PartToken(d: Dialect, p: string): Token {
    if d == Generic then WordToken(p) else Ident(p)
  }

  lemma LexOneQuoted(d: Dialect, s: string, p: string)
    requires d != Generic && |s| >= |p| + 2 && s[0] == OpenQuote(d)
    requires s[1..1 + |p|] == p && Until(s[1..], CloseQuote(d)) == |p|
    ensures LexOne(d, s) == (Ident(p), |p| + 2)
  {
    hide Until, DigitRun, NameRun, WordToken, Atoi, IsNameStart;
  }

  lemma QuotedParts(open: char, p: string, close: char, r: string)
    ensures var piece := [open] + p + [close];
            (piece + r)[0] == open && (piece + r)[1..] == p + [close] + r && (piece + r)[1..1 + |p|] == p
  {
  }

  lemma PartNeedsNoEscape(d: Dialect, p: string)
    requires ValidPart(p) && d != Generic
    ensures QuotePart(d, p) == [OpenQuote(d)] + p + [CloseQuote(d)]
    ensures forall i | 0 <= i < |p| :: p[i] != CloseQuote(d)
  {
  }

  lemma LexPart(d: Dialect, p: string, r: string)
    requires ValidPart(p) && EndsName(r)
    ensures Lex(d, QuotePart(d, p) + r) == Tok(PartToken(d, p), Lex(d, r))
  {
    hide LexOne, Lex, Until, QuotePart, OpenQuote, CloseQuote, WordToken;
    if d == Generic {
      GenericIsPlain(p);
      LexWord(d, p, r);
    } else {
      var piece := QuotePart(d, p);
      PartNeedsNoEscape(d, p);
      QuotedParts(OpenQuote(d), p, CloseQuote(d), r);
      UntilOf(p, CloseQuote(d), r);
      LexOneQuoted(d, piece + r, p);
      OpensWithQuote(d, piece);
      LexPiece(d, piece, r);
    }
  }

  lemma GenericIsPlain(p: string)
    ensures QuotePart(Generic, p) == p
  {
  }

  lemma OpensWithQuote(d: Dialect, piece: string)
    requires piece != "" && piece[0] == OpenQuote(d)
    ensures piece[0] != ' '
  {
  }

  function HoleAt(d: Dialect, k: nat): Hole {
    if d == Postgres || d == SQLServer then Numbered(k) else Next
  }

  lemma LexPlaceholder(d: Dialect, k: nat, r: string)
    requires EndsName(r)
    ensures Lex(d, Placeholder(d, k) + r) == Tok(HoleTok(HoleAt(d, k)), Lex(d, r))
  {
    hide LexOne, Lex, Itoa, Atoi, DigitRun;
    var num, piece := Itoa(k), Placeholder(d, k);
    AtoiItoa(k);
    if d == Postgres || d == SQLServer {
      var sign := if d == Postgres then "$" else "@p";
      DigitRunOf(num, r);
      Follows(sign, num, r);
      LexOneNumbered(d, piece + r, sign, num);
    } else {
      LexOneMark(d, piece + r);
    }
    LexPiece(d, piece, r);
  }

  lemma Follows(sign: string, num: string, r: string)
    ensures var s := (sign + num) + r;
            s[..|sign|] == sign && s[|sign|..] == num + r && s[|sign|..|sign| + |num|] == num
  {
  }

  lemma LexOneNumbered(d: Dialect, s: string, sign: string, num: string)
    requires (d == Postgres && sign == "$") || (d == SQLServer && sign == "@p")
    requires |s| >= |sign| + |num| && num != "" && s[..|sign|] == sign && s[|sign|..|sign| + |num|] == num
    requires DigitRun(s[|sign|..]) == |num| && IsDigit(num[0])
    ensures LexOne(d, s) == (HoleTok(Numbered(Atoi(num))), |sign| + |num|)
  {
    hide Until, DigitRun, NameRun, WordToken, Atoi;
    assert s[0] == sign[0] && (d == SQLServer ==> s[1] == sign[1]);
    assert s[|sign|] == num[0];
  }

  lemma LexOneMark(d: Dialect, s: string)
    requires s != "" && s[0] == '?'
    ensures LexOne(d, s) == (HoleTok(Next), 1)
  {
    hide Until, DigitRun, NameRun, WordToken, Atoi;
  }

  /** A comparison operator with a space on each side. */
  lemma LexCmp(d: Dialect, c: CmpOp, r: string)
    ensures Lex(d, " " + CmpText(c) + " " + r) == Tok(CmpTok(c), Lex(d, r))
  {
    hide Lex, LexOne, Until, DigitRun, NameRun, WordToken, CmpText;
    var w := CmpText(c);
    LexOneCmp(d, c, w + (" " + r));
    assert " " + w + " " + r == " " + (w + (" " + r));
    LexSpace(d, w + (" " + r));
    LexPiece(d, w, " " + r);
    LexSpace(d, r);
  }

  lemma LexOneCmp(d: Dialect, c: CmpOp, s: string)
    requires |s| > |CmpText(c)| && s[..|CmpText(c)|] == CmpText(c) && s[|CmpText(c)|] == ' '
    ensures CmpText(c) != "" && CmpText(c)[0] != ' ' && LexOne(d, s) == (CmpTok(c), |CmpText(c)|)
  {
    hide Until, DigitRun, NameRun, WordToken, Atoi;
    assert s[0] == CmpText(c)[0] && (|CmpText(c)| == 2 ==> s[1] == CmpText(c)[1]);
  }

  /** The constant conditions. */
  lemma LexConstant(d: Dialect, truth: bool, r: string)
    requires EndsName(r)
    ensures Lex(d, (if truth then "1=1" else "1=0") + r)
         == Tok(Num(1), Tok(CmpTok(Eq), Tok(Num(if truth then 1 else 0), Lex(d, r))))
  {
    hide Lex;
    var v, last := if truth then "1=1" else "1=0", if truth then "1" else "0";
    assert v + r == "1" + ("=" + (last + r));
    LexDigit(d, 1, "=" + (last + r));
    LexPiece(d, "=", last + r);
    LexDigit(d, if truth then 1 else 0, r);
  }

  lemma LexDigit(d: Dialect, n: nat, r: string)
    requires n < 2 && EndsName(r)
    ensures Lex(d, (if n == 1 then "1" else "0") + r) == Tok(Num(n), Lex(d, r))
  {
    var v := if n == 1 then "1" else "0";
    DigitRunOf(v, r);
    assert (v + r)[..1] == v;
    assert v[..0] == "";
    assert Atoi(v) == n;
    LexPiece(d, v, r);
  }
}
