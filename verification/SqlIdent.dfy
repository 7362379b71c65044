/** Identifiers and placeholders per dialect: pkg/sqlutil/ident.go. */
module SqlIdent {
  import opened Wrappers

  datatype Dialect = Generic | Postgres | MySQL | SQLite | SQLServer

  predicate IsNameStart(c: char) {
    'a' <= c <= 'z' || 'A' <= c <= 'Z' || c == '_'
  }

  predicate IsDigit(c: char) {
    '0' <= c <= '9'
  }

  predicate IsNameChar(c: char) {
    IsNameStart(c) || IsDigit(c)
  }

  /** identRe: a letter or underscore, then at most 127 letters, digits or underscores. */
  predicate ValidPart(p: string) {
    1 <= |p| <= 128 && IsNameStart(p[0]) && forall i | 0 <= i < |p| :: IsNameChar(p[i])
  }

  function Split(s: string, sep: char): (parts: seq<string>)
    ensures |parts| >= 1
  {
    if s == "" then [""]
    else
      var rest := Split(s[1..], sep);
      if s[0] == sep then [""] + rest else [[s[0]] + rest[0]] + rest[1..]
  }

  function Join(parts: seq<string>, sep: string): string {
    if |parts| == 0 then ""
    else if |parts| == 1 then parts[0]
    else parts[0] + sep + Join(parts[1..], sep)
  }

  /** Joining what Split cut restores the name, so a name is determined by its parts. */
  lemma {:induction false} JoinSplit(s: string, sep: char)
    ensures Join(Split(s, sep), [sep]) == s
  {
    if s != "" {
      JoinSplit(s[1..], sep);
      var rest := Split(s[1..], sep);
      if s[0] == sep {
        assert ([""] + rest)[1..] == rest;
        assert "" + [sep] + s[1..] == s;
      } else {
        var parts := [[s[0]] + rest[0]] + rest[1..];
        if |rest| > 1 {
          assert parts[1..] == rest[1..];
          assert [s[0]] + rest[0] + [sep] + Join(rest[1..], [sep])
                 == [s[0]] + (rest[0] + [sep] + Join(rest[1..], [sep]));
        }
        assert [s[0]] + s[1..] == s;
      }
    }
  }

  /** And splitting takes apart what was joined. */
  lemma {:induction false} SplitJoin(parts: seq<string>, sep: char)
    requires parts != [] && forall i | 0 <= i < |parts| :: sep !in parts[i]
    ensures Split(Join(parts, [sep]), sep) == parts
    decreases |parts|, |parts[0]|
  {
    var first, rest := parts[0], parts[1..];
    if first != "" {
      var shorter := [first[1..]] + rest;
      assert shorter[1..] == rest && sep !in first[1..];
      SplitJoin(shorter, sep);
      assert Join(parts, [sep]) == [first[0]] + Join(shorter, [sep]);
      assert first[0] in first && [first[0]] + first[1..] == first;
      assert [first] + rest == parts;
    } else if rest != [] {
      SplitJoin(rest, sep);
      assert Join(parts, [sep]) == [sep] + Join(rest, [sep]);
      assert [""] + rest == parts;
    }
  }

  predicate ValidName(name: string) {
    var parts := Split(name, '.');
    name != "" && |parts| <= 3 && forall i | 0 <= i < |parts| :: ValidPart(parts[i])
  }

  /** identRe in character codes. */
  predicate IsPartName(p: string) {
    0 < |p| < 129 && !(48 <= p[0] as int <= 57)
    && forall i | 0 <= i < |p| ::
         var c := p[i] as int; 48 <= c <= 57 || 65 <= c <= 90 || c == 95 || 97 <= c <= 122
  }

  lemma PartNameIff(p: string)
    ensures ValidPart(p) <==> IsPartName(p)
    ensures ValidPart(p) ==> '.' !in p
  {
  }

  /** A name is one to three parts with dots between them, each at most 128 letters, digits and
      underscores that do not start with a digit. */
  lemma ValidNameIff(name: string)
    ensures ValidName(name) <==> exists parts :: NameOf(name, parts)
  {
    hide ValidPart, IsPartName;
    if ValidName(name) {
      JoinSplit(name, '.');
      var parts := Split(name, '.');
      forall i | 0 <= i < |parts|
        ensures IsPartName(parts[i])
      {
        PartNameIff(parts[i]);
      }
      assert NameOf(name, parts);
    }
    forall parts | NameOf(name, parts)
      ensures ValidName(name)
    {
      forall i | 0 <= i < |parts|
        ensures ValidPart(parts[i]) && '.' !in parts[i]
      {
        PartNameIff(parts[i]);
      }
      SplitJoin(parts, '.');
      assert name != "" by { NotEmpty(parts[0]); }
    }
  }

  predicate NameOf(name: string, parts: seq<string>) {
    1 <= |parts| <= 3 && name == Join(parts, ".") && forall i | 0 <= i < |parts| :: IsPartName(parts[i])
  }

  lemma NotEmpty(p: string)
    requires ValidPart(p)
    ensures p != ""
  {
  }

  function QuotePart(d: Dialect, p: string): string {
    match d
    case Postgres => "\"" + p + "\""
    case SQLite => "\"" + p + "\""
    case MySQL => "`" + p + "`"
    case SQLServer => "[" + p + "]"
    case Generic => p
  }

  function QuoteParts(d: Dialect, parts: seq<string>): (r: seq<string>)
    ensures |r| == |parts| && forall i | 0 <= i < |r| :: r[i] == QuotePart(d, parts[i])
  {
    seq(|parts|, i requires 0 <= i < |parts| => QuotePart(d, parts[i]))
  }

  /** The text that QuoteIdent returns for a valid name. */
  function Quoted(d: Dialect, name: string): string {
    Join(QuoteParts(d, Split(name, '.')), ".")
  }

  method ValidateIdent(name: string) returns (ok: bool)
    ensures ok == ValidName(name)
  {
    if name == "" {
      return false;
    }
    var parts := Split(name, '.');
    if |parts| > 3 {
      return false;
    }
    for i := 0 to |parts|
      invariant forall j | 0 <= j < i :: ValidPart(parts[j])
    {
      if !ValidPart(parts[i]) {
        return false;
      }
    }
    return true;
  }

  method QuoteIdent(d: Dialect, name: string) returns (r: Option<string>)
    ensures r == if ValidName(name) then Some(Quoted(d, name)) else None
  {
    var ok := ValidateIdent(name);
    if !ok {
      return None;
    }
    var whole := Split(name, '.');
    var parts := whole;
    for i := 0 to |parts|
      invariant |parts| == |whole|
      invariant forall j | 0 <= j < i :: parts[j] == QuotePart(d, whole[j])
      invariant forall j | i <= j < |parts| :: parts[j] == whole[j]
    {
      parts := parts[i := QuotePart(d, parts[i])];
    }
    assert parts == QuoteParts(d, whole);
    return Some(Join(parts, "."));
  }

  // ----- decimal numerals -----

  function DigitChar(k: nat): (c: char)
    requires k < 10
    ensures IsDigit(c)
  {
    '0' + k as char
  }

  function DigitValue(c: char): (k: nat)
    requires IsDigit(c)
    ensures k < 10
  {
    c as int - '0' as int
  }

  function Itoa(n: nat): (s: string)
    ensures |s| >= 1 && forall i | 0 <= i < |s| :: IsDigit(s[i])
  {
    if n < 10 then [DigitChar(n)] else Itoa(n / 10) + [DigitChar(n % 10)]
  }

  function Atoi(s: string): nat
    requires forall i | 0 <= i < |s| :: IsDigit(s[i])
  {
    if s == "" then 0 else 10 * Atoi(s[..|s| - 1]) + DigitValue(s[|s| - 1])
  }

  lemma {:induction false} AtoiItoa(n: nat)
    ensures Atoi(Itoa(n)) == n
  {
    if n >= 10 {
      AtoiItoa(n / 10);
      assert Itoa(n)[..|Itoa(n)| - 1] == Itoa(n / 10);
    } else {
      assert Itoa(n)[..0] == "";
    }
  }

  /** The n-th placeholder, counting from 1. */
  function Placeholder(d: Dialect, n: nat): string {
    match d
    case Postgres => "$" + Itoa(n)
    case SQLServer => "@p" + Itoa(n)
    case _ => "?"
  }
}
