/** The names of migration files as they are written, and what loading makes of them. */
module MigrateNames {
  import opened Wrappers
  import opened SqlIdent
  import opened MigrateLoad

  // ----- names -----

  predicate AreDigits(v: string) {
    v != "" && forall i | 0 <= i < |v| :: 48 <= v[i] as int <= 57
  }

  /** Letters, digits, underscores, hyphens and dots. */
  predicate IsTitleCode(k: int) {
    48 <= k <= 57 || 65 <= k <= 90 || 97 <= k <= 122 || k == 95 || k == 45 || k == 46
  }

  predicate AreTitle(t: string) {
    t != "" && forall i | 0 <= i < |t| :: IsTitleCode(t[i] as int)
  }

  function UpFileName(v: string, t: string): string {
    v + "_" + t + ".up.sql"
  }

  function DownFileName(v: string, t: string): string {
    v + "_" + t + ".down.sql"
  }

  function PlainFileName(v: string, t: string): string {
    v + "_" + t + ".sql"
  }

  predicate IsUp(name: string, v: string, t: string) {
    AreDigits(v) && AreTitle(t) && name == UpFileName(v, t)
  }

  predicate IsDown(name: string, v: string, t: string) {
    AreDigits(v) && AreTitle(t) && name == DownFileName(v, t)
  }

  /** A file without a mark: the title does not end in one that follows something else. */
  predicate IsPlain(name: string, v: string, t: string) {
    AreDigits(v) && AreTitle(t) && name == PlainFileName(v, t)
    && (EndsWith(t, ".up") ==> |t| == 3) && (EndsWith(t, ".down") ==> |t| == 5)
  }

  /** c is the small letter, sign or dot l, or its capital; the long s is a case of s. */
  predicate IsCaseOf(c: char, l: char) {
    c == l || ('a' <= l <= 'z' && c as int == l as int - 32)
  }

  predicate EndsInCase(name: string, suffix: string) {
    |suffix| <= |name| && forall i | 0 <= i < |suffix| :: IsCaseOf(name[|name| - |suffix| + i], suffix[i])
  }

  predicate IsSql(name: string) {
    EndsInCase(name, ".sql")
    || (|name| >= 4 && name[|name| - 3] as int == 0x17F && name[|name| - 4] == '.'
        && IsCaseOf(name[|name| - 2], 'q') && IsCaseOf(name[|name| - 1], 'l'))
  }

  // ----- one name -----

  lemma DigitsIff(v: string)
    ensures AreDigits(v) <==> IsVersion(v)
  {
  }

  lemma TitleIff(t: string)
    ensures AreTitle(t) <==> IsTitle(t)
  {
  }

  /** Digits, an underscore, a title and a suffix are read back, and nothing else is. */
  lemma ParseWithIff(name: string, suffix: string, up: bool, v: string, t: string)
    ensures ParseWith(name, suffix, up) == Some(File(v, t, up))
       <==> AreDigits(v) && AreTitle(t) && name == v + "_" + t + suffix
    ensures ParseWith(name, suffix, up).Some? ==>
              ParseWith(name, suffix, up).value.File? && ParseWith(name, suffix, up).value.up == up
  {
    hide ParseWith, IsTitle, AreTitle, AreDigits, IsVersion;
    DigitsIff(v);
    TitleIff(t);
    ParsedIsFile(name, suffix, up);
    if IsVersion(v) && IsTitle(t) {
      WrittenIsParsed(v, t, suffix, up);
    }
    if ParseWith(name, suffix, up) == Some(File(v, t, up)) {
      ParsedIsWritten(name, suffix, up);
    }
  }

  lemma ParsedIsFile(name: string, suffix: string, up: bool)
    ensures ParseWith(name, suffix, up).Some? ==>
              ParseWith(name, suffix, up).value.File? && ParseWith(name, suffix, up).value.up == up
  {
  }

  lemma WrittenIsParsed(v: string, t: string, suffix: string, up: bool)
    requires IsVersion(v) && IsTitle(t)
    ensures ParseWith(v + "_" + t + suffix, suffix, up) == Some(File(v, t, up))
  {
    hide IsTitle, LeadingDigits, IsVersion;
    var name := v + "_" + t + suffix;
    assert name == v + ("_" + t + suffix);
    DigitsLead(v, "_" + t + suffix);
    VersionNotEmpty(v);
    assert name[|v|] == '_' && name[|v| + 1..] == t + suffix && name[..|v|] == v;
    assert (t + suffix)[|t|..] == suffix && name[|v| + 1..|name| - |suffix|] == t;
  }

  lemma VersionNotEmpty(v: string)
    requires IsVersion(v)
    ensures |v| > 0
  {
  }

  lemma ParsedIsWritten(name: string, suffix: string, up: bool)
    requires ParseWith(name, suffix, up).Some?
    ensures var p := ParseWith(name, suffix, up).value;
            p.File? && IsVersion(p.version) && IsTitle(p.title) && name == p.version + "_" + p.title + suffix
  {
    hide IsTitle;
    var n := LeadingDigits(name);
    var v, t := name[..n], name[n + 1..|name| - |suffix|];
    assert name[n + 1..] == t + suffix;
    assert name == v + [name[n]] + name[n + 1..];
    assert v + "_" + t + suffix == v + "_" + (t + suffix);
  }

  lemma {:induction false} DigitsLead(v: string, rest: string)
    requires IsVersion(v) && rest != "" && !IsDigit(rest[0])
    ensures LeadingDigits(v + rest) == |v|
  {
    assert (v + rest)[1..] == v[1..] + rest;
    if |v| == 1 {
      assert v[1..] + rest == rest;
    } else {
      DigitsLead(v[1..], rest);
    }
  }

  lemma LowerIff(name: string, suffix: string)
    requires forall i | 0 <= i < |suffix| :: suffix[i] == '.' || 'a' <= suffix[i] <= 'z'
    ensures EndsWith(Lower(name), suffix) <==> EndsInCase(name, suffix)
  {
    var n := |name| - |suffix|;
    if 0 <= n {
      assert forall i | 0 <= i < |suffix| :: Lower(name)[n..][i] == ToLower(name[n + i]);
      if EndsInCase(name, suffix) {
        assert Lower(name)[n..] == suffix;
      }
    }
  }

  lemma SqlIff(name: string)
    ensures HasSqlExtension(name) <==> IsSql(name)
  {
    var n := |name| - 4;
    if n >= 0 {
      assert forall i | 0 <= i < 4 :: name[n..][i] == name[n + i];
      if EndsInCase(name, ".sql") {
        assert IsCaseOf(name[n + 0], ".sql"[0]) && IsCaseOf(name[n + 1], ".sql"[1]);
        assert IsCaseOf(name[n + 2], ".sql"[2]) && IsCaseOf(name[n + 3], ".sql"[3]);
      }
    }
  }

  lemma EndsInSql(head: string, mark: string)
    ensures HasSqlExtension(head + (mark + ".sql"))
  {
    var name := head + (mark + ".sql");
    assert name[|name| - 4..] == ".sql";
  }

  /** The three readings of a name. */
  lemma Readings(name: string, v: string, t: string)
    ensures ParseWith(name, ".up.sql", true) == Some(File(v, t, true)) <==> IsUp(name, v, t)
    ensures ParseWith(name, ".down.sql", false) == Some(File(v, t, false)) <==> IsDown(name, v, t)
    ensures ParseWith(name, ".sql", true) == Some(File(v, t, true))
       <==> AreDigits(v) && AreTitle(t) && name == PlainFileName(v, t)
    ensures IsUp(name, v, t) || IsDown(name, v, t) || (AreDigits(v) && AreTitle(t) && name == PlainFileName(v, t)) ==>
              HasSqlExtension(name)
  {
    ParseWithIff(name, ".up.sql", true, v, t);
    ParseWithIff(name, ".down.sql", false, v, t);
    ParseWithIff(name, ".sql", true, v, t);
    hide ParseWith, AreDigits, AreTitle, HasSqlExtension;
    EndsInSql(v + "_" + t, ".up");
    EndsInSql(v + "_" + t, ".down");
    EndsInSql(v + "_" + t, "");
    assert ".up" + ".sql" == ".up.sql" && ".down" + ".sql" == ".down.sql" && "" + ".sql" == ".sql";
  }

  /** An up or down file read without its mark has the mark in its title. */
  lemma MarkInTitle(v: string, t: string, mark: string)
    requires mark == ".up" || mark == ".down"
    ensures AreTitle(t) ==> AreTitle(t + mark)
    ensures v + "_" + t + (mark + ".sql") == PlainFileName(v, t + mark)
  {
    assert v + "_" + t + (mark + ".sql") == v + "_" + (t + mark) + ".sql";
  }

  /** A title that ends in a mark after something else. */
  lemma TitleWithMark(t: string, mark: string)
    requires mark == ".up" || mark == ".down"
    requires AreTitle(t) && EndsWith(t, mark) && |t| > |mark|
    ensures AreTitle(t[..|t| - |mark|]) && t[..|t| - |mark|] + mark == t
  {
    assert t == t[..|t| - |mark|] + t[|t| - |mark|..];
  }

  /** A name is not an up file and a down file at once. */
  lemma NotBoth(name: string, v: string, t: string, v': string, t': string)
    ensures !(IsUp(name, v, t) && IsDown(name, v', t'))
  {
    LetterOfMark(v, t);
    LetterOfMark(v', t');
  }

  lemma LetterOfMark(v: string, t: string)
    ensures UpFileName(v, t)[|UpFileName(v, t)| - 5] == 'p' && DownFileName(v, t)[|DownFileName(v, t)| - 5] == 'n'
  {
  }

  /** A name without a mark is neither. */
  lemma PlainHasNoMark(name: string, v: string, t: string, v': string, t': string)
    requires IsPlain(name, v, t)
    ensures !IsUp(name, v', t') && !IsDown(name, v', t')
  {
    hide AreDigits, AreTitle, ParseWith;
    Readings(name, v, t);
    Readings(name, v', t' + ".up");
    Readings(name, v', t' + ".down");
    MarkInTitle(v', t', ".up");
    MarkInTitle(v', t', ".down");
    assert ".up" + ".sql" == ".up.sql" && ".down" + ".sql" == ".down.sql";
    EndsInMark(t', ".up");
    EndsInMark(t', ".down");
    TitleLong(t');
  }

  lemma EndsInMark(t: string, mark: string)
    ensures EndsWith(t + mark, mark)
  {
  }

  lemma TitleLong(t: string)
    ensures AreTitle(t) ==> |t| > 0
  {
  }

  // ----- what loading reads in a name -----

  /** The name is of a file with this version and title that goes up, or down. */
  predicate NameOf(name: string, plain: bool, v: string, t: string, up: bool) {
    if up then IsUp(name, v, t) || (plain && IsPlain(name, v, t)) else IsDown(name, v, t)
  }

  lemma ParseOfName(name: string, plain: bool, v: string, t: string, up: bool)
    requires NameOf(name, plain, v, t, up)
    ensures Parse(name, plain) == File(v, t, up)
  {
    hide AreDigits, AreTitle, ParseWith, HasSqlExtension;
    Readings(name, v, t);
    var u, d := ParseWith(name, ".up.sql", true), ParseWith(name, ".down.sql", false);
    ParseWithIff(name, ".up.sql", true, v, t);
    ParseWithIff(name, ".down.sql", false, v, t);
    if u.Some? {
      Readings(name, u.value.version, u.value.title);
      NotBoth(name, u.value.version, u.value.title, v, t);
    }
    if d.Some? {
      Readings(name, d.value.version, d.value.title);
    }
    if IsPlain(name, v, t) {
      PlainNeither(name, v, t);
    }
  }

  lemma PlainNeither(name: string, v: string, t: string)
    requires IsPlain(name, v, t)
    ensures ParseWith(name, ".up.sql", true).None? && ParseWith(name, ".down.sql", false).None?
  {
    hide AreDigits, AreTitle, ParseWith, IsPlain;
    var u, d := ParseWith(name, ".up.sql", true), ParseWith(name, ".down.sql", false);
    ParseWithIff(name, ".up.sql", true, v, t);
    ParseWithIff(name, ".down.sql", false, v, t);
    if u.Some? {
      Readings(name, u.value.version, u.value.title);
      PlainHasNoMark(name, v, t, u.value.version, u.value.title);
    }
    if d.Some? {
      Readings(name, d.value.version, d.value.title);
      PlainHasNoMark(name, v, t, d.value.version, d.value.title);
    }
  }

  lemma NameOfParsed(name: string, plain: bool)
    requires Parse(name, plain).File?
    ensures var p := Parse(name, plain); NameOf(name, plain, p.version, p.title, p.up)
  {
    hide AreDigits, AreTitle, ParseWith, HasSqlExtension;
    var p := Parse(name, plain);
    ParseWithIff(name, ".up.sql", true, p.version, p.title);
    ParseWithIff(name, ".down.sql", false, p.version, p.title);
    ParseWithIff(name, ".sql", true, p.version, p.title);
    Readings(name, p.version, p.title);
    if ParseWith(name, ".up.sql", true).None? && ParseWith(name, ".down.sql", false).None? {
      UnmarkedTitle(name, p.version, p.title, ".up");
      UnmarkedTitle(name, p.version, p.title, ".down");
    }
  }

  /** When a name is no up file, the title of what stands before .sql ends in no mark. */
  lemma UnmarkedTitle(name: string, v: string, t: string, mark: string)
    requires mark == ".up" || mark == ".down"
    requires AreDigits(v) && AreTitle(t) && name == PlainFileName(v, t)
    requires ParseWith(name, ".up.sql", true).None? && ParseWith(name, ".down.sql", false).None?
    ensures EndsWith(t, mark) ==> |t| == |mark|
  {
    hide AreDigits, AreTitle, ParseWith;
    assert ".up" + ".sql" == ".up.sql" && ".down" + ".sql" == ".down.sql";
    if EndsWith(t, mark) && |t| > |mark| {
      var u := t[..|t| - |mark|];
      TitleWithMark(t, mark);
      MarkInTitle(v, u, mark);
      Readings(name, v, u);
    }
  }

  /** A name is read as a file of a version and title exactly when it is written as one. */
  lemma ParseFileIff(name: string, plain: bool, v: string, t: string, up: bool)
    ensures Parse(name, plain) == File(v, t, up) <==> NameOf(name, plain, v, t, up)
  {
    hide NameOf, Parse;
    if Parse(name, plain) == File(v, t, up) {
      NameOfParsed(name, plain);
    }
    if NameOf(name, plain, v, t, up) {
      ParseOfName(name, plain, v, t, up);
    }
  }

  ghost predicate IsFileName(name: string, plain: bool) {
    exists v, t, up :: NameOf(name, plain, v, t, up)
  }

  /** Every other name is skipped, unless it is one that should have been right: with the extension, and
      with plain files allowed or a mark. */
  lemma ParseOtherIff(name: string, plain: bool)
    ensures Parse(name, plain).Invalid?
       <==> IsSql(name) && !IsFileName(name, plain)
            && (plain || EndsInCase(name, ".up.sql") || EndsInCase(name, ".down.sql"))
    ensures Parse(name, plain).Skip? <==> !Parse(name, plain).Invalid? && !IsFileName(name, plain)
  {
    hide NameOf, ParseWith, HasSqlExtension, EndsWith, EndsInCase, IsSql;
    SqlIff(name);
    LowerIff(name, ".up.sql");
    LowerIff(name, ".down.sql");
    if Parse(name, plain).File? {
      var p := Parse(name, plain);
      ParseFileIff(name, plain, p.version, p.title, p.up);
    }
    if IsFileName(name, plain) {
      var v, t, up :| NameOf(name, plain, v, t, up);
      ParseFileIff(name, plain, v, t, up);
    }
    ReadingsAreFiles(name);
  }

  lemma ReadingsAreFiles(name: string)
    ensures forall suffix, up :: ParseWith(name, suffix, up).Some? ==> ParseWith(name, suffix, up).value.File?
  {
  }

  // ----- whole directories -----

  /** A migration as it is written: its version and title, the name of its up file, and whether it has
      a down file. */
  datatype Written = Written(version: string, title: string, upFile: string, hasDown: bool)

  predicate IsWritten(x: Written, plain: bool) {
    NameOf(x.upFile, plain, x.version, x.title, true)
  }

  /** What loading should make of it. */
  function Loaded(x: Written): Migration {
    Migration(x.version, x.title, x.upFile, if x.hasDown then DownFileName(x.version, x.title) else "")
  }

  /** The directory holds the files of these migrations, each version number once, and beside them only
      names that are skipped. */
  ghost predicate Holds(names: seq<string>, plain: bool, ms: seq<Written>) {
    && (forall x | x in ms ::
          IsWritten(x, plain) && x.upFile in names && (x.hasDown ==> DownFileName(x.version, x.title) in names))
    && (forall x, y | x in ms && y in ms && x != y ::
          AreDigits(x.version) && AreDigits(y.version) && Value(x) != Value(y))
    && (forall n | n in names ::
          IsSkipped(n, plain)
          || exists x | x in ms :: n == x.upFile || (x.hasDown && n == DownFileName(x.version, x.title)))
  }

  function Value(x: Written): nat
    requires AreDigits(x.version)
  {
    DigitsIff(x.version);
    Atoi(x.version)
  }

  ghost predicate IsSkipped(n: string, plain: bool) {
    !IsFileName(n, plain) && !(IsSql(n) && (plain || EndsInCase(n, ".up.sql") || EndsInCase(n, ".down.sql")))
  }

  lemma SkippedIsSkip(n: string, plain: bool)
    requires IsSkipped(n, plain)
    ensures Parse(n, plain).Skip?
  {
    hide IsFileName, IsSql, EndsInCase, Parse;
    ParseOtherIff(n, plain);
  }

  /** What the files of a written migration are read as. */
  lemma WrittenFiles(x: Written, plain: bool)
    requires IsWritten(x, plain)
    ensures AreDigits(x.version) && IsVersion(x.version)
    ensures Parse(x.upFile, plain) == File(x.version, x.title, true)
    ensures Parse(DownFileName(x.version, x.title), plain) == File(x.version, x.title, false)
  {
    hide AreDigits, AreTitle, Parse, IsVersion;
    DigitsIff(x.version);
    ParseFileIff(x.upFile, plain, x.version, x.title, true);
    ParseFileIff(DownFileName(x.version, x.title), plain, x.version, x.title, false);
  }

  /** The name is read as one of the files of x. */
  predicate IsFileOf(n: string, plain: bool, x: Written) {
    match Parse(n, plain)
    case File(v, t, up) =>
      v == x.version && t == x.title && n == (if up then x.upFile else DownFileName(v, t)) && (!up ==> x.hasDown)
    case _ => false
  }

  /** Every file in the directory is one of a written migration. */
  lemma FileIsOf(names: seq<string>, plain: bool, ms: seq<Written>, n: string) returns (x: Written)
    requires Holds(names, plain, ms) && n in names && !Parse(n, plain).Skip?
    ensures x in ms && IsWritten(x, plain) && IsFileOf(n, plain, x)
  {
    hide IsSkipped, IsWritten, Parse, AreDigits, Value;
    if IsSkipped(n, plain) {
      SkippedIsSkip(n, plain);
    }
    x :| x in ms && (n == x.upFile || (x.hasDown && n == DownFileName(x.version, x.title)));
    WrittenFiles(x, plain);
  }

  /** Two written migrations of one key are one. */
  lemma KeyIsOne(ms: seq<Written>, names: seq<string>, plain: bool, x: Written, y: Written)
    requires Holds(names, plain, ms) && x in ms && y in ms
    requires NormVersion(x.version) == NormVersion(y.version)
    ensures x == y
  {
    hide Parse, NormVersion, IsSkipped, AreDigits, IsVersion;
    WrittenFiles(x, plain);
    WrittenFiles(y, plain);
    KeyIsNumber(x.version, y.version);
  }

  lemma HeldIsConsistent(names: seq<string>, plain: bool, ms: seq<Written>)
    requires Holds(names, plain, ms)
    ensures Consistent(names, plain)
  {
    hide Holds, Parse, NormVersion, IsWritten, AreDigits, IsVersion, DownFileName;
    forall n | n in names
      ensures !Parse(n, plain).Invalid?
    {
      if !Parse(n, plain).Skip? {
        var x := FileIsOf(names, plain, ms, n);
      }
    }
    forall m, n | m in names && n in names && SameVersion(m, n, plain)
      ensures Parse(m, plain).version == Parse(n, plain).version && Parse(m, plain).title == Parse(n, plain).title
      ensures Parse(m, plain).up && Parse(n, plain).up ==> m == n
    {
      var x := FileIsOf(names, plain, ms, m);
      var y := FileIsOf(names, plain, ms, n);
      KeyIsOne(ms, names, plain, x, y);
    }
    forall n | n in names && Parse(n, plain).File?
      ensures exists m | m in names :: SameVersion(m, n, plain) && Parse(m, plain).up
    {
      var x := FileIsOf(names, plain, ms, n);
      UpHeld(names, plain, ms, x);
      WrittenFiles(x, plain);
      assert SameVersion(x.upFile, n, plain);
    }
  }

  lemma UpHeld(names: seq<string>, plain: bool, ms: seq<Written>, x: Written)
    requires Holds(names, plain, ms) && x in ms
    ensures IsWritten(x, plain) && x.upFile in names && (x.hasDown ==> DownFileName(x.version, x.title) in names)
  {
  }

  /** A loaded migration of such a directory is a written one, with its files. */
  lemma LoadedIsWritten(names: seq<string>, plain: bool, ms: seq<Written>, r: seq<Migration>, mg: Migration)
    requires Holds(names, plain, ms) && Loads(names, plain, r) && mg in r
    ensures exists x | x in ms :: mg == Loaded(x)
  {
    hide Holds, Parse, NormVersion, IsWritten, AreDigits, IsVersion, DownFileName, Ascending;
    var x := FileIsOf(names, plain, ms, mg.upFile);
    assert mg.version == x.version && mg.name == x.title && mg.upFile == x.upFile;
    UpHeld(names, plain, ms, x);
    WrittenFiles(x, plain);
    if mg.downFile != "" {
      var y := FileIsOf(names, plain, ms, mg.downFile);
      KeyIsOne(ms, names, plain, x, y);
    }
    NoEmptyName(x.version, x.title);
    assert mg == Loaded(x);
  }

  lemma NoEmptyName(v: string, t: string)
    ensures DownFileName(v, t) != ""
  {
  }

  lemma WrittenIsLoaded(names: seq<string>, plain: bool, ms: seq<Written>, r: seq<Migration>, x: Written)
    requires Holds(names, plain, ms) && Loads(names, plain, r) && x in ms
    ensures Loaded(x) in r
  {
    hide Holds, Parse, NormVersion, IsWritten, AreDigits, IsVersion, DownFileName, Ascending, Gathers;
    UpHeld(names, plain, ms, x);
    WrittenFiles(x, plain);
    var mg :| mg in r && mg.version == Parse(x.upFile, plain).version;
    LoadedIsWritten(names, plain, ms, r, mg);
    var y :| y in ms && mg == Loaded(y);
    KeyIsOne(ms, names, plain, x, y);
  }

  /** Loading a directory of written migrations succeeds, and gives exactly them, each with its files and
      by the number of its version. */
  lemma LoadsWhatIsWritten(names: seq<string>, plain: bool, ms: seq<Written>)
    requires Holds(names, plain, ms)
    ensures Consistent(names, plain)
    ensures forall r | Loads(names, plain, r) ::
              InOrder(r) && forall mg :: mg in r <==> exists x | x in ms :: mg == Loaded(x)
  {
    hide Holds, Loads, Consistent, InOrder;
    HeldIsConsistent(names, plain, ms);
    forall r | Loads(names, plain, r)
      ensures InOrder(r) && forall mg :: mg in r <==> exists x | x in ms :: mg == Loaded(x)
    {
      LoadsInOrder(names, plain, r);
      forall mg | mg in r
        ensures exists x | x in ms :: mg == Loaded(x)
      {
        LoadedIsWritten(names, plain, ms, r, mg);
      }
      forall x | x in ms
        ensures Loaded(x) in r
      {
        WrittenIsLoaded(names, plain, ms, r, x);
      }
    }
  }

  /** Strictly ascending numbers. */
  predicate InOrder(r: seq<Migration>) {
    (forall i | 0 <= i < |r| :: IsVersion(r[i].version))
    && forall i, j | 0 <= i < j < |r| :: VersionValue(r[i]) < VersionValue(r[j])
  }

  function VersionValue(mg: Migration): nat
    requires IsVersion(mg.version)
  {
    Atoi(mg.version)
  }

  lemma LoadsInOrder(names: seq<string>, plain: bool, r: seq<Migration>)
    requires Loads(names, plain, r)
    ensures InOrder(r)
  {
    hide Gathers, Ascending, Parse;
    AscendingInOrder(r);
  }

  lemma {:induction false} AscendingInOrder(r: seq<Migration>)
    requires Ascending(r)
    ensures InOrder(r)
  {
    hide IsVersion, Number;
    if r != [] {
      var first, rest := r[0], r[1..];
      AscendingInOrder(rest);
      assert forall i | 0 < i < |r| :: r[i] == rest[i - 1] && IsVersion(r[i].version);
      assert IsVersion(first.version);
      forall i | 0 < i < |r|
        ensures VersionValue(first) < VersionValue(r[i])
      {
        assert r[i] in rest;
        KeyIsNumber(first.version, r[i].version);
      }
    }
  }
}
