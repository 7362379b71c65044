/** Versions and loading of migration files: pkg/migrate/migrate.go. */
module MigrateLoad {
  import opened Wrappers
  import opened SqlIdent

  // ----- versions -----

  predicate IsVersion(v: string) {
    v != "" && forall i | 0 <= i < |v| :: IsDigit(v[i])
  }

  function TrimZeros(v: string): (t: string)
    ensures |t| <= |v| && t == v[|v| - |t|..]
  {
    if v != "" && v[0] == '0' then TrimZeros(v[1..]) else v
  }

  function NormVersion(v: string): string {
    var t := TrimZeros(v);
    if t == "" then "0" else t
  }

  /** The number that big.Int reads from the normalised version. */
  function Number(v: string): nat
    requires IsVersion(v)
  {
    NormIsVersion(v);
    Atoi(NormVersion(v))
  }

  predicate VersionLess(a: string, b: string)
    requires IsVersion(a) && IsVersion(b)
  {
    Number(a) < Number(b)
  }

  lemma NormIsVersion(v: string)
    requires IsVersion(v)
    ensures IsVersion(NormVersion(v))
  {
  }

  lemma {:induction false} AtoiLeadingZero(v: string)
    requires IsVersion(v) && v[0] == '0'
    ensures Atoi(v) == Atoi(v[1..])
  {
    if |v| > 1 {
      AtoiLeadingZero(v[..|v| - 1]);
      assert v[1..][..|v| - 2] == v[..|v| - 1][1..];
    } else {
      assert v[..0] == "" && v[1..] == "";
    }
  }

  /** Leading zeros do not change the number. */
  lemma {:induction false} NumberIsValue(v: string)
    requires IsVersion(v)
    ensures Number(v) == Atoi(v)
  {
    NormIsVersion(v);
    if v[0] == '0' {
      AtoiLeadingZero(v);
      if |v| > 1 {
        NumberIsValue(v[1..]);
      } else {
        assert TrimZeros(v[1..]) == "";
        assert "0"[..0] == "";
      }
    }
  }

  predicate Canonical(v: string) {
    IsVersion(v) && (v[0] == '0' ==> |v| == 1)
  }

  lemma {:induction false} NormCanonical(v: string)
    requires IsVersion(v)
    ensures Canonical(NormVersion(v))
  {
    if v[0] == '0' && |v| > 1 {
      NormCanonical(v[1..]);
    }
  }

  lemma {:induction false} CanonicalSize(v: string)
    requires Canonical(v)
    ensures |v| == 1 <==> Atoi(v) < 10
    decreases |v|
  {
    var p := v[..|v| - 1];
    if |v| > 1 {
      CanonicalSize(p);
      if |p| == 1 {
        assert p[..0] == "";
        assert Atoi(p) == DigitValue(p[0]);
      }
    } else {
      assert Atoi(p) == 0;
    }
  }

  lemma {:induction false} CanonicalUnique(a: string, b: string)
    requires Canonical(a) && Canonical(b) && Atoi(a) == Atoi(b)
    ensures a == b
    decreases |a|
  {
    CanonicalSize(a);
    CanonicalSize(b);
    var p, q := a[..|a| - 1], b[..|b| - 1];
    assert a == p + [a[|a| - 1]] && b == q + [b[|b| - 1]];
    if |a| > 1 {
      CanonicalUnique(p, q);
    } else {
      assert p == "" && q == "";
    }
  }

  /** Two versions have the same key exactly when they are the same number. */
  lemma KeyIsNumber(a: string, b: string)
    requires IsVersion(a) && IsVersion(b)
    ensures NormVersion(a) == NormVersion(b) <==> Atoi(a) == Atoi(b)
    ensures VersionLess(a, b) <==> Atoi(a) < Atoi(b)
  {
    NumberIsValue(a);
    NumberIsValue(b);
    if Atoi(a) == Atoi(b) {
      NormCanonical(a);
      NormCanonical(b);
      CanonicalUnique(NormVersion(a), NormVersion(b));
    }
  }

  // ----- file names -----

  datatype Parsed = Skip | Invalid | File(version: string, title: string, up: bool)

  predicate IsTitleChar(c: char) {
    IsNameChar(c) || c == '-' || c == '.'
  }

  predicate IsTitle(t: string) {
    t != "" && forall i | 0 <= i < |t| :: IsTitleChar(t[i])
  }

  function LeadingDigits(s: string): (n: nat)
    ensures n <= |s| && (forall i | 0 <= i < n :: IsDigit(s[i])) && (n < |s| ==> !IsDigit(s[n]))
  {
    if s == "" || !IsDigit(s[0]) then 0 else 1 + LeadingDigits(s[1..])
  }

  predicate EndsWith(s: string, suffix: string) {
    |suffix| <= |s| && s[|s| - |suffix|..] == suffix
  }

  function ToLower(c: char): char {
    if 'A' <= c <= 'Z' then c - 'A' + 'a' else c
  }

  function Lower(s: string): string {
    seq(|s|, i requires 0 <= i < |s| => ToLower(s[i]))
  }

  /** strings.EqualFold(path.Ext(name), ".sql"): case folding also takes the long s for an s. */
  predicate HasSqlExtension(name: string) {
    |name| >= 4
    && var e := name[|name| - 4..];
       e[0] == '.' && e[1] in {'s', 'S', '\U{17F}'} && e[2] in {'q', 'Q'} && e[3] in {'l', 'L'}
  }

  /** <digits>_<title><suffix> */
  function ParseWith(name: string, suffix: string, up: bool): Option<Parsed> {
    var n := LeadingDigits(name);
    if n == 0 || n == |name| || name[n] != '_' || !EndsWith(name[n + 1..], suffix) then None
    else
      var title := name[n + 1..|name| - |suffix|];
      if IsTitle(title) then Some(File(name[..n], title, up)) else None
  }

  /** What Load makes of one file name; plain allows files that only go up. */
  function Parse(name: string, plain: bool): (p: Parsed)
    ensures p.File? ==> IsVersion(p.version)
  {
    if !HasSqlExtension(name) then Skip
    else
      var up, down, only := ParseWith(name, ".up.sql", true), ParseWith(name, ".down.sql", false),
        ParseWith(name, ".sql", true);
      if up.Some? then up.value
      else if down.Some? then down.value
      else if plain && only.Some? then only.value
      else if plain || EndsWith(Lower(name), ".up.sql") || EndsWith(Lower(name), ".down.sql") then Invalid
      else Skip
  }

  /** A down file is known by its version and title. */
  lemma DownName(name: string, plain: bool)
    requires Parse(name, plain).File? && !Parse(name, plain).up
    ensures name == Parse(name, plain).version + "_" + Parse(name, plain).title + ".down.sql"
  {
    var n := LeadingDigits(name);
    var k := |name| - |".down.sql"|;
    assert name[n + 1..][|name[n + 1..]| - |".down.sql"|..] == name[k..];
    assert name == name[..n] + [name[n]] + name[n + 1..k] + name[k..];
  }

  // ----- Load -----

  datatype Migration = Migration(version: string, name: string, upFile: string, downFile: string)

  datatype LoadError =
    | InvalidName(file: string)
    | TwoNames(key: string)
    | TwoUpFiles(version: string)
    | NoUpFile(version: string)

  /** Files of one version agree on its spelling and name, and exactly one of them goes up. */
  ghost predicate Consistent(names: seq<string>, plain: bool) {
    && (forall n | n in names :: !Parse(n, plain).Invalid?)
    && (forall m, n | m in names && n in names :: SameVersion(m, n, plain) ==>
          Parse(m, plain).version == Parse(n, plain).version && Parse(m, plain).title == Parse(n, plain).title)
    && (forall m, n | m in names && n in names :: SameVersion(m, n, plain) ==>
          (Parse(m, plain).up && Parse(n, plain).up ==> m == n))
    && (forall n | n in names && Parse(n, plain).File? ::
          exists m | m in names :: SameVersion(m, n, plain) && Parse(m, plain).up)
  }

  predicate SameVersion(m: string, n: string, plain: bool) {
    Parse(m, plain).File? && Parse(n, plain).File?
    && NormVersion(Parse(m, plain).version) == NormVersion(Parse(n, plain).version)
  }

  /** mg gathers the files of its version among names. */
  ghost predicate Gathers(names: seq<string>, plain: bool, mg: Migration) {
    && IsVersion(mg.version)
    && (mg.upFile != "" ==> mg.upFile in names && Parse(mg.upFile, plain) == File(mg.version, mg.name, true))
    && (mg.downFile != "" ==> mg.downFile in names && Parse(mg.downFile, plain) == File(mg.version, mg.name, false))
    && (mg.upFile != "" || mg.downFile != "")
    && forall n | n in names && Parse(n, plain).File?
          && NormVersion(Parse(n, plain).version) == NormVersion(mg.version) ::
         Parse(n, plain).version == mg.version && Parse(n, plain).title == mg.name
         && n == if Parse(n, plain).up then mg.upFile else mg.downFile
  }

  ghost predicate Indexed(names: seq<string>, plain: bool, byVer: map<string, Migration>) {
    && (forall k | k in byVer :: Gathers(names, plain, byVer[k]) && NormVersion(byVer[k].version) == k)
    && (forall n | n in names && Parse(n, plain).File? :: NormVersion(Parse(n, plain).version) in byVer)
  }

  predicate Ascending(ms: seq<Migration>) {
    ms == [] ||
    (IsVersion(ms[0].version)
     && (forall m | m in ms[1..] :: IsVersion(m.version) && VersionLess(ms[0].version, m.version))
     && Ascending(ms[1..]))
  }

  /** What the entry for a file becomes: the loop body of Load, when nothing clashes. */
  function WithFile(old_: Migration, n: string, up: bool): Migration {
    if up then old_.(upFile := n) else old_.(downFile := n)
  }

  lemma GatherFile(names: seq<string>, plain: bool, old_: Migration, n: string)
    requires n !in names && Parse(n, plain).File?
    requires old_.version == Parse(n, plain).version && old_.name == Parse(n, plain).title
    requires Parse(n, plain).up ==> old_.upFile == ""
    requires Gathers(names, plain, old_)
             || (old_.upFile == old_.downFile == ""
                 && forall m | m in names && Parse(m, plain).File? ::
                      NormVersion(Parse(m, plain).version) != NormVersion(old_.version))
    ensures Gathers(names + [n], plain, WithFile(old_, n, Parse(n, plain).up))
  {
    hide Parse, NormVersion, IsVersion;
    EmptyName(plain);
    forall m | m in names && Parse(m, plain).File? && NormVersion(Parse(m, plain).version) == NormVersion(old_.version)
      ensures Parse(m, plain).up || Parse(n, plain).up
    {
      OneDown(m, n, plain);
    }
  }

  lemma EmptyName(plain: bool)
    ensures Parse("", plain) == Skip
  {
    assert !HasSqlExtension("");
  }

  lemma OneDown(m: string, n: string, plain: bool)
    requires Parse(m, plain).File? && Parse(n, plain).File? && m != n
    requires Parse(m, plain).version == Parse(n, plain).version && Parse(m, plain).title == Parse(n, plain).title
    ensures Parse(m, plain).up || Parse(n, plain).up
  {
    hide Parse;
    if !Parse(m, plain).up && !Parse(n, plain).up {
      DownName(m, plain);
      DownName(n, plain);
    }
  }

  lemma InvalidClash(names: seq<string>, plain: bool, n: string)
    requires n in names && Parse(n, plain).Invalid?
    ensures !Consistent(names, plain) && Explains(names, plain, InvalidName(n))
  {
    hide Parse;
  }

  lemma GatherOther(names: seq<string>, plain: bool, mg: Migration, n: string)
    requires Gathers(names, plain, mg)
    requires Parse(n, plain).File? ==> NormVersion(Parse(n, plain).version) != NormVersion(mg.version)
    ensures Gathers(names + [n], plain, mg)
  {
    hide Parse, NormVersion, IsVersion;
  }

  lemma AppendFile(names: seq<string>, plain: bool, byVer: map<string, Migration>, n: string, old_: Migration)
    requires Indexed(names, plain, byVer) && n !in names && Parse(n, plain).File?
    requires var p := Parse(n, plain);
             old_ == (if NormVersion(p.version) in byVer then byVer[NormVersion(p.version)]
                      else Migration(p.version, p.title, "", ""))
             && old_.version == p.version && old_.name == p.title
             && (p.up ==> old_.upFile == "")
    ensures Indexed(names + [n], plain,
                    byVer[NormVersion(Parse(n, plain).version) := WithFile(old_, n, Parse(n, plain).up)])
  {
    hide Parse, NormVersion, IsVersion, Gathers;
    var key := NormVersion(Parse(n, plain).version);
    GatherFile(names, plain, old_, n);
    forall k | k in byVer && k != key
      ensures Gathers(names + [n], plain, byVer[k])
    {
      GatherOther(names, plain, byVer[k], n);
    }
  }

  lemma AppendOther(names: seq<string>, plain: bool, byVer: map<string, Migration>, n: string)
    requires Indexed(names, plain, byVer) && !Parse(n, plain).File?
    ensures Indexed(names + [n], plain, byVer)
  {
    hide Parse, NormVersion, IsVersion, Gathers;
    forall k | k in byVer
      ensures Gathers(names + [n], plain, byVer[k])
    {
      GatherOther(names, plain, byVer[k], n);
    }
  }

  /** A file that clashes with what was gathered so far makes the directory inconsistent. */
  lemma Clash(all: seq<string>, names: seq<string>, plain: bool, mg: Migration, n: string)
    requires Gathers(names, plain, mg) && n in all && n !in names && (forall m | m in names :: m in all)
    requires Parse(n, plain).File? && NormVersion(Parse(n, plain).version) == NormVersion(mg.version)
    requires mg.version != Parse(n, plain).version || mg.name != Parse(n, plain).title
             || (Parse(n, plain).up && mg.upFile != "")
    ensures !Consistent(all, plain)
    ensures Explains(all, plain, if mg.version != Parse(n, plain).version || mg.name != Parse(n, plain).title
                                 then TwoNames(NormVersion(mg.version)) else TwoUpFiles(Parse(n, plain).version))
  {
    hide Parse, NormVersion, IsVersion;
    var m := if mg.upFile != "" then mg.upFile else mg.downFile;
    assert m in all && SameVersion(m, n, plain);
  }

  /** What an error says about the directory. */
  ghost predicate Explains(names: seq<string>, plain: bool, e: LoadError) {
    match e
    case InvalidName(n) => n in names && Parse(n, plain).Invalid?
    case TwoNames(key) =>
      exists m, n | m in names && n in names :: SameVersion(m, n, plain) && NormVersion(Parse(n, plain).version) == key
        && (Parse(m, plain).version != Parse(n, plain).version || Parse(m, plain).title != Parse(n, plain).title)
    case TwoUpFiles(v) =>
      exists m, n | m in names && n in names && m != n :: SameVersion(m, n, plain)
        && Parse(m, plain).up && Parse(n, plain).up && Parse(n, plain).version == v
    case NoUpFile(v) =>
      exists n | n in names :: Parse(n, plain).File? && Parse(n, plain).version == v
        && forall m | m in names && SameVersion(m, n, plain) :: !Parse(m, plain).up
  }

  predicate Distinct(names: seq<string>) {
    forall i, j | 0 <= i < j < |names| :: names[i] != names[j]
  }

  /** The loop of Load over the directory entries. */
  method Gather(names: seq<string>, plain: bool) returns (byVer: map<string, Migration>, e: Option<LoadError>)
    requires Distinct(names)
    ensures e.None? ==> Indexed(names, plain, byVer) && forall n | n in names :: !Parse(n, plain).Invalid?
    ensures e.Some? ==> !Consistent(names, plain) && Explains(names, plain, e.value)
  {
    hide Parse, Gathers, NormVersion, Consistent, IsVersion, Explains;
    byVer := map[];
    for i := 0 to |names|
      invariant Indexed(names[..i], plain, byVer)
      invariant forall n | n in names[..i] :: !Parse(n, plain).Invalid?
    {
      var n := names[i];
      assert names[..i + 1] == names[..i] + [n] && n in names && n !in names[..i];
      match Parse(n, plain) {
        case Skip =>
          AppendOther(names[..i], plain, byVer, n);
        case Invalid =>
          InvalidClash(names, plain, n);
          return byVer, Some(InvalidName(n));
        case File(ver, title, up) =>
          var key := NormVersion(ver);
          var mg := if key in byVer then byVer[key] else Migration(ver, title, "", "");
          if mg.version != ver || mg.name != title {
            Clash(names, names[..i], plain, mg, n);
            return byVer, Some(TwoNames(key));
          }
          if up && mg.upFile != "" {
            Clash(names, names[..i], plain, mg, n);
            return byVer, Some(TwoUpFiles(ver));
          }
          AppendFile(names[..i], plain, byVer, n, mg);
          mg := WithFile(mg, n, up);
          byVer := byVer[key := mg];
      }
    }
    assert names[..|names|] == names;
    e := None;
  }

  function InsertByVersion(mg: Migration, ms: seq<Migration>): (r: seq<Migration>)
    requires IsVersion(mg.version) && forall m | m in ms :: IsVersion(m.version)
    ensures (forall m | m in r :: m == mg || m in ms) && mg in r && (forall m | m in ms :: m in r)
  {
    hide IsVersion, Number;
    if ms == [] || VersionLess(mg.version, ms[0].version) then [mg] + ms
    else [ms[0]] + InsertByVersion(mg, ms[1..])
  }

  /** sort.Slice by versionLess. */
  function SortByVersion(ms: seq<Migration>): (r: seq<Migration>)
    requires forall m | m in ms :: IsVersion(m.version)
    ensures (forall m | m in r :: m in ms) && (forall m | m in ms :: m in r)
  {
    if ms == [] then [] else InsertByVersion(ms[0], SortByVersion(ms[1..]))
  }

  lemma {:induction false} InsertAscending(mg: Migration, ms: seq<Migration>)
    requires IsVersion(mg.version) && Ascending(ms)
    requires forall m | m in ms :: IsVersion(m.version) && Number(m.version) != Number(mg.version)
    ensures Ascending(InsertByVersion(mg, ms))
  {
    hide Number, IsVersion;
    if ms == [] || VersionLess(mg.version, ms[0].version) {
      assert ([mg] + ms)[1..] == ms;
      assert forall m | m in ms :: m == ms[0] || m in ms[1..];
    } else {
      InsertAscending(mg, ms[1..]);
      var r := InsertByVersion(mg, ms[1..]);
      assert ([ms[0]] + r)[1..] == r;
    }
  }

  /** No two elements have the same version number. */
  predicate DistinctNumbers(ms: seq<Migration>)
    requires forall m | m in ms :: IsVersion(m.version)
  {
    ms == [] || ((forall m | m in ms[1..] :: Number(m.version) != Number(ms[0].version)) && DistinctNumbers(ms[1..]))
  }

  lemma {:induction false} SortAscending(ms: seq<Migration>)
    requires (forall m | m in ms :: IsVersion(m.version)) && DistinctNumbers(ms)
    ensures Ascending(SortByVersion(ms))
  {
    hide Number, IsVersion;
    if ms != [] {
      SortAscending(ms[1..]);
      InsertAscending(ms[0], SortByVersion(ms[1..]));
    }
  }

  /** One migration per version, each complete, in strictly ascending order. */
  ghost predicate Loads(names: seq<string>, plain: bool, ms: seq<Migration>) {
    && Ascending(ms)
    && (forall mg | mg in ms :: Gathers(names, plain, mg) && mg.upFile != "")
    && (forall n | n in names && Parse(n, plain).File? :: exists mg | mg in ms :: mg.version == Parse(n, plain).version)
  }

  lemma Missing(names: seq<string>, plain: bool, mg: Migration)
    requires Gathers(names, plain, mg) && mg.upFile == ""
    ensures !Consistent(names, plain) && Explains(names, plain, NoUpFile(mg.version))
  {
    assert Parse("", plain) == Skip by { assert !HasSqlExtension(""); }
    assert mg.downFile in names && Parse(mg.downFile, plain).File?;
  }

  lemma CompleteIsConsistent(names: seq<string>, plain: bool, byVer: map<string, Migration>)
    requires Indexed(names, plain, byVer) && (forall n | n in names :: !Parse(n, plain).Invalid?)
    requires forall k | k in byVer :: byVer[k].upFile != ""
    ensures Consistent(names, plain)
  {
    hide Parse;
    forall m, n | m in names && n in names && SameVersion(m, n, plain)
      ensures Parse(m, plain).version == Parse(n, plain).version && Parse(m, plain).title == Parse(n, plain).title
      ensures Parse(m, plain).up && Parse(n, plain).up ==> m == n
    {
      assert Gathers(names, plain, byVer[NormVersion(Parse(m, plain).version)]);
    }
    forall n | n in names && Parse(n, plain).File?
      ensures exists m | m in names :: SameVersion(n, m, plain) && Parse(m, plain).up
    {
      var mg := byVer[NormVersion(Parse(n, plain).version)];
      assert mg.upFile in names && SameVersion(n, mg.upFile, plain);
    }
  }

  /** Load, for a directory without two entries of the same name. */
  method Load(names: seq<string>, plain: bool) returns (r: Result<seq<Migration>, LoadError>)
    requires Distinct(names)
    ensures r.Ok? <==> Consistent(names, plain)
    ensures r.Ok? ==> Loads(names, plain, r.value)
    ensures r.Err? ==> Explains(names, plain, r.error)
  {
    hide Parse, Gathers, Consistent, NormVersion, IsVersion, SortByVersion, Loads, Explains;
    var byVer, e := Gather(names, plain);
    if e.Some? {
      return Err(e.value);
    }
    var keys, out: seq<Migration> := byVer.Keys, [];
    while keys != {}
      invariant keys <= byVer.Keys
      invariant forall k | k in byVer && k !in keys :: byVer[k] in out && byVer[k].upFile != ""
      invariant forall mg | mg in out :: Known(byVer, mg) && NormVersion(mg.version) !in keys
      invariant DistinctKeys(out)
      decreases keys
    {
      var k :| k in keys;
      keys := keys - {k};
      if byVer[k].upFile == "" {
        Missing(names, plain, byVer[k]);
        return Err(NoUpFile(byVer[k].version));
      }
      out := [byVer[k]] + out;
    }
    CompleteIsConsistent(names, plain, byVer);
    GatheredVersions(names, plain, byVer, out);
    r := Ok(SortByVersion(out));
  }

  predicate Known(byVer: map<string, Migration>, mg: Migration) {
    NormVersion(mg.version) in byVer && byVer[NormVersion(mg.version)] == mg && mg.upFile != ""
  }

  predicate DistinctKeys(ms: seq<Migration>) {
    ms == []
    || ((forall m | m in ms[1..] :: NormVersion(m.version) != NormVersion(ms[0].version)) && DistinctKeys(ms[1..]))
  }

  lemma {:induction false} KeysToNumbers(ms: seq<Migration>)
    requires (forall m | m in ms :: IsVersion(m.version)) && DistinctKeys(ms)
    ensures DistinctNumbers(ms)
  {
    hide Number, IsVersion, NormVersion;
    if ms != [] {
      KeysToNumbers(ms[1..]);
      forall m | m in ms[1..]
        ensures Number(m.version) != Number(ms[0].version)
      {
        KeyIsNumber(m.version, ms[0].version);
        NumberIsValue(m.version);
        NumberIsValue(ms[0].version);
      }
    }
  }

  lemma GatheredVersions(names: seq<string>, plain: bool, byVer: map<string, Migration>, out: seq<Migration>)
    requires Indexed(names, plain, byVer) && DistinctKeys(out)
    requires forall mg | mg in out :: Known(byVer, mg)
    requires forall k | k in byVer :: byVer[k] in out
    ensures forall mg | mg in out :: IsVersion(mg.version)
    ensures Loads(names, plain, SortByVersion(out))
  {
    assert forall mg | mg in out :: IsVersion(mg.version) by {
      hide Parse, NormVersion, IsVersion;
    }
    hide Parse, Number, IsVersion, NormVersion, Ascending;
    KeysToNumbers(out);
    SortAscending(out);
    forall n | n in names && Parse(n, plain).File?
      ensures exists mg | mg in SortByVersion(out) :: mg.version == Parse(n, plain).version
    {
      var mg := byVer[NormVersion(Parse(n, plain).version)];
      assert mg in SortByVersion(out) && mg.version == Parse(n, plain).version;
    }
  }
}
