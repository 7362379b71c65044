/** Running migrations on one database: Up, Down and runFile of pkg/migrate/migrate.go. */
module Migrate {
  import opened Wrappers
  import opened SqlIdent
  import opened MigrateLoad

  /** What executing a file's SQL on a schema does; a failure may leave part of the work behind. */
  datatype Outcome<+S> = Done(s: S) | Failed(partial: S)

  datatype World<!S> = World(run: (string, S) -> Outcome<S>, noTx: string -> bool)

  /** The schema and the tracking table (recorded version to name). */
  datatype Db<+S> = Db(schema: S, rows: map<string, string>)

  /** A failure that is not the file's: of the connection before the body, or before the record. */
  datatype Fault = NoFault | BeforeBody | BeforeRecord

  function FileOf(mg: Migration, up: bool): string {
    if up then mg.upFile else mg.downFile
  }

  /** What stays when a file fails after its body: nothing, unless it runs outside a transaction. */
  function Undo<S>(w: World<S>, file: string, db: Db<S>, left: S): Db<S> {
    if w.noTx(file) then db.(schema := left) else db
  }

  /** runFile: the body, then its row in the tracking table, whose primary key is the version. */
  function RunFile<S>(w: World<S>, db: Db<S>, mg: Migration, up: bool, fault: Fault): (Db<S>, bool) {
    var file := FileOf(mg, up);
    if fault == BeforeBody then (db, false)
    else
      match w.run(file, db.schema)
      case Failed(partial) => (Undo(w, file, db, partial), false)
      case Done(s) =>
        if fault == BeforeRecord || (up && mg.version in db.rows) then (Undo(w, file, db, s), false)
        else (Db(s, if up then db.rows[mg.version := mg.name] else db.rows - {mg.version}), true)
  }

  /** What running a file does, case by case. It works if the body does, nothing is lost on the way and
      the row can be written; then the schema is the body's and the row is there, or gone after a down.
      If not, nothing has changed in a transaction, and outside one the schema keeps what the body did. */
  predicate RunsAsTold<S(==)>(w: World<S>, db: Db<S>, mg: Migration, up: bool, fault: Fault, db': Db<S>, ok: bool) {
    var file := if up then mg.upFile else mg.downFile;
    var body := w.run(file, db.schema);
    && (ok <==> fault == NoFault && body.Done? && !(up && mg.version in db.rows))
    && (ok && up ==> db' == Db(body.s, db.rows[mg.version := mg.name]))
    && (ok && !up ==> db'.schema == body.s && db'.rows == map v | v in db.rows && v != mg.version :: db.rows[v])
    && (!ok ==> db'.rows == db.rows)
    && (!ok && (fault == BeforeBody || !w.noTx(file)) ==> db'.schema == db.schema)
    && (!ok && fault != BeforeBody && w.noTx(file) ==>
          db'.schema == match body case Done(s) => s case Failed(partial) => partial)
  }

  /** The whole effect of the body stays: with its record, or without it outside a transaction. */
  predicate Stays<S>(w: World<S>, db: Db<S>, mg: Migration, up: bool, fault: Fault) {
    fault != BeforeBody && w.run(FileOf(mg, up), db.schema).Done?
    && (RunFile(w, db, mg, up, fault).1 || w.noTx(FileOf(mg, up)))
  }

  // ----- the tracking table -----

  function Keys(rows: map<string, string>): set<string> {
    set v | v in rows :: NormVersion(v)
  }

  /** No version is recorded under two spellings. */
  predicate OneSpelling(rows: map<string, string>) {
    forall u, v | u in rows && v in rows && NormVersion(u) == NormVersion(v) :: u == v
  }

  /** done is the table by normalised version, with the recorded spelling. */
  predicate IsApplied(rows: map<string, string>, done: map<string, string>) {
    done.Keys == Keys(rows) && forall k | k in done :: done[k] in rows && NormVersion(done[k]) == k
  }

  method Applied(rows: map<string, string>) returns (done: map<string, string>)
    ensures IsApplied(rows, done)
  {
    hide NormVersion;
    done := map[];
    var left := rows.Keys;
    while left != {}
      invariant left <= rows.Keys
      invariant forall v | v in rows && v !in left :: NormVersion(v) in done
      invariant forall k | k in done :: done[k] in rows && NormVersion(done[k]) == k
      decreases left
    {
      var v :| v in left;
      done := done[NormVersion(v) := v];
      left := left - {v};
    }
  }

  lemma InsertKeys(rows: map<string, string>, version: string, name: string)
    requires OneSpelling(rows) && NormVersion(version) !in Keys(rows)
    ensures Keys(rows[version := name]) == Keys(rows) + {NormVersion(version)}
    ensures OneSpelling(rows[version := name])
  {
    hide NormVersion;
    assert forall v | v in rows :: NormVersion(v) in Keys(rows);
  }

  lemma DeleteKeys(rows: map<string, string>, version: string)
    requires OneSpelling(rows) && version in rows
    ensures Keys(rows - {version}) == Keys(rows) - {NormVersion(version)}
    ensures OneSpelling(rows - {version})
  {
    hide NormVersion;
    forall v | v in rows && v != version
      ensures NormVersion(v) != NormVersion(version)
    {
    }
  }

  // ----- ordering versions -----

  predicate Descending(vs: seq<string>)
    requires forall v | v in vs :: IsVersion(v)
  {
    vs == [] || ((forall v | v in vs[1..] :: VersionLess(v, vs[0])) && Descending(vs[1..]))
  }

  function InsertDescending(v: string, vs: seq<string>): (r: seq<string>)
    requires IsVersion(v) && forall u | u in vs :: IsVersion(u)
    ensures (forall u | u in r :: u == v || u in vs) && v in r && (forall u | u in vs :: u in r)
  {
    hide IsVersion, Number;
    if vs == [] || VersionLess(vs[0], v) then [v] + vs else [vs[0]] + InsertDescending(v, vs[1..])
  }

  lemma {:induction false} InsertIsDescending(v: string, vs: seq<string>)
    requires IsVersion(v) && (forall u | u in vs :: IsVersion(u) && Number(u) != Number(v)) && Descending(vs)
    ensures Descending(InsertDescending(v, vs))
  {
    hide Number, IsVersion;
    if vs == [] || VersionLess(vs[0], v) {
      assert ([v] + vs)[1..] == vs;
      assert forall u | u in vs :: u == vs[0] || u in vs[1..];
    } else {
      InsertIsDescending(v, vs[1..]);
      var r := InsertDescending(v, vs[1..]);
      assert ([vs[0]] + r)[1..] == r;
    }
  }

  /** Different keys are different numbers. */
  lemma KeysDiffer(u: string, v: string)
    requires Canonical(u) && Canonical(v) && u != v
    ensures Number(u) != Number(v)
  {
    NumberIsValue(u);
    NumberIsValue(v);
    if Atoi(u) == Atoi(v) {
      CanonicalUnique(u, v);
    }
  }

  lemma NewestIsFirst(vs: seq<string>, v: string)
    requires (forall u | u in vs :: IsVersion(u)) && Descending(vs) && v in vs
    ensures v == vs[0] || VersionLess(v, vs[0])
  {
  }

  lemma {:induction false} DescendingUnique(a: seq<string>, b: seq<string>)
    requires (forall v | v in a :: IsVersion(v)) && (forall v | v in b :: IsVersion(v))
    requires Descending(a) && Descending(b)
    requires forall v :: v in a <==> v in b
    ensures a == b
  {
    hide Number, IsVersion;
    var x := if a != [] then a[0] else if b != [] then b[0] else "";
    var y := if b != [] then b[0] else x;
    assert (x in a <==> x in b) && (y in a <==> y in b);
    if a != [] && b != [] {
      NewestIsFirst(a, y);
      NewestIsFirst(b, x);
      forall v
        ensures v in a[1..] <==> v in b[1..]
      {
        assert v in a <==> v == a[0] || v in a[1..];
        assert v in b <==> v == b[0] || v in b[1..];
      }
      DescendingUnique(a[1..], b[1..]);
    }
  }

  // ----- what Up and Down plan to run -----

  /** The files Up runs: those whose version was not applied when it looked. */
  function UpPlan(all: seq<Migration>, done: map<string, string>): seq<Migration> {
    if all == [] then []
    else (if NormVersion(all[0].version) in done then [] else [all[0]]) + UpPlan(all[1..], done)
  }

  /** versions lists the keys of done from the newest to the oldest. */
  predicate NewestFirst(versions: seq<string>, done: map<string, string>) {
    && (forall v | v in versions :: IsVersion(v))
    && Descending(versions)
    && (forall v | v in versions :: v in done) && (forall v | v in done :: v in versions)
  }

  function FileFor(all: seq<Migration>, key: string): Option<Migration> {
    if all == [] then None
    else if NormVersion(all[|all| - 1].version) == key then Some(all[|all| - 1])
    else FileFor(all[..|all| - 1], key)
  }

  /** The files Down runs, newest first, each under its recorded version; and whether it then stops
      for want of a down file. A negative number of steps means all. */
  function DownPlan(all: seq<Migration>, done: map<string, string>, versions: seq<string>,
                    steps: int): (seq<Migration>, bool)
    requires forall v | v in versions :: v in done
    decreases versions
  {
    if versions == [] || steps == 0 then ([], false)
    else
      match FileFor(all, versions[0])
      case None => ([], true)
      case Some(mg) =>
        if mg.downFile == "" then ([], true)
        else
          var (rest, stuck) := DownPlan(all, done, versions[1..], steps - 1);
          ([mg.(version := done[versions[0]])] + rest, stuck)
  }

  predicate FileIs(all: seq<Migration>, key: string, mg: Migration) {
    exists i | 0 <= i < |all| ::
      all[i] == mg && NormVersion(mg.version) == key && forall j | i < j < |all| :: NormVersion(all[j].version) != key
  }

  lemma LastFile(all: seq<Migration>, key: string)
    requires all != [] && NormVersion(all[|all| - 1].version) == key
    ensures FileIs(all, key, all[|all| - 1])
  {
  }

  lemma EarlierFile(all: seq<Migration>, key: string, mg: Migration)
    requires all != [] && NormVersion(all[|all| - 1].version) != key && FileIs(all[..|all| - 1], key, mg)
    ensures FileIs(all, key, mg)
  {
    hide NormVersion;
    var m := |all| - 1;
    var i :| 0 <= i < m && all[..m][i] == mg && forall j | i < j < m :: NormVersion(all[..m][j].version) != key;
    assert forall j | i < j < m :: all[..m][j] == all[j];
    assert all[i] == mg;
  }

  lemma {:induction false} FileForIff(all: seq<Migration>, key: string)
    ensures var r := FileFor(all, key);
            if r.Some? then FileIs(all, key, r.value) else forall mg | mg in all :: NormVersion(mg.version) != key
  {
    hide NormVersion, FileIs;
    if all != [] {
      var m := |all| - 1;
      FileForIff(all[..m], key);
      assert forall mg | mg in all :: mg in all[..m] || mg == all[m];
      if NormVersion(all[m].version) == key {
        LastFile(all, key);
      } else if FileFor(all, key).Some? {
        EarlierFile(all, key, FileFor(all, key).value);
      }
    }
  }

  /** Nothing takes this version back: it has no file, or its file has no down file. */
  predicate NoWayBack(all: seq<Migration>, key: string) {
    forall mg | mg in all && FileIs(all, key, mg) :: mg.downFile == ""
  }

  /** The plan goes through the versions, at most as many as asked for, up to the first without a way
      back, and is stuck exactly when there is such a one. */
  lemma {:induction false} DownPlanTells(all: seq<Migration>, done: map<string, string>, versions: seq<string>,
                                         steps: int)
    requires forall v | v in versions :: v in done
    ensures var (plan, stuck) := DownPlan(all, done, versions, steps);
            var most := if 0 <= steps <= |versions| then steps else |versions|;
            && |plan| <= most
            && (forall i | 0 <= i < |plan| ::
                  exists mg | mg in all :: FileIs(all, versions[i], mg) && mg.downFile != ""
                               && plan[i] == mg.(version := done[versions[i]]))
            && (stuck <==> |plan| < most)
            && (stuck ==> NoWayBack(all, versions[|plan|]))
    decreases versions
  {
    hide FileIs, FileFor, NoWayBack;
    if versions != [] && steps != 0 {
      var file := FileFor(all, versions[0]);
      FileForIff(all, versions[0]);
      if file.Some? && file.value.downFile != "" {
        DownPlanTells(all, done, versions[1..], steps - 1);
        FileListed(all, versions[0], file.value);
        var plan, rest := DownPlan(all, done, versions, steps).0, DownPlan(all, done, versions[1..], steps - 1).0;
        assert forall i | 0 < i < |plan| :: versions[i] == versions[1..][i - 1] && plan[i] == rest[i - 1];
      } else {
        OneFile(all, versions[0]);
      }
    }
  }

  lemma FileListed(all: seq<Migration>, key: string, mg: Migration)
    requires FileIs(all, key, mg)
    ensures mg in all
  {
  }

  lemma OneFile(all: seq<Migration>, key: string)
    requires FileFor(all, key).None? || FileFor(all, key).value.downFile == ""
    ensures NoWayBack(all, key)
  {
    hide NormVersion;
    FileForIff(all, key);
  }

  lemma DownPlanAt(all: seq<Migration>, done: map<string, string>, versions: seq<string>, i: nat, steps: int)
    requires i < |versions| && forall v | v in versions :: v in done
    ensures var (plan, stuck) := DownPlan(all, done, versions[i..], steps);
            if steps == 0 then plan == [] && !stuck
            else
              var file := FileFor(all, versions[i]);
              if file.None? || file.value.downFile == "" then plan == [] && stuck
              else
                plan != [] && plan[0] == file.value.(version := done[versions[i]])
                && DownPlan(all, done, versions[i + 1..], steps - 1) == (plan[1..], stuck)
  {
    assert versions[i..][1..] == versions[i + 1..];
  }

  lemma DownPlanAtEnd(all: seq<Migration>, done: map<string, string>, versions: seq<string>, steps: int)
    requires forall v | v in versions :: v in done
    ensures DownPlan(all, done, versions[|versions|..], steps) == ([], false)
  {
  }

  /** What befalls the files of a command, in the order in which they are run; nothing at the end. */
  function Befalls(faults: seq<Fault>): Fault {
    if faults == [] then NoFault else faults[0]
  }

  function Later(faults: seq<Fault>): seq<Fault> {
    if faults == [] then [] else faults[1..]
  }

  /** Run a plan until a file fails: the database, what ran, and whether all of it did. */
  function Execute<S>(w: World<S>, db: Db<S>, up: bool, plan: seq<Migration>, faults: seq<Fault>)
    : (Db<S>, seq<Migration>, bool)
    decreases plan
  {
    if plan == [] then (db, [], true)
    else
      var (db', ok) := RunFile(w, db, plan[0], up, Befalls(faults));
      if !ok then (db', [], false)
      else
        var (db'', ran, all) := Execute(w, db', up, plan[1..], Later(faults));
        (db'', [plan[0]] + ran, all)
  }

  /** Which of a command's calls work: taking the lock, creating the tracking table, reading it and
      letting go of the lock; and what befalls its files. */
  datatype Calls = Calls(lock: bool, table: bool, read: bool, release: bool, faults: seq<Fault>)

  /** A command ends as its plan does; letting go of the lock can still make it report an error. */
  ghost predicate Ends<S>(db: Db<S>, ran: seq<Migration>, ok: bool, r: (Db<S>, seq<Migration>, bool), stuck: bool,
                          calls: Calls) {
    db == r.0 && ran == r.1 && (ok <==> r.2 && !stuck && calls.release)
  }

  // ----- the program -----

  class Database<S> {
    var db: Db<S>

    constructor (db: Db<S>)
      ensures this.db == db
    {
      this.db := db;
    }

    method Run(w: World<S>, mg: Migration, up: bool, fault: Fault) returns (ok: bool)
      modifies this
      ensures (db, ok) == RunFile(w, old(db), mg, up, fault)
      ensures RunsAsTold(w, old(db), mg, up, fault, db, ok)
    {
      if fault == BeforeBody {
        return false;
      }
      var file := FileOf(mg, up);
      var before := db;
      match w.run(file, db.schema) {
        case Failed(partial) =>
          db := db.(schema := partial);
          ok := false;
        case Done(s) =>
          db := db.(schema := s);
          ok := fault != BeforeRecord && !(up && mg.version in db.rows);
          if ok {
            db := db.(rows := if up then db.rows[mg.version := mg.name] else db.rows - {mg.version});
          }
      }
      if !ok && !w.noTx(file) {
        db := before;  // rollback
      }
    }

    /** Up, on the loaded files. */
    method Up(w: World<S>, all: seq<Migration>, calls: Calls) returns (ran: seq<Migration>, ok: bool)
      modifies this
      ensures !(calls.lock && calls.table && calls.read) ==> db == old(db) && ran == [] && !ok
      ensures calls.lock && calls.table && calls.read ==> exists done ::
                IsApplied(old(db).rows, done)
                && Ends(db, ran, ok, Execute(w, old(db), true, UpPlan(all, done), calls.faults), false, calls)
    {
      hide RunFile, NormVersion, Execute, Joined;
      ran, ok := [], calls.lock && calls.table && calls.read;
      if !ok {
        return;
      }
      var done := Applied(db.rows);
      var faults := calls.faults;
      ghost var plan := UpPlan(all, done);
      assert all[0..] == all;
      JoinNothing(Execute(w, db, true, plan, faults));
      for i := 0 to |all|
        invariant ok
        invariant Joined(ran, Execute(w, db, true, UpPlan(all[i..], done), faults))
                  == Execute(w, old(db), true, plan, calls.faults)
      {
        assert all[i..][1..] == all[i + 1..];
        var mg := all[i];
        if NormVersion(mg.version) in done {
          assert UpPlan(all[i..], done) == UpPlan(all[i + 1..], done);
          continue;
        }
        ghost var rest := UpPlan(all[i + 1..], done);
        assert UpPlan(all[i..], done)[0] == mg && UpPlan(all[i..], done)[1..] == rest;
        ExecuteOne(w, db, true, UpPlan(all[i..], done), faults, ran);
        ok := Run(w, mg, true, Befalls(faults));
        if !ok {
          return;
        }
        faults := Later(faults);
        ran := ran + [mg];
      }
      ExecuteNone(w, db, true, faults, ran);
      ok := calls.release;
    }

    /** down, on the loaded files; a negative number of steps takes everything back. */
    method Down(w: World<S>, all: seq<Migration>, steps: int, calls: Calls) returns (ran: seq<Migration>, ok: bool)
      requires forall v | v in db.rows :: IsVersion(v)
      modifies this
      ensures !(calls.lock && calls.table && calls.read) ==> db == old(db) && ran == [] && !ok
      ensures calls.lock && calls.table && calls.read ==> exists done, versions ::
                IsApplied(old(db).rows, done) && NewestFirst(versions, done)
                && var (plan, stuck) := DownPlan(all, done, versions, steps);
                   Ends(db, ran, ok, Execute(w, old(db), false, plan, calls.faults), stuck, calls)
    {
      hide RunFile, NormVersion, Canonical, IsVersion, DownPlan, FileFor, Descending, Execute, Joined;
      ran, ok := [], calls.lock && calls.table && calls.read;
      if !ok {
        return;
      }
      var done := Applied(db.rows);
      AppliedCanonical(db.rows, done);
      var versions := SortNewestFirst(done);
      var faults := calls.faults;
      ghost var (plan, stuck) := DownPlan(all, done, versions, steps);
      ghost var left := plan;
      JoinNothing(Execute(w, db, false, plan, faults));
      for i := 0 to |versions|
        invariant ok && (steps >= 0 ==> |ran| <= steps)
        invariant DownPlan(all, done, versions[i..], if steps >= 0 then steps - |ran| else steps - i) == (left, stuck)
        invariant Joined(ran, Execute(w, db, false, left, faults)) == Execute(w, old(db), false, plan, calls.faults)
      {
        DownPlanAt(all, done, versions, i, if steps >= 0 then steps - |ran| else steps - i);
        if steps >= 0 && |ran| >= steps {
          ExecuteNone(w, db, false, faults, ran);
          ok := calls.release;
          return;
        }
        var v := versions[i];
        var file := FileFor(all, v);
        if file.None? || file.value.downFile == "" {
          ExecuteNone(w, db, false, faults, ran);
          ok := false;
          return;
        }
        var mg := file.value.(version := done[v]);
        ghost var rest := left[1..];
        assert left[0] == mg;
        ExecuteOne(w, db, false, left, faults, ran);
        ok := Run(w, mg, false, Befalls(faults));
        if !ok {
          return;
        }
        faults := Later(faults);
        ran := ran + [mg];
        left := rest;
      }
      DownPlanAtEnd(all, done, versions, if steps >= 0 then steps - |ran| else steps - |versions|);
      ExecuteNone(w, db, false, faults, ran);
      ok := calls.release;
    }
  }

  /** The public Down takes back one file unless told how many. */
  method DownSteps<S>(d: Database<S>, w: World<S>, all: seq<Migration>, steps: int, calls: Calls)
    returns (ran: seq<Migration>, ok: bool)
    requires forall v | v in d.db.rows :: IsVersion(v)
    modifies d
    ensures !(calls.lock && calls.table && calls.read) ==> d.db == old(d.db) && ran == [] && !ok
    ensures calls.lock && calls.table && calls.read ==> exists done, versions ::
              IsApplied(old(d.db).rows, done) && NewestFirst(versions, done)
              && var (plan, stuck) := DownPlan(all, done, versions, if steps <= 0 then 1 else steps);
                 Ends(d.db, ran, ok, Execute(w, old(d.db), false, plan, calls.faults), stuck, calls)
  {
    ran, ok := d.Down(w, all, if steps <= 0 then 1 else steps, calls);
  }

  method SortNewestFirst(done: map<string, string>) returns (versions: seq<string>)
    requires forall k | k in done :: Canonical(k)
    ensures NewestFirst(versions, done)
  {
    hide Number, IsVersion, Canonical;
    versions := [];
    var left := done.Keys;
    while left != {}
      invariant left <= done.Keys
      invariant forall v | v in versions :: IsVersion(v)
      invariant Descending(versions)
      invariant forall v | v in done :: v in versions <==> v !in left
      invariant forall v | v in versions :: v in done
      decreases left
    {
      var v :| v in left;
      CanonicalIsVersion(v);
      forall u | u in versions
        ensures Number(u) != Number(v)
      {
        KeysDiffer(u, v);
      }
      InsertIsDescending(v, versions);
      versions := InsertDescending(v, versions);
      left := left - {v};
    }
  }

  lemma CanonicalIsVersion(v: string)
    requires Canonical(v)
    ensures IsVersion(v)
  {
  }

  lemma AppliedCanonical(rows: map<string, string>, done: map<string, string>)
    requires IsApplied(rows, done) && forall v | v in rows :: IsVersion(v)
    ensures forall k | k in done :: Canonical(k)
  {
    forall k | k in done
      ensures Canonical(k)
    {
      NormCanonical(done[k]);
    }
  }

  function Joined<S>(ran: seq<Migration>, r: (Db<S>, seq<Migration>, bool)): (Db<S>, seq<Migration>, bool) {
    (r.0, ran + r.1, r.2)
  }

  lemma JoinNothing<S>(r: (Db<S>, seq<Migration>, bool))
    ensures Joined([], r) == r
  {
    assert [] + r.1 == r.1;
  }

  lemma ExecuteNone<S>(w: World<S>, db: Db<S>, up: bool, faults: seq<Fault>, ran: seq<Migration>)
    ensures Joined(ran, Execute(w, db, up, [], faults)) == (db, ran, true)
  {
    assert ran + [] == ran;
  }

  lemma ExecuteOne<S>(w: World<S>, db: Db<S>, up: bool, plan: seq<Migration>, faults: seq<Fault>, ran: seq<Migration>)
    requires plan != []
    ensures var (db', ok) := RunFile(w, db, plan[0], up, Befalls(faults));
            Joined(ran, Execute(w, db, up, plan, faults))
            == if ok then Joined(ran + [plan[0]], Execute(w, db', up, plan[1..], Later(faults))) else (db', ran, false)
  {
    hide RunFile;
    var (db', ok) := RunFile(w, db, plan[0], up, Befalls(faults));
    var rest := Execute(w, db', up, plan[1..], Later(faults)).1;
    assert ran + ([plan[0]] + rest) == ran + [plan[0]] + rest;
    assert ran + [] == ran;
  }
}
