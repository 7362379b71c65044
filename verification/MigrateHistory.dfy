/** Runs of any number of locked runners from an empty table, with files whose downs undo their
    ups: the tracking table alone determines the schema. */
module MigrateHistory {
  import opened Wrappers
  import opened MigrateLoad
  import opened Migrate
  import opened MigratePrefix
  import opened MigrateRunners

  /** The m oldest files are applied, and whoever works goes on from there. */
  ghost predicate Ordered<S>(w: World<S>, all: seq<Migration>, s0: S, sys: Sys<S>, m: nat) {
    && m <= |all| && AtPrefix(w, all, s0, sys.db, m)
    && forall r | r in sys.phase && sys.phase[r].Working? :: GoesOn(all, m, sys.phase[r])
  }

  predicate GoesOn(all: seq<Migration>, m: nat, p: Phase)
    requires p.Working? && m <= |all|
  {
    !p.stuck && p.todo == if p.op.OpUp? then all[m..] else TakeBack(all, m, p.op.steps - |p.ran|)
  }

  lemma PlanGoesOn<S(!new)>(w: World<S>, all: seq<Migration>, s0: S, db: Db<S>, m: nat,
                            op: Op, done: map<string, string>, versions: seq<string>)
    requires Ascending(all) && Reversible(w, all) && AtPrefix(w, all, s0, db, m)
    requires IsApplied(db.rows, done) && NewestFirst(versions, done)
    ensures var (todo, stuck) := Plan(all, op, done, versions);
            m <= |all| && GoesOn(all, m, Working(op, done, todo, [], stuck, true))
  {
    hide Ascending, Reversible, UpPlan, DownPlan, TakeBack, NewestFirst, IsApplied, RowsOf, SchemaAt;
    DownFilesThere(w, all);
    if op.OpUp? {
      UpPlanAtPrefix(all, done, m);
    } else {
      DownPlanAtPrefix(all, done, m, versions, op.steps);
    }
  }

  lemma DownFilesThere<S(!new)>(w: World<S>, all: seq<Migration>)
    requires Reversible(w, all)
    ensures forall mg | mg in all :: mg.downFile != ""
  {
  }

  lemma LookOrdered<S(!new)>(w: World<S>, all: seq<Migration>, s0: S, sys: Sys<S>, m: nat, a: Action)
    requires Ascending(all) && Reversible(w, all) && Ordered(w, all, s0, sys, m)
    requires a.Look? && Enabled(sys, a)
    ensures Ordered(w, all, s0, Apply(w, all, sys, a), m)
  {
    hide Ascending, Reversible, AtPrefix, GoesOn, Plan, IsApplied, NewestFirst;
    PlanGoesOn(w, all, s0, sys.db, m, PhaseOf(sys, a.r).op, a.done, a.versions);
  }

  /** Running the next planned file: how far the files then go, and that the rest of the plan goes on from there. */
  lemma StepGoesOn<S(!new)>(w: World<S>, all: seq<Migration>, s0: S, db: Db<S>, m: nat, p: Phase, fault: Fault)
    returns (m': nat)
    requires Ascending(all) && Reversible(w, all) && AtPrefix(w, all, s0, db, m) && m <= |all|
    requires p.Working? && p.todo != [] && GoesOn(all, m, p)
    ensures m' <= |all|
    ensures var (db', ok) := RunFile(w, db, p.todo[0], p.op.OpUp?, fault);
            AtPrefix(w, all, s0, db', m')
            && GoesOn(all, m', if ok then p.(todo := p.todo[1..], ran := p.ran + [p.todo[0]]) else p.(ok := false))
  {
    hide Ascending, Reversible, RunFile, AtPrefix;
    m' := m;
    if p.op.OpUp? {
      assert all[m..][0] == all[m] && all[m..][1..] == all[m + 1..];
      UpAtPrefix(w, all, s0, db, m, fault);
      if RunFile(w, db, all[m], true, fault).1 {
        m' := m + 1;
      }
    } else {
      assert p.todo[0] == all[m - 1] && p.todo[1..] == TakeBack(all, m - 1, p.op.steps - |p.ran| - 1);
      DownAtPrefix(w, all, s0, db, m, fault);
      if RunFile(w, db, all[m - 1], false, fault).1 {
        m' := m - 1;
      }
    }
  }

  lemma RunNextOrdered<S(!new)>(w: World<S>, all: seq<Migration>, s0: S, sys: Sys<S>, m: nat, r: nat, fault: Fault)
    returns (m': nat)
    requires Ascending(all) && Reversible(w, all) && Ordered(w, all, s0, sys, m) && m <= |all|
    requires Enabled(sys, RunNext(r, fault)) && forall q | q in sys.phase && sys.phase[q] != Idle :: q == r
    ensures Ordered(w, all, s0, Apply(w, all, sys, RunNext(r, fault)), m')
  {
    hide Ascending, Reversible, RunFile, AtPrefix, GoesOn;
    m' := StepGoesOn(w, all, s0, sys.db, m, PhaseOf(sys, r), fault);
  }

  lemma StepOrdered<S(!new)>(w: World<S>, all: seq<Migration>, keys0: set<string>, s0: S, sys: Sys<S>, m: nat,
                             a: Action)
    returns (n: nat)
    requires Ascending(all) && Reversible(w, all) && Inv(w, all, keys0, sys) && Ordered(w, all, s0, sys, m)
             && Enabled(sys, a)
    ensures Ordered(w, all, s0, Apply(w, all, sys, a), n)
  {
    hide Ascending, Reversible, AtPrefix, RunFile, InStep, OneSpelling, Alternates, After, Keys, Plan, NewestFirst;
    hide IsApplied, Explained, GoesOn, Logged;
    n := m;
    AtPrefixFits(w, all, s0, sys.db, m);
    match a {
      case Look(r, done, versions) => LookOrdered(w, all, s0, sys, m, a);
      case RunNext(r, fault) => n := RunNextOrdered(w, all, s0, sys, m, r, fault);
      case _ =>
    }
  }

  lemma {:induction false} RunOrdered<S(!new)>(w: World<S>, all: seq<Migration>, keys0: set<string>, s0: S,
                                               sys: Sys<S>, m: nat, acts: seq<Action>, last: Sys<S>) returns (n: nat)
    requires Ascending(all) && Reversible(w, all) && Inv(w, all, keys0, sys) && Ordered(w, all, s0, sys, m)
    requires Run(w, all, sys, acts, last)
    ensures Ordered(w, all, s0, last, n)
    decreases acts
  {
    AscendingKeys(all);
    hide Ascending, Reversible, DistinctKeys, Ordered, Inv, Enabled, Apply;
    n := m;
    if acts != [] {
      n := StepOrdered(w, all, keys0, s0, sys, m, acts[0]);
      ApplyKeeps(w, all, keys0, sys, acts[0]);
      n := RunOrdered(w, all, keys0, s0, Apply(w, all, sys, acts[0]), n, acts[1..], last);
    }
  }

  lemma ReachableOrdered<S(!new)>(w: World<S>, all: seq<Migration>, s0: S, acts: seq<Action>, sys: Sys<S>)
    returns (m: nat)
    requires Ascending(all) && Reversible(w, all) && Run(w, all, Start(Db(s0, map[])), acts, sys)
    ensures Ordered(w, all, s0, sys, m)
  {
    var start := Start(Db(s0, map[]));
    assert Keys(map[]) == {};
    m := RunOrdered(w, all, {}, s0, start, 0, acts, sys);
  }

  lemma {:induction false} RowsCount(all: seq<Migration>, m: nat)
    requires Ascending(all) && m <= |all|
    ensures |RowsOf(all, m)| == m
  {
    hide Ascending, RowsOf;
    if m == 0 {
      NoRows(all);
    } else {
      RowsCount(all, m - 1);
      FreshVersion(all, m - 1);
      OneRowMore(all, m);
      AddedCount(RowsOf(all, m - 1), all[m - 1].version, all[m - 1].name);
    }
  }

  lemma NoRows(all: seq<Migration>)
    ensures RowsOf(all, 0) == map[]
  {
  }

  lemma OneRowMore(all: seq<Migration>, m: nat)
    requires 0 < m <= |all|
    ensures RowsOf(all, m) == RowsOf(all, m - 1)[all[m - 1].version := all[m - 1].name]
  {
  }

  lemma AddedCount(rows: map<string, string>, version: string, name: string)
    requires version !in rows
    ensures |rows[version := name]| == |rows| + 1
  {
    assert rows[version := name].Keys == rows.Keys + {version};
  }

  /** In all runs the applied versions are the oldest files, without a gap. */
  lemma AppliedAreTheOldest<S(!new)>(w: World<S>, all: seq<Migration>, s0: S, acts: seq<Action>, sys: Sys<S>)
    requires Ascending(all) && Reversible(w, all) && Run(w, all, Start(Db(s0, map[])), acts, sys)
    ensures |sys.db.rows| <= |all| && sys.db.rows == RowsOf(all, |sys.db.rows|)
    ensures SchemaAt(w, all, s0, |sys.db.rows|) == Some(sys.db.schema)
  {
    var m := ReachableOrdered(w, all, s0, acts, sys);
    RowsCount(all, m);
  }

  /** Equal tables mean equal schemas, whatever happened in between; in particular an empty table
      means the initial schema. */
  lemma TableDeterminesSchema<S(!new)>(w: World<S>, all: seq<Migration>, s0: S, acts: seq<Action>, sys: Sys<S>,
                                       acts': seq<Action>, sys': Sys<S>)
    requires Ascending(all) && Reversible(w, all)
    requires Run(w, all, Start(Db(s0, map[])), acts, sys) && Run(w, all, Start(Db(s0, map[])), acts', sys')
    ensures sys.db.rows == sys'.db.rows ==> sys.db.schema == sys'.db.schema
    ensures sys.db.rows == map[] ==> sys.db.schema == s0
  {
    AppliedAreTheOldest(w, all, s0, acts, sys);
    AppliedAreTheOldest(w, all, s0, acts', sys');
  }

  /** A DownAll that has succeeded leaves an empty table and the initial schema; an Up that has
      succeeded leaves the schema of all files. */
  lemma SuccessfulCommands<S(!new)>(w: World<S>, all: seq<Migration>, s0: S, acts: seq<Action>, sys: Sys<S>, r: nat)
    requires Ascending(all) && Reversible(w, all) && Run(w, all, Start(Db(s0, map[])), acts, sys)
    requires Succeeded(PhaseOf(sys, r))
    ensures PhaseOf(sys, r).op.OpUp? ==> AtPrefix(w, all, s0, sys.db, |all|)
    ensures PhaseOf(sys, r).op.OpDown? && PhaseOf(sys, r).op.steps < 0 ==> sys.db == Db(s0, map[])
  {
    var m := ReachableOrdered(w, all, s0, acts, sys);
    assert GoesOn(all, m, PhaseOf(sys, r));
    if PhaseOf(sys, r).op.OpUp? {
      assert |all[m..]| == 0;
    }
  }

  // ----- without the lock -----

  /** A table that both runners read before either has run the only file. */
  function BothLooked<S>(s0: S, mg: Migration): Sys<S> {
    var working := Working(OpUp, map[], [mg], [], false, true);
    Sys(false, None, map[0 := working, 1 := working], Db(s0, map[]), [])
  }

  /** The lock is needed: with locking off two Ups can both read the table before either has run a
      file, and then, for any file that works, the second fails on the row that the first recorded. */
  lemma WithoutLockUpConflicts<S>(w: World<S>, s0: S, mg: Migration)
    requires w.run(mg.upFile, s0).Done?
    ensures Run(w, [mg], Start(Db(s0, map[])).(locking := false),
                [Acquire(0, OpUp), Acquire(1, OpUp), Look(0, map[], []), Look(1, map[], [])], BothLooked(s0, mg))
    ensures Enabled(BothLooked(s0, mg), RunNext(0, NoFault))
    ensures var sys := Apply(w, [mg], BothLooked(s0, mg), RunNext(0, NoFault));
            Enabled(sys, RunNext(1, NoFault)) && PhaseOf(sys, 1).todo == [mg] && mg.version in sys.db.rows
            && !RunFile(w, sys.db, mg, true, NoFault).1
  {
    hide NormVersion, Run, Descending, NewestFirst, RunFile;
    var all, start := [mg], Start(Db(s0, map[])).(locking := false);
    assert UpPlan(all, map[]) == all by { assert all[1..] == []; }
    NothingNewest();
    RunsFirst(w, s0, mg);
    var s1 := Apply(w, all, start, Acquire(0, OpUp));
    var s2 := Apply(w, all, s1, Acquire(1, OpUp));
    var s3 := Apply(w, all, s2, Look(0, map[], []));
    var s4 := Apply(w, all, s3, Look(1, map[], []));
    assert s4.phase == BothLooked(s0, mg).phase;
    var acts := [Acquire(0, OpUp), Acquire(1, OpUp), Look(0, map[], []), Look(1, map[], [])];
    RunFour(w, all, start, acts, s1, s2, s3, s4);
  }

  lemma RunFour<S>(w: World<S>, all: seq<Migration>, start: Sys<S>, acts: seq<Action>, s1: Sys<S>, s2: Sys<S>,
                   s3: Sys<S>, s4: Sys<S>)
    requires |acts| == 4 && Enabled(start, acts[0]) && Apply(w, all, start, acts[0]) == s1
    requires Enabled(s1, acts[1]) && Apply(w, all, s1, acts[1]) == s2
    requires Enabled(s2, acts[2]) && Apply(w, all, s2, acts[2]) == s3
    requires Enabled(s3, acts[3]) && Apply(w, all, s3, acts[3]) == s4
    ensures Run(w, all, start, acts, s4)
  {
    hide Enabled, Apply, Run;
    RunOne(w, all, s3, acts[3], [], s4);
    assert [acts[3]] + [] == acts[3..];
    RunOne(w, all, s2, acts[2], acts[3..], s4);
    assert [acts[2]] + acts[3..] == acts[2..];
    RunOne(w, all, s1, acts[1], acts[2..], s4);
    assert [acts[1]] + acts[2..] == acts[1..];
    RunOne(w, all, start, acts[0], acts[1..], s4);
    assert [acts[0]] + acts[1..] == acts;
  }

  lemma RunsFirst<S>(w: World<S>, s0: S, mg: Migration)
    requires w.run(mg.upFile, s0).Done?
    ensures var (db, ok) := RunFile(w, Db(s0, map[]), mg, true, NoFault);
            ok && mg.version in db.rows && !RunFile(w, db, mg, true, NoFault).1
  {
  }

  lemma NothingNewest()
    ensures NewestFirst([], map[]) && IsApplied(map[], map[])
  {
  }

  lemma RunOne<S>(w: World<S>, all: seq<Migration>, sys: Sys<S>, a: Action, acts: seq<Action>, last: Sys<S>)
    requires Enabled(sys, a)
    requires if acts == [] then Apply(w, all, sys, a) == last else Run(w, all, Apply(w, all, sys, a), acts, last)
    ensures Run(w, all, sys, [a] + acts, last)
  {
    assert ([a] + acts)[1..] == acts;
  }

  // ----- without a transaction -----

  /** In every run, whatever the files do and whatever befalls them, no version goes up twice
      without a down of it in between. */
  ghost predicate NeverTwice<S(!new)>(all: seq<Migration>, noTx: string -> bool) {
    forall run: (string, S) -> Outcome<S>, db: Db<S>, acts: seq<Action>, sys: Sys<S>, i: nat, j: nat
      | OneSpelling(db.rows) && Run(World(run, noTx), all, Start(db), acts, sys) && UpTwice(sys.log, i, j)
      :: DownBetween(sys.log, i, j)
  }

  /** The lock keeps every version from going up twice exactly when no up file is marked to run
      outside a transaction. */
  lemma NeverTwiceIff<S(!new)>(all: seq<Migration>, noTx: string -> bool, s: S)
    requires Ascending(all)
    ensures NeverTwice<S>(all, noTx) <==> forall mg | mg in all :: !noTx(mg.upFile)
  {
    if forall mg | mg in all :: !noTx(mg.upFile) {
      forall run: (string, S) -> Outcome<S>, db: Db<S>, acts: seq<Action>, sys: Sys<S>, i: nat, j: nat
        | OneSpelling(db.rows) && Run(World(run, noTx), all, Start(db), acts, sys) && UpTwice(sys.log, i, j)
        ensures DownBetween(sys.log, i, j)
      {
        NeverUpTwice(World(run, noTx), all, db, acts, sys, i, j);
      }
    } else {
      var m :| 0 <= m < |all| && noTx(all[m].upFile);
      var acts, sys := UnrecordedTwice(all, noTx, s, m);
      assert UpTwice(sys.log, 0, 1) && !DownBetween(sys.log, 0, 1);
      KeysAre(all, m);
    }
  }

  /** The run that shows it: the record of the first up is lost, and the next Up runs the file again. */
  lemma UnrecordedTwice<S>(all: seq<Migration>, noTx: string -> bool, s: S, m: nat)
    returns (acts: seq<Action>, sys: Sys<S>)
    requires Ascending(all) && m < |all| && noTx(all[m].upFile)
    ensures Run(World((f: string, t: S) => Done(t), noTx), all, Start(Db(s, RowsOf(all, m))), acts, sys)
    ensures |sys.log| == 2 && UpTwice(sys.log, 0, 1)
  {
    hide Ascending, Run, RowsOf, RunFile, Logged, Enabled;
    var w := World((f: string, t: S) => Done(t), noTx);
    var start := Start(Db(s, RowsOf(all, m)));
    FreshVersion(all, m);
    RecordLost(w, start.db, all[m]);
    var lost, failed := UpOnce(w, all, start, m, BeforeRecord);
    var free := Leave(failed, 0);
    ReleaseRuns(w, all, failed);
    RunBoth(w, all, start, lost, failed, [Release(0)], free);
    var again, done := UpOnce(w, all, free, m, NoFault);
    RunBoth(w, all, start, lost + [Release(0)], free, again, done);
    acts, sys := lost + [Release(0)] + again, done;
  }

  lemma RecordLost<S>(w: World<S>, db: Db<S>, mg: Migration)
    requires w.run(mg.upFile, db.schema) == Done(db.schema) && w.noTx(mg.upFile) && mg.version !in db.rows
    ensures RunFile(w, db, mg, true, BeforeRecord) == (db, false)
    ensures Logged(w, db, mg, true, BeforeRecord) == [Event(NormVersion(mg.version), mg.upFile, true, false)]
    ensures Logged(w, db, mg, true, NoFault) == [Event(NormVersion(mg.version), mg.upFile, true, true)]
  {
  }

  lemma ReleaseRuns<S>(w: World<S>, all: seq<Migration>, sys: Sys<S>)
    requires Finished(PhaseOf(sys, 0))
    ensures Run(w, all, sys, [Release(0)], Leave(sys, 0))
  {
    hide Run;
    RunOne(w, all, sys, Release(0), [], Leave(sys, 0));
    assert [Release(0)] + [] == [Release(0)];
  }

  /** One runner taking the lock, reading the table and running its next file. */
  lemma UpOnce<S>(w: World<S>, all: seq<Migration>, sys: Sys<S>, m: nat, fault: Fault)
    returns (acts: seq<Action>, last: Sys<S>)
    requires Ascending(all) && m < |all| && sys.db.rows == RowsOf(all, m)
    requires sys.holder == None && PhaseOf(sys, 0) == Idle
    ensures Run(w, all, sys, acts, last)
    ensures var (db', ok) := RunFile(w, sys.db, all[m], true, fault);
            last.db == db' && last.log == sys.log + Logged(w, sys.db, all[m], true, fault)
            && (!ok ==> Finished(PhaseOf(last, 0))) && Leave(last, 0).holder == None
  {
    hide Ascending, Run, RowsOf, RunFile, Logged, NewestFirst, IsApplied, UpPlan;
    var done, versions := TableRead(all, m);
    acts := [Acquire(0, OpUp), Look(0, done, versions), RunNext(0, fault)];
    UpPlanAtPrefix(all, done, m);
    var s1 := Apply(w, all, sys, acts[0]);
    var s2 := Apply(w, all, s1, acts[1]);
    var s3 := Apply(w, all, s2, acts[2]);
    RunOne(w, all, s2, acts[2], [], s3);
    assert [acts[2]] + [] == acts[2..];
    RunOne(w, all, s1, acts[1], acts[2..], s3);
    assert [acts[1]] + acts[2..] == acts[1..];
    RunOne(w, all, sys, acts[0], acts[1..], s3);
    assert [acts[0]] + acts[1..] == acts;
    last := s3;
  }

  /** What a runner reads from the table of the m oldest files. */
  lemma TableRead(all: seq<Migration>, m: nat) returns (done: map<string, string>, versions: seq<string>)
    requires Ascending(all) && m <= |all|
    ensures IsApplied(RowsOf(all, m), done) && NewestFirst(versions, done)
  {
    hide Ascending, RowsOf, NormVersion, Descending, IsVersion;
    var rows := RowsOf(all, m);
    done := map k | k in Keys(rows) :: var v :| v in rows && NormVersion(v) == k; v;
    KeysAre(all, m);
    NewestAre(all, m);
    versions := Newest(all, m);
  }

  lemma {:induction false} RunBoth<S>(w: World<S>, all: seq<Migration>, sys: Sys<S>, acts: seq<Action>, mid: Sys<S>,
                                      acts': seq<Action>, last: Sys<S>)
    requires Run(w, all, sys, acts, mid) && Run(w, all, mid, acts', last)
    ensures Run(w, all, sys, acts + acts', last)
    decreases acts
  {
    hide Apply, Enabled;
    if acts == [] {
      assert acts + acts' == acts';
    } else {
      RunBoth(w, all, Apply(w, all, sys, acts[0]), acts[1..], mid, acts', last);
      assert (acts + acts')[1..] == acts[1..] + acts';
    }
  }
}
