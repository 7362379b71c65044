/** Any number of runners against one database, with the advisory lock of pkg/migrate/lock.go.
    Each action is one step that the database sees: taking the lock, reading the table, running one
    file, releasing the lock, or the death of a process (which ends its session and frees the lock). */
module MigrateRunners {
  import opened Wrappers
  import opened MigrateLoad
  import opened Migrate

  datatype Op = OpUp | OpDown(steps: int)

  datatype Phase =
    | Idle
    | Holding(op: Op)
    | Working(op: Op, done: map<string, string>, todo: seq<Migration>, ran: seq<Migration>, stuck: bool, ok: bool)

  /** A file whose whole effect stays, whether or not its record does (a file outside a transaction
      keeps its effect when the record cannot be written). */
  datatype Event = Event(key: string, file: string, up: bool, recorded: bool)

  datatype Sys<+S> = Sys(locking: bool, holder: Option<nat>, phase: map<nat, Phase>, db: Db<S>, log: seq<Event>)

  datatype Action =
    | Acquire(r: nat, op: Op)
    | Look(r: nat, done: map<string, string>, versions: seq<string>)
    | RunNext(r: nat, fault: Fault)
    | Release(r: nat)
    | Crash(r: nat)

  function PhaseOf<S>(sys: Sys<S>, r: nat): Phase {
    if r in sys.phase then sys.phase[r] else Idle
  }

  predicate Finished(p: Phase) {
    p.Working? && (p.todo == [] || !p.ok)
  }

  predicate Succeeded(p: Phase) {
    p.Working? && p.todo == [] && p.ok && !p.stuck
  }

  predicate Enabled<S>(sys: Sys<S>, a: Action) {
    match a
    case Acquire(r, _) => PhaseOf(sys, r) == Idle && (sys.locking ==> sys.holder == None)
    case Look(r, done, versions) =>
      PhaseOf(sys, r).Holding? && IsApplied(sys.db.rows, done) && NewestFirst(versions, done)
    case RunNext(r, _) => PhaseOf(sys, r).Working? && !Finished(PhaseOf(sys, r))
    case Release(r) => Finished(PhaseOf(sys, r))
    case Crash(r) => PhaseOf(sys, r) != Idle
  }

  function Leave<S>(sys: Sys<S>, r: nat): Sys<S> {
    sys.(phase := sys.phase[r := Idle], holder := if sys.holder == Some(r) then None else sys.holder)
  }

  function Plan(all: seq<Migration>, op: Op, done: map<string, string>, versions: seq<string>): (seq<Migration>, bool)
    requires forall v | v in versions :: v in done
  {
    match op
    case OpUp => (UpPlan(all, done), false)
    case OpDown(steps) => DownPlan(all, done, versions, steps)
  }

  function Apply<S>(w: World<S>, all: seq<Migration>, sys: Sys<S>, a: Action): Sys<S>
    requires Enabled(sys, a)
  {
    match a
    case Acquire(r, op) =>
      sys.(phase := sys.phase[r := Holding(op)], holder := if sys.locking then Some(r) else sys.holder)
    case Look(r, done, versions) =>
      var op := PhaseOf(sys, r).op;
      var (todo, stuck) := Plan(all, op, done, versions);
      sys.(phase := sys.phase[r := Working(op, done, todo, [], stuck, true)])
    case RunNext(r, fault) =>
      var p := PhaseOf(sys, r);
      var mg := p.todo[0];
      var (db', ok) := RunFile(w, sys.db, mg, p.op.OpUp?, fault);
      sys.(db := db', log := sys.log + Logged(w, sys.db, mg, p.op.OpUp?, fault),
           phase := sys.phase[r := if ok then p.(todo := p.todo[1..], ran := p.ran + [mg]) else p.(ok := false)])
    case Release(r) => Leave(sys, r)
    case Crash(r) => Leave(sys, r)
  }

  function Logged<S>(w: World<S>, db: Db<S>, mg: Migration, up: bool, fault: Fault): seq<Event> {
    if !Stays(w, db, mg, up, fault) then []
    else [Event(NormVersion(mg.version), FileOf(mg, up), up, RunFile(w, db, mg, up, fault).1)]
  }

  ghost predicate Run<S>(w: World<S>, all: seq<Migration>, sys: Sys<S>, acts: seq<Action>, last: Sys<S>)
    decreases acts
  {
    if acts == [] then sys == last
    else Enabled(sys, acts[0]) && Run(w, all, Apply(w, all, sys, acts[0]), acts[1..], last)
  }

  function Start<S>(db: Db<S>): Sys<S> {
    Sys(true, None, map[], db, [])
  }

  // ----- the log -----

  /** Each file goes up only when the table says it is down, and down only when it says it is up. */
  predicate Alternates(keys: set<string>, log: seq<Event>) {
    log == []
    || (var e, before := log[|log| - 1], log[..|log| - 1];
        Alternates(keys, before) && (e.up <==> e.key !in After(keys, before)))
  }

  /** What is recorded as up after the log. */
  function After(keys: set<string>, log: seq<Event>): set<string> {
    if log == [] then keys
    else
      var e, before := log[|log| - 1], After(keys, log[..|log| - 1]);
      if !e.recorded then before else if e.up then before + {e.key} else before - {e.key}
  }

  /** Between i and j the version of the i-th entry went down. */
  predicate DownBetween(log: seq<Event>, i: nat, j: nat)
    requires i < j <= |log|
  {
    exists k | i < k < j :: log[k].key == log[i].key && !log[k].up && log[k].recorded
  }

  /** Between a recorded up and the next up of that version there is a down of it. */
  lemma {:induction false} DownBetweenUps(keys: set<string>, log: seq<Event>, i: nat, j: nat)
    requires Alternates(keys, log) && i < j < |log|
    requires log[i].up && log[i].recorded && log[j].up && log[i].key == log[j].key
    ensures DownBetween(log, i, j)
    decreases |log|
  {
    var n := |log| - 1;
    if j < n {
      DownBetweenUps(keys, log[..n], i, j);
      var k :| i < k < j && log[..n][k].key == log[i].key && !log[..n][k].up && log[..n][k].recorded;
      assert log[k] == log[..n][k];
    } else {
      StaysUp(keys, log, i, j);
    }
  }

  lemma {:induction false} StaysUp(keys: set<string>, log: seq<Event>, i: nat, j: nat)
    requires i < j <= |log| && log[i].up && log[i].recorded
    ensures DownBetween(log, i, j) || log[i].key in After(keys, log[..j])
    decreases j
  {
    assert log[..j][..j - 1] == log[..j - 1];
    if i < j - 1 {
      StaysUp(keys, log, i, j - 1);
    }
  }

  /** Entries without a record are of files outside a transaction, and ups are of the up files. */
  predicate Explained<S>(w: World<S>, all: seq<Migration>, log: seq<Event>) {
    forall e | e in log :: (e.recorded || w.noTx(e.file)) && (e.up ==> e.file in UpFiles(all))
  }

  function UpFiles(all: seq<Migration>): set<string> {
    set mg | mg in all :: mg.upFile
  }

  // ----- the invariant -----

  function Norms(ms: seq<Migration>): set<string> {
    set mg | mg in ms :: NormVersion(mg.version)
  }

  /** The plan of a working runner still fits the table. */
  ghost predicate InStep(all: seq<Migration>, rows: map<string, string>, p: Phase)
    requires p.Working?
  {
    DistinctKeys(p.todo)
    && if p.op.OpUp? then
         Keys(rows) == p.done.Keys + Norms(p.ran)
         && (forall mg | mg in p.todo :: mg in all && NormVersion(mg.version) !in Keys(rows))
         && (forall mg | mg in all :: NormVersion(mg.version) in Keys(rows) || mg in p.todo)
       else
         Keys(rows) == p.done.Keys - Norms(p.ran)
         && (forall mg | mg in p.todo :: mg.version in rows)
  }

  ghost predicate Inv<S>(w: World<S>, all: seq<Migration>, keys0: set<string>, sys: Sys<S>) {
    && sys.locking
    && (forall r | r in sys.phase && sys.phase[r] != Idle :: sys.holder == Some(r))
    && (forall r | r in sys.phase && sys.phase[r].Working? :: InStep(all, sys.db.rows, sys.phase[r]))
    && OneSpelling(sys.db.rows)
    && Alternates(keys0, sys.log) && Keys(sys.db.rows) == After(keys0, sys.log)
    && Explained(w, all, sys.log)
  }

  // ----- plans start in step -----

  lemma {:induction false} AscendingKeys(all: seq<Migration>)
    requires Ascending(all)
    ensures DistinctKeys(all)
  {
    hide NormVersion, Number, IsVersion;
    if all != [] {
      AscendingKeys(all[1..]);
      forall m | m in all[1..]
        ensures NormVersion(m.version) != NormVersion(all[0].version)
      {
        KeyIsNumber(m.version, all[0].version);
        NumberIsValue(m.version);
        NumberIsValue(all[0].version);
      }
    }
  }

  lemma {:induction false} UpPlanFits(all: seq<Migration>, done: map<string, string>)
    requires DistinctKeys(all)
    ensures DistinctKeys(UpPlan(all, done))
    ensures forall mg :: mg in UpPlan(all, done) <==> mg in all && NormVersion(mg.version) !in done
  {
    hide NormVersion;
    if all != [] {
      UpPlanFits(all[1..], done);
      assert forall mg :: mg in all <==> mg == all[0] || mg in all[1..];
      var rest := UpPlan(all[1..], done);
      assert ([all[0]] + rest)[1..] == rest && [] + rest == rest;
    }
  }

  lemma {:induction false} DownPlanFits(all: seq<Migration>, rows: map<string, string>, done: map<string, string>,
                                        versions: seq<string>, steps: int)
    requires IsApplied(rows, done)
    requires (forall v | v in versions :: v in done && IsVersion(v)) && Descending(versions)
    ensures var plan := DownPlan(all, done, versions, steps).0;
            DistinctKeys(plan)
            && forall mg | mg in plan :: mg.version in rows && NormVersion(mg.version) in versions
    decreases versions
  {
    hide NormVersion, Number, IsVersion, FileFor;
    if versions != [] && steps != 0 {
      DownPlanFits(all, rows, done, versions[1..], steps - 1);
      var rest := DownPlan(all, done, versions[1..], steps - 1).0;
      var plan := DownPlan(all, done, versions, steps).0;
      if plan != [] {
        assert plan[1..] == rest;
        assert forall mg | mg in plan :: mg == plan[0] || mg in rest;
      }
    }
  }

  // ----- each step keeps the invariant -----

  lemma {:induction false} LookKeeps<S>(w: World<S>, all: seq<Migration>, keys0: set<string>, sys: Sys<S>, r: nat,
                     done: map<string, string>, versions: seq<string>)
    requires Inv(w, all, keys0, sys) && DistinctKeys(all) && Enabled(sys, Look(r, done, versions))
    ensures Inv(w, all, keys0, Apply(w, all, sys, Look(r, done, versions)))
  {
    hide NormVersion, DistinctKeys, Descending, IsVersion, Keys, Alternates, After, Explained;
    UpPlanFits(all, done);
    var op := PhaseOf(sys, r).op;
    if op.OpDown? {
      DownPlanFits(all, sys.db.rows, done, versions, op.steps);
    }
    assert Norms([]) == {};
    var p := PhaseOf(Apply(w, all, sys, Look(r, done, versions)), r);
    assert InStep(all, sys.db.rows, p);
    hide InStep;
  }

  /** What a committed file does to the table, the log and the plan. */
  lemma CommitInStep<S>(w: World<S>, all: seq<Migration>, db: Db<S>, p: Phase, fault: Fault)
    requires p.Working? && p.todo != [] && InStep(all, db.rows, p) && OneSpelling(db.rows)
    requires RunFile(w, db, p.todo[0], p.op.OpUp?, fault).1
    ensures var rows, mg := RunFile(w, db, p.todo[0], p.op.OpUp?, fault).0.rows, p.todo[0];
            var key := NormVersion(mg.version);
            && InStep(all, rows, p.(todo := p.todo[1..], ran := p.ran + [mg]))
            && OneSpelling(rows)
            && (p.op.OpUp? <==> key !in Keys(db.rows))
            && Keys(rows) == if p.op.OpUp? then Keys(db.rows) + {key} else Keys(db.rows) - {key}
  {
    hide NormVersion, RunFile, OneSpelling, Keys, Norms;
    var mg := p.todo[0];
    assert mg in p.todo;
    if p.op.OpDown? {
      RowKey(db.rows, mg.version);
    }
    CommitRows(w, db, mg, p.op.OpUp?, fault);
    NormsSnoc(p.ran, mg);
    var rows := RunFile(w, db, mg, p.op.OpUp?, fault).0.rows;
    if p.op.OpUp? {
      NextUp(all, db.rows, rows, p);
    } else {
      NextDown(all, db.rows, rows, p);
    }
  }

  lemma NormsSnoc(ran: seq<Migration>, mg: Migration)
    ensures Norms(ran + [mg]) == Norms(ran) + {NormVersion(mg.version)}
  {
    hide NormVersion;
  }

  lemma NextUp(all: seq<Migration>, rows: map<string, string>, rows': map<string, string>, p: Phase)
    requires p.Working? && p.op.OpUp? && p.todo != [] && InStep(all, rows, p)
    requires Keys(rows') == Keys(rows) + {NormVersion(p.todo[0].version)}
    requires Norms(p.ran + [p.todo[0]]) == Norms(p.ran) + {NormVersion(p.todo[0].version)}
    ensures InStep(all, rows', p.(todo := p.todo[1..], ran := p.ran + [p.todo[0]]))
  {
    hide NormVersion, Keys, Norms;
    forall m | m in p.todo[1..]
      ensures m in all && NormVersion(m.version) !in Keys(rows')
    {
      assert m in p.todo;
    }
    forall m | m in all
      ensures NormVersion(m.version) in Keys(rows') || m in p.todo[1..]
    {
      assert m in p.todo ==> m == p.todo[0] || m in p.todo[1..];
    }
  }

  lemma NextDown(all: seq<Migration>, rows: map<string, string>, rows': map<string, string>, p: Phase)
    requires p.Working? && p.op.OpDown? && p.todo != [] && InStep(all, rows, p)
    requires rows' == rows - {p.todo[0].version} && Keys(rows') == Keys(rows) - {NormVersion(p.todo[0].version)}
    requires Norms(p.ran + [p.todo[0]]) == Norms(p.ran) + {NormVersion(p.todo[0].version)}
    ensures InStep(all, rows', p.(todo := p.todo[1..], ran := p.ran + [p.todo[0]]))
  {
    hide NormVersion, Keys, Norms;
    forall m | m in p.todo[1..]
      ensures m.version in rows'
    {
      assert m in p.todo && m.version != p.todo[0].version;
    }
  }

  lemma RowKey(rows: map<string, string>, v: string)
    requires v in rows
    ensures NormVersion(v) in Keys(rows)
  {
  }

  lemma CommitRows<S>(w: World<S>, db: Db<S>, mg: Migration, up: bool, fault: Fault)
    requires OneSpelling(db.rows) && RunFile(w, db, mg, up, fault).1
    requires up ==> NormVersion(mg.version) !in Keys(db.rows)
    requires !up ==> mg.version in db.rows
    ensures var rows := RunFile(w, db, mg, up, fault).0.rows;
            OneSpelling(rows)
            && rows == (if up then db.rows[mg.version := mg.name] else db.rows - {mg.version})
            && Keys(rows) == if up then Keys(db.rows) + {NormVersion(mg.version)}
                             else Keys(db.rows) - {NormVersion(mg.version)}
  {
    hide NormVersion;
    if up {
      InsertKeys(db.rows, mg.version, mg.name);
    } else {
      DeleteKeys(db.rows, mg.version);
    }
  }

  /** A failing file leaves the table alone, transaction or not. */
  lemma FailureKeepsRows<S>(w: World<S>, db: Db<S>, mg: Migration, up: bool, fault: Fault)
    requires !RunFile(w, db, mg, up, fault).1
    ensures RunFile(w, db, mg, up, fault).0.rows == db.rows
  {
  }

  /** What running a file adds to the log. */
  lemma LogKeeps<S>(w: World<S>, all: seq<Migration>, keys0: set<string>, db: Db<S>, log: seq<Event>, p: Phase,
                    fault: Fault)
    requires p.Working? && p.todo != [] && InStep(all, db.rows, p) && OneSpelling(db.rows)
    requires Alternates(keys0, log) && Keys(db.rows) == After(keys0, log) && Explained(w, all, log)
    ensures var mg, up := p.todo[0], p.op.OpUp?;
            var log' := log + Logged(w, db, mg, up, fault);
            Alternates(keys0, log') && Keys(RunFile(w, db, mg, up, fault).0.rows) == After(keys0, log')
            && Explained(w, all, log')
  {
    hide NormVersion, DistinctKeys, OneSpelling, Keys, Norms, RunFile, InStep, UpFiles;
    var mg := p.todo[0];
    PlannedKey(all, db.rows, p);
    if RunFile(w, db, mg, p.op.OpUp?, fault).1 {
      CommitInStep(w, all, db, p, fault);
      CommitStays(w, db, mg, p.op.OpUp?, fault);
    } else {
      FailureKeepsRows(w, db, mg, p.op.OpUp?, fault);
    }
    assert log + [] == log;
    var e := Event(NormVersion(mg.version), FileOf(mg, p.op.OpUp?), p.op.OpUp?,
                   RunFile(w, db, mg, p.op.OpUp?, fault).1);
    assert (log + [e])[..|log|] == log;
  }

  /** The next file of a plan is recorded exactly when it is to be taken back. */
  lemma PlannedKey(all: seq<Migration>, rows: map<string, string>, p: Phase)
    requires p.Working? && p.todo != [] && InStep(all, rows, p)
    ensures p.op.OpUp? <==> NormVersion(p.todo[0].version) !in Keys(rows)
    ensures p.op.OpUp? ==> p.todo[0].upFile in UpFiles(all)
  {
    hide NormVersion, DistinctKeys, Norms;
    assert p.todo[0] in p.todo;
  }

  lemma CommitStays<S>(w: World<S>, db: Db<S>, mg: Migration, up: bool, fault: Fault)
    requires RunFile(w, db, mg, up, fault).1
    ensures Stays(w, db, mg, up, fault)
  {
  }

  lemma {:induction false} RunNextKeeps<S>(w: World<S>, all: seq<Migration>, keys0: set<string>, sys: Sys<S>, r: nat,
                                           fault: Fault)
    requires Inv(w, all, keys0, sys) && Enabled(sys, RunNext(r, fault))
    ensures Inv(w, all, keys0, Apply(w, all, sys, RunNext(r, fault)))
  {
    hide NormVersion, DistinctKeys, RunFile, OneSpelling, Keys, Alternates, After, Explained, Logged, InStep, Norms;
    var p := PhaseOf(sys, r);
    var mg := p.todo[0];
    LogKeeps(w, all, keys0, sys.db, sys.log, p, fault);
    if RunFile(w, sys.db, mg, p.op.OpUp?, fault).1 {
      CommitInStep(w, all, sys.db, p, fault);
    } else {
      FailureKeepsRows(w, sys.db, mg, p.op.OpUp?, fault);
      FailedInStep(all, sys.db.rows, p);
    }
  }

  lemma FailedInStep(all: seq<Migration>, rows: map<string, string>, p: Phase)
    requires p.Working? && InStep(all, rows, p)
    ensures InStep(all, rows, p.(ok := false))
  {
  }

  lemma {:induction false} ApplyKeeps<S>(w: World<S>, all: seq<Migration>, keys0: set<string>, sys: Sys<S>, a: Action)
    requires Inv(w, all, keys0, sys) && DistinctKeys(all) && Enabled(sys, a)
    ensures Inv(w, all, keys0, Apply(w, all, sys, a))
  {
    hide InStep, OneSpelling, Alternates, After, Keys, DistinctKeys, RunFile, Plan, NewestFirst, Explained;
    match a
    case Acquire(r, op) =>
    case Look(r, done, versions) => LookKeeps(w, all, keys0, sys, r, done, versions);
    case RunNext(r, fault) => RunNextKeeps(w, all, keys0, sys, r, fault);
    case Release(r) =>
    case Crash(r) =>
  }

  lemma {:induction false} RunKeeps<S>(w: World<S>, all: seq<Migration>, keys0: set<string>, sys: Sys<S>,
                                       acts: seq<Action>, last: Sys<S>)
    requires Inv(w, all, keys0, sys) && DistinctKeys(all) && Run(w, all, sys, acts, last)
    ensures Inv(w, all, keys0, last)
    decreases acts
  {
    hide Inv, DistinctKeys, Apply, Enabled;
    if acts != [] {
      ApplyKeeps(w, all, keys0, sys, acts[0]);
      RunKeeps(w, all, keys0, Apply(w, all, sys, acts[0]), acts[1..], last);
    }
  }

  lemma {:induction false} ReachableInv<S>(w: World<S>, all: seq<Migration>, db: Db<S>, acts: seq<Action>, sys: Sys<S>)
    requires Ascending(all) && OneSpelling(db.rows) && Run(w, all, Start(db), acts, sys)
    ensures Inv(w, all, Keys(db.rows), sys)
  {
    AscendingKeys(all);
    hide NormVersion, OneSpelling, DistinctKeys, Keys, Ascending;
    RunKeeps(w, all, Keys(db.rows), Start(db), acts, sys);
  }

  // ----- main results: the lock -----

  /** At every moment of every run with the lock, at most one runner is working, and what it read
      from the table is still what the table says, but for the files it ran itself. */
  lemma SnapshotStaysInStep<S>(w: World<S>, all: seq<Migration>, db: Db<S>, acts: seq<Action>, sys: Sys<S>, r: nat)
    requires Ascending(all) && OneSpelling(db.rows) && Run(w, all, Start(db), acts, sys)
    requires PhaseOf(sys, r).Working?
    ensures forall q | q in sys.phase && sys.phase[q] != Idle :: q == r
    ensures var p := PhaseOf(sys, r);
            Keys(sys.db.rows) == if p.op.OpUp? then p.done.Keys + Norms(p.ran) else p.done.Keys - Norms(p.ran)
  {
    ReachableInv(w, all, db, acts, sys);
    hide NormVersion, OneSpelling, DistinctKeys, Keys, Ascending, Alternates, After, Explained;
  }

  /** Two ups of one version. */
  predicate UpTwice(log: seq<Event>, i: nat, j: nat) {
    i < j < |log| && log[i].up && log[j].up && log[i].key == log[j].key
  }

  /** No version's up takes effect twice without its down in between, unless the first was outside a
      transaction and its record could not be written. */
  lemma NeverUpTwice<S>(w: World<S>, all: seq<Migration>, db: Db<S>, acts: seq<Action>, sys: Sys<S>, i: nat, j: nat)
    requires Ascending(all) && OneSpelling(db.rows) && Run(w, all, Start(db), acts, sys)
    requires UpTwice(sys.log, i, j)
    ensures DownBetween(sys.log, i, j)
            || (!sys.log[i].recorded && w.noTx(sys.log[i].file) && sys.log[i].file in UpFiles(all))
  {
    ReachableInv(w, all, db, acts, sys);
    hide NormVersion, OneSpelling, DistinctKeys, Keys, Ascending, InStep, Alternates, After, DownBetween, UpFiles;
    assert sys.log[i] in sys.log;
    if sys.log[i].recorded {
      DownBetweenUps(Keys(db.rows), sys.log, i, j);
    }
  }

  /** Recording an up never runs into a row that is already there. */
  lemma RecordNeverConflicts<S>(w: World<S>, all: seq<Migration>, db: Db<S>, acts: seq<Action>, sys: Sys<S>, r: nat,
                                fault: Fault)
    requires Ascending(all) && OneSpelling(db.rows) && Run(w, all, Start(db), acts, sys)
    requires Enabled(sys, RunNext(r, fault)) && PhaseOf(sys, r).op.OpUp?
    ensures PhaseOf(sys, r).todo[0].version !in sys.db.rows
    ensures RunFile(w, sys.db, PhaseOf(sys, r).todo[0], true, NoFault).1
       <==> w.run(PhaseOf(sys, r).todo[0].upFile, sys.db.schema).Done?
  {
    ReachableInv(w, all, db, acts, sys);
    hide NormVersion, OneSpelling, DistinctKeys, Ascending, Alternates, After, Explained;
    var mg := PhaseOf(sys, r).todo[0];
    assert mg in PhaseOf(sys, r).todo;
    if mg.version in sys.db.rows {
      RowKey(sys.db.rows, mg.version);
    }
  }

  /** When an Up has succeeded and is about to release the lock, every loaded version is applied. */
  lemma SuccessfulUpAppliesAll<S>(w: World<S>, all: seq<Migration>, db: Db<S>, acts: seq<Action>, sys: Sys<S>, r: nat)
    requires Ascending(all) && OneSpelling(db.rows) && Run(w, all, Start(db), acts, sys)
    requires Succeeded(PhaseOf(sys, r)) && PhaseOf(sys, r).op.OpUp?
    ensures forall mg | mg in all :: NormVersion(mg.version) in Keys(sys.db.rows)
  {
    ReachableInv(w, all, db, acts, sys);
    hide NormVersion, OneSpelling, DistinctKeys, Keys, Ascending, Alternates, After, Explained;
  }
}
