/** With files whose downs undo their ups, the table determines the schema: what is applied is
    always the oldest files, and taking everything back restores the start. */
module MigratePrefix {
  import opened Wrappers
  import opened MigrateLoad
  import opened Migrate

  /** Every file runs in a transaction, and each down takes back what its up did. */
  ghost predicate Reversible<S(!new)>(w: World<S>, all: seq<Migration>) {
    forall mg | mg in all :: mg.downFile != "" && !w.noTx(mg.upFile) && !w.noTx(mg.downFile)
      && forall s: S, s': S :: w.run(mg.upFile, s) == Done(s') ==> w.run(mg.downFile, s') == Done(s)
  }

  /** The schema after the first m files. */
  function SchemaAt<S>(w: World<S>, all: seq<Migration>, s0: S, m: nat): Option<S>
    requires m <= |all|
  {
    if m == 0 then Some(s0)
    else
      match SchemaAt(w, all, s0, m - 1)
      case None => None
      case Some(s) => match w.run(all[m - 1].upFile, s) case Done(s') => Some(s') case Failed(_) => None
  }

  function RowsOf(all: seq<Migration>, m: nat): map<string, string>
    requires m <= |all|
  {
    if m == 0 then map[] else RowsOf(all, m - 1)[all[m - 1].version := all[m - 1].name]
  }

  predicate AtPrefix<S(==)>(w: World<S>, all: seq<Migration>, s0: S, db: Db<S>, m: nat) {
    m <= |all| && db.rows == RowsOf(all, m) && SchemaAt(w, all, s0, m) == Some(db.schema)
  }

  // ----- facts about ascending files -----

  lemma {:induction false} AscendingAt(all: seq<Migration>, i: nat)
    requires Ascending(all) && i < |all|
    ensures IsVersion(all[i].version)
    ensures forall j | i < j < |all| :: IsVersion(all[j].version) && VersionLess(all[i].version, all[j].version)
  {
    hide IsVersion, VersionLess;
    if i > 0 {
      AscendingAt(all[1..], i - 1);
      assert forall j | 0 < j < |all| :: all[j] == all[1..][j - 1];
    } else {
      assert forall j | 0 < j < |all| :: all[j] == all[1..][j - 1];
    }
  }

  lemma DifferentKeys(all: seq<Migration>, i: nat, j: nat)
    requires Ascending(all) && i < |all| && j < |all| && i != j
    ensures NormVersion(all[i].version) != NormVersion(all[j].version)
  {
    AscendingAt(all, if i < j then i else j);
    KeyIsNumber(all[i].version, all[j].version);
    NumberIsValue(all[i].version);
    NumberIsValue(all[j].version);
  }

  lemma {:induction false} RowsAre(all: seq<Migration>, m: nat)
    requires m <= |all|
    ensures forall i | 0 <= i < m :: all[i].version in RowsOf(all, m)
    ensures forall v | v in RowsOf(all, m) :: exists i | 0 <= i < m :: all[i].version == v
  {
    if m > 0 {
      RowsAre(all, m - 1);
      forall v | v in RowsOf(all, m)
        ensures exists i | 0 <= i < m :: all[i].version == v
      {
        if v == all[m - 1].version {
        } else {
          assert v in RowsOf(all, m - 1);
          var i :| 0 <= i < m - 1 && all[i].version == v;
        }
      }
    }
  }

  lemma KeysAre(all: seq<Migration>, m: nat)
    requires Ascending(all) && m <= |all|
    ensures OneSpelling(RowsOf(all, m))
    ensures forall i | 0 <= i < |all| :: NormVersion(all[i].version) in Keys(RowsOf(all, m)) <==> i < m
    ensures forall v | v in RowsOf(all, m) :: IsVersion(v)
    ensures forall k | k in Keys(RowsOf(all, m)) :: exists i | 0 <= i < m :: NormVersion(all[i].version) == k
  {
    hide NormVersion, IsVersion, Ascending;
    RowsAre(all, m);
    forall i | 0 <= i < |all|
      ensures NormVersion(all[i].version) in Keys(RowsOf(all, m)) <==> i < m
    {
      if v :| v in RowsOf(all, m) && NormVersion(v) == NormVersion(all[i].version) {
        var j :| 0 <= j < m && all[j].version == v;
        if j != i {
          DifferentKeys(all, i, j);
        }
      }
    }
    forall u, v | u in RowsOf(all, m) && v in RowsOf(all, m) && NormVersion(u) == NormVersion(v)
      ensures u == v
    {
      var i :| 0 <= i < m && all[i].version == u;
      var j :| 0 <= j < m && all[j].version == v;
      if i != j {
        DifferentKeys(all, i, j);
      }
    }
    forall v | v in RowsOf(all, m)
      ensures IsVersion(v)
    {
      var i :| 0 <= i < m && all[i].version == v;
      AscendingAt(all, i);
    }
  }

  // ----- plans -----

  lemma {:induction false} UpPlanSuffix(all: seq<Migration>, done: map<string, string>, m: nat)
    requires m <= |all|
    requires forall i | 0 <= i < |all| :: NormVersion(all[i].version) in done <==> i < m
    ensures UpPlan(all, done) == all[m..]
  {
    hide NormVersion;
    if all != [] {
      assert forall i | 0 <= i < |all[1..]| :: all[1..][i] == all[i + 1];
      UpPlanSuffix(all[1..], done, if m == 0 then 0 else m - 1);
      if m > 0 {
        assert all[1..][m - 1..] == all[m..];
      }
    }
  }

  /** From the m oldest files, the ones a Down of `steps` takes back; a negative number means all. */
  function TakeBack(all: seq<Migration>, m: nat, steps: int): seq<Migration>
    requires m <= |all|
  {
    if m == 0 || steps == 0 then [] else [all[m - 1]] + TakeBack(all, m - 1, steps - 1)
  }

  function Newest(all: seq<Migration>, m: nat): seq<string>
    requires m <= |all|
  {
    if m == 0 then [] else [NormVersion(all[m - 1].version)] + Newest(all, m - 1)
  }

  lemma NewestAre(all: seq<Migration>, m: nat)
    requires Ascending(all) && m <= |all|
    ensures forall v | v in Newest(all, m) :: IsVersion(v) && exists i | 0 <= i < m :: NormVersion(all[i].version) == v
    ensures forall i | 0 <= i < m :: NormVersion(all[i].version) in Newest(all, m)
    ensures Descending(Newest(all, m))
  {
    hide NormVersion, Ascending, Number, IsVersion;
    NewestMembers(all, m);
    NewestDescending(all, m);
  }

  lemma {:induction false} NewestMembers(all: seq<Migration>, m: nat)
    requires Ascending(all) && m <= |all|
    ensures forall v | v in Newest(all, m) :: IsVersion(v) && exists i | 0 <= i < m :: NormVersion(all[i].version) == v
    ensures forall i | 0 <= i < m :: NormVersion(all[i].version) in Newest(all, m)
  {
    hide NormVersion, Ascending, Number, IsVersion;
    if m > 0 {
      NewestMembers(all, m - 1);
      AscendingAt(all, m - 1);
      NormIsVersion(all[m - 1].version);
    }
  }

  lemma DescendingCons(v: string, vs: seq<string>)
    requires IsVersion(v) && (forall u | u in vs :: IsVersion(u) && Number(u) < Number(v)) && Descending(vs)
    ensures Descending([v] + vs)
  {
    hide Number, IsVersion;
    assert ([v] + vs)[1..] == vs;
  }

  lemma {:induction false} NewestDescending(all: seq<Migration>, m: nat)
    requires Ascending(all) && m <= |all| && forall v | v in Newest(all, m) :: IsVersion(v)
    ensures Descending(Newest(all, m))
  {
    hide NormVersion, Ascending, Number, IsVersion, Descending;
    if m == 0 {
      NothingDescends();
    } else {
      var before := Newest(all, m - 1);
      NewestMembers(all, m - 1);
      NewestDescending(all, m - 1);
      forall v | v in before
        ensures Number(v) < Number(NormVersion(all[m - 1].version))
      {
        var i :| 0 <= i < m - 1 && NormVersion(all[i].version) == v;
        EarlierIsLess(all, i, m - 1);
      }
      DescendingCons(NormVersion(all[m - 1].version), before);
    }
  }

  lemma NothingDescends()
    ensures Descending([])
  {
  }

  lemma EarlierIsLess(all: seq<Migration>, i: nat, j: nat)
    requires Ascending(all) && i < j < |all|
    ensures IsVersion(NormVersion(all[i].version)) && IsVersion(NormVersion(all[j].version))
    ensures Number(NormVersion(all[i].version)) < Number(NormVersion(all[j].version))
  {
    hide NormVersion, Ascending, Number, IsVersion;
    AscendingAt(all, i);
    SameNumber(all[i].version);
    SameNumber(all[j].version);
  }

  lemma SameNumber(v: string)
    requires IsVersion(v)
    ensures IsVersion(NormVersion(v)) && Number(NormVersion(v)) == Number(v)
  {
    NormIsVersion(v);
    NumberIsValue(NormVersion(v));
    NumberIsValue(v);
    NormCanonical(v);
  }

  lemma {:induction false} FileForIs(all: seq<Migration>, n: nat, i: nat)
    requires Ascending(all) && i < n <= |all|
    ensures FileFor(all[..n], NormVersion(all[i].version)) == Some(all[i])
  {
    hide NormVersion, Ascending;
    assert all[..n][..n - 1] == all[..n - 1];
    if i < n - 1 {
      DifferentKeys(all, i, n - 1);
      FileForIs(all, n - 1, i);
    }
  }

  lemma {:induction false} DownPlanIs(all: seq<Migration>, done: map<string, string>, m: nat, steps: int)
    requires Ascending(all) && m <= |all|
    requires forall i | 0 <= i < m :: all[i].downFile != "" && NormVersion(all[i].version) in done
                                      && done[NormVersion(all[i].version)] == all[i].version
    requires forall v | v in Newest(all, m) :: v in done
    ensures DownPlan(all, done, Newest(all, m), steps) == (TakeBack(all, m, steps), false)
  {
    hide NormVersion, Ascending, FileFor;
    if m > 0 && steps != 0 {
      var mg := all[m - 1];
      assert all[..|all|] == all;
      FileForIs(all, |all|, m - 1);
      DownPlanIs(all, done, m - 1, steps - 1);
      assert mg.(version := done[NormVersion(mg.version)]) == mg;
    }
  }

  /** What Up and Down plan when they find the m oldest files applied. */
  lemma UpPlanAtPrefix(all: seq<Migration>, done: map<string, string>, m: nat)
    requires Ascending(all) && m <= |all| && IsApplied(RowsOf(all, m), done)
    ensures UpPlan(all, done) == all[m..]
  {
    hide NormVersion, Ascending;
    KeysAre(all, m);
    UpPlanSuffix(all, done, m);
  }

  lemma DoneAtPrefix(all: seq<Migration>, done: map<string, string>, m: nat)
    requires Ascending(all) && m <= |all| && IsApplied(RowsOf(all, m), done)
    ensures forall i | 0 <= i < m :: NormVersion(all[i].version) in done
                                     && done[NormVersion(all[i].version)] == all[i].version
    ensures forall k | k in done :: exists i | 0 <= i < m :: NormVersion(all[i].version) == k
  {
    hide NormVersion, Ascending, IsVersion;
    KeysAre(all, m);
    RowsAre(all, m);
  }

  lemma DownPlanAtPrefix(all: seq<Migration>, done: map<string, string>, m: nat, versions: seq<string>, steps: int)
    requires Ascending(all) && m <= |all| && IsApplied(RowsOf(all, m), done)
    requires NewestFirst(versions, done) && forall mg | mg in all :: mg.downFile != ""
    ensures DownPlan(all, done, versions, steps) == (TakeBack(all, m, steps), false)
  {
    hide NormVersion, Ascending, IsVersion, Descending, Number, Canonical, DownPlan, TakeBack, IsApplied, Newest;
    DoneAtPrefix(all, done, m);
    NewestAre(all, m);
    DescendingUnique(versions, Newest(all, m));
    DownPlanIs(all, done, m, steps);
  }

  // ----- one file -----

  lemma FreshVersion(all: seq<Migration>, m: nat)
    requires Ascending(all) && m < |all|
    ensures all[m].version !in RowsOf(all, m)
  {
    hide Ascending;
    RowsAre(all, m);
    forall i | 0 <= i < m
      ensures all[i].version != all[m].version
    {
      DifferentKeys(all, i, m);
    }
  }

  lemma ReversibleAt<S(!new)>(w: World<S>, all: seq<Migration>, m: nat, s: S)
    requires Reversible(w, all) && m < |all|
    ensures !w.noTx(all[m].upFile) && !w.noTx(all[m].downFile)
    ensures w.run(all[m].upFile, s).Done? ==> w.run(all[m].downFile, w.run(all[m].upFile, s).s) == Done(s)
  {
    assert all[m] in all;
  }

  /** An up of the next file moves one further, or changes nothing. */
  lemma UpAtPrefix<S(!new)>(w: World<S>, all: seq<Migration>, s0: S, db: Db<S>, m: nat, fault: Fault)
    requires Ascending(all) && Reversible(w, all) && AtPrefix(w, all, s0, db, m) && m < |all|
    ensures var (db', ok) := RunFile(w, db, all[m], true, fault);
            AtPrefix(w, all, s0, db', if ok then m + 1 else m) && (!ok ==> db' == db)
  {
    hide Ascending, Reversible;
    FreshVersion(all, m);
    ReversibleAt(w, all, m, db.schema);
  }

  /** A down of the newest applied file moves one back, or changes nothing. */
  lemma DownAtPrefix<S(!new)>(w: World<S>, all: seq<Migration>, s0: S, db: Db<S>, m: nat, fault: Fault)
    requires Ascending(all) && Reversible(w, all) && AtPrefix(w, all, s0, db, m) && m > 0
    ensures var (db', ok) := RunFile(w, db, all[m - 1], false, fault);
            AtPrefix(w, all, s0, db', if ok then m - 1 else m) && (!ok ==> db' == db) && (fault == NoFault ==> ok)
  {
    hide Ascending, Reversible;
    FreshVersion(all, m - 1);
    ReversibleAt(w, all, m - 1, SchemaAt(w, all, s0, m - 1).value);
    assert RowsOf(all, m) - {all[m - 1].version} == RowsOf(all, m - 1);
  }

  // ----- whole commands -----

  /** Up stops at some file, leaving just the files before it, or runs them all. */
  lemma {:induction false} UpRuns<S(!new)>(w: World<S>, all: seq<Migration>, s0: S, db: Db<S>, m: nat,
                                           faults: seq<Fault>)
    returns (n: nat)
    requires Ascending(all) && Reversible(w, all) && AtPrefix(w, all, s0, db, m)
    ensures m <= n <= |all|
    ensures var (db', ran, ok) := Execute(w, db, true, all[m..], faults);
            AtPrefix(w, all, s0, db', n) && ran == all[m..n] && (ok <==> n == |all|)
    decreases |all| - m
  {
    hide Ascending, Reversible, RunFile, AtPrefix;
    assert m <= |all| by { AtPrefixFits(w, all, s0, db, m); }
    n := m;
    if m < |all| {
      UpAtPrefix(w, all, s0, db, m, Befalls(faults));
      var (db', ok) := RunFile(w, db, all[m], true, Befalls(faults));
      assert all[m..][0] == all[m] && all[m..][1..] == all[m + 1..];
      if ok {
        n := UpRuns(w, all, s0, db', m + 1, Later(faults));
        assert [all[m]] + all[m + 1..n] == all[m..n];
      }
    }
  }

  lemma AtPrefixFits<S>(w: World<S>, all: seq<Migration>, s0: S, db: Db<S>, m: nat)
    requires AtPrefix(w, all, s0, db, m)
    ensures m <= |all|
  {
  }

  /** Down takes back exactly the files it should, or stops at a fault after some of them. */
  lemma {:induction false} DownRuns<S(!new)>(w: World<S>, all: seq<Migration>, s0: S, db: Db<S>, m: nat, steps: int,
                                             faults: seq<Fault>)
    returns (n: nat)
    requires Ascending(all) && Reversible(w, all) && AtPrefix(w, all, s0, db, m) && m <= |all|
    ensures n <= m
    ensures var (db', ran, ok) := Execute(w, db, false, TakeBack(all, m, steps), faults);
            AtPrefix(w, all, s0, db', n) && ran == TakeBack(all, m, m - n)
            && (ok <==> n == if 0 <= steps <= m then m - steps else 0)
            && ((forall f | f in faults :: f == NoFault) ==> ok)
    decreases m
  {
    hide Ascending, Reversible, RunFile, AtPrefix, Execute, TakeBack;
    n := m;
    assert faults != [] ==> faults[0] in faults && forall f | f in faults[1..] :: f in faults;
    if m > 0 && steps != 0 {
      DownAtPrefix(w, all, s0, db, m, Befalls(faults));
      var (db', ok) := RunFile(w, db, all[m - 1], false, Befalls(faults));
      TakeBackOne(all, m, steps);
      ExecuteFirst(w, db, false, TakeBack(all, m, steps), faults);
      if ok {
        n := DownRuns(w, all, s0, db', m - 1, steps - 1, Later(faults));
        TakeBackOne(all, m, m - n);
      } else {
        TakeBackNone(all, m, 0);
      }
    } else {
      TakeBackNone(all, m, steps);
      TakeBackNone(all, m, 0);
      ExecuteNothing(w, db, false, faults);
    }
  }

  lemma TakeBackOne(all: seq<Migration>, m: nat, steps: int)
    requires 0 < m <= |all| && steps != 0
    ensures TakeBack(all, m, steps) == [all[m - 1]] + TakeBack(all, m - 1, steps - 1)
    ensures TakeBack(all, m, steps)[0] == all[m - 1] && TakeBack(all, m, steps)[1..] == TakeBack(all, m - 1, steps - 1)
  {
  }

  lemma TakeBackNone(all: seq<Migration>, m: nat, steps: int)
    requires m <= |all| && (m == 0 || steps == 0)
    ensures TakeBack(all, m, steps) == []
  {
  }

  lemma ExecuteNothing<S>(w: World<S>, db: Db<S>, up: bool, faults: seq<Fault>)
    ensures Execute(w, db, up, [], faults) == (db, [], true)
  {
  }

  lemma ExecuteFirst<S>(w: World<S>, db: Db<S>, up: bool, plan: seq<Migration>, faults: seq<Fault>)
    requires plan != []
    ensures var (db', ok) := RunFile(w, db, plan[0], up, Befalls(faults));
            var (last, ran, all) := Execute(w, db', up, plan[1..], Later(faults));
            Execute(w, db, up, plan, faults) == if ok then (last, [plan[0]] + ran, all) else (db', [], false)
  {
    hide RunFile;
  }

  /** From an empty table, any Up followed by a DownAll restores the schema and empties the table,
      even when a failing file or a fault stopped the Up; the DownAll meets no fault of its own. */
  lemma UpThenDownAllRestores<S(!new)>(w: World<S>, all: seq<Migration>, s0: S, faults: seq<Fault>,
                                       done: map<string, string>, done': map<string, string>, versions: seq<string>)
    requires Ascending(all) && Reversible(w, all)
    requires IsApplied(map[], done)
    requires IsApplied(Execute(w, Db(s0, map[]), true, UpPlan(all, done), faults).0.rows, done')
             && NewestFirst(versions, done')
    ensures var afterUp := Execute(w, Db(s0, map[]), true, UpPlan(all, done), faults).0;
            var (plan, stuck) := DownPlan(all, done', versions, -1);
            !stuck && Execute(w, afterUp, false, plan, []).0 == Db(s0, map[]) && Execute(w, afterUp, false, plan, []).2
  {
    hide Ascending, Execute, DownPlan, UpPlan, NewestFirst, TakeBack;
    assert forall mg | mg in all :: mg.downFile != "";
    var start := Db(s0, map[]);
    assert AtPrefix(w, all, s0, start, 0);
    UpPlanAtPrefix(all, done, 0);
    assert all[0..] == all;
    var n := UpRuns(w, all, s0, start, 0, faults);
    var afterUp := Execute(w, start, true, all, faults).0;
    DownPlanAtPrefix(all, done', n, versions, -1);
    var none := DownRuns(w, all, s0, afterUp, n, -1, []);
  }
}
