/** The callers of the statement cache: each looks its key up, prepares only after it was turned away,
    and then offers what it prepared. */
module StmtCallers {
  import opened StmtCacheSpec
  import opened StmtCacheProof

  // ----- when a lookup finds something -----

  /** An entry for the key is in the list. */
  predicate Listed<E(==), S>(st: State<E, S>, key: string) {
    exists e | e in st.lru :: e in st.entry && st.entry[e].key == key
  }

  /** In an open cache a lookup finds the listed entry of its key, and nothing else. */
  lemma HitIffListed<E, S>(st: State<E, S>, key: string)
    requires Inv(st)
    ensures CanHit(st, key) <==> !st.closed && Listed(st, key)
    ensures CanHit(st, key) ==>
              st.items[key] in st.lru && st.items[key] in st.entry && st.entry[st.items[key]].key == key
    ensures forall e | e in st.lru && e in st.entry && st.entry[e].key == key :: key in st.items && st.items[key] == e
  {
    hide InvOrder, InvRefs, InvStmts, NoDuplicates;
  }

  // ----- callers -----

  datatype Phase<!S> = Idle | TurnedAway(key: string) | Prepared(s: S)

  datatype Event<!S> = Looked(c: nat, key: string, open: bool, listed: bool) | DidPrepare(c: nat, key: string, s: S)

  datatype Sys<!E, !S> = Sys(st: State<E, S>, phase: map<nat, Phase<S>>, log: seq<Event<S>>)

  /** A step of caller c, or one that no acquire is in the middle of: counting, releasing, closing. */
  datatype Step<!E, !S> =
    | Look(c: nat, key: string)
    | PrepareFor(c: nat, s: S)
    | Fail(c: nat)
    | Offer(c: nat, e: E)
    | Other(a: Action<E, S>)

  function PhaseOf<E, S>(sys: Sys<E, S>, c: nat): Phase<S> {
    if c in sys.phase then sys.phase[c] else Idle
  }

  predicate CanStep<E(==), S(==)>(sys: Sys<E, S>, x: Step<E, S>) {
    match x
    case Look(c, _) => PhaseOf(sys, c).Idle?
    case PrepareFor(c, s) => PhaseOf(sys, c).TurnedAway? && s !in sys.st.closes
    case Fail(c) => PhaseOf(sys, c).TurnedAway?
    case Offer(c, e) => PhaseOf(sys, c).Prepared? && CanInsert(sys.st, PhaseOf(sys, c).s, e)
    case Other(a) => (a.ACountHit? || a.ARelease? || a.ACloseAll?) && Enabled(sys.st, a)
  }

  function TakeStep<E(==), S(==)>(sys: Sys<E, S>, x: Step<E, S>): Sys<E, S>
    requires CanStep(sys, x)
  {
    match x
    case Look(c, key) =>
      var looked := Looked(c, key, !sys.st.closed, Listed(sys.st, key));
      if CanHit(sys.st, key) then sys.(st := Apply(sys.st, AHit(key)), log := sys.log + [looked])
      else sys.(phase := sys.phase[c := TurnedAway(key)], log := sys.log + [looked])
    case PrepareFor(c, s) =>
      var key := PhaseOf(sys, c).key;
      Sys(Apply(sys.st, APrepare(key, s)), sys.phase[c := Prepared(s)], sys.log + [DidPrepare(c, key, s)])
    case Fail(c) => sys.(phase := sys.phase[c := Idle])
    case Offer(c, e) => sys.(st := Apply(sys.st, AInsert(PhaseOf(sys, c).s, e)), phase := sys.phase[c := Idle])
    case Other(a) => sys.(st := Apply(sys.st, a))
  }

  ghost predicate Go<E, S>(sys: Sys<E, S>, steps: seq<Step<E, S>>, last: Sys<E, S>)
    decreases |steps|
  {
    if steps == [] then sys == last else CanStep(sys, steps[0]) && Go(TakeStep(sys, steps[0]), steps[1..], last)
  }

  // ----- nobody prepares what the cache has -----

  /** The last entry of caller c in the log. */
  function LastOf<S>(log: seq<Event<S>>, c: nat): (i: int)
    ensures -1 <= i < |log| && (i >= 0 ==> log[i].c == c)
    ensures forall j | i < j < |log| :: log[j].c != c
  {
    if log == [] then -1 else if log[|log| - 1].c == c then |log| - 1 else LastOf(log[..|log| - 1], c)
  }

  /** What a caller did last before it prepared was to look the same key up, in a cache that was closed
      or did not list it. */
  predicate Warranted<S>(log: seq<Event<S>>, j: nat)
    requires j < |log|
  {
    log[j].DidPrepare? ==>
      var i := LastOf(log[..j], log[j].c);
      i >= 0 && log[i].Looked? && log[i].key == log[j].key && !(log[i].open && log[i].listed)
  }

  predicate Kept<E, S>(sys: Sys<E, S>) {
    && (forall j | 0 <= j < |sys.log| :: Warranted(sys.log, j))
    && forall c | c in sys.phase && sys.phase[c].TurnedAway? ::
         var i := LastOf(sys.log, c);
         i >= 0 && sys.log[i].Looked? && sys.log[i].key == sys.phase[c].key && !(sys.log[i].open && sys.log[i].listed)
  }

  lemma LogGrows<S>(log: seq<Event<S>>, x: Event<S>, j: nat)
    requires j < |log|
    ensures Warranted(log + [x], j) <==> Warranted(log, j)
  {
    assert (log + [x])[..j] == log[..j];
  }

  lemma LastGrows<S>(log: seq<Event<S>>, x: Event<S>, c: nat)
    ensures LastOf(log + [x], c) == if x.c == c then |log| else LastOf(log, c)
  {
    assert (log + [x])[..|log|] == log;
  }

  /** A new entry that is warranted, and the callers that are turned away after it. */
  lemma LoggedKeeps<E, S>(sys: Sys<E, S>, next: Sys<E, S>, x: Event<S>)
    requires Kept(sys) && next.log == sys.log + [x] && Warranted(next.log, |sys.log|)
    requires forall c | c in next.phase && next.phase[c].TurnedAway? ::
               if c == x.c then x.Looked? && x.key == next.phase[c].key && !(x.open && x.listed)
               else c in sys.phase && sys.phase[c] == next.phase[c]
    ensures Kept(next)
  {
    hide Warranted, LastOf;
    forall j | 0 <= j < |next.log|
      ensures Warranted(next.log, j)
    {
      if j < |sys.log| {
        LogGrows(sys.log, x, j);
      }
    }
    forall c | c in next.phase && next.phase[c].TurnedAway?
      ensures var i := LastOf(next.log, c);
              i >= 0 && next.log[i].Looked? && next.log[i].key == next.phase[c].key
              && !(next.log[i].open && next.log[i].listed)
    {
      LastGrows(sys.log, x, c);
    }
  }

  lemma StepKeeps<E, S>(sys: Sys<E, S>, x: Step<E, S>)
    requires Inv(sys.st) && Kept(sys) && CanStep(sys, x)
    ensures Inv(TakeStep(sys, x).st) && Kept(TakeStep(sys, x))
  {
    hide Inv, Apply, Enabled, Listed, CanInsert, CanHit, Warranted, LastOf;
    StepState(sys, x);
    var next, n := TakeStep(sys, x), |sys.log|;
    match x {
      case Look(c, key) =>
        HitIffListed(sys.st, key);
        LookIsWarranted(next.log, n);
        LoggedKeeps(sys, next, next.log[n]);
      case PrepareFor(c, s) =>
        PrepareIsWarranted(sys, c, next.log[n]);
        LoggedKeeps(sys, next, next.log[n]);
      case _ =>
    }
  }

  lemma LookIsWarranted<S>(log: seq<Event<S>>, j: nat)
    requires j < |log| && log[j].Looked?
    ensures Warranted(log, j)
  {
  }

  lemma PrepareIsWarranted<E, S>(sys: Sys<E, S>, c: nat, x: Event<S>)
    requires Kept(sys) && PhaseOf(sys, c).TurnedAway? && x.DidPrepare? && x.c == c && x.key == PhaseOf(sys, c).key
    ensures Warranted(sys.log + [x], |sys.log|)
  {
    hide LastOf;
    assert (sys.log + [x])[..|sys.log|] == sys.log;
  }

  /** The cache itself takes one of its actions, or none. */
  lemma StepState<E, S>(sys: Sys<E, S>, x: Step<E, S>)
    requires Inv(sys.st) && CanStep(sys, x)
    ensures var next := TakeStep(sys, x).st;
            Inv(next) && (next == sys.st || exists a :: Enabled(sys.st, a) && next == Apply(sys.st, a))
  {
    hide Inv, Apply, Listed, CanInsert, CanHit;
    match x
    case Look(c, key) =>
      if CanHit(sys.st, key) {
        ApplyKeeps(sys.st, AHit(key));
      }
    case PrepareFor(c, s) => ApplyKeeps(sys.st, APrepare(PhaseOf(sys, c).key, s));
    case Fail(_) =>
    case Offer(c, e) => ApplyKeeps(sys.st, AInsert(PhaseOf(sys, c).s, e));
    case Other(a) => ApplyKeeps(sys.st, a);
  }

  lemma {:induction false} GoKeeps<E, S>(sys: Sys<E, S>, steps: seq<Step<E, S>>, last: Sys<E, S>)
    requires Inv(sys.st) && Kept(sys) && Go(sys, steps, last)
    ensures Inv(last.st) && Kept(last)
    decreases |steps|
  {
    hide Inv, Kept, CanStep, TakeStep;
    if steps != [] {
      StepKeeps(sys, steps[0]);
      GoKeeps(TakeStep(sys, steps[0]), steps[1..], last);
    }
  }

  /** In every run of any number of callers, a caller prepares a statement only after its own last look
      at the cache met a closed one, or one that did not list its key. */
  lemma PreparesOnlyWhatIsMissing<E, S>(size: int, steps: seq<Step<E, S>>, last: Sys<E, S>, j: nat)
    requires Go(Sys(Init(size), map[], []), steps, last) && j < |last.log| && last.log[j].DidPrepare?
    ensures exists i ::
              0 <= i < j && last.log[i].Looked? && last.log[i].c == last.log[j].c && last.log[i].key == last.log[j].key
              && !(last.log[i].open && last.log[i].listed)
              && forall k | i < k < j :: last.log[k].c != last.log[j].c
  {
    hide Inv, Go;
    InitKeeps<E, S>(size);
    GoKeeps(Sys(Init(size), map[], []), steps, last);
    assert Warranted(last.log, j);
    var i := LastOf(last.log[..j], last.log[j].c);
    assert last.log[..j][i] == last.log[i];
    assert forall k | i < k < j :: last.log[..j][k] == last.log[k];
  }

  lemma InitKeeps<E, S>(size: int)
    ensures Inv(Init<E, S>(size))
  {
  }

  /** Whatever the callers do, the cache goes through a run of its own. */
  lemma {:induction false} GoIsRun<E, S>(sys: Sys<E, S>, steps: seq<Step<E, S>>, last: Sys<E, S>)
    returns (acts: seq<Action<E, S>>)
    requires Inv(sys.st) && Go(sys, steps, last)
    ensures Run(sys.st, acts, last.st)
    decreases |steps|
  {
    hide Inv, CanStep, TakeStep, Apply, Enabled;
    acts := [];
    if steps != [] {
      var next := TakeStep(sys, steps[0]);
      StepState(sys, steps[0]);
      acts := GoIsRun(next, steps[1..], last);
      if next.st != sys.st {
        var a :| Enabled(sys.st, a) && next.st == Apply(sys.st, a);
        assert ([a] + acts)[1..] == acts;
        acts := [a] + acts;
      }
    }
  }

  // ----- one caller at a time -----

  /** acquire with nobody in between: the statement s and the entry e are there for when they are needed. */
  function AcquireAlone<E(==), S(==)>(st: State<E, S>, key: string, s: S, e: E): State<E, S>
    requires Inv(st) && s !in st.closes && e !in st.entry
  {
    AloneSound(st, key, s);
    if CanHit(st, key) then CountHit(Hit(st, key)) else Insert(Prepare(st, key, s), s, e)
  }

  lemma AloneSound<E, S>(st: State<E, S>, key: string, s: S)
    requires Inv(st) && s !in st.closes
    ensures Sound(st) && Inv(Prepare(st, key, s)) && Sound(Prepare(st, key, s))
    ensures CanHit(st, key) ==> st.items[key] in st.entry
  {
    hide InvOrder, InvRefs, InvStmts, InvItems, InvList;
    InvSound(st);
    PrepareKeeps(st, key, s);
    InvSound(Prepare(st, key, s));
  }

  /** It keeps the invariant, and prepares a statement exactly when the cache has none for the key.
      Afterwards an open cache has one. */
  lemma AcquireAloneKeeps<E, S>(st: State<E, S>, key: string, s: S, e: E)
    requires Inv(st) && s !in st.closes && e !in st.entry
    ensures var next := AcquireAlone(st, key, s, e);
            && Inv(next) && next.closed == st.closed && (!st.closed ==> CanHit(next, key))
            && (if CanHit(st, key) then next.closes.Keys == st.closes.Keys && next.entry.Keys == st.entry.Keys
                else next.closes.Keys == st.closes.Keys + {s} && next.entry.Keys == st.entry.Keys + {e})
  {
    hide Inv, Insert, Hit, Sound, Prepare;
    AloneSound(st, key, s);
    if CanHit(st, key) {
      HitKeeps(st, key);
      HitFacts(st, key);
      CountHitKeeps(Hit(st, key), key);
    } else {
      PrepareFacts(st, key, s);
      InsertKeeps(Prepare(st, key, s), s, e);
      InsertFacts(Prepare(st, key, s), s, e);
    }
  }

  lemma PrepareFacts<E, S>(st: State<E, S>, key: string, s: S)
    requires s !in st.closes
    ensures var p := Prepare(st, key, s);
            && s in p.flight && p.flight[s] == key && p.closes.Keys == st.closes.Keys + {s}
            && p.entry == st.entry && p.items == st.items && p.closed == st.closed
  {
  }

  lemma CountHitKeeps<E, S>(st: State<E, S>, key: string)
    requires Inv(st) && st.uncounted > 0
    ensures Inv(CountHit(st))
  {
    ApplyKeeps(st, ACountHit);
    InvSound(st);
  }

  lemma HitFacts<E, S>(st: State<E, S>, key: string)
    requires Inv(st) && CanHit(st, key)
    ensures st.items[key] in st.entry
    ensures var next := Hit(st, key);
            next.closed == st.closed && next.size == st.size && next.items == st.items && next.closes == st.closes
            && next.entry.Keys == st.entry.Keys && next.uncounted > 0
  {
    hide InvOrder, InvRefs, InvStmts, InvList;
  }

  lemma InsertFacts<E, S>(st: State<E, S>, s: S, e: E)
    requires Inv(st) && Sound(st) && CanInsert(st, s, e) && (st.closed || st.flight[s] !in st.items)
    ensures var next := Insert(st, s, e);
            && next.closed == st.closed && next.closes.Keys == st.closes.Keys
            && next.entry.Keys == st.entry.Keys + {e} && (!st.closed ==> st.flight[s] in next.items)
  {
    hide Inv, Evict, Sound, Overfull, Last;
    AddFacts(st, s, e);
    var added := Add(st, s, e);
    if !st.closed && Overfull(added) {
      OldestIsOther(st, s, e);
      EvictFacts(added, Last(added.lru));
    }
  }

  lemma AddFacts<E, S>(st: State<E, S>, s: S, e: E)
    requires s in st.flight
    ensures var t := Add(st, s, e);
            t.closed == st.closed && t.closes == st.closes && t.entry.Keys == st.entry.Keys + {e}
            && (!st.closed ==> st.flight[s] in t.items)
  {
  }

  lemma EvictFacts<E, S>(st: State<E, S>, e: E)
    requires e in st.entry && st.entry[e].stmt in st.closes
    ensures var t := Evict(st, e);
            t.closed == st.closed && t.closes.Keys == st.closes.Keys && t.entry.Keys == st.entry.Keys
            && forall k | k in st.items && k != st.entry[e].key :: k in t.items
  {
    hide Without, Close;
    var x := st.entry[e];
    if !x.evicted {
      var entry := st.entry[e := x.(evicted := true)];
      var st' := st.(entry := entry, lru := Without(st.lru, e), items := st.items - {x.key});
      assert st'.entry.Keys == st.entry.Keys;
      CloseFacts(st', x.stmt);
    }
  }

  lemma CloseFacts<E, S>(st: State<E, S>, s: S)
    requires s in st.closes
    ensures var t := Close(st, s);
            t.closes.Keys == st.closes.Keys && t == st.(closes := t.closes)
  {
  }

  /** A full cache does not evict the entry it has just added. */
  lemma OldestIsOther<E, S>(st: State<E, S>, s: S, e: E)
    requires Inv(st) && CanInsert(st, s, e) && !st.closed && st.flight[s] !in st.items && Overfull(Add(st, s, e))
    ensures var added := Add(st, s, e);
            Last(added.lru) in added.entry && added.entry[Last(added.lru)].stmt in added.closes
            && added.entry[Last(added.lru)].key != st.flight[s]
  {
    hide Inv, InvItems, InvList, InvStmts, InvOrder, InvRefs, Sound;
    SomeListed(st, s, e);
    OldestIs(st);
    assert Last(Add(st, s, e).lru) == Last(st.lru);
  }

  lemma SomeListed<E, S>(st: State<E, S>, s: S, e: E)
    requires Inv(st) && CanInsert(st, s, e) && !st.closed && st.flight[s] !in st.items && Overfull(Add(st, s, e))
    ensures st.lru != []
  {
    hide InvOrder, InvRefs, InvStmts;
    AddSize(st, s, e);
    SameCount(st);
  }

  lemma OldestIs<E, S>(st: State<E, S>)
    requires Inv(st) && st.lru != []
    ensures var last := Last(st.lru);
            last in st.entry && st.entry[last].stmt in st.closes && st.entry[last].key in st.items
  {
    hide InvOrder, InvRefs, InvStmts;
    assert Last(st.lru) in st.lru;
    InvSound(st);
  }

  /** n acquires of one key with nobody in between. */
  function AcquireAll<E(==), S(==)>(st: State<E, S>, key: string, ss: seq<S>, es: seq<E>): State<E, S>
    requires |ss| == |es| && Inv(st) && Fresh(st, ss, es)
    decreases |ss|
  {
    hide Inv, AcquireAlone;
    if ss == [] then st
    else
      NextFresh(st, key, ss, es);
      AcquireAll(AcquireAlone(st, key, ss[0], es[0]), key, ss[1..], es[1..])
  }

  /** Handles that do not exist yet, all different. */
  predicate Fresh<E(==), S(==)>(st: State<E, S>, ss: seq<S>, es: seq<E>) {
    && (forall i | 0 <= i < |ss| :: ss[i] !in st.closes) && (forall i | 0 <= i < |es| :: es[i] !in st.entry)
    && (forall i, j | 0 <= i < j < |ss| :: ss[i] != ss[j]) && (forall i, j | 0 <= i < j < |es| :: es[i] != es[j])
  }

  lemma NextFresh<E, S>(st: State<E, S>, key: string, ss: seq<S>, es: seq<E>)
    requires |ss| == |es| > 0 && Inv(st) && Fresh(st, ss, es)
    ensures ss[0] !in st.closes && es[0] !in st.entry
    ensures Inv(AcquireAlone(st, key, ss[0], es[0])) && Fresh(AcquireAlone(st, key, ss[0], es[0]), ss[1..], es[1..])
  {
    hide Inv, AcquireAlone;
    AcquireAloneKeeps(st, key, ss[0], es[0]);
  }

  /** On an open cache they prepare one statement if the key was not listed, and none if it was. */
  lemma OnePreparation<E, S>(st: State<E, S>, key: string, ss: seq<S>, es: seq<E>)
    requires |ss| == |es| > 0 && Inv(st) && Fresh(st, ss, es) && !st.closed
    ensures AcquireAll(st, key, ss, es).closes.Keys == st.closes.Keys + if Listed(st, key) then {} else {ss[0]}
  {
    hide Inv, Listed, AcquireAlone, AcquireAll, CanHit, Fresh;
    HitIffListed(st, key);
    PreparesOnce(st, key, ss, es);
  }

  lemma {:induction false} PreparesOnce<E, S>(st: State<E, S>, key: string, ss: seq<S>, es: seq<E>)
    requires |ss| == |es| > 0 && Inv(st) && Fresh(st, ss, es) && !st.closed
    ensures AcquireAll(st, key, ss, es).closes.Keys == st.closes.Keys + if CanHit(st, key) then {} else {ss[0]}
    decreases |ss|
  {
    hide Inv, AcquireAlone, CanHit, Fresh;
    NextFresh(st, key, ss, es);
    AcquireAloneKeeps(st, key, ss[0], es[0]);
    if |ss| > 1 {
      PreparesOnce(AcquireAlone(st, key, ss[0], es[0]), key, ss[1..], es[1..]);
    }
  }

  /** A closed cache prepares a statement every time. */
  lemma {:induction false} ClosedPreparesAlways<E, S>(st: State<E, S>, key: string, ss: seq<S>, es: seq<E>)
    requires |ss| == |es| && Inv(st) && Fresh(st, ss, es) && st.closed
    ensures AcquireAll(st, key, ss, es).closes.Keys == st.closes.Keys + set s | s in ss
    decreases |ss|
  {
    hide Inv, AcquireAlone, Fresh;
    if ss != [] {
      NextFresh(st, key, ss, es);
      AcquireAloneKeeps(st, key, ss[0], es[0]);
      ClosedPreparesAlways(AcquireAlone(st, key, ss[0], es[0]), key, ss[1..], es[1..]);
      assert forall s | s in ss :: s == ss[0] || s in ss[1..];
    }
  }
}
