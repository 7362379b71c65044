/** Every run of the statement cache keeps its invariant, and what that means for callers. */
module StmtCacheProof {
  import opened StmtCacheSpec

  // ----- the list -----

  lemma {:induction false} WithoutNoDuplicates<E>(s: seq<E>, e: E)
    requires NoDuplicates(s)
    ensures NoDuplicates(Without(s, e))
    ensures |Without(s, e)| == if e in s then |s| - 1 else |s|
  {
    if s != [] {
      WithoutNoDuplicates(s[1..], e);
    }
  }

  lemma {:induction false} WithoutDescending<E>(s: seq<E>, e: E, stamp: map<E, nat>)
    requires Descending(s, stamp)
    ensures Descending(Without(s, e), stamp)
  {
    if s != [] {
      WithoutDescending(s[1..], e, stamp);
      var w := Without(s[1..], e);
      assert ([s[0]] + w)[1..] == w;
    }
  }

  lemma {:induction false} RestampOther<E>(s: seq<E>, stamp: map<E, nat>, e: E, t: nat)
    requires Descending(s, stamp) && e !in s
    ensures Descending(s, stamp[e := t])
  {
    if s != [] {
      RestampOther(s[1..], stamp, e, t);
    }
  }

  lemma {:induction false} LastIsOldest<E>(s: seq<E>, stamp: map<E, nat>)
    requires Descending(s, stamp) && s != []
    ensures forall x | x in s :: x in stamp
    ensures forall x | x in s :: x == Last(s) || stamp[x] > stamp[Last(s)]
  {
    if |s| > 1 {
      LastIsOldest(s[1..], stamp);
      assert Last(s) == Last(s[1..]);
    }
  }

  // ----- each step keeps each part of the invariant -----

  lemma ConsNoDuplicates<E>(e: E, w: seq<E>)
    requires NoDuplicates(w) && e !in w
    ensures NoDuplicates([e] + w)
  {
    assert ([e] + w)[1..] == w;
  }

  lemma TouchItems<E, S>(st: State<E, S>, e: E)
    requires InvItems(st) && e in st.entry
    ensures InvItems(Touch(st, e))
  {
  }

  lemma TouchList<E, S>(st: State<E, S>, e: E)
    requires InvList(st) && e in st.lru
    ensures InvList(Touch(st, e))
  {
    WithoutNoDuplicates(st.lru, e);
    ConsNoDuplicates(e, Without(st.lru, e));
    hide NoDuplicates;
  }

  lemma TouchOrder<E, S>(st: State<E, S>, e: E)
    requires InvOrder(st) && e in st.entry && forall x | x in st.lru :: x in st.entry
    ensures InvOrder(Touch(st, e))
  {
    var w := Without(st.lru, e);
    WithoutDescending(st.lru, e, st.stamp);
    RestampOther(w, st.stamp, e, st.clock);
    assert ([e] + w)[1..] == w;
  }

  /** Only ownership of statements matters to InvStmts, so unchanged owners keep it. */
  lemma SameOwners<E, S>(st: State<E, S>, st': State<E, S>)
    requires InvStmts(st)
    requires st'.entry.Keys == st.entry.Keys && st'.flight == st.flight && st'.closes.Keys == st.closes.Keys
    requires forall e | e in st.entry :: st'.entry[e].stmt == st.entry[e].stmt
    requires forall e | e in st.entry :: st'.closes[st.entry[e].stmt]
                                         == if st'.entry[e].evicted && st'.entry[e].refs == 0 then 1 else 0
    requires forall s | s in st.closes && st'.closes[s] != st.closes[s] ::
               exists e :: e in st.entry && st.entry[e].stmt == s
    ensures InvStmts(st')
  {
    forall s | s in st'.closes && s !in st'.flight
      ensures st'.closes[s] == 1 || exists x :: x in st'.entry && st'.entry[x].stmt == s
    {
      if x :| x in st.entry && st.entry[x].stmt == s {
        assert x in st'.entry && st'.entry[x].stmt == s;
      }
    }
    forall s | s in st'.flight
      ensures s in st'.closes && st'.closes[s] == 0
    {
      assert s in st.closes && st.closes[s] == 0;
    }
  }

  /** Likewise when one entry changes, but for its statement. */
  lemma OneChanged<E, S>(st: State<E, S>, st': State<E, S>, e: E)
    requires InvStmts(st) && e in st.entry && st.entry[e].stmt in st.closes
    requires st'.flight == st.flight && st'.closes.Keys == st.closes.Keys
    requires e in st'.entry && st'.entry == st.entry[e := st'.entry[e]] && st'.entry[e].stmt == st.entry[e].stmt
    requires forall s | s in st.closes && s != st.entry[e].stmt :: st'.closes[s] == st.closes[s]
    requires st'.closes[st.entry[e].stmt] == if st'.entry[e].evicted && st'.entry[e].refs == 0 then 1 else 0
    ensures InvStmts(st')
  {
    hide InvStmts;
    forall x | x in st.entry
      ensures st.entry[x].stmt in st.closes
      ensures st'.closes[st.entry[x].stmt] == if st'.entry[x].evicted && st'.entry[x].refs == 0 then 1 else 0
    {
      StmtOf(st, x, e);
    }
    SameOwners(st, st');
  }

  /** An entry's statement is its own, and closed when the entry is evicted and not in use. */
  lemma StmtOf<E, S>(st: State<E, S>, x: E, e: E)
    requires InvStmts(st) && x in st.entry && e in st.entry
    ensures st.entry[x].stmt in st.closes && (x != e ==> st.entry[x].stmt != st.entry[e].stmt)
    ensures st.closes[st.entry[x].stmt] == if st.entry[x].evicted && st.entry[x].refs == 0 then 1 else 0
  {
  }

  lemma TouchRefs<E, S>(st: State<E, S>, e: E)
    requires InvRefs(st) && e in st.entry
    ensures InvRefs(Touch(st, e))
  {
  }

  lemma TouchStmts<E, S>(st: State<E, S>, e: E)
    requires InvStmts(st) && e in st.entry && !st.entry[e].evicted
    ensures InvStmts(Touch(st, e))
  {
    assert st.closes[st.entry[e].stmt] == 0;
    hide InvStmts;
    OneChanged(st, Touch(st, e), e);
  }

  lemma TouchKeeps<E, S>(st: State<E, S>, e: E)
    requires InvItems(st) && InvList(st) && InvBound(st) && InvOrder(st) && InvRefs(st) && InvStmts(st) && e in st.lru
    ensures e in st.entry && !st.entry[e].evicted
    ensures var st' := Touch(st, e);
            InvItems(st') && InvList(st') && InvBound(st') && InvOrder(st') && InvRefs(st') && InvStmts(st')
  {
    assert (forall x | x in st.lru :: x in st.entry) && !st.entry[e].evicted;
    hide InvItems, InvList, InvOrder, InvRefs, InvStmts;
    TouchItems(st, e);
    TouchList(st, e);
    TouchOrder(st, e);
    TouchRefs(st, e);
    TouchStmts(st, e);
  }

  lemma HitKeeps<E, S>(st: State<E, S>, key: string)
    requires Inv(st) && CanHit(st, key)
    ensures st.items[key] in st.entry && Inv(Hit(st, key))
  {
    var e := st.items[key];
    TouchKeeps(st, e);
    CountersOnly(Touch(st, e), Hit(st, key));
  }

  /** The parts that do not look at the counters. */
  lemma CountersOnly<E, S>(st: State<E, S>, st': State<E, S>)
    requires st' == st.(hits := st'.hits, uncounted := st'.uncounted)
    requires InvItems(st) && InvList(st) && InvBound(st) && InvOrder(st) && InvRefs(st) && InvStmts(st)
    ensures InvItems(st') && InvList(st') && InvBound(st') && InvOrder(st') && InvRefs(st') && InvStmts(st')
  {
    hide Descending, NoDuplicates;
    assert InvItems(st') by { hide InvList, InvOrder, InvRefs, InvStmts; }
    assert InvStmts(st') by { hide InvItems, InvList, InvOrder, InvRefs; }
    assert InvList(st') by { hide InvItems, InvStmts, InvOrder, InvRefs; }
    assert InvOrder(st') && InvRefs(st') by { hide InvItems, InvStmts, InvList; }
  }

  lemma PrepareStmts<E, S>(st: State<E, S>, key: string, s: S)
    requires InvStmts(st) && s !in st.closes
    ensures InvStmts(Prepare(st, key, s))
  {
    var st' := Prepare(st, key, s);
    forall t | t in st'.closes && t !in st'.flight
      ensures st'.closes[t] == 1 || exists x :: x in st'.entry && st'.entry[x].stmt == t
    {
      assert t in st.closes && t !in st.flight;
    }
  }

  lemma EvictItems<E, S>(st: State<E, S>, e: E)
    requires InvItems(st) && e in st.entry && !st.entry[e].evicted && st.entry[e].stmt in st.closes
    ensures InvItems(Evict(st, e)) && |Evict(st, e).items| == |st.items| - 1
  {
    hide Evict;
    EvictSize(st, e);
    EvictIs(st, e);
  }

  /** What evicting an entry does to the parts that the list, the map and the references read. */
  lemma EvictIs<E, S>(st: State<E, S>, e: E)
    requires e in st.entry && !st.entry[e].evicted && st.entry[e].stmt in st.closes
    ensures var t := Evict(st, e);
            t.items == st.items - {st.entry[e].key} && t.lru == Without(st.lru, e)
            && t.entry == st.entry[e := st.entry[e].(evicted := true)] && t.holds == st.holds
  {
    hide Without;
  }

  lemma EvictSize<E, S>(st: State<E, S>, e: E)
    requires e in st.entry && !st.entry[e].evicted && st.entry[e].stmt in st.closes && st.entry[e].key in st.items
    ensures |Evict(st, e).items| == |st.items| - 1
  {
    var key := st.entry[e].key;
    assert (st.items - {key}).Keys == st.items.Keys - {key};
  }

  lemma EvictList<E, S>(st: State<E, S>, e: E)
    requires InvList(st) && e in st.lru && st.entry[e].stmt in st.closes
    ensures InvList(Evict(st, e))
  {
    hide NoDuplicates, Evict;
    EvictIs(st, e);
    WithoutNoDuplicates(st.lru, e);
  }

  lemma EvictStmts<E, S>(st: State<E, S>, e: E)
    requires InvStmts(st) && e in st.entry && !st.entry[e].evicted
    ensures InvStmts(Evict(st, e))
  {
    assert st.entry[e].stmt in st.closes && st.closes[st.entry[e].stmt] == 0;
    hide InvStmts;
    OneChanged(st, Evict(st, e), e);
  }

  lemma EvictOrder<E, S>(st: State<E, S>, e: E)
    requires InvOrder(st) && e in st.entry && st.entry[e].stmt in st.closes
    ensures InvOrder(Evict(st, e))
  {
    WithoutDescending(st.lru, e, st.stamp);
  }

  lemma EvictRefs<E, S>(st: State<E, S>, e: E)
    requires InvRefs(st) && e in st.entry && st.entry[e].stmt in st.closes
    ensures InvRefs(Evict(st, e))
  {
    hide Evict, Without;
    if st.entry[e].evicted {
      assert Evict(st, e) == st by { EvictedAlready(st, e); }
    } else {
      EvictIs(st, e);
    }
  }

  lemma EvictedAlready<E, S>(st: State<E, S>, e: E)
    requires e in st.entry && st.entry[e].evicted && st.entry[e].stmt in st.closes
    ensures Evict(st, e) == st
  {
    hide Without;
  }

  /** The bound is not required: eviction is what restores it. */
  lemma EvictKeeps<E, S>(st: State<E, S>, e: E)
    requires InvItems(st) && InvList(st) && InvOrder(st) && InvRefs(st) && InvStmts(st) && InvCount(st) && e in st.lru
    ensures var st' := Evict(st, e);
            InvItems(st') && InvList(st') && InvOrder(st') && InvRefs(st') && InvStmts(st') && InvCount(st')
  {
    assert !st.entry[e].evicted && st.entry[e].stmt in st.closes;
    EvictOrder(st, e);
    EvictRefs(st, e);
    hide InvItems, InvList, InvOrder, InvRefs, InvStmts;
    EvictItems(st, e);
    EvictList(st, e);
    EvictStmts(st, e);
  }

  lemma AddItems<E, S>(st: State<E, S>, s: S, e: E)
    requires InvItems(st) && CanInsert(st, s, e) && (st.closed || st.flight[s] !in st.items)
    ensures InvItems(Add(st, s, e))
  {
  }

  lemma AddList<E, S>(st: State<E, S>, s: S, e: E)
    requires InvList(st) && CanInsert(st, s, e) && (st.closed || st.flight[s] !in st.items)
    ensures InvList(Add(st, s, e))
  {
    AddSize(st, s, e);
    ConsNoDuplicates(e, st.lru);
    hide NoDuplicates;
  }

  lemma AddOrder<E, S>(st: State<E, S>, s: S, e: E)
    requires InvOrder(st) && CanInsert(st, s, e) && forall x | x in st.lru :: x in st.entry
    ensures InvOrder(Add(st, s, e))
  {
    RestampOther(st.lru, st.stamp, e, st.clock);
    assert ([e] + st.lru)[1..] == st.lru;
  }

  lemma AddStmts<E, S>(st: State<E, S>, s: S, e: E)
    requires InvStmts(st) && CanInsert(st, s, e)
    ensures InvStmts(Add(st, s, e))
  {
    var st' := Add(st, s, e);
    assert forall x | x in st.entry :: st'.entry[x] == st.entry[x];
    forall t | t in st'.closes && t !in st'.flight
      ensures st'.closes[t] == 1 || exists x :: x in st'.entry && st'.entry[x].stmt == t
    {
      if t == s {
        assert e in st'.entry && st'.entry[e].stmt == s;
      } else if x :| x in st.entry && st.entry[x].stmt == t {
        assert x in st'.entry && st'.entry[x].stmt == t;
      }
    }
  }

  lemma AddRefs<E, S>(st: State<E, S>, s: S, e: E)
    requires InvRefs(st) && CanInsert(st, s, e)
    ensures InvRefs(Add(st, s, e))
  {
  }

  lemma AddKeeps<E, S>(st: State<E, S>, s: S, e: E)
    requires Inv(st) && CanInsert(st, s, e) && (st.closed || st.flight[s] !in st.items)
    ensures var st' := Add(st, s, e);
            InvItems(st') && InvList(st') && InvOrder(st') && InvRefs(st') && InvStmts(st') && InvCount(st')
  {
    hide InvItems, InvOrder, InvRefs, InvStmts, NoDuplicates;
    assert forall x | x in st.lru :: x in st.entry;
    AddRefs(st, s, e);
    AddItems(st, s, e);
    AddList(st, s, e);
    AddOrder(st, s, e);
    AddStmts(st, s, e);
  }

  lemma LoseStmts<E, S>(st: State<E, S>, s: S)
    requires InvStmts(st) && s in st.flight && s in st.closes
    ensures InvStmts(Lose(st, s))
  {
    var st' := Lose(st, s);
    forall t | t in st'.closes && t !in st'.flight
      ensures st'.closes[t] == 1 || exists x :: x in st'.entry && st'.entry[x].stmt == t
    {
      if t != s {
        assert t in st.closes && t !in st.flight;
      }
    }
  }

  lemma LoseRest<E, S>(st: State<E, S>, s: S)
    requires InvItems(st) && InvList(st) && InvOrder(st) && InvRefs(st) && s in st.flight && s in st.closes
    ensures InvItems(Lose(st, s)) && InvList(Lose(st, s)) && InvOrder(Lose(st, s)) && InvRefs(Lose(st, s))
  {
    hide NoDuplicates, Descending;
  }

  lemma InsertKeeps<E, S>(st: State<E, S>, s: S, e: E)
    requires Inv(st) && CanInsert(st, s, e)
    ensures Inv(Insert(st, s, e))
  {
    if !st.closed && st.flight[s] in st.items {
      InsertLoser(st, s, e);
    } else {
      InsertNew(st, s, e);
    }
  }

  lemma InsertLoser<E, S>(st: State<E, S>, s: S, e: E)
    requires Inv(st) && CanInsert(st, s, e) && !st.closed && st.flight[s] in st.items
    ensures Inv(Insert(st, s, e))
  {
    hide Inv, InvItems, InvList, InvOrder, InvRefs, InvStmts, Touch, Lose, Add, Evict, Overfull;
    LoserInv(st, s);
  }

  lemma LoserKeeps<E, S>(st: State<E, S>, s: S, x: E)
    requires Inv(st) && s in st.flight && s in st.closes && x in st.lru && x in st.entry
    ensures var st' := Touch(Lose(st, s), x);
            InvItems(st') && InvList(st') && InvBound(st') && InvOrder(st') && InvRefs(st') && InvStmts(st')
  {
    hide InvItems, InvList, InvOrder, InvRefs, InvStmts;
    LoseStmts(st, s);
    LoseRest(st, s);
    TouchKeeps(Lose(st, s), x);
  }

  lemma LoserInv<E, S>(st: State<E, S>, s: S)
    requires Inv(st) && s in st.flight && !st.closed && st.flight[s] in st.items
    ensures s in st.closes && st.items[st.flight[s]] in st.entry
    ensures var t := Touch(Lose(st, s), st.items[st.flight[s]]); Inv(t.(hits := st.hits + 1))
  {
    var x := st.items[st.flight[s]];
    assert x in st.lru && s in st.closes;
    LoserKeeps(st, s, x);
    var t := Touch(Lose(st, s), x);
    hide InvItems, InvList, InvOrder, InvRefs, InvStmts;
    CountersOnly(t, t.(hits := st.hits + 1));
  }

  /** Evicting the oldest entry brings the cache back to its size. */
  lemma TrimKeeps<E, S>(st: State<E, S>)
    requires InvItems(st) && InvList(st) && InvOrder(st) && InvRefs(st) && InvStmts(st) && InvCount(st)
    requires Overfull(st) && |st.items| == st.size + 1 && !st.closed
    ensures Last(st.lru) in st.entry && st.entry[Last(st.lru)].stmt in st.closes
    ensures Inv(Evict(st, Last(st.lru)))
  {
    var last := Last(st.lru);
    assert last in st.lru && !st.entry[last].evicted && st.entry[last].stmt in st.closes;
    hide Evict, InvItems, InvList, InvOrder, InvRefs, InvStmts;
    EvictKeeps(st, last);
    EvictItems(st, last);
    EvictRest(st, last);
  }

  lemma EvictRest<E, S>(st: State<E, S>, e: E)
    requires e in st.entry && st.entry[e].stmt in st.closes
    ensures Evict(st, e).size == st.size && Evict(st, e).closed == st.closed
  {
    hide Without;
  }

  lemma InsertNew<E, S>(st: State<E, S>, s: S, e: E)
    requires Inv(st) && CanInsert(st, s, e) && (st.closed || st.flight[s] !in st.items)
    ensures Inv(Insert(st, s, e))
  {
    var st' := Add(st, s, e);
    AddKeeps(st, s, e);
    AddSize(st, s, e);
    hide InvItems, InvList, InvOrder, InvRefs, InvStmts, Evict;
    if Overfull(st') {
      TrimKeeps(st');
    }
  }

  lemma AddSize<E, S>(st: State<E, S>, s: S, e: E)
    requires CanInsert(st, s, e) && (st.closed || st.flight[s] !in st.items)
    ensures |Add(st, s, e).items| == if st.closed then |st.items| else |st.items| + 1
  {
    if !st.closed {
      assert st.items[st.flight[s] := e].Keys == st.items.Keys + {st.flight[s]};
    }
  }

  lemma ReleaseRefs<E, S>(st: State<E, S>, e: E)
    requires InvRefs(st) && e in st.holds && e in st.entry && st.entry[e].stmt in st.closes
    ensures InvRefs(Release(st, e))
  {
  }

  lemma ReleaseList<E, S>(st: State<E, S>, e: E)
    requires InvItems(st) && InvList(st) && InvOrder(st) && e in st.entry && st.entry[e].stmt in st.closes
    ensures InvItems(Release(st, e)) && InvList(Release(st, e)) && InvOrder(Release(st, e))
  {
    hide Descending, NoDuplicates, Release;
    ReleaseIs(st, e);
    assert InvItems(Release(st, e)) by { hide InvList, InvOrder; }
    assert InvList(Release(st, e)) by { hide InvItems, InvOrder; }
    assert InvOrder(Release(st, e)) by { hide InvItems, InvList; }
  }

  lemma ReleaseIs<E, S>(st: State<E, S>, e: E)
    requires e in st.entry && st.entry[e].stmt in st.closes
    ensures var t := Release(st, e);
            t.items == st.items && t.lru == st.lru
            && t.entry == st.entry[e := st.entry[e].(refs := st.entry[e].refs - 1)]
            && t.stamp == st.stamp && t.clock == st.clock
  {
  }

  lemma ReleaseStmts<E, S>(st: State<E, S>, e: E)
    requires InvStmts(st) && e in st.entry && st.entry[e].refs >= 1
    ensures InvStmts(Release(st, e))
  {
    assert st.entry[e].stmt in st.closes && st.closes[st.entry[e].stmt] == 0;
    hide InvStmts;
    OneChanged(st, Release(st, e), e);
  }

  lemma ReleaseKeeps<E, S>(st: State<E, S>, e: E)
    requires Inv(st) && e in st.holds
    ensures e in st.entry && st.entry[e].stmt in st.closes && Inv(Release(st, e))
  {
    assert e in st.entry && st.entry[e].refs == st.holds[e] && st.entry[e].stmt in st.closes;
    hide InvItems, InvList, InvOrder, InvRefs, InvStmts;
    ReleaseRefs(st, e);
    ReleaseList(st, e);
    ReleaseStmts(st, e);
  }

  lemma CloseAllCloses<E, S>(st: State<E, S>, e: E)
    requires Inv(st) && e in st.entry
    ensures st.entry[e].stmt in st.closes
    ensures CloseAll(st).closes[st.entry[e].stmt] == if st.entry[e].refs == 0 then 1 else 0
  {
    hide InvOrder, InvRefs, InvItems, NoDuplicates;
    InvSound(st);
    assert e in st.lru <==> !st.entry[e].evicted;
    if e in st.lru {
      OneOwner(st, e);
    }
  }

  lemma CloseAllStmts<E, S>(st: State<E, S>)
    requires Inv(st)
    ensures InvStmts(CloseAll(st))
  {
    hide Inv, CloseAll, InvStmts;
    InvSound(st);
    InvOwners(st);
    CloseAllParts(st);
    var st' := CloseAll(st);
    forall e | e in st.entry
      ensures st'.closes[st.entry[e].stmt] == if st.entry[e].refs == 0 then 1 else 0
    {
      CloseAllCloses(st, e);
    }
    SameOwners(st, st');
  }

  lemma InvOwners<E, S>(st: State<E, S>)
    requires Inv(st)
    ensures InvStmts(st) && forall e | e in st.entry && !st.entry[e].evicted :: e in st.lru
  {
  }

  lemma CloseAllParts<E, S>(st: State<E, S>)
    requires Sound(st) && forall e | e in st.entry && !st.entry[e].evicted :: e in st.lru
    ensures var st' := CloseAll(st);
            st'.entry.Keys == st.entry.Keys && st'.flight == st.flight && st'.closes.Keys == st.closes.Keys
            && (forall e | e in st.entry :: st'.entry[e] == st.entry[e].(evicted := true))
            && (forall s | s in st.closes && st'.closes[s] != st.closes[s] ::
                  exists e :: e in st.entry && st.entry[e].stmt == s)
  {
  }

  lemma CloseAllKeeps<E, S>(st: State<E, S>)
    requires Inv(st)
    ensures Inv(CloseAll(st))
  {
    CloseAllStmts(st);
    CloseAllRest(st);
    hide InvItems, InvList, InvOrder, InvRefs, InvStmts;
  }

  lemma CloseAllRest<E, S>(st: State<E, S>)
    requires Inv(st)
    ensures var st' := CloseAll(st);
            InvItems(st') && InvList(st') && InvOrder(st') && InvRefs(st')
  {
    hide InvStmts, ClosedBy;
  }

  // ----- runs -----

  datatype Action<!E, !S> =
    | AHit(key: string)
    | ACountHit
    | APrepare(key: string, s: S)
    | AInsert(s: S, e: E)
    | ARelease(e: E)
    | ACloseAll

  /** A caller may take the action: handles are fresh, and only what is held is released. */
  predicate Enabled<E(==), S(==)>(st: State<E, S>, a: Action<E, S>) {
    match a
    case AHit(key) => CanHit(st, key)
    case ACountHit => st.uncounted > 0
    case APrepare(_, s) => s !in st.closes
    case AInsert(s, e) => CanInsert(st, s, e)
    case ARelease(e) => e in st.holds
    case ACloseAll => true
  }

  function Apply<E(==), S(==)>(st: State<E, S>, a: Action<E, S>): State<E, S>
    requires Enabled(st, a)
  {
    if !Sound(st) then st  // which no run meets, as ReachableInv shows
    else
      match a
      case AHit(key) => Hit(st, key)
      case ACountHit => CountHit(st)
      case APrepare(key, s) => Prepare(st, key, s)
      case AInsert(s, e) => Insert(st, s, e)
      case ARelease(e) => Release(st, e)
      case ACloseAll => CloseAll(st)
  }

  lemma InvSound<E, S>(st: State<E, S>)
    requires Inv(st)
    ensures Sound(st)
  {
  }

  lemma ApplyKeeps<E, S>(st: State<E, S>, a: Action<E, S>)
    requires Inv(st) && Enabled(st, a)
    ensures Inv(Apply(st, a)) && Apply(st, a).size == st.size
  {
    hide InvItems, InvList, InvOrder, InvRefs, InvStmts;
    match a
    case AHit(key) => HitKeeps(st, key);
    case ACountHit => CountersOnly(st, CountHit(st));
    case APrepare(key, s) => PrepareKeeps(st, key, s);
    case AInsert(s, e) => InsertKeeps(st, s, e);
    case ARelease(e) => ReleaseKeeps(st, e);
    case ACloseAll => CloseAllKeeps(st);
  }

  lemma PrepareKeeps<E, S>(st: State<E, S>, key: string, s: S)
    requires Inv(st) && s !in st.closes
    ensures Inv(Prepare(st, key, s))
  {
    PrepareStmts(st, key, s);
    hide InvStmts, NoDuplicates, Descending;
  }

  /** The actions can be taken one after the other from st, ending in last. */
  ghost predicate Run<E, S>(st: State<E, S>, acts: seq<Action<E, S>>, last: State<E, S>)
    decreases |acts|
  {
    if acts == [] then st == last
    else Enabled(st, acts[0]) && Run(Apply(st, acts[0]), acts[1..], last)
  }

  /** Whatever callers do in whatever order, the invariant holds. */
  lemma {:induction false} RunKeeps<E, S>(st: State<E, S>, acts: seq<Action<E, S>>, last: State<E, S>)
    requires Inv(st) && Run(st, acts, last)
    ensures Inv(last) && last.size == st.size
    decreases |acts|
  {
    hide Inv, Apply, Enabled;
    if acts != [] {
      ApplyKeeps(st, acts[0]);
      RunKeeps(Apply(st, acts[0]), acts[1..], last);
    }
  }

  ghost predicate Reachable<E, S>(size: int, acts: seq<Action<E, S>>, st: State<E, S>) {
    Run(Init(size), acts, st)
  }

  lemma ReachableInv<E, S>(size: int, acts: seq<Action<E, S>>, st: State<E, S>)
    requires Reachable(size, acts, st)
    ensures Inv(st) && st.size == size
  {
    RunKeeps(Init(size), acts, st);
  }

  // ----- what it means -----

  /** A statement is open while anyone holds it, is never closed twice, and the statement of an
      entry is closed exactly when the entry is evicted and nobody holds it. */
  lemma ClosedExactlyWhenUnused<E, S>(size: int, acts: seq<Action<E, S>>, st: State<E, S>)
    requires Reachable(size, acts, st)
    ensures forall s | s in st.closes :: st.closes[s] <= 1
    ensures forall e | e in st.holds ::
              e in st.entry && st.entry[e].stmt in st.closes && st.closes[st.entry[e].stmt] == 0
    ensures forall e | e in st.entry :: st.entry[e].stmt in st.closes
    ensures forall e | e in st.entry :: st.closes[st.entry[e].stmt] == 1 <==> st.entry[e].evicted && st.holds[e] == 0
  {
    ReachableInv(size, acts, st);
  }

  /** Once the cache is closed and no caller is in flight, every statement ever prepared is closed. */
  lemma NothingLeaks<E, S>(size: int, acts: seq<Action<E, S>>, st: State<E, S>)
    requires Reachable(size, acts, st)
    requires st.closed && st.flight == map[] && st.holds == multiset{}
    ensures forall s | s in st.closes :: st.closes[s] == 1
  {
    ReachableInv(size, acts, st);
    forall s | s in st.closes
      ensures st.closes[s] == 1
    {
      if e :| e in st.entry && st.entry[e].stmt == s {
        assert e !in st.lru && st.holds[e] == 0;
      }
    }
  }

  /** Nothing is ever reopened. */
  lemma ClosesOnlyGrow<E, S>(size: int, acts: seq<Action<E, S>>, st: State<E, S>, a: Action<E, S>)
    requires Reachable(size, acts, st) && Enabled(st, a)
    ensures forall s | s in st.closes :: s in Apply(st, a).closes && st.closes[s] <= Apply(st, a).closes[s]
  {
    hide Reachable, Inv, InvItems, InvList, InvOrder, InvRefs, InvStmts, Sound, Insert, Without, NoDuplicates;
    ReachableInv(size, acts, st);
    InvSound(st);
    if a.AInsert? {
      InsertClosesOnlyGrow(st, a.s, a.e);
    }
  }

  lemma InsertClosesOnlyGrow<E, S>(st: State<E, S>, s: S, e: E)
    requires Inv(st) && CanInsert(st, s, e)
    ensures forall t | t in st.closes :: t in Insert(st, s, e).closes && st.closes[t] <= Insert(st, s, e).closes[t]
  {
    if !st.closed && st.flight[s] !in st.items {
      var st' := Add(st, s, e);
      AddKeeps(st, s, e);
      if Overfull(st') {
        OldestKnown(st');
        hide Inv, InvItems, InvList, InvOrder, InvRefs, InvStmts;
        EvictClosesOnlyGrow(st', Last(st'.lru));
      }
    } else if !st.closed {
      assert s in st.closes;
      hide Inv, InvItems, InvList, InvOrder, InvRefs, InvStmts;
    }
  }

  lemma EvictClosesOnlyGrow<E, S>(st: State<E, S>, e: E)
    requires e in st.entry && st.entry[e].stmt in st.closes
    ensures forall t | t in st.closes :: t in Evict(st, e).closes && st.closes[t] <= Evict(st, e).closes[t]
  {
  }

  lemma OldestKnown<E, S>(st: State<E, S>)
    requires InvList(st) && InvStmts(st) && st.lru != []
    ensures Last(st.lru) in st.entry && st.entry[Last(st.lru)].stmt in st.closes
  {
    assert Last(st.lru) in st.lru;
  }

  /** No listed entry was acquired before the victim. */
  predicate IsOldest<E(==), S>(st: State<E, S>, victim: E) {
    victim in st.lru && victim in st.stamp
    && forall x | x in st.lru && x != victim :: x in st.stamp && st.stamp[x] > st.stamp[victim]
  }

  lemma OldestIsLast<E, S>(st: State<E, S>)
    requires Inv(st) && st.lru != []
    ensures var victim := Last(st.lru);
            IsOldest(st, victim) && victim in st.entry && !st.entry[victim].evicted
            && st.entry[victim].stmt in st.closes
  {
    hide InvItems, InvRefs;
    assert Last(st.lru) in st.lru;
    LastIsOldest(st.lru, st.stamp);
  }

  /** A new entry evicts nothing while there is room; a full cache evicts exactly one entry for it,
      the least recently acquired, which is not the new one. No other entry changes. */
  lemma EvictsLeastRecentlyAcquired<E, S>(size: int, acts: seq<Action<E, S>>, st: State<E, S>, s: S, e: E)
    requires Reachable(size, acts, st) && Enabled(st, AInsert(s, e)) && !st.closed && st.flight[s] !in st.items
    ensures var st', added := Apply(st, AInsert(s, e)), st.entry[e := Entry(st.flight[s], s, 1, false)];
            if st.size > 0 && |st.items| == st.size then
              exists victim | victim in st.lru && victim in st.entry ::
                && st'.lru == [e] + Without(st.lru, victim)
                && st'.entry == added[victim := st.entry[victim].(evicted := true)]
                && IsOldest(st, victim)
            else st'.lru == [e] + st.lru && st'.entry == added
  {
    hide Reachable, Sound, Inv, InvItems, InvList, InvOrder, InvRefs, InvStmts, IsOldest, Evict;
    ReachableInv(size, acts, st);
    InvSound(st);
    InvSizes(st);
    AddSize(st, s, e);
    if st.size > 0 && |st.items| == st.size {
      OldestIsLast(st);
      assert Last([e] + st.lru) == Last(st.lru);
      EvictFromAdded(st, s, e, Last(st.lru));
    }
  }

  lemma InvSizes<E, S>(st: State<E, S>)
    requires Inv(st)
    ensures (st.size > 0 ==> |st.items| <= st.size) && (|st.items| > 0 ==> st.lru != [])
  {
    SameCount(st);
  }

  lemma EvictFromAdded<E, S>(st: State<E, S>, s: S, e: E, victim: E)
    requires CanInsert(st, s, e) && !st.closed
    requires victim in st.entry && !st.entry[victim].evicted && st.entry[victim].stmt in st.closes
    ensures var st' := Evict(Add(st, s, e), victim);
            st'.lru == [e] + Without(st.lru, victim)
            && st'.entry
               == st.entry[e := Entry(st.flight[s], s, 1, false)][victim := st.entry[victim].(evicted := true)]
  {
    assert ([e] + st.lru)[1..] == st.lru;
  }

  /** A list that holds the entries of the map, each once, is as long as the map is large. */
  lemma {:induction false} CountedOnce<E>(items: map<string, E>, key: map<E, string>, lru: seq<E>)
    requires forall k | k in items :: items[k] in lru
    requires forall e | e in lru :: e in key && key[e] in items && items[key[e]] == e
    requires forall k | k in items :: items[k] in key && key[items[k]] == k
    requires NoDuplicates(lru)
    ensures |items| == |lru|
    decreases |lru|
  {
    if lru == [] {
      assert items == map[];
    } else {
      var rest := items - {key[lru[0]]};
      CountedOnce(rest, key, lru[1..]);
      assert rest[key[lru[0]] := lru[0]] == items;
    }
  }

  lemma SameCount<E, S>(st: State<E, S>)
    requires InvItems(st) && InvList(st)
    ensures |st.items| == |st.lru|
  {
    CountedOnce(st.items, map e | e in st.entry :: st.entry[e].key, st.lru);
  }

  /** A positive size bounds the cache, and when no hit is waiting to be counted the counters add
      up to the successful acquires. */
  lemma BoundedAndCounted<E, S>(size: int, acts: seq<Action<E, S>>, st: State<E, S>)
    requires Reachable(size, acts, st)
    ensures size > 0 ==> |st.lru| == |st.items| <= size
    ensures NoDuplicates(st.lru) && Descending(st.lru, st.stamp)
    ensures forall e | e in st.entry :: e in st.lru <==> st.entry[e].key in st.items && st.items[st.entry[e].key] == e
    ensures st.uncounted == 0 ==> st.prepares + st.hits == st.acquired
  {
    hide NoDuplicates, Descending;
    ReachableInv(size, acts, st);
    SameCount(st);
  }

  // ----- closeAll, one entry at a time -----

  /** now is st with some of its entries evicted, in any order. */
  ghost predicate Closing<E, S>(st: State<E, S>, now: State<E, S>) {
    && (forall e | e in st.lru :: e in st.entry)
    && (forall e | e in now.lru :: e in st.lru)
    && now == EvictedBut(st, now.items, now.lru).(closed := true)
  }

  ghost predicate Workable<E, S>(st: State<E, S>) {
    InvItems(st) && InvList(st) && InvOrder(st) && InvRefs(st) && InvStmts(st) && InvCount(st)
  }

  lemma ClosingStart<E, S>(st: State<E, S>)
    requires Inv(st)
    ensures Closing(st, st.(closed := true)) && Workable(st.(closed := true))
  {
    hide InvOrder, InvRefs, InvStmts, InvItems, NoDuplicates, Workable, Descending;
    ClosedIsWorkable(st);
    assert forall s | s in st.closes :: ClosedBy(st, st.lru, s) == 0;
    assert EvictedBut(st, st.items, st.lru).entry == st.entry;
    assert EvictedBut(st, st.items, st.lru).closes == st.closes;
  }

  lemma ClosedIsWorkable<E, S>(st: State<E, S>)
    requires Inv(st)
    ensures Workable(st.(closed := true))
  {
    ClosedItems(st);
    ClosedRest(st);
    hide InvItems, InvList, InvOrder, InvRefs, InvStmts;
  }

  lemma ClosedItems<E, S>(st: State<E, S>)
    requires InvItems(st) && InvList(st)
    ensures InvItems(st.(closed := true)) && InvList(st.(closed := true))
  {
    hide NoDuplicates;
  }

  lemma ClosedRest<E, S>(st: State<E, S>)
    requires InvOrder(st) && InvRefs(st) && InvStmts(st)
    ensures InvOrder(st.(closed := true)) && InvRefs(st.(closed := true)) && InvStmts(st.(closed := true))
  {
    hide Descending;
  }

  lemma ClosedByStep<E, S>(st: State<E, S>, left: seq<E>, e: E, s: S)
    requires e in st.lru && e in left && forall x | x in st.lru :: x in st.entry
    requires forall x | x in st.lru && x != e :: st.entry[x].stmt != st.entry[e].stmt
    ensures ClosedBy(st, left, st.entry[e].stmt) == 0
    ensures ClosedBy(st, Without(left, e), s)
         == if s == st.entry[e].stmt then if st.entry[e].refs == 0 then 1 else 0 else ClosedBy(st, left, s)
  {
    if x :| x in st.lru && x in st.entry && x !in Without(left, e) && st.entry[x].stmt == s && st.entry[x].refs == 0 {
      assert x == e || x !in left;
    }
    if s == st.entry[e].stmt && st.entry[e].refs == 0 {
      assert e in st.lru && e !in Without(left, e);
    }
  }

  lemma EvictedButStep<E, S>(st: State<E, S>, now: State<E, S>, e: E)
    requires Closing(st, now) && e in st.lru && e in now.lru
    requires forall x | x in st.lru && x != e :: st.entry[x].stmt != st.entry[e].stmt
    requires !now.entry[e].evicted && now.entry[e].stmt in now.closes
    ensures Closing(st, Evict(now, e))
  {
    hide ClosedBy;
    var next := Evict(now, e);
    assert next.entry == EvictedBut(st, next.items, next.lru).entry;
    EvictedClosesStep(st, now, e);
  }

  lemma EvictedClosesStep<E, S>(st: State<E, S>, now: State<E, S>, e: E)
    requires Closing(st, now) && e in st.lru && e in now.lru
    requires forall x | x in st.lru && x != e :: st.entry[x].stmt != st.entry[e].stmt
    requires !now.entry[e].evicted && now.entry[e].stmt in now.closes
    ensures var next := Evict(now, e);
            next.closes == EvictedBut(st, next.items, next.lru).closes
  {
    hide ClosedBy;
    var next := Evict(now, e);
    forall s | s in st.closes
      ensures next.closes[s] == st.closes[s] + ClosedBy(st, next.lru, s)
    {
      ClosedByStep(st, now.lru, e, s);
    }
  }

  lemma ClosingStep<E, S>(st: State<E, S>, now: State<E, S>, k: string)
    requires Inv(st) && Closing(st, now) && Workable(now) && k in now.items
    ensures now.items[k] in now.entry && now.entry[now.items[k]].stmt in now.closes
    ensures var next := Evict(now, now.items[k]);
            Closing(st, next) && Workable(next) && |next.items| == |now.items| - 1
  {
    var e := now.items[k];
    KnownItem(now, k);
    OneOwner(st, e);
    hide Inv, InvItems, InvList, InvOrder, InvRefs, InvStmts;
    EvictedButStep(st, now, e);
    EvictKeeps(now, e);
    EvictSize(now, e);
  }

  lemma ClosingKeys<E, S>(st: State<E, S>, now: State<E, S>)
    requires Closing(st, now)
    ensures now.entry.Keys == st.entry.Keys && now.closes.Keys == st.closes.Keys
  {
  }

  lemma OneOwner<E, S>(st: State<E, S>, e: E)
    requires Inv(st) && e in st.entry
    ensures forall x | x in st.lru && x != e :: x in st.entry && st.entry[x].stmt != st.entry[e].stmt
  {
  }

  lemma KnownItem<E, S>(st: State<E, S>, k: string)
    requires InvItems(st) && InvList(st) && InvStmts(st) && k in st.items
    ensures var e := st.items[k];
            e in st.lru && e in st.entry && !st.entry[e].evicted && st.entry[e].key == k
            && st.entry[e].stmt in st.closes
  {
  }

  lemma ClosingDone<E, S>(st: State<E, S>, now: State<E, S>)
    requires Inv(st) && Closing(st, now) && Workable(now) && now.items == map[]
    ensures now == CloseAll(st)
  {
    hide InvItems, InvList, InvOrder, InvRefs, InvStmts, NoDuplicates;
    SameCount(now);
    assert now.lru == [];
    InvSound(st);
  }
}
