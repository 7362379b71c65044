/** The statement cache as the program runs it: pkg/db/stmtcache.go. Each method is one critical
    section (or the preparation between two) and moves the ghost state by one action of the state
    machine, so every interleaving of these methods is a run of that machine. */
module StmtCache {
  import opened StmtCacheSpec
  import opened StmtCacheProof
  import opened StmtCallers

  /** A prepared statement; only the number of Close calls matters here. */
  class Stmt {
    var closes: nat

    constructor (ghost m: map<Stmt, nat>)
      requires ClosesAre(m)
      ensures this !in m && ClosesAre(m[this := 0])
    {
      closes := 0;
    }

    method Close(ghost m: map<Stmt, nat>)
      requires ClosesAre(m) && this in m
      modifies this
      ensures ClosesAre(m[this := m[this] + 1])
    {
      closes := closes + 1;
    }
  }

  class StmtEntry {
    const key: string
    const stmt: Stmt
    var refs: int
    var evicted: bool
    var listed: bool  // e.elem != nil

    constructor (key: string, stmt: Stmt, evicted: bool, ghost m: map<StmtEntry, Entry<Stmt>>)
      requires EntriesAre(m)
      ensures this !in m && EntriesAre(m[this := Entry(key, stmt, 1, evicted)])
    {
      this.key := key;
      this.stmt := stmt;
      this.refs := 1;
      this.evicted := evicted;
      this.listed := !evicted;
    }

    method AddRefs(n: int, ghost m: map<StmtEntry, Entry<Stmt>>)
      requires EntriesAre(m) && this in m
      modifies this`refs
      ensures refs == old(refs) + n && EntriesAre(m[this := m[this].(refs := m[this].refs + n)])
    {
      refs := refs + n;
    }

    method MarkEvicted(ghost m: map<StmtEntry, Entry<Stmt>>)
      requires EntriesAre(m) && this in m
      modifies this`evicted, this`listed
      ensures EntriesAre(m[this := m[this].(evicted := true)])
    {
      evicted := true;
      listed := false;
    }
  }

  /** The fields of the entries and statements on the heap are the recorded ones. */
  ghost predicate EntriesAre(m: map<StmtEntry, Entry<Stmt>>)
    reads m.Keys
  {
    forall e | e in m :: m[e] == Entry(e.key, e.stmt, e.refs, e.evicted) && e.listed == !e.evicted
  }

  lemma EntryIs(m: map<StmtEntry, Entry<Stmt>>, e: StmtEntry)
    requires EntriesAre(m) && e in m
    ensures m[e] == Entry(e.key, e.stmt, e.refs, e.evicted) && e.listed == !e.evicted
  {
  }

  lemma InvParts(st: State<StmtEntry, Stmt>)
    requires Inv(st)
    ensures InvItems(st) && InvList(st) && InvStmts(st) && (st.size > 0 ==> |st.items| <= st.size)
  {
  }

  lemma ListKnown(st: State<StmtEntry, Stmt>)
    requires Inv(st)
    ensures forall e | e in st.lru :: e in st.entry
  {
  }

  lemma ReleaseParts(st: State<StmtEntry, Stmt>, e: StmtEntry)
    requires e in st.entry && st.entry[e].stmt in st.closes
    ensures var x, t := st.entry[e], StmtCacheSpec.Release(st, e);
            && t.size == st.size && t.closed == st.closed && t.prepares == st.prepares && t.hits == st.hits
            && t.lru == st.lru && t.items == st.items && t.entry == st.entry[e := x.(refs := x.refs - 1)]
            && t.closes == if x.evicted && x.refs == 1 then st.closes[x.stmt := st.closes[x.stmt] + 1] else st.closes
  {
  }

  lemma AddParts(st: State<StmtEntry, Stmt>, s: Stmt, e: StmtEntry)
    requires s in st.flight
    ensures var t := Add(st, s, e);
            t.size == st.size && t.closed == st.closed && t.prepares == st.prepares + 1 && t.hits == st.hits
            && t.items == (if st.closed then st.items else st.items[st.flight[s] := e])
            && t.lru == (if st.closed then st.lru else [e] + st.lru)
            && t.entry == st.entry[e := Entry(st.flight[s], s, 1, st.closed)] && t.closes == st.closes
  {
  }

  lemma InsertParts(st: State<StmtEntry, Stmt>, s: Stmt, e: StmtEntry)
    requires Sound(st) && CanInsert(st, s, e) && (st.closed || st.flight[s] !in st.items)
    ensures var t := Add(st, s, e);
            t.size == st.size && t.closed == st.closed && t.entry.Keys == st.entry.Keys + {e} && t.closes == st.closes
            && (if st.closed || !Overfull(t) then StmtCacheSpec.Insert(st, s, e) == t
                else Last(t.lru) in t.entry && t.entry[Last(t.lru)].stmt in t.closes
                     && StmtCacheSpec.Insert(st, s, e) == Evict(t, Last(t.lru)))
  {
    assert Overfull(Add(st, s, e)) ==> Last(Add(st, s, e).lru) in Add(st, s, e).lru;
  }

  lemma TouchParts(st: State<StmtEntry, Stmt>, e: StmtEntry)
    requires e in st.entry
    ensures var t := Touch(st, e);
            t.size == st.size && t.items == st.items && t.closed == st.closed && t.prepares == st.prepares
            && t.hits == st.hits && t.closes == st.closes && t.lru == [e] + Without(st.lru, e)
            && t.entry == st.entry[e := st.entry[e].(refs := st.entry[e].refs + 1)]
  {
  }

  ghost predicate ClosesAre(m: map<Stmt, nat>)
    reads m.Keys
  {
    forall s | s in m :: s.closes == m[s]
  }

  class StmtCache {
    const size: int
    var items: map<string, StmtEntry>
    var lru: seq<StmtEntry>
    var closed: bool
    var prepares: nat
    var hits: nat
    ghost var st: State<StmtEntry, Stmt>

    ghost predicate Valid()
      reads this, st.entry.Keys, st.closes.Keys
    {
      Inv(st) && Matches()
    }

    ghost predicate Matches()
      reads this, st.entry.Keys, st.closes.Keys
    {
      Fields() && EntriesAre(st.entry) && ClosesAre(st.closes)
    }

    ghost predicate Fields()
      reads this
    {
      && st.size == size && st.items == items && st.lru == lru && st.closed == closed
      && st.prepares == prepares && st.hits == hits
    }

    constructor (size: int)
      ensures Valid() && st == Init(size)
    {
      this.size := size;
      items := map[];
      lru := [];
      closed := false;
      prepares, hits := 0, 0;
      st := Init(size);
    }

    /** One more reference, and to the front of the list; the hit is counted now or later. */
    method UseEntry(e: StmtEntry, counted: bool)
      requires Matches() && e in st.entry
      modifies this`lru, this`hits, this`st, e`refs
      ensures Matches()
      ensures st == var t := Touch(old(st), e);
                    if counted then t.(hits := old(st).hits + 1) else t.(uncounted := old(st).uncounted + 1)
    {
      hide EntriesAre, ClosesAre, Without, Touch;
      TouchParts(st, e);
      e.AddRefs(1, st.entry);
      lru := [e] + Without(lru, e);
      if counted {
        hits := hits + 1;
      }
      ghost var t := Touch(st, e);
      st := if counted then t.(hits := st.hits + 1) else t.(uncounted := st.uncounted + 1);
    }

    /** A lookup finds an entry exactly when the cache is open and the list has one with the key. */
    lemma ListedOnHeap(key: string)
      requires Valid()
      ensures CanHit(st, key) <==> !closed && exists e :: e in lru && e.key == key
      ensures CanHit(st, key) ==> st.items[key] in lru && st.items[key].key == key
    {
      hide Inv;
      HitIffListed(st, key);
      ListKnown(st);
    }

    /** The first critical section of acquire; null sends the caller to prepare. */
    method Lookup(key: string) returns (r: StmtEntry?)
      requires Valid()
      modifies this, st.entry.Keys
      ensures Valid()
      ensures if CanHit(old(st), key) then r == old(st).items[key] && st == Hit(old(st), key)
              else r == null && st == old(st)
      ensures r != null <==> !old(closed) && exists e :: e in old(lru) && e.key == key
      ensures r != null ==> r in old(lru) && r.key == key
    {
      hide Inv, EntriesAre, ClosesAre, Touch;
      ListedOnHeap(key);
      if key in items && !closed {
        HitKeeps(st, key);
        r := items[key];
        UseEntry(r, false);
        return;
      }
      return null;
    }

    /** The hit is counted after the lock is released. */
    method CountHit()
      requires Valid() && st.uncounted > 0
      modifies this`hits, this`st
      ensures Valid() && st == StmtCacheSpec.CountHit(old(st))
    {
      hide Inv, EntriesAre, ClosesAre;
      InvSound(st);
      ApplyKeeps(st, ACountHit);
      hits := hits + 1;
      st := StmtCacheSpec.CountHit(st);
    }

    /** PrepareContext, outside the lock. */
    method Prepare(key: string) returns (s: Stmt)
      requires Valid()
      modifies this`st
      ensures Valid() && fresh(s) && st == StmtCacheSpec.Prepare(old(st), key, s)
    {
      hide Inv, EntriesAre, ClosesAre;
      s := new Stmt(st.closes);
      PrepareKeeps(st, key, s);
      st := StmtCacheSpec.Prepare(st, key, s);
    }

    /** Out of the list and the map, and marked. */
    method Unlist(e: StmtEntry)
      requires Matches() && e in st.entry && !e.evicted
      modifies this`lru, this`items, this`st, e
      ensures Matches() && e.refs == old(e.refs)
      ensures st == old(st).(entry := old(st).entry[e := old(st).entry[e].(evicted := true)],
                             lru := Without(old(st).lru, e), items := old(st).items - {e.key})
    {
      hide EntriesAre, ClosesAre, Without;
      EntryIs(st.entry, e);
      if e.listed {
        lru := Without(lru, e);
      }
      e.MarkEvicted(st.entry);
      items := items - {e.key};
      st := st.(entry := st.entry[e := st.entry[e].(evicted := true)], lru := lru, items := items);
    }

    /** evictLocked */
    method Evict(e: StmtEntry)
      requires Matches() && e in st.entry && st.entry[e].stmt in st.closes
      modifies this`lru, this`items, this`st, e, e.stmt
      ensures Matches() && st == StmtCacheSpec.Evict(old(st), e)
    {
      hide EntriesAre, ClosesAre, Without;
      EntryIs(st.entry, e);
      if e.evicted {
        return;
      }
      Unlist(e);
      if e.refs == 0 {
        e.stmt.Close(st.closes);
        st := StmtCacheSpec.Close(st, e.stmt);
      }
    }

    /** The eviction loop of acquire. */
    method Trim()
      requires Matches() && InvItems(st) && InvList(st) && InvStmts(st) && (size > 0 ==> |st.items| <= size + 1)
      modifies this`lru, this`items, this`st, st.entry.Keys, st.closes.Keys
      ensures Matches()
      ensures st == if Overfull(old(st)) then StmtCacheSpec.Evict(old(st), Last(old(st).lru)) else old(st)
    {
      while size > 0 && |items| > size
        invariant Matches()
        invariant st == old(st) || (Overfull(old(st)) && |st.items| <= size
                                    && st == StmtCacheSpec.Evict(old(st), Last(old(st).lru)))
        decreases |items|
      {
        if lru == [] {
          break;
        }
        OldestKnown(st);
        EvictItems(st, Last(st.lru));
        Evict(Last(lru));
      }
    }

    /** A new entry, evicted from the start when the cache is closed. */
    method AddEntry(key: string, s: Stmt) returns (e: StmtEntry)
      requires Matches() && s in st.flight && st.flight[s] == key
      modifies this
      ensures Matches() && fresh(e) && e !in old(st).entry
      ensures st == Add(old(st), s, e)
    {
      hide EntriesAre, ClosesAre, Add;
      e := new StmtEntry(key, s, closed, st.entry);
      AddParts(st, s, e);
      assert EntriesAre(Add(st, s, e).entry) && ClosesAre(Add(st, s, e).closes);
      if !closed {
        lru := [e] + lru;
        items := items[key := e];
      }
      prepares := prepares + 1;
      st := Add(st, s, e);
    }

    /** Another caller was first: close our statement and use its entry. */
    method LoseTo(s: Stmt, e: StmtEntry)
      requires Matches() && s in st.flight && s in st.closes && e in st.entry
      modifies this`lru, this`hits, this`st, e`refs, s
      ensures Matches()
      ensures st == var t := Touch(Lose(old(st), s), e); t.(hits := old(st).hits + 1)
    {
      hide EntriesAre, ClosesAre;
      s.Close(st.closes);
      st := Lose(st, s);
      UseEntry(e, true);
    }

    /** The key is in the cache by now. */
    method UseWinner(key: string, s: Stmt) returns (e: StmtEntry)
      requires Valid() && s in st.flight && st.flight[s] == key && !closed && key in items
      modifies this, st.entry.Keys, st.closes.Keys
      ensures Valid()
      ensures e == old(st).items[key] && s in old(st).closes && e in old(st).entry
      ensures st == var t := Touch(Lose(old(st), s), e); t.(hits := old(st).hits + 1)
    {
      hide EntriesAre, ClosesAre, Touch, Lose, Inv, InvItems, InvList, InvStmts, Sound;
      InvParts(st);
      InvSound(st);
      LoserInv(st, s);
      e := items[key];
      LoseTo(s, e);
    }

    method InsertNew(key: string, s: Stmt) returns (e: StmtEntry)
      requires Valid() && Sound(st) && s in st.flight && st.flight[s] == key && (closed || key !in items)
      modifies this, st.entry.Keys, st.closes.Keys
      ensures Valid() && fresh(e) && e !in old(st).entry && st == StmtCacheSpec.Insert(old(st), s, e)
    {
      hide EntriesAre, ClosesAre, Touch, Lose, Inv, InvItems, InvList, InvStmts, Sound;
      hide StmtCacheSpec.Evict, StmtCacheSpec.Insert, Add, Overfull, Last;
      InvParts(st);
      InvSound(st);
      e := AddEntry(key, s);
      InsertParts(old(st), s, e);
      AddKeeps(old(st), s, e);
      InsertKeeps(old(st), s, e);
      if !closed {
        AddSize(old(st), s, e);
        Trim();
      }
    }

    /** The second critical section of acquire, for a statement that the caller prepared. */
    method Insert(key: string, s: Stmt) returns (e: StmtEntry)
      requires Valid() && s in st.flight && st.flight[s] == key
      modifies this, st.entry.Keys, st.closes.Keys
      ensures Valid()
      ensures if !old(st).closed && key in old(st).items
              then e == old(st).items[key] && s in old(st).closes && e in old(st).entry
                   && st == var t := Touch(Lose(old(st), s), e); t.(hits := old(st).hits + 1)
              else fresh(e) && st == StmtCacheSpec.Insert(old(st), s, e)
    {
      hide EntriesAre, ClosesAre, Touch, Lose, Inv, Sound, StmtCacheSpec.Insert;
      InvSound(st);
      if !closed && key in items {
        e := UseWinner(key, s);
      } else {
        e := InsertNew(key, s);
      }
    }

    method Release(e: StmtEntry)
      requires Valid() && e in st.holds
      modifies this`st, st.entry.Keys, st.closes.Keys
      ensures Valid() && e in old(st).entry && e.stmt in old(st).closes && st == StmtCacheSpec.Release(old(st), e)
    {
      hide Inv, EntriesAre, ClosesAre, StmtCacheSpec.Release;
      ReleaseKeeps(st, e);
      ReleaseParts(st, e);
      EntryIs(st.entry, e);
      ghost var next := StmtCacheSpec.Release(st, e);
      e.AddRefs(-1, st.entry);
      if e.evicted && e.refs == 0 {
        e.stmt.Close(st.closes);
      }
      assert EntriesAre(next.entry) && ClosesAre(next.closes);
      st := next;
    }

    method CloseAll()
      requires Valid()
      modifies this`closed, this`items, this`lru, this`st, st.entry.Keys, st.closes.Keys
      ensures Valid() && st == StmtCacheSpec.CloseAll(old(st))
    {
      hide Inv, InvItems, InvList, InvOrder, InvRefs, InvStmts, EntriesAre, ClosesAre, Closing, Workable;
      hide StmtCacheSpec.Evict, StmtCacheSpec.CloseAll;
      CloseAllKeeps(st);
      ClosingStart(st);
      closed := true;
      st := st.(closed := true);
      while items != map[]
        invariant Matches() && Closing(old(st), st) && Workable(st)
        decreases |items|
      {
        var k :| k in items;
        ClosingStep(old(st), st, k);
        ClosingKeys(old(st), st);
        EntryIs(st.entry, items[k]);
        Evict(items[k]);
      }
      ClosingDone(old(st), st);
    }
  }
}
