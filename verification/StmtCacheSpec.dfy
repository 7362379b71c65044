/** The statement cache of pkg/db/stmtcache.go as a state machine. Callers interleave freely: each
    action is one critical section, or the preparation that runs between two of them.
    E stands for entry pointers and S for statement handles. */
module StmtCacheSpec {

  datatype Entry<S> = Entry(key: string, stmt: S, refs: int, evicted: bool)

  datatype State<!E, !S> = State(
    // the cache's own fields
    size: int,
    items: map<string, E>,
    lru: seq<E>,
    closed: bool,
    prepares: nat,
    hits: nat,
    // the heap: every entry ever made, and how often each prepared statement was closed
    entry: map<E, Entry<S>>,
    closes: map<S, nat>,
    // the callers: statements prepared but not yet offered to the cache, entries handed out and
    // not yet released, successful acquires, hits not yet counted, and when each entry was last acquired
    flight: map<S, string>,
    holds: multiset<E>,
    acquired: nat,
    uncounted: nat,
    clock: nat,
    stamp: map<E, nat>)

  function Init<E, S>(size: int): State<E, S> {
    State(size, map[], [], false, 0, 0, map[], map[], map[], multiset{}, 0, 0, 0, map[])
  }

  /** Everything the cache and the callers refer to exists. */
  predicate Sound<E, S(==)>(st: State<E, S>) {
    && (forall k | k in st.items :: st.items[k] in st.entry)
    && (forall e | e in st.lru :: e in st.entry)
    && (forall e | e in st.entry :: st.entry[e].stmt in st.closes)
    && (forall s | s in st.flight :: s in st.closes)
    && (forall e | e in st.holds :: e in st.entry)
  }

  function Without<E(==)>(s: seq<E>, e: E): (r: seq<E>)
    ensures forall x | x in r :: x in s && x != e
    ensures forall x | x in s && x != e :: x in r
    ensures e !in s ==> r == s
  {
    if s == [] then [] else if s[0] == e then Without(s[1..], e) else [s[0]] + Without(s[1..], e)
  }

  /** e is handed to a caller: one more reference, and first in the list. */
  function Touch<E(==), S>(st: State<E, S>, e: E): State<E, S>
    requires e in st.entry
  {
    st.(lru := [e] + Without(st.lru, e),
        entry := st.entry[e := st.entry[e].(refs := st.entry[e].refs + 1)],
        holds := st.holds + multiset{e},
        acquired := st.acquired + 1,
        clock := st.clock + 1,
        stamp := st.stamp[e := st.clock])
  }

  /** The first critical section of acquire, when it finds the key. */
  predicate CanHit<E, S>(st: State<E, S>, key: string) {
    key in st.items && !st.closed
  }

  function Hit<E(==), S>(st: State<E, S>, key: string): State<E, S>
    requires CanHit(st, key) && st.items[key] in st.entry
  {
    Touch(st, st.items[key]).(uncounted := st.uncounted + 1)
  }

  /** The hit counter is bumped after the lock is released. */
  function CountHit<E, S>(st: State<E, S>): State<E, S>
    requires st.uncounted > 0
  {
    st.(hits := st.hits + 1, uncounted := st.uncounted - 1)
  }

  function Prepare<E, S(==)>(st: State<E, S>, key: string, s: S): State<E, S> {
    st.(closes := st.closes[s := 0], flight := st.flight[s := key])
  }

  function Close<E, S(==)>(st: State<E, S>, s: S): State<E, S>
    requires s in st.closes
  {
    st.(closes := st.closes[s := st.closes[s] + 1])
  }

  /** Another caller was first with the same key: close our own statement. */
  function Lose<E, S(==)>(st: State<E, S>, s: S): State<E, S>
    requires s in st.flight && s in st.closes
  {
    Close(st, s).(flight := st.flight - {s})
  }

  /** evictLocked */
  function Evict<E(==), S(==)>(st: State<E, S>, e: E): State<E, S>
    requires e in st.entry && st.entry[e].stmt in st.closes
  {
    var x := st.entry[e];
    if x.evicted then st
    else
      var st' := st.(entry := st.entry[e := x.(evicted := true)],
                     lru := Without(st.lru, e),
                     items := st.items - {x.key});
      if x.refs == 0 then Close(st', x.stmt) else st'
  }

  predicate Overfull<E, S>(st: State<E, S>) {
    st.size > 0 && |st.items| > st.size && st.lru != []
  }

  function Last<E>(s: seq<E>): E
    requires s != []
  {
    s[|s| - 1]
  }

  /** A brand-new entry for a statement that no other caller got in first. */
  function Add<E(==), S(==)>(st: State<E, S>, s: S, e: E): State<E, S>
    requires s in st.flight
  {
    var key := st.flight[s];
    st.(flight := st.flight - {s},
        entry := st.entry[e := Entry(key, s, 1, st.closed)],
        items := if st.closed then st.items else st.items[key := e],
        lru := if st.closed then st.lru else [e] + st.lru,
        prepares := st.prepares + 1,
        holds := st.holds + multiset{e},
        acquired := st.acquired + 1,
        clock := st.clock + 1,
        stamp := st.stamp[e := st.clock])
  }

  /** The second critical section of acquire; e is the entry it allocates, if it needs one. */
  predicate CanInsert<E, S>(st: State<E, S>, s: S, e: E) {
    s in st.flight && e !in st.entry
  }

  function Insert<E(==), S(==)>(st: State<E, S>, s: S, e: E): State<E, S>
    requires Sound(st) && CanInsert(st, s, e)
  {
    var key := st.flight[s];
    if st.closed then Add(st, s, e)
    else if key in st.items then
      Touch(Lose(st, s), st.items[key]).(hits := st.hits + 1)
    else
      var st' := Add(st, s, e);
      if Overfull(st') then Evict(st', Last(st'.lru)) else st'
  }

  function Release<E(==), S(==)>(st: State<E, S>, e: E): State<E, S>
    requires e in st.entry && st.entry[e].stmt in st.closes
  {
    var x := st.entry[e].(refs := st.entry[e].refs - 1);
    var st' := st.(entry := st.entry[e := x], holds := st.holds - multiset{e});
    if x.evicted && x.refs == 0 then Close(st', x.stmt) else st'
  }

  function CloseAll<E(==), S(==)>(st: State<E, S>): State<E, S>
    requires Sound(st)
  {
    EvictedBut(st, map[], []).(closed := true)
  }

  /** The state once every listed entry outside `left` is evicted. */
  function EvictedBut<E(==), S(==)>(st: State<E, S>, items: map<string, E>, left: seq<E>): State<E, S>
    requires forall e | e in st.lru :: e in st.entry
  {
    st.(items := items, lru := left,
        entry := map e | e in st.entry ::
          if e in st.lru && e !in left then st.entry[e].(evicted := true) else st.entry[e],
        closes := map s | s in st.closes :: st.closes[s] + ClosedBy(st, left, s))
  }

  function ClosedBy<E(==), S(==)>(st: State<E, S>, left: seq<E>, s: S): nat
    requires forall e | e in st.lru :: e in st.entry
  {
    if exists e :: e in st.lru && e !in left && st.entry[e].stmt == s && st.entry[e].refs == 0 then 1 else 0
  }

  // ----- the invariant -----

  predicate NoDuplicates<E(==)>(s: seq<E>) {
    s == [] || (s[0] !in s[1..] && NoDuplicates(s[1..]))
  }

  /** The map holds exactly the entries that are not evicted, under their keys. */
  predicate InvItems<E(==), S>(st: State<E, S>) {
    && (forall k | k in st.items ::
          st.items[k] in st.entry && st.entry[st.items[k]].key == k && !st.entry[st.items[k]].evicted)
    && (forall e | e in st.entry && !st.entry[e].evicted ::
          st.entry[e].key in st.items && st.items[st.entry[e].key] == e)
  }

  /** So does the list, each entry once. */
  predicate InvList<E(==), S>(st: State<E, S>) {
    && (forall e | e in st.lru :: e in st.entry && !st.entry[e].evicted)
    && (forall e | e in st.entry && !st.entry[e].evicted :: e in st.lru)
    && NoDuplicates(st.lru)
  }

  /** A positive size bounds the cache, and a closed cache is empty. */
  predicate InvBound<E, S>(st: State<E, S>) {
    && (st.size > 0 ==> |st.items| <= st.size)
    && (st.closed ==> |st.lru| == 0)
  }

  /** The list is ordered by last acquire. */
  predicate InvOrder<E(==), S>(st: State<E, S>) {
    && (forall e | e in st.entry :: e in st.stamp && st.stamp[e] < st.clock)
    && Descending(st.lru, st.stamp)
  }

  /** Each element has a later stamp than those after it. */
  predicate Descending<E(==)>(s: seq<E>, stamp: map<E, nat>) {
    s == [] ||
    (s[0] in stamp
     && (forall x | x in s[1..] :: x in stamp && stamp[x] < stamp[s[0]])
     && Descending(s[1..], stamp))
  }

  predicate InvRefs<E(==), S>(st: State<E, S>) {
    && (forall e | e in st.holds :: e in st.entry)
    && (forall e | e in st.entry :: st.entry[e].refs == st.holds[e])
  }

  /** Who owns each prepared statement, and whether it is closed. */
  predicate InvStmts<E(==), S(==)>(st: State<E, S>) {
    && (forall s | s in st.flight :: s in st.closes && st.closes[s] == 0)
    && (forall e | e in st.entry ::
          var x := st.entry[e];
          x.stmt in st.closes && x.stmt !in st.flight
          && st.closes[x.stmt] == if x.evicted && x.refs == 0 then 1 else 0)
    && (forall e, e' | e in st.entry && e' in st.entry && e != e' :: st.entry[e].stmt != st.entry[e'].stmt)
    && (forall s | s in st.closes && s !in st.flight ::
          st.closes[s] == 1 || exists e :: e in st.entry && st.entry[e].stmt == s)
  }

  predicate InvCount<E, S>(st: State<E, S>) {
    st.prepares + st.hits + st.uncounted == st.acquired
  }

  predicate Inv<E(==), S(==)>(st: State<E, S>) {
    InvItems(st) && InvList(st) && InvBound(st) && InvOrder(st) && InvRefs(st) && InvStmts(st) && InvCount(st)
  }
}
