/** The login limiter with one bucket per address: LoginRateLimit in cmd/crm/middleware/middleware.go.
    Looking a bucket up and asking it for a token count as one step, at one time. */
module LoginLimit {
  import opened RateLimit

  /** Ten minutes, in nanoseconds. */
  const IDLE: int := 600_000_000_000

  datatype Entry = Entry(bucket: Bucket, seen: int)

  datatype Table = Table(byIP: map<string, Entry>, lastSweep: int)

  datatype Request = Request(ip: string, now: int)

  /** The limit: this many requests in a window, all of them at once at most. */
  datatype Limit = Limit(max: nat, window: nat) {
    predicate Valid() {
      max > 0 && window > 0
    }

    function New(now: int): (b: Bucket)
      requires Valid()
      ensures b.Valid() && b == NewBucket(max, window, max, now)
    {
      NewBucket(max, window, max, now)
    }
  }

  // ----- the sweeping table -----

  function Swept(t: Table, now: int): Table {
    if now - t.lastSweep <= IDLE then t
    else Table(map ip | ip in t.byIP && now - t.byIP[ip].seen <= IDLE :: t.byIP[ip], now)
  }

  /** The bucket a request meets. */
  function Met(l: Limit, t: Table, r: Request): Bucket
    requires l.Valid()
  {
    var s := Swept(t, r.now);
    if r.ip in s.byIP then s.byIP[r.ip].bucket else l.New(r.now)
  }

  predicate Passes(l: Limit, t: Table, r: Request)
    requires l.Valid()
  {
    Grants(Met(l, t, r), r.now)
  }

  function Step(l: Limit, t: Table, r: Request): Table
    requires l.Valid()
  {
    var s := Swept(t, r.now);
    s.(byIP := s.byIP[r.ip := Entry(Take(Met(l, t, r), r.now), r.now)])
  }

  function Decisions(l: Limit, t: Table, rs: seq<Request>): seq<bool>
    requires l.Valid()
    decreases rs
  {
    if rs == [] then [] else [Passes(l, t, rs[0])] + Decisions(l, Step(l, t, rs[0]), rs[1..])
  }

  // ----- a table that never sweeps -----

  function KeptMet(l: Limit, m: map<string, Bucket>, r: Request): Bucket
    requires l.Valid()
  {
    if r.ip in m then m[r.ip] else l.New(r.now)
  }

  function KeptStep(l: Limit, m: map<string, Bucket>, r: Request): map<string, Bucket>
    requires l.Valid()
  {
    m[r.ip := Take(KeptMet(l, m, r), r.now)]
  }

  function KeptDecisions(l: Limit, m: map<string, Bucket>, rs: seq<Request>): seq<bool>
    requires l.Valid()
    decreases rs
  {
    if rs == [] then []
    else [Grants(KeptMet(l, m, rs[0]), rs[0].now)] + KeptDecisions(l, KeptStep(l, m, rs[0]), rs[1..])
  }

  /** The clock does not go back. */
  predicate Ascending(clock: int, rs: seq<Request>)
    decreases rs
  {
    rs == [] || (clock <= rs[0].now && Ascending(rs[0].now, rs[1..]))
  }

  // ----- sweeping changes no decision -----

  predicate OfLimit(l: Limit, b: Bucket)
    requires l.Valid()
  {
    b.Valid() && b.capacity == l.max as real && b.rate == l.max as real / l.window as real
  }

  /** What the two tables share: a swept bucket has been left alone for longer than the idle time. */
  predicate Coupled(l: Limit, t: Table, m: map<string, Bucket>, clock: int)
    requires l.Valid()
  {
    (forall ip | ip in t.byIP :: ip in m)
    && (forall ip | ip in m :: OfLimit(l, m[ip]) && m[ip].last <= clock)
    && (forall ip | ip in m :: if ip in t.byIP then t.byIP[ip] == Entry(m[ip], m[ip].last)
                               else clock - m[ip].last > IDLE)
  }

  lemma WindowFills(l: Limit, span: int)
    requires l.Valid() && span >= l.window
    ensures Flow(l.max as real / l.window as real, span) >= l.max as real
  {
    var rate := l.max as real / l.window as real;
    RatePositive(l.max, l.window);
    assert Flow(rate, l.window) == l.max as real;
    FlowAdds(rate, l.window, span - l.window);
    FlowGrows(rate, span - l.window);
  }

  /** After an idle time of at least a window a bucket is as good as a new one. */
  lemma IdleIsNew(l: Limit, b: Bucket, now: int)
    requires l.Valid() && OfLimit(l, b) && now - b.last >= l.window
    ensures Refilled(b, now) == l.New(now) && Take(b, now) == Take(l.New(now), now)
            && Grants(b, now) == Grants(l.New(now), now)
  {
    WindowFills(l, now - b.last);
  }

  lemma SweepKeepsCoupled(l: Limit, t: Table, m: map<string, Bucket>, clock: int, now: int)
    requires l.Valid() && Coupled(l, t, m, clock) && clock <= now
    ensures Coupled(l, Swept(t, now), m, now)
  {
  }

  lemma StepKeepsCoupled(l: Limit, t: Table, m: map<string, Bucket>, clock: int, r: Request)
    requires l.Valid() && l.window <= IDLE + 1 && Coupled(l, t, m, clock) && clock <= r.now
    ensures Passes(l, t, r) == Grants(KeptMet(l, m, r), r.now)
    ensures Coupled(l, Step(l, t, r), KeptStep(l, m, r), r.now)
  {
    hide Take, Refilled, Grants, NewBucket, Swept, Flow;
    SweepKeepsCoupled(l, t, m, clock, r.now);
    var s, b := Swept(t, r.now), Met(l, t, r);
    NewIsOfLimit(l, r.now);
    if r.ip in m && r.ip !in s.byIP {
      IdleIsNew(l, m[r.ip], r.now);
    }
    TakeKeeps(b, r.now);
    TakenNow(b, r.now);
    assert Take(b, r.now) == Take(KeptMet(l, m, r), r.now);
    assert OfLimit(l, Take(b, r.now)) && Take(b, r.now).last == r.now;
  }

  lemma NewIsOfLimit(l: Limit, now: int)
    requires l.Valid()
    ensures OfLimit(l, l.New(now)) && l.New(now).last == now
  {
  }

  lemma TakenNow(b: Bucket, now: int)
    requires b.last <= now
    ensures Take(b, now).last == now
  {
  }

  lemma {:induction false} SameDecisions(l: Limit, t: Table, m: map<string, Bucket>, clock: int, rs: seq<Request>)
    requires l.Valid() && l.window <= IDLE + 1 && Coupled(l, t, m, clock) && Ascending(clock, rs)
    ensures Decisions(l, t, rs) == KeptDecisions(l, m, rs)
    decreases rs
  {
    hide Coupled, Step, KeptStep, Passes;
    if rs != [] {
      StepKeepsCoupled(l, t, m, clock, rs[0]);
      SameDecisions(l, Step(l, t, rs[0]), KeptStep(l, m, rs[0]), rs[0].now, rs[1..]);
    }
  }

  // ----- unless the window is longer than the idle time -----

  function Times(ip: string, now: int, n: nat): seq<Request> {
    if n == 0 then [] else [Request(ip, now)] + Times(ip, now, n - 1)
  }

  function Count(ds: seq<bool>): nat {
    if ds == [] then 0 else (if ds[0] then 1 else 0) + Count(ds[1..])
  }

  function End(l: Limit, t: Table, rs: seq<Request>): Table
    requires l.Valid()
    decreases rs
  {
    if rs == [] then t else End(l, Step(l, t, rs[0]), rs[1..])
  }

  lemma {:induction false} CountAdds(l: Limit, t: Table, a: seq<Request>, b: seq<Request>)
    requires l.Valid()
    ensures Count(Decisions(l, t, a + b)) == Count(Decisions(l, t, a)) + Count(Decisions(l, End(l, t, a), b))
    decreases a
  {
    hide Step, Passes;
    if a == [] {
      assert a + b == b;
    } else {
      assert (a + b)[1..] == a[1..] + b;
      CountAdds(l, Step(l, t, a[0]), a[1..], b);
    }
  }

  lemma {:induction false} BurstPasses(l: Limit, t: Table, ip: string, now: int, n: nat)
    requires l.Valid() && n > 0
    requires var b := Met(l, t, Request(ip, now)); b.Valid() && b.last == now && b.tokens >= n as real
    ensures Count(Decisions(l, t, Times(ip, now, n))) == n
    ensures var s, e := Swept(t, now), End(l, t, Times(ip, now, n));
            e.lastSweep == s.lastSweep && e.byIP.Keys == s.byIP.Keys + {ip} && e.byIP[ip].seen == now
    decreases n
  {
    var r := Request(ip, now);
    var t' := Step(l, t, r);
    assert Swept(t', now) == t';
    assert Met(l, t', r) == Take(Met(l, t, r), now);
    assert Times(ip, now, n)[1..] == Times(ip, now, n - 1);
    if n > 1 {
      BurstPasses(l, t', ip, now, n - 1);
    }
  }

  function Nows(rs: seq<Request>): seq<int> {
    if rs == [] then [] else [rs[0].now] + Nows(rs[1..])
  }

  predicate AllOf(ip: string, rs: seq<Request>) {
    rs == [] || (rs[0].ip == ip && AllOf(ip, rs[1..]))
  }

  lemma {:induction false} KeptCount(l: Limit, m: map<string, Bucket>, ip: string, rs: seq<Request>)
    requires l.Valid() && rs != [] && AllOf(ip, rs)
    ensures Count(KeptDecisions(l, m, rs)) == Granted(KeptMet(l, m, rs[0]), Nows(rs))
    decreases rs
  {
    hide Take, Grants, NewBucket;
    var b, m' := KeptMet(l, m, rs[0]), KeptStep(l, m, rs[0]);
    assert Nows(rs)[1..] == Nows(rs[1..]);
    if rs[1..] != [] {
      KeptCount(l, m', ip, rs[1..]);
      assert KeptMet(l, m', rs[1]) == Take(b, rs[0].now);
    }
  }

  lemma {:induction false} LastBounded(b: Bucket, nows: seq<int>, top: int)
    requires b.last <= top && forall i | 0 <= i < |nows| :: nows[i] <= top
    ensures After(b, nows).last <= top
    decreases nows
  {
    if nows != [] {
      LastBounded(Take(b, nows[0]), nows[1..], top);
    }
  }

  /** All requests of a burst, and again all of a burst when the table has just been swept. */
  function TwoBursts(l: Limit, start: int): seq<Request> {
    Times("ip", start, l.max) + Times("ip", start + IDLE + 1, l.max)
  }

  lemma {:induction false} TimesFacts(ip: string, now: int, n: nat, clock: int, more: seq<Request>, top: int)
    requires clock <= now <= top && AllOf(ip, more) && Ascending(now, more)
    requires forall i | 0 <= i < |Nows(more)| :: Nows(more)[i] <= top
    ensures var rs := Times(ip, now, n) + more;
            AllOf(ip, rs) && (n > 0 ==> Ascending(clock, rs)) && forall i | 0 <= i < |Nows(rs)| :: Nows(rs)[i] <= top
  {
    var rs := Times(ip, now, n) + more;
    if n == 0 {
      assert rs == more;
    } else {
      TimesFacts(ip, now, n - 1, now, more, top);
      assert rs[1..] == Times(ip, now, n - 1) + more;
      if n == 1 {
        assert rs[1..] == more;
      }
    }
  }

  lemma BurstsPass(l: Limit, start: int)
    requires l.Valid()
    ensures Count(Decisions(l, Table(map[], start), TwoBursts(l, start))) == 2 * l.max
  {
    hide Decisions, End, Times, Count;
    var t, again := Table(map[], start), start + IDLE + 1;
    var first := Times("ip", start, l.max);
    BurstPasses(l, t, "ip", start, l.max);
    var e := End(l, t, first);
    assert Swept(t, start) == t;
    assert Swept(e, again).byIP == map[];
    BurstPasses(l, e, "ip", again, l.max);
    CountAdds(l, t, first, Times("ip", again, l.max));
  }

  lemma BurstsAscend(l: Limit, start: int)
    requires l.Valid()
    ensures var rs := TwoBursts(l, start);
            rs != [] && rs[0] == Request("ip", start) && AllOf("ip", rs) && Ascending(start, rs)
            && forall i | 0 <= i < |Nows(rs)| :: Nows(rs)[i] <= start + IDLE + 1
  {
    var again := start + IDLE + 1;
    var second := Times("ip", again, l.max);
    TimesFacts("ip", again, l.max, start, [], again);
    assert second + [] == second;
    TimesFacts("ip", start, l.max, start, second, again);
  }

  lemma ShortOfAWindow(l: Limit, span: int)
    requires l.Valid() && 0 <= span < l.window
    ensures Flow(l.max as real / l.window as real, span) < l.max as real
  {
    var rate := l.max as real / l.window as real;
    RatePositive(l.max, l.window);
    assert Flow(rate, l.window) == l.max as real;
    FlowAdds(rate, span, l.window - span);
    FlowGrows(rate, l.window - span);
  }

  lemma KeptBurstsFail(l: Limit, start: int)
    requires l.Valid() && l.window > IDLE + 1
    ensures Count(KeptDecisions(l, map[], TwoBursts(l, start))) < 2 * l.max
  {
    hide KeptDecisions, Granted, After, Count, Flow;
    var rs, b := TwoBursts(l, start), l.New(start);
    BurstsAscend(l, start);
    KeptCount(l, map[], "ip", rs);
    BoundedByBurst(b, Nows(rs));
    LastBounded(b, Nows(rs), start + IDLE + 1);
    SpentAndLeft(b, Nows(rs));
    ShortOfAWindow(l, After(b, Nows(rs)).last - start);
  }

  /** Sweeping is invisible, on every run, exactly when the window is at most ten minutes and one
      nanosecond: not longer than the shortest idle time that is swept. */
  lemma SweepIsInvisible(l: Limit, start: int)
    requires l.Valid()
    ensures l.window <= 600_000_000_001 <==>
            forall rs | Ascending(start, rs) ::
              Decisions(l, Table(map[], start), rs) == KeptDecisions(l, map[], rs)
  {
    var t := Table(map[], start);
    if l.window <= IDLE + 1 {
      forall rs | Ascending(start, rs)
        ensures Decisions(l, t, rs) == KeptDecisions(l, map[], rs)
      {
        SameDecisions(l, t, map[], start, rs);
      }
    } else {
      var rs := TwoBursts(l, start);
      BurstsAscend(l, start);
      BurstsPass(l, start);
      KeptBurstsFail(l, start);
      assert Decisions(l, t, rs) != KeptDecisions(l, map[], rs);
    }
  }

  // ----- the program -----

  class LoginRateLimit {
    const max: int
    const window: int
    var byIP: map<string, Entry>
    var lastSweep: int

    ghost function State(): Table
      reads this
    {
      Table(byIP, lastSweep)
    }

    constructor (max: int, window: int, now: int)
      ensures this.max == max && this.window == window && State() == Table(map[], now)
    {
      this.max, this.window := max, window;
      byIP, lastSweep := map[], now;
    }

    /** Drop the entries nobody asked for during the idle time. */
    method Sweep(now: int)
      modifies this
      ensures State() == Swept(old(State()), now)
      ensures now - old(lastSweep) <= 600_000_000_000 ==> State() == old(State())
      ensures now - old(lastSweep) > 600_000_000_000 ==>
                && lastSweep == now
                && (forall ip :: ip in byIP <==> ip in old(byIP) && now - old(byIP)[ip].seen <= 600_000_000_000)
                && forall ip | ip in byIP :: byIP[ip] == old(byIP)[ip]
    {
      if now - lastSweep > IDLE {
        var left := byIP.Keys;
        while left != {}
          invariant left <= old(byIP).Keys
          invariant byIP == map ip | ip in old(byIP) && (ip in left || now - old(byIP)[ip].seen <= IDLE) ::
                              old(byIP)[ip]
          invariant lastSweep == old(lastSweep)
          decreases |left|
        {
          var ip :| ip in left;
          if now - byIP[ip].seen > IDLE {
            byIP := byIP - {ip};
          }
          left := left - {ip};
        }
        lastSweep := now;
      }
    }

    /** Whether the request goes on to the login handler. */
    method Handle(post: bool, r: Request) returns (pass: bool)
      modifies this
      ensures max <= 0 || window <= 0 || !post ==> pass && State() == old(State())
      ensures max > 0 && window > 0 && post ==>
                var l := Limit(max, window);
                pass == Passes(l, old(State()), r) && State() == Step(l, old(State()), r)
    {
      if max <= 0 || window <= 0 || !post {
        return true;
      }
      Sweep(r.now);
      ghost var s := State();
      var bucket;
      if r.ip in byIP {
        bucket := byIP[r.ip].bucket;
      } else {
        bucket := NewBucket(max, window, max, r.now);
      }
      pass := Grants(bucket, r.now);
      byIP := byIP[r.ip := Entry(Take(bucket, r.now), r.now)];
    }
  }
}
