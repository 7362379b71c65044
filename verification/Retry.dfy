/** RetryPolicy.Do of pkg/resilience/resilience.go. What fn returns, and when the context ends, are
    inputs; waits are in nanoseconds. */
module Retry {
  import opened Wrappers

  datatype Error = Canceled | DeadlineExceeded | Other(id: int)

  predicate IsContextError(e: Error) {
    e == Canceled || e == DeadlineExceeded
  }

  datatype Policy = Policy(attempts: int, delay: int, multiplier: real, maxDelay: int,
                           shouldRetry: Option<Error -> bool>)
  {
    function Attempts(): (n: nat)
      ensures n >= 1
    {
      if attempts <= 0 then 1 else attempts
    }

    predicate Should(e: Error) {
      match shouldRetry
      case None => !IsContextError(e)
      case Some(f) => f(e)
    }

    /** The wait after a wait of d: grown, then cut to the maximum. */
    function Next(d: int): int {
      var grown := if multiplier > 1.0 then (d as real * multiplier).Floor else d;
      if maxDelay > 0 && grown > maxDelay then maxDelay else grown
    }

    /** The wait before call k + 1. */
    function DelayAt(k: nat): int {
      if k == 0 then delay else Next(DelayAt(k - 1))
    }
  }

  /** Call k panics if panics(k), else returns results(k); the context has ended right after call k if
      after(k), and ends during the wait that follows it if during(k). */
  datatype Env = Env(before: Option<Error>, panics: nat -> bool, results: nat -> Option<Error>,
                     after: nat -> Option<Error>, during: nat -> Option<Error>)

  datatype Result = Success | Failed(last: Error) | Stopped(ctx: Error, joined: Option<Error>) | Panicked

  /** Call k is followed by another one. */
  predicate GoesOn(p: Policy, env: Env, k: nat) {
    && !env.panics(k) && env.results(k).Some? && k != p.Attempts() - 1 && p.Should(env.results(k).value)
    && env.after(k).None? && (p.DelayAt(k) > 0 ==> env.during(k).None?)
  }

  /** How Do ends after call k. */
  function EndAfter(p: Policy, env: Env, k: nat): Result {
    if env.panics(k) then Panicked
    else
      match env.results(k)
      case None => Success
      case Some(e) =>
        if k == p.Attempts() - 1 || !p.Should(e) then Failed(e)
        else
          var ctx := if env.after(k).Some? then env.after(k) else env.during(k);
          if ctx.None? then Failed(e)
          else Stopped(ctx.value, if e == ctx.value then None else Some(e))
  }

  /** How Do goes: its calls go on up to the last one, which decides the result. */
  ghost predicate Goes(p: Policy, env: Env, r: Result, calls: nat) {
    if env.before.Some? then r == Stopped(env.before.value, None) && calls == 0
    else
      1 <= calls <= p.Attempts() && (forall k: nat | k < calls - 1 :: GoesOn(p, env, k))
      && !GoesOn(p, env, calls - 1) && r == EndAfter(p, env, calls - 1)
  }

  /** Which leaves no choice. */
  lemma GoesOneWay(p: Policy, env: Env, r: Result, calls: nat, r': Result, calls': nat)
    requires Goes(p, env, r, calls) && Goes(p, env, r', calls')
    ensures r == r' && calls == calls'
  {
    if env.before.None? {
      var last: nat, last': nat := calls - 1, calls' - 1;
      assert last < last' ==> GoesOn(p, env, last);
      assert last' < last ==> GoesOn(p, env, last');
    }
  }

  method Do(p: Policy, env: Env) returns (r: Result, calls: nat, waits: seq<int>)
    ensures Goes(p, env, r, calls) && waits == Waits(p, env, calls)
  {
    calls, waits := 0, [];
    if env.before.Some? {
      return Stopped(env.before.value, None), 0, [];
    }
    var delay := p.delay;
    for i := 0 to p.Attempts()
      invariant calls == i && delay == p.DelayAt(i) && i < p.Attempts()
      invariant forall k: nat | k < i :: GoesOn(p, env, k)
      invariant waits == Waited(p, i)
    {
      calls := i + 1;
      if env.panics(i) {
        return Panicked, calls, waits;
      }
      var lastErr := env.results(i);
      if lastErr.None? {
        return Success, calls, waits;
      }
      if i == p.Attempts() - 1 || !p.Should(lastErr.value) {
        return Failed(lastErr.value), calls, waits;
      }
      if env.after(i).Some? {
        return Join(env.after(i).value, lastErr.value), calls, waits;
      }
      if delay > 0 {
        waits := waits + [delay];
        if env.during(i).Some? {
          return Join(env.during(i).value, lastErr.value), calls, waits;
        }
      }
      delay := p.Next(delay);
    }
    assert false;  // the last call returns from within the loop
  }

  /** joinCtx, for errors that are single. */
  function Join(ctx: Error, last: Error): Result {
    Stopped(ctx, if last == ctx then None else Some(last))
  }

  /** The waits of n calls that all went on. */
  function Waited(p: Policy, n: nat): seq<int> {
    if n == 0 then []
    else if p.DelayAt(n - 1) > 0 then Waited(p, n - 1) + [p.DelayAt(n - 1)]
    else Waited(p, n - 1)
  }

  /** All waits, including one that the context cut short after the last call. */
  function Waits(p: Policy, env: Env, calls: nat): seq<int> {
    if calls == 0 then []
    else
      var k := calls - 1;
      var e := env.results(k);
      if !env.panics(k) && e.Some? && k != p.Attempts() - 1 && p.Should(e.value) && env.after(k).None?
      then Waited(p, calls) else Waited(p, k)
  }

  // ----- which errors are worth another call -----

  /** Without a rule of its own, a policy tries again after every error that is not the context's, and
      after no other; the configured number of attempts is then the only limit. */
  lemma DefaultDecides(p: Policy, env: Env, r: Result, calls: nat)
    requires p.shouldRetry.None? && env.before.None? && Goes(p, env, r, calls)
    ensures 1 <= calls <= if p.attempts > 1 then p.attempts else 1
    ensures forall k: nat | k < calls - 1 :: env.results(k).Some? && env.results(k).value.Other?
    ensures var last := calls - 1;
            !env.panics(last) && env.results(last).Some? && env.results(last).value.Other?
            && env.after(last).None? && env.during(last).None? ==>
              calls == (if p.attempts > 1 then p.attempts else 1) && r == Failed(env.results(last).value)
    ensures var last := calls - 1;
            !env.panics(last) && env.results(last) in {Some(Canceled), Some(DeadlineExceeded)} ==>
              r == Failed(env.results(last).value)
  {
    forall k: nat | k < calls - 1
      ensures env.results(k).Some? && env.results(k).value.Other?
    {
      assert GoesOn(p, env, k);
    }
  }

  /** What the result says: about the context before the first call, or about the last call and the
      context after it. */
  lemma ResultTells(p: Policy, env: Env, r: Result, calls: nat)
    requires Goes(p, env, r, calls)
    ensures calls == 0 <==> env.before.Some?
    ensures calls == 0 ==> r == Stopped(env.before.value, None)
    ensures forall k: nat | k < calls - 1 :: !env.panics(k) && env.results(k).Some? && env.after(k).None?
    ensures calls > 0 ==>
              var last := calls - 1;
              var e := env.results(last);
              var ended := env.after(last).Some? || (p.DelayAt(last) > 0 && env.during(last).Some?);
              && (r == Panicked <==> env.panics(last))
              && (r == Success <==> !env.panics(last) && e.None?)
              && (r.Failed? ==> e == Some(r.last))
              && (r.Stopped? ==>
                    && e.Some? && ended && calls < p.attempts
                    && r.ctx == (if env.after(last).Some? then env.after(last).value else env.during(last).value)
                    && r.joined == if e.value == r.ctx then None else e)
              && (r.Failed? && p.shouldRetry.None? && r.last.Other? && ended ==> calls >= p.attempts)
  {
    forall k: nat | k < calls - 1
      ensures !env.panics(k) && env.results(k).Some? && env.after(k).None?
    {
      assert GoesOn(p, env, k);
    }
  }

  // ----- how the waits grow -----

  function Pow(m: nat, k: nat): nat {
    if k == 0 then 1 else m * Pow(m, k - 1)
  }

  lemma Exact(d: int, m: nat)
    ensures (d as real * m as real).Floor == d * m
  {
    assert d as real * m as real == (d * m) as real;
  }

  lemma Larger(g: int, m: nat)
    requires m >= 1 && g >= 0
    ensures g * m >= g
  {
  }

  /** d, or the maximum if there is one below d. */
  function Cut(p: Policy, d: int): int {
    if 0 < p.maxDelay < d then p.maxDelay else d
  }

  lemma NextExact(p: Policy, m: nat, d: int)
    requires m >= 1 && p.multiplier == m as real
    ensures p.Next(d) == Cut(p, d * m)
  {
    Exact(d, m);
  }

  lemma PowMore(delay: int, m: nat, k: nat)
    ensures delay * Pow(m, k + 1) == delay * Pow(m, k) * m
  {
  }

  lemma CutTwice(p: Policy, d: int, m: nat)
    requires m >= 1 && d > 0
    ensures Cut(p, Cut(p, d) * m) == Cut(p, d * m) && d * m > 0
  {
    Larger(d, m);
    if 0 < p.maxDelay {
      Larger(p.maxDelay, m);
    }
  }

  /** Each wait is the one before times the multiplier, until the maximum is passed. */
  lemma {:induction false} GrowsByMultiplier(p: Policy, m: nat, k: nat)
    requires m >= 1 && p.multiplier == m as real && p.delay > 0
    ensures p.delay * Pow(m, k) > 0
    ensures var g := p.delay * Pow(m, k);
            p.DelayAt(k) == if k > 0 && 0 < p.maxDelay < g then p.maxDelay else g
  {
    hide p.Next;
    if k > 0 {
      var g := p.delay * Pow(m, k - 1);
      GrowsByMultiplier(p, m, k - 1);
      PowMore(p.delay, m, k - 1);
      NextExact(p, m, p.DelayAt(k - 1));
      CutTwice(p, g, m);
    }
  }

  /** With any multiplier above one the next wait is the product, cut to whole nanoseconds; with any other
      it stays the same. */
  lemma NextWait(p: Policy, k: nat)
    requires p.maxDelay <= 0
             || (p.DelayAt(k) <= p.maxDelay && p.DelayAt(k) as real * p.multiplier <= p.maxDelay as real)
    ensures p.multiplier > 1.0 ==>
              p.DelayAt(k + 1) as real <= p.DelayAt(k) as real * p.multiplier < p.DelayAt(k + 1) as real + 1.0
    ensures p.multiplier <= 1.0 ==> p.DelayAt(k + 1) == p.DelayAt(k)
  {
  }

  lemma {:induction false} DelayPositive(p: Policy, k: nat)
    requires p.delay > 0
    ensures p.DelayAt(k) > 0
  {
    if k > 0 {
      DelayPositive(p, k - 1);
      var d := p.DelayAt(k - 1);
      if p.multiplier > 1.0 {
        NotSmaller(d, p.multiplier);
      }
    }
  }

  lemma NotSmaller(d: int, m: real)
    requires d > 0 && m > 1.0
    ensures (d as real * m).Floor >= d
  {
    assert d as real * m >= d as real;
  }

  lemma {:induction false} WaitedAre(p: Policy, n: nat)
    requires p.delay > 0
    ensures |Waited(p, n)| == n && forall k | 0 <= k < n :: Waited(p, n)[k] == p.DelayAt(k)
  {
    if n > 0 {
      WaitedAre(p, n - 1);
      DelayPositive(p, n - 1);
    }
  }

  /** A wait stands between any two calls, and perhaps one after the last that the context cuts short. */
  lemma WaitsAre(p: Policy, env: Env, r: Result, calls: nat)
    requires p.delay > 0 && Goes(p, env, r, calls) && calls > 0
    ensures var waits := Waits(p, env, calls);
            calls - 1 <= |waits| <= calls && forall k | 0 <= k < |waits| :: waits[k] == p.DelayAt(k)
  {
    WaitedAre(p, calls);
    WaitedAre(p, calls - 1);
  }

  // ----- MaxDelay -----

  lemma {:induction false} LaterDelaysClamped(p: Policy, k: nat)
    requires p.maxDelay > 0 && k > 0
    ensures p.DelayAt(k) <= p.maxDelay
  {
  }

  lemma {:induction false} WaitedClamped(p: Policy, n: nat)
    requires p.maxDelay > 0 && p.delay <= p.maxDelay
    ensures forall w | w in Waited(p, n) :: w <= p.maxDelay
  {
    if n > 0 {
      WaitedClamped(p, n - 1);
      if n > 1 {
        LaterDelaysClamped(p, n - 1);
      }
      assert forall w | w in Waited(p, n) :: w in Waited(p, n - 1) || w == p.DelayAt(n - 1);
    }
  }

  predicate BoundsWaits(p: Policy, env: Env, calls: nat) {
    forall w | w in Waits(p, env, calls) :: w <= p.maxDelay
  }

  /** Within one run: the maximum bounds the waits, unless the first delay is above it and is waited. */
  lemma BoundsWaitsOf(p: Policy, env: Env, calls: nat)
    requires p.maxDelay > 0
    ensures BoundsWaits(p, env, calls) <==> Waits(p, env, calls) == [] || p.delay <= p.maxDelay
  {
    if p.delay <= p.maxDelay {
      WaitedClamped(p, calls);
      if calls > 0 {
        WaitedClamped(p, calls - 1);
      }
    } else {
      FirstWait(p, calls);
      if calls > 0 {
        FirstWait(p, calls - 1);
      }
      assert Waits(p, env, calls) != [] ==> p.delay in Waits(p, env, calls);
    }
  }

  /** Nothing ends the context and every call fails with e. */
  function FailsWith(e: Error): Env {
    Env(None, k => false, k => Some(e), k => None, k => None)
  }

  /** A first delay above the maximum is waited in full when an error is worth a second call. */
  lemma FirstDelayExceeds(p: Policy, e: Error)
    requires p.maxDelay > 0 && p.delay > p.maxDelay && p.Attempts() > 1 && p.Should(e)
    ensures Goes(p, FailsWith(e), Failed(e), p.Attempts()) && !BoundsWaits(p, FailsWith(e), p.Attempts())
  {
    var env, n := FailsWith(e), p.Attempts();
    assert forall k: nat | k < n - 1 :: GoesOn(p, env, k);
    FirstWait(p, n - 1);
    BoundsWaitsOf(p, env, n);
  }

  lemma NothingToWaitFor(p: Policy, env: Env, r: Result, calls: nat)
    requires p.maxDelay > 0 && Goes(p, env, r, calls)
    requires p.Attempts() == 1 || forall e :: !p.Should(e)
    ensures Waits(p, env, calls) == []
  {
    assert calls > 1 ==> GoesOn(p, env, 0);
  }

  /** MaxDelay bounds every wait of every run if and only if the first delay is within it or nothing
      is ever tried again: the first wait alone is not cut. */
  lemma MaxDelayBoundsWaits(p: Policy)
    requires p.maxDelay > 0
    ensures (forall env, r, calls | Goes(p, env, r, calls) :: BoundsWaits(p, env, calls))
       <==> p.delay <= p.maxDelay || p.Attempts() == 1 || forall e :: !p.Should(e)
  {
    hide Goes, BoundsWaits, Waits;
    if p.delay <= p.maxDelay || p.Attempts() == 1 || forall e :: !p.Should(e) {
      forall env, r, calls | Goes(p, env, r, calls)
        ensures BoundsWaits(p, env, calls)
      {
        BoundsWaitsOf(p, env, calls);
        if p.delay > p.maxDelay {
          NothingToWaitFor(p, env, r, calls);
        }
      }
    } else {
      var e :| p.Should(e);
      FirstDelayExceeds(p, e);
    }
  }

  lemma {:induction false} FirstWait(p: Policy, n: nat)
    requires p.maxDelay > 0
    ensures p.delay > p.maxDelay && n > 0 ==> Waited(p, n) != [] && Waited(p, n)[0] == p.delay
    ensures n == 0 ==> Waited(p, n) == []
  {
    if n > 1 {
      FirstWait(p, n - 1);
      if p.delay > p.maxDelay {
        var before := Waited(p, n - 1);
        assert before[0] == p.delay;
        assert (before + [p.DelayAt(n - 1)])[0] == p.delay;
      }
    }
  }
}
