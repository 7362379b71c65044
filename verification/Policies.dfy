/** A database operation under its retry policy and the circuit breaker: doWithPolicies in
    pkg/db/db.go. */
module Policies {
  import opened Wrappers
  import opened BreakerSpec
  import R = Retry
  import B = Breaker

  datatype Kind = Read | Write | Tx

  /** Only reads are retried, unless retrying writes is allowed. */
  function AttemptsFor(attempts: int, kind: Kind, retryWrites: bool): (n: nat)
    ensures attempts > 1 && (kind == Read || retryWrites) ==> n == attempts
    ensures attempts <= 1 || (kind != Read && !retryWrites) ==> n == 1
  {
    if attempts <= 1 || (kind != Read && !retryWrites) then 1 else attempts
  }

  /** An operation that keeps failing is tried as often as configured if it reads or may be retried, and
      otherwise once. */
  lemma TriesAll(p: R.Policy, kind: Kind, retryWrites: bool, env: R.Env, r: R.Result, calls: nat)
    requires R.Goes(p.(attempts := AttemptsFor(p.attempts, kind, retryWrites)), env, r, calls)
    requires p.shouldRetry.None? && env.before.None?
    requires forall k: nat :: !env.panics(k) && env.results(k).Some? && env.results(k).value.Other?
    requires forall k: nat :: env.after(k).None? && env.during(k).None?
    ensures calls == if p.attempts > 1 && (kind == Read || retryWrites) then p.attempts else 1
    ensures r == R.Failed(env.results(calls - 1).value)
  {
    R.DefaultDecides(p.(attempts := AttemptsFor(p.attempts, kind, retryWrites)), env, r, calls);
  }

  /** The result as the breaker sees it: a joined context error is a context error, and a panic is a
      failure. */
  function Seen(cb: B.CircuitBreaker, r: R.Result): (o: Outcome)
    ensures r.Success? ==> o == Outcome.Success
    ensures r.Panicked? ==> o == Failure
    ensures r.Stopped? || r == R.Failed(R.Canceled) || r == R.Failed(R.DeadlineExceeded) ==> o == Neutral
    ensures r.Failed? && r.last.Other? ==>
              o == if cb.isFailure.Some? && !cb.isFailure.value(B.Other(r.last.id)) then Outcome.Success else Failure
  {
    match r
    case Success => cb.Classify(None)
    case Failed(Other(id)) => cb.Classify(Some(B.Other(id)))
    case Failed(_) => cb.Classify(Some(B.ContextError))
    case Stopped(_, _) => cb.Classify(Some(B.ContextError))
    case Panicked => Failure
  }

  /** However often it is tried, the operation is one call for the breaker; a breaker that turns it
      down lets nothing run. */
  method DoWithPolicies(cb: B.CircuitBreaker?, p: R.Policy, kind: Kind, retryWrites: bool,
                        ctx: Option<R.Error>, env: R.Env, now: int, meanwhile: seq<Action>, later: int)
    returns (ran: Option<R.Result>, calls: nat)
    requires cb != null && ctx.None? ==> B.CanGoOn(cb.Abs(), now, meanwhile)
    modifies if cb == null then {} else {cb}
    ensures kind != Read && !retryWrites ==> calls <= 1
    ensures ran.Some? ==> R.Goes(p.(attempts := AttemptsFor(p.attempts, kind, retryWrites)), env, ran.value, calls)
    ensures ran.None? ==> calls == 0 && cb != null
    ensures cb != null ==>
              var entered := BreakerSpec.Apply(old(cb.Abs()), Enter(now));
              var adm := Admit(old(cb.Abs()).cb, now).1;
              if ctx.Some? then ran.None? && cb.Abs() == old(cb.Abs())
              else if adm == Rejected then ran.None? && cb.Abs() == entered
              else ran.Some? && cb.Abs() == B.Finish(entered, adm == Probe, meanwhile, Seen(cb, ran.value), later)
  {
    var policy := p.(attempts := AttemptsFor(p.attempts, kind, retryWrites));
    if cb == null {
      var r, n, _ := R.Do(policy, env);
      return Some(r), n;
    }
    if ctx.Some? {
      return None, 0;
    }
    var adm := cb.Enter(now);
    if adm == Rejected {
      return None, 0;
    }
    var r, n, _ := R.Do(policy, env);
    cb.Meanwhile(adm == Probe, meanwhile);
    cb.Record(Seen(cb, r), adm == Probe, later);
    return Some(r), n;
  }
}
