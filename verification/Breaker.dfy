/** The circuit breaker as the program runs it: each method is one critical section and takes one
    step of BreakerSpec. */
module Breaker {
  import opened Wrappers
  import opened BreakerSpec

  datatype Error = ContextError | Other(id: int)

  /** In nanoseconds. */
  const SECOND: int := 1_000_000_000

  class CircuitBreaker {
    var mode: Mode
    var failureCount: nat
    var failThreshold: nat
    var openUntil: int
    var openTimeout: int
    var allowProbe: bool
    const isFailure: Option<Error -> bool>
    ghost var plain: nat
    ghost var probes: nat
    ghost var log: seq<Outcome>

    ghost function Abs(): Sys
      reads this
    {
      Sys(Core(mode, failureCount, failThreshold, openUntil, openTimeout, allowProbe), plain, probes, log)
    }

    constructor (failThreshold: int, openTimeout: int, isFailure: Option<Error -> bool>)
      ensures Abs() == Start(failThreshold, openTimeout, 0) && this.isFailure == isFailure
      ensures mode == Closed && failureCount == 0
      ensures this.failThreshold == (if failThreshold > 0 then failThreshold else 5)
      ensures this.openTimeout == if openTimeout > 0 then openTimeout else 30 * SECOND
    {
      mode, failureCount, openUntil, allowProbe := Closed, 0, 0, false;
      this.failThreshold := if failThreshold <= 0 then 5 else failThreshold;
      this.openTimeout := if openTimeout <= 0 then 30_000_000_000 else openTimeout;
      this.isFailure := isFailure;
      plain, probes, log := 0, 0, [];
    }

    method CurrentState(now: int) returns (st: Mode)
      modifies this
      ensures Abs() == BreakerSpec.Apply(old(Abs()), Look(now)) && st == mode
    {
      if mode == Open && now > openUntil {
        mode := HalfOpen;
        allowProbe := true;
      }
      st := mode;
    }

    function Classify(err: Option<Error>): Outcome {
      if err.None? then Success
      else if err.value == ContextError then Neutral
      else if isFailure.Some? && !isFailure.value(err.value) then Success
      else Failure
    }

    /** The first critical section of Execute. */
    method Enter(now: int) returns (adm: Admission)
      modifies this
      ensures Abs() == BreakerSpec.Apply(old(Abs()), Action.Enter(now))
      ensures adm == Admit(old(Abs()).cb, now).1
    {
      var st := CurrentState(now);
      match st {
        case Open =>
          return Rejected;
        case HalfOpen =>
          if !allowProbe {
            return Rejected;
          }
          allowProbe := false;
          probes := probes + 1;
          return Probe;
        case Closed =>
          plain := plain + 1;
          return Plain;
      }
    }

    method Record(o: Outcome, probe: bool, now: int)
      requires Enabled(Abs(), Leave(o, probe, now))
      modifies this
      ensures Abs() == BreakerSpec.Apply(old(Abs()), Leave(o, probe, now))
    {
      if probe {
        probes := probes - 1;
      } else {
        plain := plain - 1;
      }
      log := log + [o];
      match o {
        case Success =>
          if mode == HalfOpen && !probe {
            return;
          }
          mode := Closed;
          failureCount := 0;
          allowProbe := false;
        case Neutral =>
          if probe && mode == HalfOpen {
            allowProbe := true;
          }
        case Failure =>
          match mode {
            case Closed =>
              failureCount := failureCount + 1;
              if failureCount >= failThreshold {
                mode := Open;
                openUntil := now + openTimeout;
              }
            case HalfOpen =>
              if probe {
                mode := Open;
                openUntil := now + openTimeout;
                allowProbe := false;
              }
            case Open =>
          }
      }
    }

    /** What other callers do to the breaker while a call of ours runs its function. */
    method Meanwhile(probe: bool, acts: seq<Action>)
      requires InFlight(Abs(), probe) && OthersCan(Abs(), probe, acts)
      modifies this
      ensures InFlight(Abs(), probe) && Abs() == Others(old(Abs()), probe, acts)
    {
      for i := 0 to |acts|
        invariant InFlight(Abs(), probe) && OthersCan(Abs(), probe, acts[i..])
        invariant Others(Abs(), probe, acts[i..]) == Others(old(Abs()), probe, acts)
      {
        assert acts[i..][0] == acts[i] && acts[i..][1..] == acts[i + 1..];
        match acts[i] {
          case Enter(now) => var _ := Enter(now);
          case Leave(o, ofProbe, now) => Record(o, ofProbe, now);
          case Look(now) => var _ := CurrentState(now);
        }
      }
    }

    /** Execute, with what others do in between: fn gives an error, nothing, or panics (None). */
    method Execute(ctxErr: Option<Error>, fn: Option<Option<Error>>, now: int, meanwhile: seq<Action>, later: int)
      returns (r: Executed)
      requires ctxErr.None? ==> CanGoOn(Abs(), now, meanwhile)
      modifies this
      ensures ctxErr.Some? ==> r == ContextDone(ctxErr.value) && Abs() == old(Abs())
      ensures ctxErr.None? ==>
                var (entered, adm) := (BreakerSpec.Apply(old(Abs()), Action.Enter(now)), Admit(old(Abs()).cb, now).1);
                if adm == Rejected then r == BreakerOpen && Abs() == entered
                else var o := match fn
                              case None => Failure
                              case Some(None) => Success
                              case Some(Some(ContextError)) => Neutral
                              case Some(Some(e)) => if isFailure.Some? && !isFailure.value(e) then Success else Failure;
                     r == (if fn.None? then Panicked else Returned(fn.value))
                     && Abs() == Finish(entered, adm == Probe, meanwhile, o, later)
    {
      if ctxErr.Some? {
        return ContextDone(ctxErr.value);
      }
      var adm := Enter(now);
      if adm == Rejected {
        return BreakerOpen;
      }
      Meanwhile(adm == Probe, meanwhile);
      if fn.None? {
        Record(Failure, adm == Probe, later);
        return Panicked;
      }
      Record(Classify(fn.value), adm == Probe, later);
      r := Returned(fn.value);
    }
  }

  /** A call admitted now leaves room for what others do before it ends. */
  predicate CanGoOn(sys: Sys, now: int, meanwhile: seq<Action>) {
    var adm := Admit(sys.cb, now).1;
    adm != Rejected ==> OthersCan(BreakerSpec.Apply(sys, Action.Enter(now)), adm == Probe, meanwhile)
  }

  /** Others go on while the call's function runs, and then its outcome is recorded. */
  function Finish(sys: Sys, probe: bool, meanwhile: seq<Action>, o: Outcome, later: int): Sys
    requires InFlight(sys, probe) && OthersCan(sys, probe, meanwhile)
  {
    BreakerSpec.Apply(Others(sys, probe, meanwhile), Leave(o, probe, later))
  }

  datatype Executed = ContextDone(e: Error) | BreakerOpen | Panicked | Returned(err: Option<Error>)
}
