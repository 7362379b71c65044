/** The circuit breaker of pkg/resilience/resilience.go. Admission and recording are separate
    critical sections, so results of old calls may arrive in any later state. Times are integers. */
module BreakerSpec {
  datatype Mode = Closed | Open | HalfOpen

  datatype Outcome = Success | Failure | Neutral

  datatype Admission = Rejected | Plain | Probe

  /** The breaker's fields. */
  datatype Core = Core(mode: Mode, failures: nat, threshold: nat, openUntil: int, timeout: int, allowProbe: bool)

  function NewCore(threshold: int, timeout: int, openUntil: int): Core {
    Core(Closed, 0, if threshold <= 0 then 5 else threshold, openUntil,
         if timeout <= 0 then 30_000_000_000 else timeout, false)
  }

  /** currentStateLocked */
  function Refresh(cb: Core, now: int): Core {
    if cb.mode == Open && now > cb.openUntil then cb.(mode := HalfOpen, allowProbe := true) else cb
  }

  /** The first critical section of Execute. */
  function Admit(cb: Core, now: int): (Core, Admission) {
    var c := Refresh(cb, now);
    match c.mode
    case Open => (c, Rejected)
    case HalfOpen => if !c.allowProbe then (c, Rejected) else (c.(allowProbe := false), Probe)
    case Closed => (c, Plain)
  }

  /** record */
  function Record(cb: Core, o: Outcome, probe: bool, now: int): Core {
    match o
    case Success =>
      if cb.mode == HalfOpen && !probe then cb else cb.(mode := Closed, failures := 0, allowProbe := false)
    case Neutral =>
      if probe && cb.mode == HalfOpen then cb.(allowProbe := true) else cb
    case Failure =>
      match cb.mode
      case Closed =>
        var c := cb.(failures := cb.failures + 1);
        if c.failures >= cb.threshold then c.(mode := Open, openUntil := now + cb.timeout) else c
      case HalfOpen =>
        if probe then cb.(mode := Open, openUntil := now + cb.timeout, allowProbe := false) else cb
      case Open => cb
  }

  // ----- calls in flight -----

  /** The breaker with the calls in flight (those admitted while closed, and probes) and the
      outcomes recorded so far. */
  datatype Sys = Sys(cb: Core, plain: nat, probes: nat, log: seq<Outcome>)

  datatype Action = Enter(now: int) | Leave(o: Outcome, probe: bool, now: int) | Look(now: int)

  predicate Enabled(sys: Sys, a: Action) {
    a.Leave? ==> if a.probe then sys.probes > 0 else sys.plain > 0
  }

  function Apply(sys: Sys, a: Action): Sys
    requires Enabled(sys, a)
  {
    match a
    case Enter(now) =>
      var (cb, adm) := Admit(sys.cb, now);
      Sys(cb, if adm == Plain then sys.plain + 1 else sys.plain,
          if adm == Probe then sys.probes + 1 else sys.probes, sys.log)
    case Leave(o, probe, now) =>
      Sys(Record(sys.cb, o, probe, now), if probe then sys.plain else sys.plain - 1,
          if probe then sys.probes - 1 else sys.probes, sys.log + [o])
    case Look(now) => sys.(cb := Refresh(sys.cb, now))
  }

  /** A call of ours is in flight, admitted while closed or as the probe. */
  predicate InFlight(sys: Sys, probe: bool) {
    if probe then sys.probes > 0 else sys.plain > 0
  }

  /** Steps that other callers can take while our call is in flight: each records the outcome of a
      call of its own, never of ours. */
  predicate OthersCan(sys: Sys, probe: bool, acts: seq<Action>)
    requires InFlight(sys, probe)
    decreases acts
  {
    acts == [] || (OtherCan(sys, probe, acts[0])
                   && (OursStays(sys, probe, acts[0]); OthersCan(Apply(sys, acts[0]), probe, acts[1..])))
  }

  predicate OtherCan(sys: Sys, probe: bool, a: Action) {
    a.Leave? ==> if a.probe then sys.probes > (if probe then 1 else 0) else sys.plain > if probe then 0 else 1
  }

  function Others(sys: Sys, probe: bool, acts: seq<Action>): (last: Sys)
    requires InFlight(sys, probe) && OthersCan(sys, probe, acts)
    ensures InFlight(last, probe)
    decreases acts
  {
    if acts == [] then sys else Others(Apply(sys, acts[0]), probe, acts[1..])
  }

  lemma OursStays(sys: Sys, probe: bool, a: Action)
    requires InFlight(sys, probe) && OtherCan(sys, probe, a)
    ensures Enabled(sys, a) && InFlight(Apply(sys, a), probe)
  {
  }

  /** Failures recorded since the last recorded success, or since the start. */
  function FailuresSince(log: seq<Outcome>): nat {
    if log == [] then 0
    else
      match log[|log| - 1]
      case Success => 0
      case Failure => FailuresSince(log[..|log| - 1]) + 1
      case Neutral => FailuresSince(log[..|log| - 1])
  }

  predicate Inv(sys: Sys) {
    var cb := sys.cb;
    && cb.threshold > 0 && cb.timeout > 0
    && (cb.allowProbe ==> cb.mode == HalfOpen)
    && sys.probes == (if cb.mode == HalfOpen && !cb.allowProbe then 1 else 0)
    && (cb.mode == Closed ==> cb.failures == FailuresSince(sys.log) < cb.threshold)
  }

  function Start(threshold: int, timeout: int, openUntil: int): Sys {
    Sys(NewCore(threshold, timeout, openUntil), 0, 0, [])
  }

  lemma ApplyKeeps(sys: Sys, a: Action)
    requires Inv(sys) && Enabled(sys, a)
    ensures Inv(Apply(sys, a))
    ensures Apply(sys, a).cb.threshold == sys.cb.threshold && Apply(sys, a).cb.timeout == sys.cb.timeout
  {
    if a.Leave? {
      assert (sys.log + [a.o])[..|sys.log|] == sys.log;
    }
  }

  ghost predicate Run(sys: Sys, acts: seq<Action>, last: Sys)
    decreases acts
  {
    if acts == [] then sys == last
    else Enabled(sys, acts[0]) && Run(Apply(sys, acts[0]), acts[1..], last)
  }

  lemma {:induction false} RunKeeps(sys: Sys, acts: seq<Action>, last: Sys)
    requires Inv(sys) && Run(sys, acts, last)
    ensures Inv(last) && last.cb.threshold == sys.cb.threshold && last.cb.timeout == sys.cb.timeout
    decreases acts
  {
    hide Inv, Apply, Enabled;
    if acts != [] {
      ApplyKeeps(sys, acts[0]);
      RunKeeps(Apply(sys, acts[0]), acts[1..], last);
    }
  }

  ghost predicate Reachable(sys: Sys) {
    exists threshold, timeout, openUntil, acts :: Run(Start(threshold, timeout, openUntil), acts, sys)
  }

  lemma ReachableInv(sys: Sys)
    requires Reachable(sys)
    ensures Inv(sys)
  {
    var threshold, timeout, openUntil, acts :| Run(Start(threshold, timeout, openUntil), acts, sys);
    RunKeeps(Start(threshold, timeout, openUntil), acts, sys);
  }

  // ----- main results -----

  /** In every reachable state the number of probes in flight is one exactly when the breaker is
      half-open with the probe handed out, and zero otherwise. */
  lemma OneProbeAtMost(sys: Sys)
    requires Reachable(sys)
    ensures sys.probes <= 1 && (sys.probes == 1 <==> sys.cb.mode == HalfOpen && !sys.cb.allowProbe)
  {
    ReachableInv(sys);
  }

  /** A call is turned away exactly while the breaker is open in time, or a probe is in flight. */
  lemma RejectsExactly(sys: Sys, now: int)
    requires Reachable(sys)
    ensures Admit(sys.cb, now).1 == Rejected <==> (sys.cb.mode == Open && now <= sys.cb.openUntil) || sys.probes == 1
  {
    ReachableInv(sys);
  }

  /** Whatever happened before (panics and neutral results included), once no call is in flight and
      the clock is past openUntil the next call is admitted. */
  lemma NeverStuck(sys: Sys, now: int)
    requires Reachable(sys) && sys.plain == 0 && sys.probes == 0 && now > sys.cb.openUntil
    ensures Admit(sys.cb, now).1 != Rejected
  {
    RejectsExactly(sys, now);
  }

  /** While closed, the counter is the number of failures since the last success, and below the threshold. */
  lemma CountsFailures(sys: Sys)
    requires Reachable(sys) && sys.cb.mode == Closed
    ensures sys.cb.failures == FailuresSince(sys.log) < sys.cb.threshold
  {
    ReachableInv(sys);
  }

  /** A closed breaker trips exactly when the threshold-th failure in a row is recorded; it is then
      open for the timeout. Nothing else takes it out of the closed state. */
  lemma TripsExactly(sys: Sys, a: Action)
    requires Reachable(sys) && Enabled(sys, a) && sys.cb.mode == Closed
    ensures Apply(sys, a).cb.mode != Closed
       <==> a.Leave? && a.o == Failure && FailuresSince(sys.log) + 1 == sys.cb.threshold
    ensures Apply(sys, a).cb.mode != Closed ==>
              Apply(sys, a).cb.mode == Open && Apply(sys, a).cb.openUntil == a.now + sys.cb.timeout
  {
    ReachableInv(sys);
  }

  /** The breaker leaves Open only when the clock is past openUntil, for half-open, or when a call
      admitted while closed succeeds late, for closed. */
  lemma LeavesOpenOnly(sys: Sys, a: Action)
    requires Reachable(sys) && Enabled(sys, a) && sys.cb.mode == Open
    ensures Apply(sys, a).cb.mode == HalfOpen <==> !a.Leave? && a.now > sys.cb.openUntil
    ensures Apply(sys, a).cb.mode == Closed <==> a.Leave? && a.o == Success
    ensures a.Leave? ==> !a.probe
  {
    ReachableInv(sys);
  }

  /** Half-open, only the probe's own outcome counts: success closes, failure reopens, anything
      neutral lets the next call probe. Late results of older calls change nothing. */
  lemma ProbeDecides(sys: Sys, a: Action)
    requires Reachable(sys) && Enabled(sys, a) && sys.cb.mode == HalfOpen && a.Leave?
    ensures !a.probe ==> Apply(sys, a).cb == sys.cb
    ensures a.probe ==>
              Apply(sys, a).cb.mode == (match a.o case Success => Closed case Failure => Open case Neutral => HalfOpen)
    ensures a.probe && a.o == Neutral ==> forall now :: Admit(Apply(sys, a).cb, now).1 == Probe
    ensures a.probe && a.o == Failure ==> Apply(sys, a).cb.openUntil == a.now + sys.cb.timeout
  {
    ReachableInv(sys);
  }
}
