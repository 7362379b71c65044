/** The token bucket: pkg/ratelimit/ratelimit.go. Tokens are reals, times are nanoseconds and are
    given to each call; a call may see an earlier time than the one before. */
module RateLimit {
  import opened Wrappers

  const MICROSECOND: int := 1000

  datatype Bucket = Bucket(capacity: real, tokens: real, rate: real, last: int) {
    predicate Valid() {
      capacity >= 1.0 && 0.0 <= tokens <= capacity && rate > 0.0
    }
  }

  /** The tokens that arrive in a stretch of time. */
  function Flow(rate: real, span: int): real {
    span as real * rate
  }

  lemma FlowAdds(rate: real, a: int, b: int)
    ensures Flow(rate, a) + Flow(rate, b) == Flow(rate, a + b)
  {
  }

  lemma FlowGrows(rate: real, a: int)
    requires rate > 0.0 && a >= 0
    ensures Flow(rate, a) >= 0.0 && (a > 0 ==> Flow(rate, a) >= rate)
  {
  }

  /** refill */
  function Refilled(b: Bucket, now: int): Bucket {
    if now <= b.last then b
    else
      var t := b.tokens + Flow(b.rate, now - b.last);
      b.(tokens := if t > b.capacity then b.capacity else t, last := now)
  }

  predicate Grants(b: Bucket, now: int) {
    Refilled(b, now).tokens >= 1.0
  }

  /** The bucket after a call at the given time. */
  function Take(b: Bucket, now: int): Bucket {
    var r := Refilled(b, now);
    if r.tokens >= 1.0 then r.(tokens := r.tokens - 1.0) else r
  }

  /** The bucket after calls at the given times, and how many of them got a token. */
  function After(b: Bucket, nows: seq<int>): Bucket
    decreases nows
  {
    if nows == [] then b else After(Take(b, nows[0]), nows[1..])
  }

  function Granted(b: Bucket, nows: seq<int>): nat
    decreases nows
  {
    if nows == [] then 0 else (if Grants(b, nows[0]) then 1 else 0) + Granted(Take(b, nows[0]), nows[1..])
  }

  /** A refill never brings more than what flows in, and exactly that unless the bucket is full. */
  lemma RefillFlows(b: Bucket, now: int)
    requires b.Valid()
    ensures var r := Refilled(b, now);
            r.Valid() && r.capacity == b.capacity && r.rate == b.rate && r.last >= b.last && r.last >= now
            && r.tokens <= b.tokens + Flow(b.rate, r.last - b.last)
            && (r.tokens < r.capacity ==> r.tokens == b.tokens + Flow(b.rate, r.last - b.last))
            && Refilled(r, now) == r
  {
    if now > b.last {
      FlowGrows(b.rate, now - b.last);
    }
  }

  lemma TakeKeeps(b: Bucket, now: int)
    requires b.Valid()
    ensures var r, t := Refilled(b, now), Take(b, now);
            t.Valid() && t.capacity == b.capacity && t.rate == b.rate && t.last == r.last
            && t.tokens + (if Grants(b, now) then 1.0 else 0.0) == r.tokens
  {
    RefillFlows(b, now);
  }

  // ----- grants never exceed burst and rate -----

  /** Whatever the clock shows, what was granted and what is left came from the start or flowed in. */
  lemma {:induction false} SpentAndLeft(b: Bucket, nows: seq<int>)
    requires b.Valid()
    ensures var a := After(b, nows);
            a.Valid() && a.capacity == b.capacity && a.rate == b.rate && a.last >= b.last
            && a.tokens + Granted(b, nows) as real <= b.tokens + Flow(b.rate, a.last - b.last)
    decreases nows
  {
    hide Flow, Take, Grants, Refilled;
    if nows == [] {
      NoFlow(b.rate);
    } else {
      var t := Take(b, nows[0]);
      RefillFlows(b, nows[0]);
      TakeKeeps(b, nows[0]);
      SpentAndLeft(t, nows[1..]);
      FlowAdds(b.rate, t.last - b.last, After(t, nows[1..]).last - t.last);
    }
  }

  lemma NoFlow(rate: real)
    ensures Flow(rate, 0) == 0.0
  {
  }

  /** Between any two points of a run at most the burst and what the rate allows is granted. */
  lemma BoundedByBurst(b: Bucket, nows: seq<int>)
    requires b.Valid()
    ensures Granted(b, nows) as real <= b.capacity + Flow(b.rate, After(b, nows).last - b.last)
  {
    SpentAndLeft(b, nows);
  }

  // ----- and nothing is refused that would stay within them -----

  function First(nows: seq<int>, now: int): int {
    if nows == [] then now else nows[0]
  }

  /** One more grant at this time would respect burst and rate, counted from the first of the calls. */
  predicate Fits(b: Bucket, nows: seq<int>, now: int) {
    Granted(b, nows) as real + 1.0
    <= b.capacity + Flow(b.rate, Refilled(After(b, nows), now).last - Refilled(b, First(nows, now)).last)
  }

  lemma SameAfterRefill(b: Bucket, nows: seq<int>)
    requires b.Valid() && nows != []
    ensures var m := Refilled(b, nows[0]); After(m, nows) == After(b, nows) && Granted(m, nows) == Granted(b, nows)
  {
    RefillFlows(b, nows[0]);
  }

  lemma GrantFits(b: Bucket, nows: seq<int>, now: int)
    requires b.Valid() && Grants(After(b, nows), now)
    ensures Fits(b, nows, now)
  {
    hide Flow, Take, Refilled;
    var m := Refilled(b, First(nows, now));
    RefillFlows(b, First(nows, now));
    if nows == [] {
      NoFlow(b.rate);
    } else {
      SameAfterRefill(b, nows);
      SpentAndLeft(m, nows);
      var a := After(m, nows);
      RefillFlows(a, now);
      FlowAdds(b.rate, a.last - m.last, Refilled(a, now).last - a.last);
    }
  }

  /** The last call before a refusal that found the bucket full, if any; without one, nothing that
      flowed in was lost. */
  lemma {:induction false} LastFull(b: Bucket, nows: seq<int>, now: int) returns (j: int)
    requires b.Valid() && !Grants(After(b, nows), now)
    ensures -1 <= j <= |nows|
    ensures j >= 0 ==> !Fits(After(b, nows[..j]), nows[j..], now)
    ensures j == -1 ==>
              var r := Refilled(After(b, nows), now);
              Refilled(b, First(nows, now)).tokens < b.capacity
              && r.tokens + Granted(b, nows) as real == b.tokens + Flow(b.rate, r.last - b.last)
    decreases nows
  {
    hide Flow, Take, Refilled;
    var m := Refilled(b, First(nows, now));
    RefillFlows(b, First(nows, now));
    if nows == [] {
      j := -1;
    } else {
      var t, rest := Take(b, nows[0]), nows[1..];
      TakeKeeps(b, nows[0]);
      SpentAndLeft(t, rest);
      RefillFlows(After(t, rest), now);
      var k := LastFull(t, rest, now);
      var r := Refilled(After(t, rest), now);
      if k >= 0 {
        j := k + 1;
        assert nows[..j][1..] == rest[..k] && nows[j..] == rest[k..];
      } else if m.tokens == b.capacity {
        j := 0;
        assert nows[..0] == [] && nows[0..] == nows;
      } else {
        j := -1;
        FlowAdds(b.rate, m.last - b.last, r.last - m.last);
      }
    }
  }

  /** In a run from a full bucket, with any clock readings, a call is granted exactly when one more
      grant respects burst and rate counted from every call before it. */
  lemma GrantedExactlyWithinBound(b: Bucket, nows: seq<int>, now: int)
    requires b.Valid() && b.tokens == b.capacity
    ensures Grants(After(b, nows), now) <==>
            forall j | 0 <= j <= |nows| :: Fits(After(b, nows[..j]), nows[j..], now)
  {
    hide Fits, Refilled, Grants;
    if Grants(After(b, nows), now) {
      forall j | 0 <= j <= |nows|
        ensures Fits(After(b, nows[..j]), nows[j..], now)
      {
        AfterSplit(b, nows, j);
        SpentAndLeft(b, nows[..j]);
        GrantFits(After(b, nows[..j]), nows[j..], now);
      }
    } else {
      var j := LastFull(b, nows, now);
      FullStaysFull(b, First(nows, now));
    }
  }

  lemma FullStaysFull(b: Bucket, now: int)
    requires b.Valid() && b.tokens == b.capacity
    ensures Refilled(b, now).tokens == b.capacity
  {
    if now > b.last {
      FlowGrows(b.rate, now - b.last);
    }
  }

  lemma {:induction false} AfterSplit(b: Bucket, nows: seq<int>, j: nat)
    requires j <= |nows|
    ensures After(b, nows) == After(After(b, nows[..j]), nows[j..])
    ensures Granted(b, nows) == Granted(b, nows[..j]) + Granted(After(b, nows[..j]), nows[j..])
    decreases nows
  {
    hide Take, Grants;
    if j == 0 {
      assert nows[..0] == [] && nows[0..] == nows;
    } else {
      AfterSplit(Take(b, nows[0]), nows[1..], j - 1);
      assert nows[..j][1..] == nows[1..][..j - 1] && nows[j..] == nows[1..][j - 1..];
    }
  }

  // ----- waiting -----

  /** The wait reserve asks for when no token is there: truncated, at least a microsecond. */
  function WaitTime(b: Bucket): int
    requires b.rate > 0.0
  {
    var w := ((1.0 - b.tokens) / b.rate).Floor;
    if w < MICROSECOND then MICROSECOND else w
  }

  datatype Wake = TimerFired | ContextDone | ChannelClosed

  /** One turn of the waiting loop: whether the context is done when it starts, when reserve runs,
      and, should it sleep: the calls of others and whether the limiter is closed meanwhile, and
      what ends the sleep. */
  datatype Turn = Turn(done: bool, now: int, others: seq<int>, closes: bool, wake: Wake)

  datatype Outcome = Got | Cancelled | Closed | StillWaiting

  /** What Wait returns, after how many sleeps, and the bucket it leaves. */
  function Waits(b: Bucket, closed: bool, turns: seq<Turn>): (Outcome, nat, Bucket)
    decreases turns
  {
    if turns == [] then (StillWaiting, 0, b)
    else
      var t, taken := turns[0], Take(b, turns[0].now);
      if t.done then (Cancelled, 0, b)
      else if closed then (Closed, 0, b)
      else if Grants(b, t.now) then (Got, 0, taken)
      else
        var after := After(taken, t.others);
        match t.wake
        case ContextDone => (Cancelled, 1, after)
        case ChannelClosed => (Closed, 1, after)
        case TimerFired =>
          var (o, n, b') := Waits(after, t.closes, turns[1..]);
          (o, n + 1, b')
  }

  /** Whether the limiter is closed when turn n starts. */
  predicate IsClosed(closed: bool, turns: seq<Turn>, n: nat)
    requires n <= |turns|
  {
    if n == 0 then closed else turns[n - 1].closes
  }

  /** The first n turns slept until their timers fired. */
  predicate Slept(closed: bool, turns: seq<Turn>, n: nat) {
    n <= |turns|
    && forall i | 0 <= i < n :: !turns[i].done && turns[i].wake == TimerFired && !IsClosed(closed, turns, i)
  }

  /** What the outcome says: a context that is done comes before a closed limiter, and that before a
      token; while sleeping, the first event counts. */
  lemma {:induction false} OutcomeTells(b: Bucket, closed: bool, turns: seq<Turn>)
    ensures var (o, n, _) := Waits(b, closed, turns);
            match o
            case Got => n < |turns| && Slept(closed, turns, n) && !turns[n].done && !IsClosed(closed, turns, n)
            case Cancelled =>
              (n < |turns| && Slept(closed, turns, n) && turns[n].done)
              || (0 < n <= |turns| && Slept(closed, turns, n - 1) && !turns[n - 1].done
                  && !IsClosed(closed, turns, n - 1) && turns[n - 1].wake == ContextDone)
            case Closed =>
              (n < |turns| && Slept(closed, turns, n) && !turns[n].done && IsClosed(closed, turns, n))
              || (0 < n <= |turns| && Slept(closed, turns, n - 1) && !turns[n - 1].done
                  && !IsClosed(closed, turns, n - 1) && turns[n - 1].wake == ChannelClosed)
            case StillWaiting => n == |turns| && Slept(closed, turns, n)
    decreases turns
  {
    hide Take, Grants, After;
    if turns != [] && !turns[0].done && !closed && !Grants(b, turns[0].now) && turns[0].wake.TimerFired? {
      var t := turns[0];
      OutcomeTells(After(Take(b, t.now), t.others), t.closes, turns[1..]);
      assert forall i | 0 < i < |turns| :: turns[i] == turns[1..][i - 1];
    }
  }

  /** Nobody else uses the limiter, the context is never done, and no timer is early. */
  predicate Uncontended(b: Bucket, turns: seq<Turn>)
    requires b.rate > 0.0
    decreases turns
  {
    turns == []
    || (var t, taken := turns[0], Take(b, turns[0].now);
        !t.done && t.others == [] && !t.closes && t.wake == TimerFired && t.now >= b.last
        && taken.rate > 0.0
        && (|turns| > 1 && !Grants(b, t.now) ==> turns[1].now >= t.now + WaitTime(taken))
        && Uncontended(taken, turns[1..]))
  }

  /** The truncation loses less than what flows in during one nanosecond; when the floor applies
      nothing is missing afterwards. */
  lemma SleepLeaves(b: Bucket, slept: int)
    requires b.Valid() && b.tokens < 1.0 && slept >= WaitTime(b)
    ensures Refilled(b, b.last + slept).tokens > 1.0 - b.rate
    ensures b.tokens > 1.0 - b.rate ==> Refilled(b, b.last + slept).tokens >= 1.0
  {
    var w := WaitTime(b);
    Truncated(1.0 - b.tokens, b.rate, w);
    FlowAdds(b.rate, w, slept - w);
    FlowGrows(b.rate, slept - w);
    FlowGrows(b.rate, w);
  }

  lemma Truncated(missing: real, rate: real, w: int)
    requires rate > 0.0 && w >= (missing / rate).Floor
    ensures Flow(rate, w) > missing - rate
  {
    var gap := missing / rate;
    assert gap * rate == missing;
    Scaled(gap - 1.0, w as real, rate);
  }

  lemma Scaled(x: real, y: real, rate: real)
    requires x < y && rate > 0.0
    ensures x * rate < y * rate && x * rate == (x + 1.0) * rate - rate
  {
  }

  lemma OneTurn(b: Bucket, turns: seq<Turn>)
    requires b.Valid() && turns != [] && Uncontended(b, turns)
    ensures var (o, n, _) := Waits(b, false, turns);
            if Grants(b, turns[0].now) then o == Got && n == 0
            else
              var (o', n', _) := Waits(Take(b, turns[0].now), false, turns[1..]);
              o == o' && n == n' + 1 && n' >= 0
  {
  }

  /** An uncontended Wait that is not cancelled gets its token after at most two sleeps. */
  lemma TwoSleepsSuffice(b: Bucket, turns: seq<Turn>)
    requires b.Valid() && |turns| >= 3 && Uncontended(b, turns)
    ensures var (o, sleeps, _) := Waits(b, false, turns); o == Got && sleeps <= 2
  {
    hide Flow, WaitTime, Waits;
    var n := turns[0].now;
    assert turns[1..][0] == turns[1] && turns[1..][1..][0] == turns[2];
    OneTurn(b, turns);
    if !Grants(b, n) {
      var b1, n1 := Take(b, n), turns[1].now;
      TakeKeeps(b, n);
      RefillFlows(b, n);
      SleepLeaves(b1, n1 - b1.last);
      OneTurn(b1, turns[1..]);
      if !Grants(b1, n1) {
        var b2, n2 := Take(b1, n1), turns[2].now;
        TakeKeeps(b1, n1);
        RefillFlows(b1, n1);
        SleepLeaves(b2, n2 - b2.last);
        assert b2.tokens > 1.0 - b2.rate;
        OneTurn(b2, turns[1..][1..]);
        assert Grants(b2, n2);
      }
    }
  }

  /** What is missing arrives after a whole number of nanoseconds, or within the shortest sleep. */
  predicate NothingCutOff(b: Bucket)
    requires b.rate > 0.0
  {
    var gap := (1.0 - b.tokens) / b.rate;
    gap <= 1000.0 || gap == gap.Floor as real
  }

  lemma SleepSuffices(b: Bucket, slept: int)
    requires b.Valid() && b.tokens < 1.0 && slept >= WaitTime(b) && NothingCutOff(b)
    ensures Grants(b, b.last + slept)
  {
    var gap := (1.0 - b.tokens) / b.rate;
    assert gap * b.rate == 1.0 - b.tokens;
    assert gap <= WaitTime(b) as real;
    ScaledUp(gap, slept as real, b.rate);
    assert Flow(b.rate, slept) >= 1.0 - b.tokens;
  }

  lemma SleepFallsShort(b: Bucket)
    requires b.Valid() && b.tokens < 1.0 && !NothingCutOff(b)
    ensures !Grants(b, b.last + WaitTime(b))
  {
    hide Flow;
    var gap := (1.0 - b.tokens) / b.rate;
    Quotient(1.0 - b.tokens, b.rate);
    assert (WaitTime(b) as real) < gap && WaitTime(b) > 0;
    FlowShort(b.rate, WaitTime(b), gap);
  }

  lemma Quotient(missing: real, rate: real)
    requires rate > 0.0
    ensures (missing / rate) * rate == missing
  {
  }

  lemma FlowShort(rate: real, span: int, gap: real)
    requires rate > 0.0 && (span as real) < gap
    ensures Flow(rate, span) < gap * rate
  {
    Scaled(span as real, gap, rate);
  }

  lemma ScaledUp(x: real, y: real, rate: real)
    requires x <= y && rate > 0.0
    ensures x * rate <= y * rate
  {
  }

  /** Every uncontended Wait that starts now and is not cancelled is done after at most one sleep,
      exactly when a token is there or nothing of the gap is cut off. */
  lemma OneSleepSufficesIff(b: Bucket, now: int)
    requires b.Valid() && now >= b.last
    ensures (forall turns: seq<Turn> | |turns| >= 2 && turns[0].now == now && Uncontended(b, turns) ::
               Waits(b, false, turns).0 == Got && Waits(b, false, turns).1 <= 1)
       <==> Grants(b, now) || (Take(b, now).rate > 0.0 && NothingCutOff(Take(b, now)))
  {
    hide Flow, WaitTime, Waits, Grants, NothingCutOff, Take, Refilled;
    TakeKeeps(b, now);
    RefillFlows(b, now);
    if !Grants(b, now) {
      NoToken(b, now);
    }
    var b1 := Take(b, now);
    if Grants(b, now) || NothingCutOff(b1) {
      forall turns: seq<Turn> | |turns| >= 2 && turns[0].now == now && Uncontended(b, turns)
        ensures Waits(b, false, turns).0 == Got && Waits(b, false, turns).1 <= 1
      {
        OneTurn(b, turns);
        if !Grants(b, now) {
          assert turns[1..][0] == turns[1];
          SleepSuffices(b1, turns[1].now - b1.last);
          OneTurn(b1, turns[1..]);
        }
      }
    } else {
      var turns := [Turn(false, now, [], false, TimerFired), Turn(false, now + WaitTime(b1), [], false, TimerFired)];
      assert turns[1..] == [turns[1]];
      SleepFallsShort(b1);
      assert Uncontended(b, turns) by {
        SleepIsLong(b1);
        TakeKeeps(b1, turns[1].now);
        assert Uncontended(Take(b1, turns[1].now), []);
        assert [turns[1]][1..] == [];
        assert Uncontended(b1, turns[1..]);
      }
      OneTurn(b, turns);
      OneTurn(b1, turns[1..]);
      assert Waits(b, false, turns).1 >= 2;
    }
  }

  lemma NoToken(b: Bucket, now: int)
    requires b.Valid() && now >= b.last && !Grants(b, now)
    ensures Take(b, now).tokens < 1.0 && Take(b, now).last == now
  {
  }

  lemma SleepIsLong(b: Bucket)
    requires b.rate > 0.0
    ensures WaitTime(b) > 0
  {
  }

  /** One sleep may not do: at 3 tokens in 100 microseconds a third of a nanosecond is cut off. */
  lemma OneSleepMayNotDo()
    ensures var b := Bucket(1.0, 0.0, 0.00003, 0);
            b.Valid() && WaitTime(b) == 33333 && !Grants(b, WaitTime(b))
  {
    var b := Bucket(1.0, 0.0, 0.00003, 0);
    var gap := (1.0 - b.tokens) / b.rate;
    assert 33333.0 <= gap < 33334.0;
    assert gap.Floor == 33333;
  }

  // ----- the program -----

  class Limiter {
    var capacity: real
    var tokens: real
    var ratePerN: real
    var last: int
    var closed: bool

    ghost predicate Valid()
      reads this
    {
      State().Valid()
    }

    ghost function State(): Bucket
      reads this
    {
      Bucket(capacity, tokens, ratePerN, last)
    }

    /** The bucket starts full. */
    constructor (rate: nat, per: nat, burst: int, now: int)
      requires rate > 0 && per > 0
      ensures Valid() && !closed && State() == NewBucket(rate, per, burst, now)
    {
      var size := if burst <= 0 then 1 else burst;
      capacity, tokens := size as real, size as real;
      ratePerN := rate as real / per as real;
      last := now;
      closed := false;
      new;
      RatePositive(rate, per);
    }

    method Refill(now: int)
      requires Valid()
      modifies `tokens, `last
      ensures State() == Refilled(old(State()), now) && Valid()
    {
      RefillFlows(State(), now);
      var elapsed := now - last;
      if elapsed > 0 {
        tokens := tokens + elapsed as real * ratePerN;
        if tokens > capacity {
          tokens := capacity;
        }
        last := now;
      }
    }

    method Allow(now: int) returns (ok: bool)
      requires Valid()
      modifies `tokens, `last
      ensures Valid() && ok == (!closed && Grants(old(State()), now))
      ensures State() == if closed then old(State()) else Take(old(State()), now)
    {
      if closed {
        return false;
      }
      Refill(now);
      ok := tokens >= 1.0;
      if ok {
        tokens := tokens - 1.0;
      }
    }

    /** None when closed; otherwise a token or the time to wait. */
    method Reserve(now: int) returns (r: Option<Option<int>>)
      requires Valid()
      modifies `tokens, `last
      ensures Valid() && (r.None? <==> closed)
      ensures State() == if closed then old(State()) else Take(old(State()), now)
      ensures r.Some? ==> r.value == if Grants(old(State()), now) then None else Some(WaitTime(State()))
    {
      if closed {
        return None;
      }
      Refill(now);
      if tokens >= 1.0 {
        tokens := tokens - 1.0;
        return Some(None);
      }
      var missing := 1.0 - tokens;
      var wait := (missing / ratePerN).Floor;
      if wait < MICROSECOND {
        wait := MICROSECOND;
      }
      r := Some(Some(wait));
    }

    /** What others do to the limiter during a sleep. */
    method Meanwhile(others: seq<int>, closes: bool)
      requires Valid() && !closed
      modifies `tokens, `last, `closed
      ensures Valid() && State() == After(old(State()), others) && closed == closes
    {
      for i := 0 to |others|
        invariant Valid() && !closed
        invariant After(State(), others[i..]) == After(old(State()), others)
      {
        assert others[i..][0] == others[i] && others[i..][1..] == others[i + 1..];
        var _ := Allow(others[i]);
      }
      if closes {
        Close();
      }
    }

    method Wait(turns: seq<Turn>) returns (o: Outcome, sleeps: nat)
      requires Valid()
      modifies `tokens, `last, `closed
      ensures Valid() && (o, sleeps, State()) == Waits(old(State()), old(closed), turns)
    {
      sleeps := 0;
      for i := 0 to |turns|
        invariant Valid()
        invariant var (o', n', b') := Waits(State(), closed, turns[i..]);
                  (o', n' + sleeps, b') == Waits(old(State()), old(closed), turns)
      {
        assert turns[i..][0] == turns[i] && turns[i..][1..] == turns[i + 1..];
        var t := turns[i];
        if t.done {
          return Cancelled, sleeps;
        }
        var r := Reserve(t.now);
        if r.None? {
          return Closed, sleeps;
        }
        if r.value.None? {
          return Got, sleeps;
        }
        sleeps := sleeps + 1;
        Meanwhile(t.others, t.closes);
        match t.wake {
          case ContextDone => return Cancelled, sleeps;
          case ChannelClosed => return Closed, sleeps;
          case TimerFired =>
        }
      }
      o := StillWaiting;
    }

    method Close()
      modifies `closed
      ensures closed
    {
      if closed {
        return;
      }
      closed := true;
    }
  }

  function NewBucket(rate: nat, per: nat, burst: int, now: int): (b: Bucket)
    requires rate > 0 && per > 0
    ensures b.Valid() && b.tokens == b.capacity
  {
    var size := if burst <= 0 then 1 else burst;
    RatePositive(rate, per);
    Bucket(size as real, size as real, rate as real / per as real, now)
  }

  function Same(now: int, n: nat): seq<int> {
    if n == 0 then [] else [now] + Same(now, n - 1)
  }

  lemma {:induction false} TokensRunOut(b: Bucket, now: int, left: nat, n: nat)
    requires b.tokens == left as real && now <= b.last
    ensures Granted(b, Same(now, n)) == if n <= left then n else left
    decreases n
  {
    if n > 0 {
      assert Same(now, n)[1..] == Same(now, n - 1);
      TokensRunOut(Take(b, now), now, if left > 0 then left - 1 else 0, n - 1);
    }
  }

  /** A new limiter grants the burst at once, at least one, and no more; then rate tokens arrive in per
      nanoseconds. */
  lemma NewBucketGrants(rate: nat, per: nat, burst: int, now: int, n: nat)
    requires rate > 0 && per > 0
    ensures var b, most := NewBucket(rate, per, burst, now), if burst > 1 then burst else 1;
            Granted(b, Same(now, n)) == (if n <= most then n else most)
            && b.capacity == most as real && Flow(b.rate, per) == rate as real && b.last == now
  {
    var b := NewBucket(rate, per, burst, now);
    TokensRunOut(b, now, if burst > 1 then burst else 1, n);
    var r, p := rate as real, per as real;
    assert r / p * p == r;
  }

  lemma RatePositive(rate: nat, per: nat)
    requires rate > 0 && per > 0
    ensures rate as real / per as real > 0.0
  {
  }

  /** NewLimiter turns down a rate or an interval that is not positive. */
  method NewLimiter(rate: int, per: int, burst: int, now: int) returns (r: Option<Limiter>)
    ensures r.Some? <==> rate > 0 && per > 0
    ensures r.Some? ==> fresh(r.value) && r.value.Valid() && !r.value.closed
                        && r.value.State() == NewBucket(rate, per, burst, now)
  {
    if rate <= 0 || per <= 0 {
      return None;
    }
    var l := new Limiter(rate, per, burst, now);
    r := Some(l);
  }
}
