/** Subscribers of a signal as a list: pkg/signals/signals.go. Signals.dfy shows that the slices of the
    program hold these lists. */
module SignalsSpec {
  import opened Wrappers

  datatype Sub<F> = Sub(id: nat, fn: F)

  /** A call on the signal; spare is the room the runtime adds when an append has to reallocate. */
  datatype Op<F> =
    | Subscribe(fn: Option<F>, spare: nat)
    | Remove(id: nat)
    | Clear
    | OnPanic(handler: nat)

  datatype State<F> = State(subs: seq<Sub<F>>, next: nat, handler: nat)

  function Without<F>(subs: seq<Sub<F>>, id: nat): seq<Sub<F>> {
    if subs == [] then []
    else if subs[0].id == id then subs[1..]
    else [subs[0]] + Without(subs[1..], id)
  }

  function Step<F>(s: State<F>, op: Op<F>): State<F> {
    match op
    case Subscribe(None, _) => s
    case Subscribe(Some(fn), _) => s.(subs := s.subs + [Sub(s.next + 1, fn)], next := s.next + 1)
    case Remove(id) => s.(subs := Without(s.subs, id))
    case Clear => s.(subs := [])
    case OnPanic(handler) => s.(handler := handler)
  }

  function Start<F>(): State<F> {
    State([], 0, 0)
  }

  function Run<F>(s: State<F>, ops: seq<Op<F>>): State<F> {
    if ops == [] then s else Step(Run(s, ops[..|ops| - 1]), ops[|ops| - 1])
  }

  predicate Ascending<F>(subs: seq<Sub<F>>) {
    forall i, j | 0 <= i < j < |subs| :: subs[i].id < subs[j].id
  }

  /** Ids ascend in the order of registration and none is given out twice. */
  predicate Ordered<F>(s: State<F>) {
    Ascending(s.subs) && forall i | 0 <= i < |s.subs| :: 1 <= s.subs[i].id <= s.next
  }

  lemma AscendingTail<F>(subs: seq<Sub<F>>, s: Sub<F>)
    requires Ascending(subs) && subs != []
    ensures Ascending(subs[1..])
    ensures s in subs <==> s == subs[0] || s in subs[1..]
    ensures s in subs[1..] ==> s.id > subs[0].id
  {
    assert forall i | 0 <= i < |subs[1..]| :: subs[1..][i] == subs[i + 1];
  }

  lemma {:induction false} WithoutRemoves<F>(subs: seq<Sub<F>>, id: nat, s: Sub<F>)
    requires Ascending(subs)
    ensures s in Without(subs, id) <==> s in subs && s.id != id
    decreases subs
  {
    if subs != [] {
      AscendingTail(subs, s);
      WithoutRemoves(subs[1..], id, s);
    }
  }

  lemma {:induction false} WithoutAscends<F>(subs: seq<Sub<F>>, id: nat)
    requires Ascending(subs)
    ensures Ascending(Without(subs, id))
    decreases subs
  {
    if subs != [] {
      var rest, w := subs[1..], Without(subs[1..], id);
      AscendingTail(subs, subs[0]);
      WithoutAscends(rest, id);
      forall k | 0 <= k < |w|
        ensures w[k].id > subs[0].id
      {
        assert w[k] in w;
        WithoutRemoves(rest, id, w[k]);
        AscendingTail(subs, w[k]);
      }
    }
  }

  lemma Reassociate<T>(a: seq<T>, b: seq<T>, c: seq<T>)
    ensures a + (b + c) == a + b + c
  {
  }

  lemma {:induction false} WithoutFirst<F>(subs: seq<Sub<F>>, id: nat, i: nat)
    requires i <= |subs| && forall k | 0 <= k < i :: subs[k].id != id
    ensures Without(subs, id) == if i < |subs| && subs[i].id == id then subs[..i] + subs[i + 1..]
                                 else subs[..i] + Without(subs[i..], id)
    decreases i
  {
    if i > 0 {
      var rest := subs[1..];
      WithoutFirst(rest, id, i - 1);
      assert [subs[0]] + rest[..i - 1] == subs[..i];
      var w := if i < |subs| && subs[i].id == id then subs[i + 1..] else Without(subs[i..], id);
      if i < |subs| {
        assert rest[i - 1] == subs[i] && rest[i - 1..] == subs[i..] && rest[i..] == subs[i + 1..];
      } else {
        assert rest[i - 1..] == subs[i..];
      }
      Reassociate([subs[0]], rest[..i - 1], w);
    } else {
      assert subs[0..] == subs && subs[..0] == [];
      assert subs[..0] + Without(subs, id) == Without(subs, id);
      assert subs != [] ==> subs[..0] + subs[1..] == subs[1..];
    }
  }

  lemma StepKeepsOrdered<F>(s: State<F>, op: Op<F>)
    requires Ordered(s)
    ensures Ordered(Step(s, op)) && Step(s, op).next >= s.next
  {
    if op.Remove? {
      WithoutAscends(s.subs, op.id);
      var w := Without(s.subs, op.id);
      forall i | 0 <= i < |w|
        ensures 1 <= w[i].id <= s.next
      {
        assert w[i] in w;
        WithoutRemoves(s.subs, op.id, w[i]);
      }
    }
  }

  lemma {:induction false} RunKeepsOrdered<F>(s: State<F>, ops: seq<Op<F>>)
    requires Ordered(s)
    ensures Ordered(Run(s, ops)) && Run(s, ops).next >= s.next
  {
    if ops != [] {
      RunKeepsOrdered(s, ops[..|ops| - 1]);
      StepKeepsOrdered(Run(s, ops[..|ops| - 1]), ops[|ops| - 1]);
    }
  }

  // ----- who is subscribed, from the calls alone -----

  function Subscriptions<F>(ops: seq<Op<F>>): nat {
    if ops == [] then 0
    else
      var op := ops[|ops| - 1];
      Subscriptions(ops[..|ops| - 1]) + if op.Subscribe? && op.fn.Some? then 1 else 0
  }

  predicate Undoes<F>(op: Op<F>, id: nat) {
    op.Clear? || (op.Remove? && op.id == id)
  }

  /** Call p registered this subscriber, and nothing after it took it away. */
  ghost predicate RegisteredAt<F>(ops: seq<Op<F>>, s: Sub<F>, p: nat)
    requires p < |ops|
  {
    ops[p].Subscribe? && ops[p].fn == Some(s.fn) && s.id == Subscriptions(ops[..p]) + 1
    && forall q | p < q < |ops| :: !Undoes(ops[q], s.id)
  }

  ghost predicate Registered<F>(ops: seq<Op<F>>, s: Sub<F>) {
    exists p | 0 <= p < |ops| :: RegisteredAt(ops, s, p)
  }

  lemma {:induction false} IdsCount<F>(ops: seq<Op<F>>)
    ensures Run(Start(), ops).next == Subscriptions(ops)
  {
    if ops != [] {
      IdsCount(ops[..|ops| - 1]);
    }
  }

  lemma RegisteredStep<F>(ops: seq<Op<F>>, op: Op<F>, s: Sub<F>)
    ensures Registered(ops + [op], s) <==>
            (Registered(ops, s) && !Undoes(op, s.id))
            || (op.Subscribe? && op.fn == Some(s.fn) && s.id == Subscriptions(ops) + 1)
  {
    var all, n := ops + [op], |ops|;
    assert forall p | 0 <= p <= n :: all[..p] == ops[..p];
    assert ops[..n] == ops;
    if Registered(ops, s) && !Undoes(op, s.id) {
      var p :| 0 <= p < n && RegisteredAt(ops, s, p);
      assert RegisteredAt(all, s, p);
    }
    if op.Subscribe? && op.fn == Some(s.fn) && s.id == Subscriptions(ops) + 1 {
      assert RegisteredAt(all, s, n);
    }
    if Registered(all, s) {
      var p :| 0 <= p <= n && RegisteredAt(all, s, p);
      if p < n {
        assert all[n] == op;
        assert forall q | p < q < n :: all[q] == ops[q];
        assert RegisteredAt(ops, s, p);
      }
    }
  }

  /** After any calls the list holds exactly those registered and not taken away since, in the order
      of their ids. */
  lemma {:induction false} ListsTheRegistered<F(!new)>(ops: seq<Op<F>>)
    ensures var r := Run(Start<F>(), ops);
            Ordered(r) && forall s :: s in r.subs <==> Registered(ops, s)
  {
    hide Registered;
    RunKeepsOrdered(Start<F>(), ops);
    if ops == [] {
      NoneRegistered<F>();
    } else {
      var before, op := ops[..|ops| - 1], ops[|ops| - 1];
      assert ops == before + [op];
      ListsTheRegistered(before);
      var b := Run(Start<F>(), before);
      IdsCount(before);
      forall s: Sub<F>
        ensures s in Run(Start<F>(), ops).subs <==> Registered(ops, s)
      {
        RegisteredStep(before, op, s);
        if op.Remove? {
          WithoutRemoves(b.subs, op.id, s);
        }
      }
    }
  }

  lemma NoneRegistered<F(!new)>()
    ensures forall s: Sub<F> :: !Registered([], s)
  {
  }

  // ----- emitting -----

  /** The panics that are reported, to the handler that was set when the emit started. */
  function Reports<F>(subs: seq<Sub<F>>, panics: set<nat>, handler: nat): seq<(nat, nat)> {
    if subs == [] then []
    else
      var last := subs[|subs| - 1];
      Reports(subs[..|subs| - 1], panics, handler) + if last.id in panics then [(handler, last.id)] else []
  }

  lemma ReportsMore<F>(subs: seq<Sub<F>>, i: nat, panics: set<nat>, handler: nat)
    requires i < |subs|
    ensures Reports(subs[..i + 1], panics, handler)
         == Reports(subs[..i], panics, handler) + if subs[i].id in panics then [(handler, subs[i].id)] else []
  {
    assert subs[..i + 1][..i] == subs[..i];
  }

  lemma NoReports<F>(subs: seq<Sub<F>>, panics: set<nat>, handler: nat)
    ensures Reports(subs[..0], panics, handler) == []
  {
  }

  lemma {:induction false} ReportedTo<F>(subs: seq<Sub<F>>, panics: set<nat>, handler: nat)
    ensures forall i | 0 <= i < |Reports(subs, panics, handler)| :: Reports(subs, panics, handler)[i].0 == handler
  {
    if subs != [] {
      ReportedTo(subs[..|subs| - 1], panics, handler);
    }
  }

  predicate HasId<F>(subs: seq<Sub<F>>, id: nat) {
    exists i | 0 <= i < |subs| :: subs[i].id == id
  }

  lemma HasIdStep<F>(subs: seq<Sub<F>>, id: nat)
    requires subs != []
    ensures HasId(subs, id) <==> HasId(subs[..|subs| - 1], id) || subs[|subs| - 1].id == id
  {
    if i :| 0 <= i < |subs| - 1 && subs[i].id == id {
      assert subs[..|subs| - 1][i].id == id;
    }
  }

  lemma {:induction false} ReportedIff<F>(subs: seq<Sub<F>>, panics: set<nat>, handler: nat, id: nat)
    ensures (handler, id) in Reports(subs, panics, handler) <==>
            id in panics && HasId(subs, id)
  {
    if subs != [] {
      var m := |subs| - 1;
      ReportedIff(subs[..m], panics, handler, id);
      HasIdStep(subs, id);
    }
  }

  lemma {:induction false} ReportedInOrder<F>(subs: seq<Sub<F>>, panics: set<nat>, handler: nat)
    requires Ascending(subs)
    ensures var r := Reports(subs, panics, handler); forall i, j | 0 <= i < j < |r| :: r[i].1 < r[j].1
  {
    if subs != [] {
      var m := |subs| - 1;
      var before := subs[..m];
      ReportedInOrder(before, panics, handler);
      ReportedTo(before, panics, handler);
      var r := Reports(before, panics, handler);
      forall i | 0 <= i < |r|
        ensures r[i].1 < subs[m].id
      {
        assert (handler, r[i].1) in r by { assert r[i].0 == handler; }
        ReportedIff(before, panics, handler, r[i].1);
      }
    }
  }

  /** What is reported: the subscribers that panic, each once, in the order of their ids, to the handler. */
  lemma ReportsAre<F>(subs: seq<Sub<F>>, panics: set<nat>, handler: nat)
    requires Ascending(subs)
    ensures var r := Reports(subs, panics, handler);
            && (forall i | 0 <= i < |r| :: r[i].0 == handler)
            && (forall i, j | 0 <= i < j < |r| :: r[i].1 < r[j].1)
            && (forall id :: (handler, id) in r <==> id in panics && HasId(subs, id))
  {
    hide Reports;
    ReportedTo(subs, panics, handler);
    ReportedInOrder(subs, panics, handler);
    forall id: nat
      ensures (handler, id) in Reports(subs, panics, handler) <==>
              id in panics && HasId(subs, id)
    {
      ReportedIff(subs, panics, handler, id);
    }
  }

  /** The calls made before the first n cells were read. */
  function Made<F>(meanwhile: seq<seq<Op<F>>>, n: nat): seq<Op<F>> {
    if n == 0 then [] else Made(meanwhile, n - 1) + if n <= |meanwhile| then meanwhile[n - 1] else []
  }

  lemma {:induction false} RunAdds<F>(s: State<F>, a: seq<Op<F>>, b: seq<Op<F>>)
    ensures Run(Run(s, a), b) == Run(s, a + b)
    decreases |b|
  {
    if b == [] {
      assert a + b == a;
    } else {
      var m := |b| - 1;
      RunAdds(s, a, b[..m]);
      assert (a + b)[..|a + b| - 1] == a + b[..m];
    }
  }

  lemma NothingRun<F>(s: State<F>)
    ensures Run(s, []) == s
  {
  }

  /** The panic handler is the one set last. */
  lemma {:induction false} HandlerIsLast<F>(s: State<F>, ops: seq<Op<F>>, p: nat)
    requires p < |ops| && ops[p].OnPanic? && forall q | p < q < |ops| :: !ops[q].OnPanic?
    ensures Run(s, ops).handler == ops[p].handler
    decreases |ops|
  {
    var m := |ops| - 1;
    if p < m {
      HandlerIsLast(s, ops[..m], p);
    }
  }
}
