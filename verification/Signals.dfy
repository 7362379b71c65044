/** The signal as the program keeps it: slices that share backing arrays, appended to in place when
    there is room: pkg/signals/signals.go. */
module Signals {
  import opened Wrappers
  import opened SignalsSpec

  /** A slice: its backing array, whose length is the capacity, and its length. */
  datatype Slice<F> = Slice(cells: array<Sub<F>>, len: nat) {
    predicate Fits() {
      len <= cells.Length
    }

    function Contents(): seq<Sub<F>>
      requires Fits()
      reads cells
    {
      cells[..len]
    }
  }

  /** append: in place when the capacity allows it, else in a larger copy. */
  method Append<F(0)>(s: Slice<F>, x: Sub<F>, spare: nat) returns (r: Slice<F>)
    requires s.Fits()
    modifies s.cells
    ensures r.Fits() && r.Contents() == old(s.Contents()) + [x]
    ensures s.Contents() == old(s.Contents())
    ensures if s.len < s.cells.Length then r.cells == s.cells else fresh(r.cells)
    ensures r.len == s.len + 1
  {
    if s.len < s.cells.Length {
      s.cells[s.len] := x;
      r := Slice(s.cells, s.len + 1);
    } else {
      var cells := new Sub<F>[s.len + 1 + spare];
      forall i | 0 <= i < s.len {
        cells[i] := s.cells[i];
      }
      cells[s.len] := x;
      r := Slice(cells, s.len + 1);
    }
  }

  /** A new slice without the given cell. */
  method Cut<F(0)>(s: Slice<F>, i: nat) returns (r: Slice<F>)
    requires s.Fits() && i < s.len
    ensures r.Fits() && fresh(r.cells) && r.Contents() == s.Contents()[..i] + s.Contents()[i + 1..]
  {
    var cells := new Sub<F>[s.len - 1];
    forall k | 0 <= k < i {
      cells[k] := s.cells[k];
    }
    forall k | i <= k < s.len - 1 {
      cells[k] := s.cells[k + 1];
    }
    r := Slice(cells, s.len - 1);
  }

  class Signal<F(0)> {
    var subs: Slice<F>
    var next: nat
    var onPanic: nat

    ghost predicate Valid()
      reads this, subs.cells
    {
      subs.Fits() && Ordered(State())
    }

    ghost function State(): State<F>
      requires subs.Fits()
      reads this, subs.cells
    {
      SignalsSpec.State(subs.Contents(), next, onPanic)
    }

    /** A snapshot taken earlier: if it still shares the backing array, appends come after it. */
    ghost predicate Shares(s: Slice<F>)
      reads this
    {
      s.Fits() && (s.cells == subs.cells ==> s.len <= subs.len)
    }

    constructor ()
      ensures Valid() && State() == Start<F>() && fresh(subs.cells)
    {
      var none := new Sub<F>[0];
      subs, next, onPanic := Slice(none, 0), 0, 0;
    }

    /** What every call below leaves alone: the cells of the slice it found. */
    twostate predicate OnlyAppends(was: Slice<F>)
      reads this, was.cells
    {
      && was.Fits() && subs.Fits()
      && was.Contents() == old(was.Contents())
      && (if subs.cells == was.cells then subs.len >= was.len else fresh(subs.cells))
    }

    method Subscribe(fn: Option<F>, spare: nat) returns (u: Option<Subscription<F>>)
      requires Valid()
      modifies this, subs.cells
      ensures Valid() && OnlyAppends(old(subs)) && State() == Step(old(State()), Op.Subscribe(fn, spare))
      ensures u.Some? <==> fn.Some?
      ensures u.Some? ==> fresh(u.value) && u.value.signal == this && u.value.id == next && !u.value.done
    {
      StepKeepsOrdered(State(), Op.Subscribe(fn, spare));
      if fn.None? {
        return None;
      }
      next := next + 1;
      var id := next;
      subs := Append(subs, Sub(id, fn.value), spare);
      var s := new Subscription(this, id);
      u := Some(s);
    }

    /** remove: the remaining subscribers go to a new slice. */
    method Remove(id: nat)
      requires Valid()
      modifies this
      ensures Valid() && OnlyAppends(old(subs)) && State() == Step(old(State()), Op.Remove(id))
    {
      StepKeepsOrdered(State(), Op.Remove(id));
      for i := 0 to subs.len
        invariant subs == old(subs) && State() == old(State())
        invariant forall k | 0 <= k < i :: subs.cells[k].id != id
      {
        if subs.cells[i].id == id {
          WithoutFirst(subs.Contents(), id, i);
          subs := Cut(subs, i);
          return;
        }
      }
      WithoutFirst(subs.Contents(), id, subs.len);
      assert subs.Contents()[subs.len..] == [];
      assert subs.Contents()[..subs.len] + [] == subs.Contents();
    }

    method Clear()
      requires Valid()
      modifies this
      ensures Valid() && OnlyAppends(old(subs)) && State() == Step(old(State()), Op.Clear)
    {
      var none := new Sub<F>[0];
      subs := Slice(none, 0);
    }

    method SetOnPanic(handler: nat)
      requires Valid()
      modifies `onPanic
      ensures Valid() && OnlyAppends(old(subs)) && State() == Step(old(State()), Op.OnPanic(handler))
    {
      onPanic := handler;
    }

    method Do(op: Op<F>)
      requires Valid()
      modifies this, subs.cells
      ensures Valid() && OnlyAppends(old(subs)) && State() == Step(old(State()), op)
    {
      match op {
        case Subscribe(fn, spare) => var _ := Subscribe(fn, spare);
        case Remove(id) => Remove(id);
        case Clear => Clear();
        case OnPanic(handler) => SetOnPanic(handler);
      }
    }

    /** Any calls, by anyone: no cell of any live snapshot changes. */
    method DoAll(ops: seq<Op<F>>, ghost live: set<Slice<F>>)
      requires Valid() && forall s | s in live :: Shares(s)
      modifies this, subs.cells
      ensures Valid() && State() == Run(old(State()), ops)
      ensures forall s | s in live :: Shares(s) && s.Contents() == old(s.Contents())
      ensures subs.cells == old(subs.cells) || fresh(subs.cells)
    {
      for i := 0 to |ops|
        invariant Valid() && State() == Run(old(State()), ops[..i])
        invariant forall s | s in live :: Shares(s) && s.Contents() == old(s.Contents())
        invariant subs.cells == old(subs.cells) || fresh(subs.cells)
      {
        assert ops[..i + 1][..i] == ops[..i];
        Do(ops[i]);
      }
      assert ops[..|ops|] == ops;
    }

    /** Emit walks over its snapshot cell by cell; before each cell is read anything may have been
        called on the signal, by other goroutines or by the callback before. panics holds the ids
        whose callback panics. */
    method Emit(meanwhile: seq<seq<Op<F>>>, panics: set<nat>)
      returns (called: seq<Sub<F>>, reports: seq<(nat, nat)>)
      requires Valid()
      modifies this, subs.cells
      ensures Valid()
      ensures called == old(State()).subs
      ensures reports == Reports(old(State()).subs, panics, old(State()).handler)
      ensures State() == Run(old(State()), Made(meanwhile, |old(State()).subs|))
      ensures meanwhile == [] ==> State() == old(State()) && subs == old(subs)
    {
      hide Reports, Run;
      var snapshot, handler := subs, onPanic;
      ghost var all := snapshot.Contents();
      called, reports := [], [];
      NoReports(all, panics, handler);
      NothingRun(State());
      for i := 0 to snapshot.len
        invariant Valid() && Shares(snapshot) && snapshot.Contents() == all
        invariant subs.cells == old(subs.cells) || fresh(subs.cells)
        invariant State() == Run(old(State()), Made(meanwhile, i))
        invariant meanwhile == [] ==> State() == old(State()) && subs == old(subs)
        invariant called == all[..i] && reports == Reports(all[..i], panics, handler)
      {
        if i < |meanwhile| {
          RunAdds(old(State()), Made(meanwhile, i), meanwhile[i]);
          DoAll(meanwhile[i], {snapshot});
        } else {
          assert Made(meanwhile, i) + [] == Made(meanwhile, i);
        }
        var sub := snapshot.cells[i];
        assert sub == all[i];
        ReportsMore(all, i, panics, handler);
        called := called + [sub];
        if sub.id in panics {
          reports := reports + [(handler, sub.id)];
        }
      }
      assert all[..snapshot.len] == all;
    }
  }

  /** What Subscribe returns; it removes its subscriber once. */
  class Subscription<F(0)> {
    const signal: Signal<F>
    const id: nat
    var done: bool

    constructor (signal: Signal<F>, id: nat)
      ensures this.signal == signal && this.id == id && !done
    {
      this.signal, this.id, done := signal, id, false;
    }

    method Unsubscribe()
      requires signal.Valid()
      modifies `done, signal
      ensures done && signal.Valid()
      ensures signal.State() == if old(done) then old(signal.State()) else Step(old(signal.State()), Op.Remove(id))
    {
      if !done {
        done := true;
        signal.Remove(id);
      }
    }
  }
}
