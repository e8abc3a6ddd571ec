/** Mapping over items with at most `limit` calls in flight: a pool of workers sharing one counter. */
module MapLimit {
  import opened Wrappers

  /** A worker about to take the next index, waiting for a call, past the end, or ended by a rejection. */
  datatype Worker = Idle | Calling(index: nat) | Finished | Died(index: nat)

  predicate Active(w: Worker) {
    w.Idle? || w.Calling?
  }

  ghost predicate Handles(w: Worker, i: nat) {
    w == Calling(i) || w == Died(i)
  }

  function Min(a: int, b: int): int {
    if a < b then a else b
  }

  /** Workers handle distinct indices that were taken and whose slots are empty; a dead worker's call was
      rejected, and a worker only finishes once the indices have run out. */
  ghost predicate WorkersOk<T, R>(items: seq<T>, fn: T -> Option<R>, next: nat, workers: seq<Worker>, out: seq<Option<R>>) {
    && |out| == |items|
    && (forall w, i: nat {:trigger Handles(workers[w], i)} :: 0 <= w < |workers| && Handles(workers[w], i) ==>
          i < |items| && i < next && out[i].None?)
    && (forall w, v, i: nat {:trigger Handles(workers[w], i), Handles(workers[v], i)} ::
          0 <= w < |workers| && 0 <= v < |workers| && Handles(workers[w], i) && Handles(workers[v], i) ==> w == v)
    && (forall w :: 0 <= w < |workers| && workers[w].Died? ==> RejectedAt(items, fn, workers[w].index))
    && (forall w :: 0 <= w < |workers| && workers[w].Finished? ==> next > |items|)
  }

  ghost predicate RejectedAt<T, R>(items: seq<T>, fn: T -> Option<R>, i: nat) {
    i < |items| && fn(items[i]).None?
  }

  ghost predicate Handled(workers: seq<Worker>, i: nat) {
    exists w {:trigger Handles(workers[w], i)} :: 0 <= w < |workers| && Handles(workers[w], i)
  }

  /** A slot taken holds its result or is being handled; one not taken is empty. */
  ghost predicate SlotOk<T, R>(items: seq<T>, fn: T -> Option<R>, next: nat, workers: seq<Worker>, slot: Option<R>, i: nat)
    requires i < |items|
  {
    if i < next then (slot.Some? && slot == fn(items[i])) || Handled(workers, i) else slot.None?
  }

  ghost predicate SlotsOk<T, R>(items: seq<T>, fn: T -> Option<R>, next: nat, workers: seq<Worker>, out: seq<Option<R>>) {
    && |out| == |items|
    && forall i: nat {:trigger SlotOk(items, fn, next, workers, out[i], i)} :: i < |items| ==>
         SlotOk(items, fn, next, workers, out[i], i)
  }

  /** The calls made so far, in the order made: one for each index taken. */
  ghost predicate CallsOk(n: nat, next: nat, calls: seq<nat>) {
    |calls| == Min(next, n) && forall j :: 0 <= j < |calls| ==> calls[j] == j
  }

  ghost predicate AnyDied(workers: seq<Worker>) {
    exists w :: 0 <= w < |workers| && workers[w].Died?
  }

  lemma DiedUpdate(workers: seq<Worker>, w: nat, to: Worker)
    requires w < |workers| && Active(workers[w])
    ensures AnyDied(workers[w := to]) <==> AnyDied(workers) || to.Died?
  {
    var workers' := workers[w := to];
    assert workers'[w] == to;
    if AnyDied(workers) {
      var v :| 0 <= v < |workers| && workers[v].Died?;
      assert workers'[v].Died?;
    }
  }

  function InFlight(workers: seq<Worker>): (k: nat)
    ensures k <= |workers|
  {
    if workers == [] then 0 else (if workers[0].Calling? then 1 else 0) + InFlight(workers[1..])
  }

  lemma {:induction false} InFlightLast(workers: seq<Worker>)
    requires workers != []
    ensures InFlight(workers) == InFlight(workers[..|workers| - 1]) + if workers[|workers| - 1].Calling? then 1 else 0
  {
    if |workers| > 1 {
      InFlightLast(workers[1..]);
      assert workers[1..][..|workers| - 2] == workers[..|workers| - 1][1..];
    }
  }

  ghost function Callers(workers: seq<Worker>): set<int> {
    set w | 0 <= w < |workers| && workers[w].Calling?
  }

  lemma CallersLast(workers: seq<Worker>, n: nat)
    requires |workers| == n + 1
    ensures |Callers(workers)| == |Callers(workers[..n])| + if workers[n].Calling? then 1 else 0
  {
    assert Callers(workers) == Callers(workers[..n]) + if workers[n].Calling? then {n} else {};
  }

  /** The workers in the middle of a call, counted. */
  lemma {:induction false} InFlightExactly(workers: seq<Worker>)
    ensures InFlight(workers) == |Callers(workers)|
    decreases |workers|
  {
    if workers == [] {
      assert Callers(workers) == {};
    } else {
      InFlightExactly(workers[..|workers| - 1]);
      InFlightLast(workers);
      CallersLast(workers, |workers| - 1);
    }
  }

  function Weight(workers: seq<Worker>): nat {
    if workers == [] then 0
    else (match workers[0] case Idle => 1 case Calling(_) => 2 case _ => 0) + Weight(workers[1..])
  }

  lemma {:induction false} WeightUpdate(workers: seq<Worker>, w: nat, to: Worker)
    requires w < |workers|
    ensures Weight(workers[w := to]) == Weight(workers) - Weight([workers[w]]) + Weight([to])
  {
    assert [workers[w]][1..] == [] && [to][1..] == [];
    if w == 0 {
      assert workers[w := to][1..] == workers[1..];
    } else {
      assert workers[w := to][1..] == workers[1..][w - 1 := to];
      WeightUpdate(workers[1..], w - 1, to);
    }
  }

  /** Worker w takes index `next`. */
  lemma Take<T, R>(items: seq<T>, fn: T -> Option<R>, next: nat, workers: seq<Worker>, out: seq<Option<R>>, w: nat)
    requires WorkersOk(items, fn, next, workers, out) && SlotsOk(items, fn, next, workers, out)
    requires w < |workers| && workers[w].Idle?
    ensures var workers' := workers[w := if next < |items| then Calling(next) else Finished];
            && WorkersOk(items, fn, next + 1, workers', out) && SlotsOk(items, fn, next + 1, workers', out)
            && (AnyDied(workers') <==> AnyDied(workers))
            && Weight(workers') <= Weight(workers) + if next < |items| then 1 else -1
  {
    var to := if next < |items| then Calling(next) else Finished;
    var workers' := workers[w := to];
    WeightUpdate(workers, w, to);
    DiedUpdate(workers, w, to);
    forall i: nat | i < |items| ensures SlotOk(items, fn, next + 1, workers', out[i], i) {
      assert SlotOk(items, fn, next, workers, out[i], i);
      if i < next && Handled(workers, i) {
        var v :| 0 <= v < |workers| && Handles(workers[v], i);
        assert Handles(workers'[v], i);
      } else if i == next {
        assert Handles(workers'[w], i);
      }
    }
    assert next < |items| ==> SlotOk(items, fn, next, workers, out[next], next);
    forall v, i: nat | 0 <= v < |workers'| && Handles(workers'[v], i)
      ensures i < |items| && i < next + 1 && out[i].None? && (v == w <==> i == next)
    {
      if v != w {
        assert Handles(workers[v], i);
      }
    }
    forall v, u, i: nat | 0 <= v < |workers'| && 0 <= u < |workers'| && Handles(workers'[v], i) && Handles(workers'[u], i)
      ensures v == u
    {
      if v != w && u != w {
        assert Handles(workers[v], i) && Handles(workers[u], i);
      }
    }
  }

  /** Worker w's call settles. */
  lemma Settle<T, R>(items: seq<T>, fn: T -> Option<R>, next: nat, workers: seq<Worker>, out: seq<Option<R>>, w: nat)
    requires WorkersOk(items, fn, next, workers, out) && SlotsOk(items, fn, next, workers, out)
    requires w < |workers| && workers[w].Calling?
    ensures workers[w].index < |items|
    ensures var i := workers[w].index;
            var workers' := workers[w := if fn(items[i]).Some? then Idle else Died(i)];
            var out' := if fn(items[i]).Some? then out[i := fn(items[i])] else out;
            && WorkersOk(items, fn, next, workers', out') && SlotsOk(items, fn, next, workers', out')
            && (AnyDied(workers') <==> AnyDied(workers) || fn(items[i]).None?)
            && Weight(workers') < Weight(workers)
  {
    var i := workers[w].index;
    assert Handles(workers[w], i);
    var to := if fn(items[i]).Some? then Idle else Died(i);
    var workers' := workers[w := to];
    var out' := if fn(items[i]).Some? then out[i := fn(items[i])] else out;
    WeightUpdate(workers, w, to);
    DiedUpdate(workers, w, to);
    forall j: nat | j < |items| ensures SlotOk(items, fn, next, workers', out'[j], j) {
      assert SlotOk(items, fn, next, workers, out[j], j);
      if j < next && Handled(workers, j) {
        var v :| 0 <= v < |workers| && Handles(workers[v], j);
        assert v == w || Handles(workers'[v], j);
        assert v == w ==> j == i;
        assert Handles(workers'[w], i) || out'[i] == fn(items[i]);
      }
    }
    forall v, j: nat | 0 <= v < |workers'| && Handles(workers'[v], j) ensures Handles(workers[v], j) {
    }
  }

  /** Every schedule: any active worker may move next. */
  method MapLimit<T, R>(items: seq<T>, limit: int, fn: T -> Option<R>)
    returns (slots: seq<Option<R>>, rejected: bool, ghost calls: seq<nat>, ghost peak: nat)
    // each index is called at most once, in order
    ensures |calls| <= |items| && forall j :: 0 <= j < |calls| ==> calls[j] == j
    // at no moment are more than `limit` calls in flight
    ensures limit >= 1 ==> peak <= limit
    // it rejects exactly when there is a call to reject
    ensures rejected <==> limit >= 1 && exists i: nat :: RejectedAt(items, fn, i)
    // otherwise every index was called, and the slots are the plain map; with no workers nothing is done
    ensures |slots| == |items|
    ensures !rejected && limit >= 1 ==> |calls| == |items| && forall i :: 0 <= i < |items| ==> slots[i] == fn(items[i])
    ensures limit <= 0 ==> calls == [] && peak == 0 && forall i :: 0 <= i < |items| ==> slots[i].None?
  {
    var out: seq<Option<R>> := seq(|items|, _ => None);
    var next := 0;
    var count := Min(limit, |items|);
    var workers := seq(if count > 0 then count else 0, _ => Idle);
    calls, peak, rejected := [], 0, false;
    while exists w :: 0 <= w < |workers| && Active(workers[w])
      invariant WorkersOk(items, fn, next, workers, out) && SlotsOk(items, fn, next, workers, out)
      invariant CallsOk(|items|, next, calls)
      invariant |workers| == if count > 0 then count else 0
      invariant workers == [] ==> next == 0
      invariant peak <= |workers|
      invariant rejected <==> AnyDied(workers)
      decreases 2 * (|items| - Min(next, |items|)) + Weight(workers)
    {
      var w :| 0 <= w < |workers| && Active(workers[w]);
      if workers[w].Idle? {
        Take(items, fn, next, workers, out, w);
        var i := next;
        next := next + 1;
        if i < |items| {
          calls := calls + [i];
          workers := workers[w := Calling(i)];
        } else {
          workers := workers[w := Finished];
        }
      } else {
        Settle(items, fn, next, workers, out, w);
        var i := workers[w].index;
        var value := fn(items[i]);
        if value.Some? {
          out := out[i := value];
          workers := workers[w := Idle];
        } else {
          workers := workers[w := Died(i)];
          rejected := true;
        }
      }
      if InFlight(workers) > peak { peak := InFlight(workers); }
    }
    slots := out;
    AllSettled(items, fn, next, workers, slots);
  }

  /** When no worker is active. */
  lemma AllSettled<T, R>(items: seq<T>, fn: T -> Option<R>, next: nat, workers: seq<Worker>, out: seq<Option<R>>)
    requires WorkersOk(items, fn, next, workers, out) && SlotsOk(items, fn, next, workers, out)
    requires forall w :: 0 <= w < |workers| ==> !Active(workers[w])
    ensures AnyDied(workers) <==>
              workers != [] && exists i: nat :: RejectedAt(items, fn, i)
    ensures workers != [] && !AnyDied(workers) ==>
              next > |items| && forall i :: 0 <= i < |items| ==> out[i] == fn(items[i])
    ensures next == 0 ==> forall i :: 0 <= i < |items| ==> out[i].None?
  {
    assert forall i: nat :: i < |items| ==> SlotOk(items, fn, next, workers, out[i], i);
    if workers != [] && forall w :: 0 <= w < |workers| ==> !workers[w].Died? {
      assert workers[0].Finished?;
      forall i: nat | i < |items| ensures out[i] == fn(items[i]) && !RejectedAt(items, fn, i) {
        assert SlotOk(items, fn, next, workers, out[i], i);
        assert !Handled(workers, i);
      }
    }
  }

  /** The plain map comes back exactly when there is a worker to compute it, or nothing to compute, and
      no call rejects; a limit of zero or less returns without calling anything. */
  lemma PlainMapExactly<T, R>(items: seq<T>, limit: int, fn: T -> Option<R>, slots: seq<Option<R>>, rejected: bool)
    requires |slots| == |items| && (rejected <==> limit >= 1 && exists i: nat :: RejectedAt(items, fn, i))
    requires !rejected && limit >= 1 ==> forall i :: 0 <= i < |items| ==> slots[i] == fn(items[i])
    requires limit <= 0 ==> forall i :: 0 <= i < |items| ==> slots[i].None?
    ensures !rejected && (forall i :: 0 <= i < |items| ==> slots[i].Some? && slots[i] == fn(items[i])) <==>
              items == [] || (limit >= 1 && forall i :: 0 <= i < |items| ==> fn(items[i]).Some?)
  {
    assert forall i: nat :: RejectedAt(items, fn, i) <==> i < |items| && fn(items[i]).None?;
    if limit <= 0 && items != [] {
      assert slots[0].None?;
    }
  }
}
