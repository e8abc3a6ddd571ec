/** The per-customer lock that keeps concurrent snapshot reads from each fanning out. */
module SnapshotLock {
  const LOCK_TTL_MS := 30000
  const MAX_WAIT_MS := 500

  /** When each customer's lock was taken. */
  type Locks = map<int, int>

  datatype Answer = Acquired | Retry(waitMs: int)

  predicate Free(locks: Locks, id: int, now: int) {
    id !in locks || now - locks[id] > LOCK_TTL_MS
  }

  function Waited(locks: Locks, id: int, now: int): Answer
    requires !Free(locks, id, now)
  {
    var remaining := LOCK_TTL_MS - (now - locks[id]);
    Retry(if remaining < MAX_WAIT_MS then remaining else MAX_WAIT_MS)
  }

  class CustomerSnapshotSingleflight {
    var locks: Locks

    constructor ()
      ensures locks == map[]
    {
      locks := map[];
    }

    method Acquire(customerId: int, now: int) returns (a: Answer)
      modifies this
      ensures a.Acquired? <==> Free(old(locks), customerId, now)
      ensures a.Acquired? ==> locks == old(locks)[customerId := now]
      ensures a.Retry? ==> locks == old(locks) && a == Waited(old(locks), customerId, now)
    {
      if customerId in locks {
        var heldSince := locks[customerId];
        if now - heldSince > LOCK_TTL_MS {
          locks := locks - {customerId};
        } else {
          var elapsed := now - heldSince;
          var remaining := LOCK_TTL_MS - elapsed;
          return Retry(if remaining < MAX_WAIT_MS then remaining else MAX_WAIT_MS);
        }
      }
      locks := locks[customerId := now];
      return Acquired;
    }

    /** No check that the caller holds the lock. */
    method Release(customerId: int)
      modifies this
      ensures locks == old(locks) - {customerId}
    {
      locks := locks - {customerId};
    }
  }

  // ---- runs

  /** A caller that was told it holds a lock, and has not released it. */
  datatype Hold = Hold(id: int, since: int, caller: int)

  datatype State = State(locks: Locks, holds: set<Hold>, now: int)

  datatype Event = AcquireAt(id: int, caller: int, at: int) | ReleaseAt(hold: Hold, at: int)

  /** Only holders release, and the clock does not go back. */
  predicate CanStep(s: State, e: Event) {
    e.at >= s.now && (e.ReleaseAt? ==> e.hold in s.holds)
  }

  function Next(s: State, e: Event): State
    requires CanStep(s, e)
  {
    match e
    case AcquireAt(id, caller, at) =>
      if Free(s.locks, id, at) then State(s.locks[id := at], s.holds + {Hold(id, at, caller)}, at) else s.(now := at)
    case ReleaseAt(hold, at) => State(s.locks - {hold.id}, s.holds - {hold}, at)
  }

  /** Nobody still holds a lock taken more than 30 seconds before. */
  predicate Prompt(s: State, at: int) {
    forall h {:trigger h in s.holds} :: h in s.holds ==> at - h.since <= 30000
  }

  /** A run from the empty state, as the states after each event. */
  ghost predicate IsRun(states: seq<State>, events: seq<Event>) {
    && |states| == |events| + 1
    && states[0].locks == map[] && states[0].holds == {}
    && forall k :: 0 <= k < |events| ==> IsStep(states[k], events[k], states[k + 1])
  }

  ghost predicate IsStep(s: State, e: Event, s': State) {
    CanStep(s, e) && s' == Next(s, e)
  }

  ghost predicate PromptStep(s: State, e: Event) {
    Prompt(s, e.at)
  }

  /** No customer's lock is held twice. */
  ghost predicate Exclusive(s: State) {
    forall g, h {:trigger g in s.holds, h in s.holds} :: g in s.holds && h in s.holds && g.id == h.id ==> g == h
  }

  /** The locks are those of the holders, and exclusive. */
  ghost predicate InStep(s: State) {
    && Exclusive(s)
    && (forall h {:trigger h in s.holds} :: h in s.holds ==> h.id in s.locks && s.locks[h.id] == h.since)
    && (forall id {:trigger id in s.locks} :: id in s.locks ==> exists h :: h in s.holds && h.id == id)
  }

  /** Somebody has held this customer's lock for more than 30 seconds. */
  ghost predicate Overdue(s: State, id: int, at: int) {
    exists h {:trigger h in s.holds} :: h in s.holds && h.id == id && at - h.since > 30000
  }

  /** Where locks and holders agree, an acquire makes a second holder exactly when the first is overdue. */
  lemma SecondHolderExactly(s: State, id: int, caller: int, at: int)
    requires InStep(s) && at >= s.now
    ensures var s' := Next(s, AcquireAt(id, caller, at));
            !Exclusive(s') <==> Overdue(s, id, at)
  {
    var s' := Next(s, AcquireAt(id, caller, at));
    if Overdue(s, id, at) {
      var h :| h in s.holds && h.id == id && at - h.since > LOCK_TTL_MS;
      assert h in s'.holds && Hold(id, at, caller) in s'.holds;
    } else {
    }
  }

  /** This step is no acquire of a lock whose holder is overdue. */
  ghost predicate Timely(s: State, e: Event) {
    e.AcquireAt? ==> !Overdue(s, e.id, e.at)
  }

  lemma {:induction false} TimelyRunKeeps(states: seq<State>, events: seq<Event>, k: nat)
    requires IsRun(states, events) && k <= |events|
    requires forall i :: 0 <= i < k ==> Timely(states[i], events[i])
    ensures InStep(states[k])
  {
    if k > 0 {
      TimelyRunKeeps(states, events, k - 1);
      assert IsStep(states[k - 1], events[k - 1], states[k]) && Timely(states[k - 1], events[k - 1]);
    }
  }

  /** The first acquire that is not timely makes a second holder. */
  lemma {:induction false} LateAcquireShares(states: seq<State>, events: seq<Event>, k: nat)
    requires IsRun(states, events) && k < |events| && !Timely(states[k], events[k])
    ensures exists i :: 0 < i <= k + 1 && !Exclusive(states[i])
    decreases k
  {
    if i: nat :| i < k && !Timely(states[i], events[i]) {
      LateAcquireShares(states, events, i);
    } else {
      TimelyRunKeeps(states, events, k);
      var s, e := states[k], events[k];
      assert IsStep(s, e, states[k + 1]);
      SecondHolderExactly(s, e.id, e.caller, e.at);
    }
  }

  /** Over any run: no lock ever has two holders if and only if no acquire ever comes for a lock whose
      holder is overdue. */
  lemma ExclusiveExactly(states: seq<State>, events: seq<Event>)
    requires IsRun(states, events)
    ensures (forall k :: 0 <= k < |states| ==> Exclusive(states[k])) <==>
            (forall k :: 0 <= k < |events| ==> Timely(states[k], events[k]))
  {
    if k: nat :| k < |events| && !Timely(states[k], events[k]) {
      LateAcquireShares(states, events, k);
    } else {
      forall k | 0 <= k < |states| ensures Exclusive(states[k]) {
        TimelyRunKeeps(states, events, k);
      }
    }
  }

  /** If holders release within 30 seconds of acquiring, no run ever has two holders of one lock. */
  lemma AtMostOneHolder(states: seq<State>, events: seq<Event>, k: nat, g: Hold, h: Hold)
    requires IsRun(states, events) && k < |states|
    requires forall i :: 0 <= i < |events| ==> PromptStep(states[i], events[i])
    requires g in states[k].holds && h in states[k].holds && g.id == h.id
    ensures g == h
  {
    forall i | 0 <= i < |events| ensures Timely(states[i], events[i]) {
      assert PromptStep(states[i], events[i]);
    }
    ExclusiveExactly(states, events);
  }

  /** Without that they can: A is overdue when B acquires; A's late release then frees B's lock, and C
      acquires while B, well within its 30 seconds, still holds. */
  lemma LateReleaseFreesAnother(s0: State, a: Hold, b: Hold, c: Hold)
    requires s0 == State(map[], {}, 0)
    requires a == Hold(1, 0, 100) && b == Hold(1, 30001, 101) && c == Hold(1, 30003, 102)
    ensures var events := [AcquireAt(1, 100, 0), AcquireAt(1, 101, 30001), ReleaseAt(a, 30002), AcquireAt(1, 102, 30003)];
            exists states: seq<State> :: IsRun(states, events) && states[4].holds == {b, c}
  {
    var events := [AcquireAt(1, 100, 0), AcquireAt(1, 101, 30001), ReleaseAt(a, 30002), AcquireAt(1, 102, 30003)];
    var s1 := State(map[1 := 0], {a}, 0);
    var s2 := State(map[1 := 30001], {a, b}, 30001);
    var s3 := State(map[], {b}, 30002);
    var s4 := State(map[1 := 30003], {b, c}, 30003);
    assert s2.locks - {1} == map[] && s2.holds - {a} == {b};
    assert s0.holds + {a} == s1.holds && s1.holds + {b} == s2.holds && s3.holds + {c} == s4.holds;
    assert Next(s0, events[0]) == s1 && Next(s1, events[1]) == s2;
    assert Next(s2, events[2]) == s3 && Next(s3, events[3]) == s4;
    var states := [s0, s1, s2, s3, s4];
    assert IsStep(states[0], events[0], states[1]) && IsStep(states[1], events[1], states[2]);
    assert IsStep(states[2], events[2], states[3]) && IsStep(states[3], events[3], states[4]);
    assert IsRun(states, events);
  }

  // ---- waiting

  /** The advice never exceeds what is left or half a second, and is 0 only at the very end. */
  lemma AdvisedWait(locks: Locks, id: int, now: int)
    requires !Free(locks, id, now)
    ensures var wait := Waited(locks, id, now).waitMs;
            && 0 <= wait <= 500 && wait <= 30000 - (now - locks[id])
            && (wait == 0 <==> now - locks[id] == 30000)
            && !Free(locks, id, now + wait)
            && (now - locks[id] + wait == 30000 ==> Free(locks, id, now + wait + 1))
  {
  }

  /** The moment of the n'th retry, waiting exactly as advised. */
  function RetryAt(locks: Locks, id: int, now: int, n: nat): (t: int)
    requires !Free(locks, id, now)
    ensures !Free(locks, id, t)
  {
    if n == 0 then now else RetryAt(locks, id, now, n - 1) + Waited(locks, id, RetryAt(locks, id, now, n - 1)).waitMs
  }

  /** So a lock that is never released comes free 30 seconds and a millisecond after it was taken, but a
      caller waiting exactly as advised is refused every time: from the sixtieth retry on it asks again,
      without waiting, at the last millisecond of the lock. */
  lemma {:induction false} ExactWaitersAreRefused(locks: Locks, id: int, now: int, n: nat)
    requires !Free(locks, id, now) && locks[id] <= now
    ensures RetryAt(locks, id, now, n) ==
            if now + n * 500 < locks[id] + 30000 then now + n * 500 else locks[id] + 30000
    ensures n >= 60 ==> RetryAt(locks, id, now, n) == locks[id] + 30000
    ensures !Free(locks, id, RetryAt(locks, id, now, n)) && Free(locks, id, locks[id] + 30000 + 1)
  {
    if n > 0 {
      ExactWaitersAreRefused(locks, id, now, n - 1);
    }
  }
}
