/** Eviction of the idle object: its memory is lost and rebuilt from storage on the next request. */
module Hibernation {
  import opened Wrappers
  import opened FixedWindow
  import opened RateLimiter
  import opened Burst

  datatype Host = Host(live: State, saved: Option<State>)

  datatype Op =
    | Serve(now: int, req: Request)
    | Sleep(now: int)  // evicted, and constructed again at `now`

  /** What `StRateLimiter.Fetch` and its constructor do to memory and storage. */
  function Step(h: Host, op: Op): Host {
    match op
    case Serve(now, req) => var live := Handle(h.live, now, req); Host(live, Some(live))
    case Sleep(now) => h.(live := if h.saved.Some? then h.saved.value else Initial(now))
  }

  function Reply(h: Host, op: Op): seq<Verdict> {
    if op.Serve? && op.req.Check? then [CheckSpec(h.live, op.now, op.req.family, op.req.identity).1] else []
  }

  function Replies(h: Host, ops: seq<Op>): seq<Verdict>
    decreases |ops|
  {
    if ops == [] then [] else Reply(h, ops[0]) + Replies(Step(h, ops[0]), ops[1..])
  }

  function Awake(ops: seq<Op>): seq<Op> {
    if ops == [] then [] else (if ops[0].Sleep? then [] else [ops[0]]) + Awake(ops[1..])
  }

  /** Once a request has been served, no hibernation at any later moment changes any later verdict. */
  lemma {:induction false} SleepIsInvisible(h: Host, ops: seq<Op>)
    requires h.saved == Some(h.live)
    ensures Replies(h, ops) == Replies(h, Awake(ops))
    decreases |ops|
  {
    if ops != [] {
      SleepIsInvisible(Step(h, ops[0]), ops[1..]);
      if ops[0].Sleep? {
        assert Step(h, ops[0]) == h;
        assert Awake(ops) == Awake(ops[1..]);
        assert Replies(h, ops) == Replies(h, ops[1..]);
      } else {
        assert Awake(ops)[0] == ops[0] && Awake(ops)[1..] == Awake(ops[1..]);
      }
    }
  }

  /** Every request saves: two requests with any hibernations between and after them answer alike. */
  lemma ServedThenSleeping(live: State, saved: Option<State>, now: int, req: Request, ops: seq<Op>)
    ensures Replies(Host(live, saved), [Serve(now, req)] + ops)
            == Replies(Host(live, saved), [Serve(now, req)] + Awake(ops))
  {
    var h, first := Host(live, saved), Serve(now, req);
    SleepIsInvisible(Step(h, first), ops);
    assert ([first] + ops)[1..] == ops && ([first] + Awake(ops))[1..] == Awake(ops);
  }

  // ---- before anything is saved

  /** Every operation is later than the one before, and than `now`. */
  ghost predicate Later(ops: seq<Op>, now: int)
    decreases |ops|
  {
    ops == [] || (now <= ops[0].now && Later(ops[1..], ops[0].now))
  }

  /** The rest of a burst at time s from its k-th check on, and a check of another family at time p. */
  function BurstOps(s: int, k: nat, p: int): seq<Op>
    requires k <= AGGREGATE_CAP
    decreases AGGREGATE_CAP - k
  {
    if k == AGGREGATE_CAP then [Serve(p, Check("other", None))] else [Serve(s, CheckAt(k))] + BurstOps(s, k + 1, p)
  }

  lemma {:induction false} BurstIsLater(s: int, k: nat, p: int, now: int)
    requires k <= AGGREGATE_CAP && now <= s <= p
    ensures Later(BurstOps(s, k, p), now)
    decreases AGGREGATE_CAP - k
  {
    if k < AGGREGATE_CAP {
      BurstIsLater(s, k + 1, p, s);
      assert BurstOps(s, k, p)[1..] == BurstOps(s, k + 1, p);
    }
  }

  /** The last check of the burst is answered from the spent window. */
  lemma {:induction false} BurstEnds(w: int, s: int, k: nat, p: int, saved: Option<State>)
    requires 0 <= s && w <= s && k <= AGGREGATE_CAP
    ensures var replies := Replies(Host(After(w, s, k), saved), BurstOps(s, k, p));
            && |replies| == AGGREGATE_CAP - k + 1
            && replies[AGGREGATE_CAP - k] == CheckSpec(After(w, s, AGGREGATE_CAP), p, "other", None).1
    decreases AGGREGATE_CAP - k
  {
    var h, ops := Host(After(w, s, k), saved), BurstOps(s, k, p);
    if k < AGGREGATE_CAP {
      BurstStep(w, s, k);
      var live := After(w, s, k + 1);
      assert ops[0] == Serve(s, CheckAt(k)) && ops[1..] == BurstOps(s, k + 1, p);
      assert Step(h, ops[0]) == Host(live, Some(live));
      assert Replies(h, ops) == [Allowed] + Replies(Host(live, Some(live)), ops[1..]);
      BurstEnds(w, s, k + 1, p, Some(live));
    } else {
      assert ops[1..] == [];
    }
  }

  /** Two windows begun at different times, neither used: some later check is granted by one and refused
      by the other. */
  lemma WindowsShow(t0: nat, now: nat) returns (ops: seq<Op>)
    requires t0 < now
    ensures Later(ops, now)
    ensures Replies(Host(Initial(t0), None), ops) != Replies(Host(Initial(now), None), ops)
  {
    // a window still running ends first, one long over begins with the burst
    var running := now - t0 < WINDOW_MS;
    var s, p := if running then now else now + 500, if running then t0 + WINDOW_MS else now + WINDOW_MS;
    ops := BurstOps(s, 0, p);
    BurstIsLater(s, 0, p, now);
    BurstEnds(t0, s, 0, p, None);
    BurstEnds(now, s, 0, p, None);
    assert After(t0, s, 0) == Initial(t0) && After(now, s, 0) == Initial(now);
    assert CheckSpec(After(t0, s, AGGREGATE_CAP), p, "other", None).1.Allowed? == running;
    assert CheckSpec(After(now, s, AGGREGATE_CAP), p, "other", None).1.Allowed? == !running;
  }

  /** Before the first request there is nothing to restore: waking moves the aggregate window, and with it
      some later verdict, unless no time has passed. */
  lemma ColdSleepExactly(t0: nat, now: nat)
    requires t0 <= now
    ensures var cold := Host(Initial(t0), None);
            && (Step(cold, Sleep(now)).live == Initial(t0) <==> now == t0)
            && ((forall ops :: Later(ops, now) ==> Replies(cold, [Sleep(now)] + ops) == Replies(cold, ops)) <==> now == t0)
  {
    var cold := Host(Initial(t0), None);
    forall ops: seq<Op> ensures Replies(cold, [Sleep(now)] + ops) == Replies(Host(Initial(now), None), ops) {
      assert ([Sleep(now)] + ops)[1..] == ops;
    }
    if t0 < now {
      var ops := WindowsShow(t0, now);
      assert Replies(cold, [Sleep(now)] + ops) != Replies(cold, ops);
    }
  }
}
