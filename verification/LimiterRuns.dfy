/** Whole runs of the limiter: any sequence of requests under a clock that never goes back. */
module LimiterRuns {
  import opened Wrappers
  import opened FixedWindow
  import opened RateLimiter

  datatype Event = Event(now: int, req: Request)

  ghost predicate IsRun(t0: int, events: seq<Event>) {
    && (forall k :: 0 <= k < |events| ==> t0 <= events[k].now)
    && (forall j, k :: 0 <= j <= k < |events| ==> events[j].now <= events[k].now)
  }

  /** The state just before request `i` of a run that began at `t0`. */
  ghost function At(t0: int, events: seq<Event>, i: nat): State
    requires i <= |events|
  {
    if i == 0 then Initial(t0) else Handle(At(t0, events, i - 1), events[i - 1].now, events[i - 1].req)
  }

  ghost function ClockAt(t0: int, events: seq<Event>, i: nat): int
    requires i <= |events|
  {
    if i == 0 then t0 else events[i - 1].now
  }

  ghost predicate Granted(st: State, now: int, r: Request) {
    r.Check? && CheckSpec(st, now, r.family, r.identity).1 == Allowed
  }

  ghost predicate GrantedAt(t0: int, events: seq<Event>, i: nat)
    requires i < |events|
  {
    Granted(At(t0, events, i), events[i].now, events[i].req)
  }

  // ---- what every reachable state satisfies

  ghost predicate LedgerOk(ledger: seq<Seen>, clock: int) {
    && (forall j, k :: 0 <= j < k < |ledger| ==> ledger[j].at <= ledger[k].at && ledger[j].identity != ledger[k].identity)
    && (forall k :: 0 <= k < |ledger| ==> ledger[k].at <= clock)
    && |ledger| <= 513
  }

  ghost predicate CountersOk(st: State, clock: int) {
    && st.aggregateWindowStart <= clock
    && st.aggregateCount <= 20
    && (forall f :: f in st.families ==>
          st.families[f].windowStart <= clock && st.families[f].count <= 12)
  }

  ghost predicate Valid(st: State, clock: int) {
    CountersOk(st, clock) && LedgerOk(st.identities, clock)
  }

  lemma {:induction false} AllLive(ledger: seq<Seen>, now: int)
    requires forall k :: 0 <= k < |ledger| ==> !Expired(ledger[k], now)
    ensures DropExpired(ledger, now) == ledger
  {
    if ledger != [] {
      AllLive(ledger[1..], now);
    }
  }

  ghost predicate Aged(ledger: seq<Seen>) {
    forall j, k :: 0 <= j < k < |ledger| ==> ledger[j].at <= ledger[k].at
  }

  /** In time order, what has expired is a prefix. */
  lemma {:induction false} ExpiryCutsPrefix(ledger: seq<Seen>, now: int)
    requires Aged(ledger)
    ensures var live := DropExpired(ledger, now);
            && |live| <= |ledger|
            && live == ledger[|ledger| - |live|..]
            && (forall k :: 0 <= k < |ledger| ==> (Expired(ledger[k], now) <==> k < |ledger| - |live|))
  {
    if ledger != [] {
      if Expired(ledger[0], now) {
        ExpiryCutsPrefix(ledger[1..], now);
        var live := DropExpired(ledger[1..], now);
        forall k | 0 <= k < |ledger| ensures Expired(ledger[k], now) <==> k < |ledger| - |live| {
          if k > 0 {
            assert ledger[k] == ledger[1..][k - 1];
          }
        }
      } else {
        AllLive(ledger, now);
      }
    }
  }

  lemma {:induction false} SortKeepsOrder(ledger: seq<Seen>)
    requires Aged(ledger)
    ensures SortByAge(ledger) == ledger
  {
    if ledger != [] {
      SortKeepsOrder(ledger[1..]);
    }
  }

  /** The sort behind an eviction sorts any ledger, oldest first. */
  lemma {:induction false} SortByAgeSorts(ledger: seq<Seen>)
    ensures Aged(SortByAge(ledger)) && multiset(SortByAge(ledger)) == multiset(ledger)
  {
    if ledger != [] {
      SortByAgeSorts(ledger[1..]);
      InsertByAgeOrders(ledger[0], SortByAge(ledger[1..]));
      InsertByAgeAdds(ledger[0], SortByAge(ledger[1..]));
      assert ledger == [ledger[0]] + ledger[1..];
    }
  }

  lemma {:induction false} InsertByAgeAdds(s: Seen, sorted: seq<Seen>)
    ensures multiset(InsertByAge(s, sorted)) == multiset(sorted) + multiset{s}
  {
    if sorted != [] && !(s.at <= sorted[0].at) {
      InsertByAgeAdds(s, sorted[1..]);
      assert sorted == [sorted[0]] + sorted[1..];
    }
  }

  lemma {:induction false} InsertByAgeOrders(s: Seen, sorted: seq<Seen>)
    requires Aged(sorted)
    ensures var r := InsertByAge(s, sorted);
            Aged(r) && r != [] && (r[0] == s || (sorted != [] && r[0] == sorted[0]))
  {
    if sorted != [] && !(s.at <= sorted[0].at) {
      InsertByAgeOrders(s, sorted[1..]);
    }
  }

  lemma WithoutFirst(s: Seen, rest: seq<Seen>, gone: seq<Seen>)
    ensures Without([s] + rest, gone) == if Holds(gone, s.identity) then Without(rest, gone) else [s] + Without(rest, gone)
  {
    assert ([s] + rest)[1..] == rest;
  }

  /** `gone` names exactly the first n entries. */
  ghost predicate NamesPrefix(gone: seq<Seen>, ledger: seq<Seen>, n: nat) {
    forall k {:trigger ledger[k]} :: 0 <= k < |ledger| ==> (Holds(gone, ledger[k].identity) <==> k < n)
  }

  lemma {:induction false} WithoutPrefix(ledger: seq<Seen>, gone: seq<Seen>, n: nat, i: nat)
    requires NamesPrefix(gone, ledger, n) && n <= |ledger| && i <= |ledger|
    ensures Without(ledger[i..], gone) == ledger[if i < n then n else i..]
    decreases |ledger| - i
  {
    if i < |ledger| {
      WithoutPrefix(ledger, gone, n, i + 1);
      WithoutFirst(ledger[i], ledger[i + 1..], gone);
      assert [ledger[i]] + ledger[i + 1..] == ledger[i..];
    }
  }

  /** How many entries, all at the old end, a prune removes. */
  ghost function Cut(ledger: seq<Seen>, now: int): int {
    var live := |DropExpired(ledger, now)|;
    |ledger| - if live < MAX_TRACKED_IDENTITIES then live else MAX_TRACKED_IDENTITIES
  }

  /** A prune drops the expired and, beyond that, only the oldest. */
  lemma PruneDropsOldest(ledger: seq<Seen>, clock: int, now: int)
    requires LedgerOk(ledger, clock)
    ensures 0 <= Cut(ledger, now) <= |ledger|
    ensures Prune(ledger, now) == ledger[Cut(ledger, now)..]
    ensures |Prune(ledger, now)| <= 512
    ensures forall k :: Cut(ledger, now) <= k < |ledger| ==> !Expired(ledger[k], now)
    ensures forall k :: 0 <= k < Cut(ledger, now) ==>
              Expired(ledger[k], now) || |ledger| - k > 512
  {
    ExpiryCutsPrefix(ledger, now);
    var live := DropExpired(ledger, now);
    if |live| > MAX_TRACKED_IDENTITIES {
      SortKeepsOrder(live);
      var n := |live| - MAX_TRACKED_IDENTITIES;
      WithoutPrefix(live, live[..n], n, 0);
      assert live[0..] == live;
    }
  }

  lemma {:induction false} LookupFinds(ledger: seq<Seen>, identity: string)
    ensures Holds(ledger, identity) <==> Lookup(ledger, identity).Some?
    ensures forall k :: 0 <= k < |ledger| && ledger[k].identity == identity
                        && (forall j :: 0 <= j < k ==> ledger[j].identity != identity) ==>
              Lookup(ledger, identity) == Some(ledger[k].at)
  {
    if ledger != [] {
      LookupFinds(ledger[1..], identity);
      forall k | 0 <= k < |ledger| && ledger[k].identity == identity
                 && (forall j :: 0 <= j < k ==> ledger[j].identity != identity)
        ensures Lookup(ledger, identity) == Some(ledger[k].at)
      {
        if k > 0 {
          assert ledger[1..][k - 1].identity == identity;
          assert ledger[0].identity != identity;
          forall j | 0 <= j < k - 1 ensures ledger[1..][j].identity != identity {
            assert ledger[j + 1].identity != identity;
          }
        }
      }
      if Holds(ledger, identity) && ledger[0].identity != identity {
        var k :| 0 <= k < |ledger| && ledger[k].identity == identity;
        assert ledger[1..][k - 1].identity == identity;
      }
      if Holds(ledger[1..], identity) {
        var k :| 0 <= k < |ledger[1..]| && ledger[1..][k].identity == identity;
        assert ledger[k + 1].identity == identity;
      }
    }
  }

  lemma {:induction false} PutAppends(ledger: seq<Seen>, s: Seen)
    requires !Holds(ledger, s.identity)
    ensures Put(ledger, s) == ledger + [s]
  {
    if ledger != [] {
      assert ledger[0].identity != s.identity;
      assert forall k :: 0 <= k < |ledger[1..]| ==> ledger[1..][k] == ledger[k + 1];
      PutAppends(ledger[1..], s);
    }
  }

  /** Writing a key changes what is found under it and nothing else, and adds an entry only when it is new. */
  lemma {:induction false} PutExactly(ledger: seq<Seen>, s: Seen, x: string)
    ensures Lookup(Put(ledger, s), x) == if x == s.identity then Some(s.at) else Lookup(ledger, x)
    ensures |Put(ledger, s)| == |ledger| + if Lookup(ledger, s.identity).Some? then 0 else 1
  {
    if ledger != [] {
      PutExactly(ledger[1..], s, x);
    }
  }

  /** What a check does to the ledger: a prune if it names a report, then one new last entry if granted.
      It is refused as a repeat exactly when the pruned ledger still holds the report. */
  lemma CheckOnLedger(st: State, clock: int, now: int, family: string, identity: Option<string>)
    requires Valid(st, clock) && clock <= now
    ensures var ledger := if identity.Some? then Prune(st.identities, now) else st.identities;
            var (st', v) := CheckSpec(st, now, family, identity);
            && (v.Denied? && v.reason == SameReport <==> identity.Some? && Holds(ledger, identity.value))
            && st'.identities == (if identity.Some? && v == Allowed then ledger + [Seen(identity.value, now)] else ledger)
  {
    if identity.Some? {
      PruneDropsOldest(st.identities, clock, now);
      var ledger := Prune(st.identities, now);
      LookupFinds(ledger, identity.value);
      if Holds(ledger, identity.value) {
        var k :| 0 <= k < |ledger| && ledger[k].identity == identity.value;
        assert Lookup(ledger, identity.value) == Some(ledger[k].at);
        assert !Expired(ledger[k], now);
      } else {
        PutAppends(ledger, Seen(identity.value, now));
      }
    }
  }

  lemma HandleKeepsCounters(st: State, clock: int, now: int, r: Request)
    requires CountersOk(st, clock) && clock <= now
    ensures CountersOk(Handle(st, now, r), now)
  {
  }

  lemma PruneKeepsLedger(ledger: seq<Seen>, clock: int, now: int)
    requires LedgerOk(ledger, clock) && clock <= now
    ensures LedgerOk(Prune(ledger, now), now) && |Prune(ledger, now)| <= 512
  {
    PruneDropsOldest(ledger, clock, now);
    var cut, pruned := Cut(ledger, now), Prune(ledger, now);
    assert forall k :: 0 <= k < |pruned| ==> pruned[k] == ledger[cut + k];
  }

  lemma AppendKeepsLedger(ledger: seq<Seen>, s: Seen)
    requires LedgerOk(ledger, s.at) && |ledger| <= MAX_TRACKED_IDENTITIES
    ensures !Holds(ledger, s.identity) ==> LedgerOk(ledger + [s], s.at)
  {
  }

  lemma CheckKeepsLedger(st: State, clock: int, now: int, family: string, identity: Option<string>)
    requires Valid(st, clock) && clock <= now
    ensures LedgerOk(CheckSpec(st, now, family, identity).0.identities, now)
  {
    CheckOnLedger(st, clock, now, family, identity);
    if identity.Some? {
      PruneKeepsLedger(st.identities, clock, now);
      AppendKeepsLedger(Prune(st.identities, now), Seen(identity.value, now));
    }
  }

  lemma HandleKeepsLedger(st: State, clock: int, now: int, r: Request)
    requires Valid(st, clock) && clock <= now
    ensures LedgerOk(Handle(st, now, r).identities, now)
  {
    match r
    case Backoff(_, _) =>
    case Check(family, identity) => CheckKeepsLedger(st, clock, now, family, identity);
  }

  lemma HandleKeepsValid(st: State, clock: int, now: int, r: Request)
    requires Valid(st, clock) && clock <= now
    ensures Valid(Handle(st, now, r), now)
  {
    HandleKeepsCounters(st, clock, now, r);
    HandleKeepsLedger(st, clock, now, r);
  }

  /** A small ledger with one entry of report `x`, run at `t`, later on: the entry is pruned when it is a
      minute old and not before. */
  lemma HeldUntilExpiry(ledger: seq<Seen>, clock: int, k: nat, later: int)
    requires LedgerOk(ledger, clock) && |ledger| <= 512 && k < |ledger| && clock <= later
    ensures Holds(Prune(ledger, later), ledger[k].identity) <==> later - ledger[k].at < 60_000
  {
    PruneDropsOldest(ledger, clock, later);
    var cut, pruned := Cut(ledger, later), Prune(ledger, later);
    assert forall j :: 0 <= j < |pruned| ==> pruned[j] == ledger[cut + j];
    if cut <= k {
      assert pruned[k - cut] == ledger[k];
    }
  }

  /** What the ledger says of a report it holds. */
  lemma HeldEntry(ledger: seq<Seen>, clock: int, x: string) returns (k: nat)
    requires LedgerOk(ledger, clock) && Holds(ledger, x)
    ensures k < |ledger| && ledger[k].identity == x && Lookup(ledger, x) == Some(ledger[k].at)
  {
    LookupFinds(ledger, x);
    k :| k < |ledger| && ledger[k].identity == x;
  }

  /** The wait a repeat is refused with is exact: 1 to 60 000 ms, spends nothing, and asked again with
      nothing in between the report is refused as a repeat before that wait is over and never after. */
  lemma RepeatWaitIsExact(st: State, clock: int, now: int, family: string, x: string, later: int)
    requires Valid(st, clock) && clock <= now <= later
    requires var v := CheckSpec(st, now, family, Some(x)).1; v.Denied? && v.reason == SameReport
    ensures var (st', v) := CheckSpec(st, now, family, Some(x));
            && 1 <= v.retryAfterMs <= 60_000
            && 1000 * (v.retryAfter - 1) < v.retryAfterMs <= 1000 * v.retryAfter
            && st' == st.(identities := st'.identities)
            && (var v' := CheckSpec(st', later, family, Some(x)).1;
                v'.Denied? && v'.reason == SameReport <==> later < now + v.retryAfterMs)
  {
    var st', ledger := CheckSpec(st, now, family, Some(x)).0, Prune(st.identities, now);
    CheckOnLedger(st, clock, now, family, Some(x));
    PruneKeepsLedger(st.identities, clock, now);
    var k := HeldEntry(ledger, now, x);
    HeldUntilExpiry(ledger, now, k, later);
    HandleKeepsValid(st, clock, now, Check(family, Some(x)));
    CheckOnLedger(st', now, later, family, Some(x));
  }

  lemma {:induction false} ReachableIsValid(t0: int, events: seq<Event>, i: nat)
    requires IsRun(t0, events) && i <= |events|
    ensures Valid(At(t0, events, i), ClockAt(t0, events, i))
  {
    if i > 0 {
      ReachableIsValid(t0, events, i - 1);
      HandleKeepsValid(At(t0, events, i - 1), ClockAt(t0, events, i - 1), events[i - 1].now, events[i - 1].req);
    }
  }

  // ---- what is granted

  /** Exactly when a check is granted, and if not why and for how long: a repeat apart, fewer than 20 units are
      spent in the aggregate window in force and fewer than 12 in the family's, or 6 under a penalty. */
  lemma GrantedExactly(st: State, clock: int, now: nat, family: string, identity: Option<string>)
    requires Valid(st, clock) && clock <= now
    ensures var v := CheckSpec(st, now, family, identity).1;
            var known := family in st.families;
            var repeat := identity.Some? && Holds(Prune(st.identities, now), identity.value);
            var spent := if now - st.aggregateWindowStart < 1000 then st.aggregateCount else 0;
            var familySpent := if known && now - st.families[family].windowStart < 1000 then st.families[family].count else 0;
            var familyCap := if known && now < st.families[family].halvedUntil then 6 else 12;
            && (v == Allowed <==> !repeat && spent < 20 && familySpent < familyCap)
            && (v.Denied? && v.reason == SameReport <==> repeat)
            && (v.Denied? && v.reason == Aggregate <==> !repeat && spent >= 20)
            && (v.Denied? && v.reason == Aggregate ==> v.retryAfter == 1 && v.retryAfterMs == st.aggregateWindowStart + 1000 - now)
            && (v.Denied? && v.reason == Family ==> v.retryAfter == 1 && v.retryAfterMs == st.families[family].windowStart + 1000 - now)
  {
    CheckOnLedger(st, clock, now, family, identity);
  }

  /** The request reports an upstream 429 of the family, and its wait of at least a minute reaches past t. */
  ghost predicate Penalises(e: Event, family: string, t: int) {
    && e.req.Backoff? && e.req.family == family
    && t < e.now + match e.req.retryAfter case None => 60_000 case Some(s) => if s > 60 then 1000 * s else 60_000
  }

  lemma PenaltyStep(st: State, now: int, r: Request, family: string, t: nat)
    ensures var st' := Handle(st, now, r);
            (family in st'.families && t < st'.families[family].halvedUntil) <==>
            (family in st.families && t < st.families[family].halvedUntil) || Penalises(Event(now, r), family, t)
  {
  }

  /** Over every run: a family is under a penalty at time t exactly when some earlier report of a 429 says so;
      penalties neither add up nor outlast the longest. */
  lemma {:induction false} PenaltyExactly(t0: int, events: seq<Event>, k: nat, family: string, t: nat)
    requires IsRun(t0, events) && k <= |events|
    ensures var st := At(t0, events, k);
            (family in st.families && t < st.families[family].halvedUntil) <==>
            exists j :: 0 <= j < k && Penalises(events[j], family, t)
  {
    if k > 0 {
      PenaltyExactly(t0, events, k - 1, family, t);
      PenaltyStep(At(t0, events, k - 1), events[k - 1].now, events[k - 1].req, family, t);
      assert events[k - 1] == Event(events[k - 1].now, events[k - 1].req);
    }
  }

  // ---- sliding intervals

  /** Every granted check of a run. */
  ghost function AllTicks(t0: int, events: seq<Event>): seq<Tick> {
    seq(|events|, i requires 0 <= i < |events| => Tick(events[i].now, GrantedAt(t0, events, i)))
  }

  /** The granted checks of one family. */
  ghost function FamilyTicks(t0: int, events: seq<Event>, family: string): seq<Tick> {
    seq(|events|, i requires 0 <= i < |events| =>
      Tick(events[i].now, GrantedAt(t0, events, i) && events[i].req.family == family))
  }

  ghost function AggregateWindow(st: State): Window {
    Window(st.aggregateCount, st.aggregateWindowStart)
  }

  /** A family never seen is an empty window long over. */
  ghost function FamilyWindow(st: State, family: string, t0: int): Window {
    if family in st.families then Window(st.families[family].count, st.families[family].windowStart)
    else Window(0, t0 - WINDOW_MS)
  }

  ghost function HalvedUntil(st: State, family: string): int {
    if family in st.families then st.families[family].halvedUntil else 0
  }

  lemma FamilyStep(st: State, now: int, r: Request, family: string, t0: int)
    requires t0 <= now
    ensures Step(FamilyWindow(st, family, t0), Tick(now, Granted(st, now, r) && r.family == family),
                 FamilyWindow(Handle(st, now, r), family, t0),
                 if now < HalvedUntil(st, family) then 6 else DEFAULT_FAMILY_CAP)
    ensures family in st.families ==> family in Handle(st, now, r).families
    ensures family in st.families ==> HalvedUntil(st, family) <= HalvedUntil(Handle(st, now, r), family)
  {
  }

  ghost function AggregateWindows(t0: int, events: seq<Event>): seq<Window> {
    seq(|events| + 1, i requires 0 <= i <= |events| => AggregateWindow(At(t0, events, i)))
  }

  lemma AggregateStepAt(t0: int, events: seq<Event>, k: nat)
    requires IsRun(t0, events) && k < |events|
    ensures Step(AggregateWindows(t0, events)[k], AllTicks(t0, events)[k], AggregateWindows(t0, events)[k + 1],
                 AGGREGATE_CAP)
  {
  }

  /** Any half-open interval of L ms contains at most 20 * (1 + ceil(L / 1000)) granted checks. */
  lemma AggregateBound(t0: int, events: seq<Event>, a: int, b: int)
    requires IsRun(t0, events)
    ensures Hits(AllTicks(t0, events), 0, a, b) <= 20 * (1 + Windows(b - a))
  {
    var ticks, ws := AllTicks(t0, events), AggregateWindows(t0, events);
    forall k {:trigger ticks[k]} | 0 <= k < |ticks| ensures Step(ws[k], ticks[k], ws[k + 1], AGGREGATE_CAP) {
      AggregateStepAt(t0, events, k);
    }
    SlidingBound(ws, ticks, AGGREGATE_CAP, 0, a, b);
  }

  ghost function FamilyWindows(t0: int, events: seq<Event>, family: string): seq<Window> {
    seq(|events| + 1, i requires 0 <= i <= |events| => FamilyWindow(At(t0, events, i), family, t0))
  }

  /** ... and at most 12 * (1 + ceil(L / 1000)) of one family. */
  lemma FamilyBound(t0: int, events: seq<Event>, family: string, a: int, b: int)
    requires IsRun(t0, events)
    ensures Hits(FamilyTicks(t0, events, family), 0, a, b) <= 12 * (1 + Windows(b - a))
  {
    var ticks := FamilyTicks(t0, events, family);
    var ws := FamilyWindows(t0, events, family);
    forall k {:trigger ticks[k]} | 0 <= k < |ticks| ensures Step(ws[k], ticks[k], ws[k + 1], DEFAULT_FAMILY_CAP) {
      FamilyStepAt(t0, events, family, k);
    }
    SlidingBound(ws, ticks, DEFAULT_FAMILY_CAP, 0, a, b);
  }

  lemma FamilyStepAt(t0: int, events: seq<Event>, family: string, k: nat)
    requires IsRun(t0, events) && k < |events|
    ensures Step(FamilyWindows(t0, events, family)[k], FamilyTicks(t0, events, family)[k],
                 FamilyWindows(t0, events, family)[k + 1], DEFAULT_FAMILY_CAP)
    ensures events[k].now < HalvedUntil(At(t0, events, k), family) ==>
              Step(FamilyWindows(t0, events, family)[k], FamilyTicks(t0, events, family)[k],
                   FamilyWindows(t0, events, family)[k + 1], 6)
  {
    FamilyStep(At(t0, events, k), events[k].now, events[k].req, family, t0);
  }

  lemma {:induction false} PenaltyLasts(t0: int, events: seq<Event>, i: nat, j: nat, family: string)
    requires IsRun(t0, events) && i <= j <= |events| && family in At(t0, events, i).families
    ensures family in At(t0, events, j).families
    ensures HalvedUntil(At(t0, events, i), family) <= HalvedUntil(At(t0, events, j), family)
  {
    if i < j {
      PenaltyLasts(t0, events, i, j - 1, family);
      FamilyStep(At(t0, events, j - 1), events[j - 1].now, events[j - 1].req, family, t0);
    }
  }

  ghost function PenaltyMs(retryAfter: Option<int>): int {
    Max(if retryAfter.Some? then retryAfter.value * 1000 else 60_000, BACKOFF_MIN_PENALTY_MS)
  }

  /** After an upstream 429 the family's budget is halved for the penalty it announced, and for at
      least a minute: an interval of L ms inside it holds at most 6 * (1 + ceil(L / 1000)). */
  lemma PenaltyBound(t0: int, events: seq<Event>, j: nat, a: int, b: int)
    requires IsRun(t0, events) && j < |events| && events[j].req.Backoff?
    requires b <= events[j].now + PenaltyMs(events[j].req.retryAfter)
    ensures Hits(FamilyTicks(t0, events, events[j].req.family), j + 1, a, b) <= 6 * (1 + Windows(b - a))
  {
    var family := events[j].req.family;
    var ticks := FamilyTicks(t0, events, family);
    var ws := FamilyWindows(t0, events, family);
    forall k {:trigger ticks[k]} | j + 1 <= k < |ticks| && ticks[k].now < b
      ensures Step(ws[k], ticks[k], ws[k + 1], 6)
    {
      BackoffHalves(t0, events, j, k);
      FamilyStepAt(t0, events, family, k);
    }
    if j + 1 < |events| {
      BackoffHalves(t0, events, j, j + 1);
      ReachableIsValid(t0, events, j + 1);
    }
    SlidingBound(ws, ticks, 6, j + 1, a, b);
  }

  /** The family of a reported 429 is known and penalised from the next request on. */
  lemma BackoffHalves(t0: int, events: seq<Event>, j: nat, k: nat)
    requires IsRun(t0, events) && j < k <= |events| && events[j].req.Backoff?
    ensures events[j].req.family in At(t0, events, k).families
    ensures events[j].now + PenaltyMs(events[j].req.retryAfter) <= HalvedUntil(At(t0, events, k), events[j].req.family)
  {
    PenaltyLasts(t0, events, j + 1, k, events[j].req.family);
  }
}
