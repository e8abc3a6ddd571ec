/** The same-report rule over whole runs: what the bounded ledger really guarantees. */
module SameReport {
  import opened Wrappers
  import opened Sets
  import opened FixedWindow
  import opened RateLimiter
  import opened LimiterRuns

  // ---- a run as the ledger sees it

  /** One request: the report it names, if any, and whether it was granted. */
  datatype Ask = Ask(now: int, report: Option<string>, ran: bool)

  predicate Runs(a: Ask, x: string) {
    a.ran && a.report == Some(x)
  }

  function Ran(a: Ask): set<string> {
    if a.ran && a.report.Some? then {a.report.value} else {}
  }

  /** The distinct reports run at positions i, ..., j - 1. */
  ghost function Reports(asks: seq<Ask>, i: nat, j: nat): set<string>
    requires j <= |asks|
  {
    set k | i <= k < j && asks[k].ran && asks[k].report.Some? :: asks[k].report.value
  }

  lemma OneMoreReport(asks: seq<Ask>, i: nat, k: nat)
    requires i <= k < |asks|
    ensures Reports(asks, i, k + 1) == Reports(asks, i, k) + Ran(asks[k])
  {
  }

  lemma NoReports(asks: seq<Ask>, i: nat)
    requires i <= |asks|
    ensures Reports(asks, i, i) == {}
  {
  }

  ghost predicate LedgerStep(ledger: seq<Seen>, a: Ask, ledger': seq<Seen>) {
    if a.report.None? then ledger' == ledger
    else
      var pruned := Prune(ledger, a.now);
      if a.ran then !Holds(pruned, a.report.value) && ledger' == pruned + [Seen(a.report.value, a.now)]
      else ledger' == pruned
  }

  ghost predicate StepAt(ledgers: seq<seq<Seen>>, asks: seq<Ask>, k: nat)
    requires |ledgers| == |asks| + 1 && k < |asks|
  {
    LedgerOk(ledgers[k], asks[k].now) && LedgerStep(ledgers[k], asks[k], ledgers[k + 1])
  }

  /** `ledgers[k]` is the ledger just before `asks[k]`. */
  ghost predicate LedgerRun(ledgers: seq<seq<Seen>>, asks: seq<Ask>) {
    && |ledgers| == |asks| + 1
    && forall k {:trigger StepAt(ledgers, asks, k)} :: 0 <= k < |asks| ==> StepAt(ledgers, asks, k)
  }

  ghost function Keys(ledger: seq<Seen>): set<string> {
    set k | 0 <= k < |ledger| :: ledger[k].identity
  }

  lemma {:induction false} KeysCount(ledger: seq<Seen>)
    requires forall j, k :: 0 <= j < k < |ledger| ==> ledger[j].identity != ledger[k].identity
    ensures |Keys(ledger)| == |ledger|
  {
    if ledger != [] {
      var n := |ledger| - 1;
      KeysCount(ledger[..n]);
      assert Keys(ledger) == Keys(ledger[..n]) + {ledger[n].identity};
      assert ledger[n].identity !in Keys(ledger[..n]);
    }
  }

  /** Report `x`, run at time `t`, is entry p of the ledger, followed by exactly the reports `later`. */
  ghost predicate TrackedAt(ledger: seq<Seen>, p: int, x: string, t: int, later: set<string>) {
    0 <= p < |ledger| && ledger[p] == Seen(x, t) && Keys(ledger[p + 1..]) == later
  }

  /** Report `x`, run at time `t`, is followed in the ledger by exactly the reports `later` run since
      then, unless 512 of them have pushed it out. */
  ghost predicate Tracks(ledger: seq<Seen>, x: string, t: int, later: set<string>) {
    || (exists p :: TrackedAt(ledger, p, x, t, later))
    || (!Holds(ledger, x) && |later| >= MAX_TRACKED_IDENTITIES)
  }

  /** An entry that a prune keeps, with what follows it; or does not keep, with what crowded it out. */
  lemma PrunedEntry(ledger: seq<Seen>, clock: int, now: int, p: nat)
    requires LedgerOk(ledger, clock) && p < |ledger| && !Expired(ledger[p], now)
    ensures var pruned := Prune(ledger, now);
            if |ledger| - p <= MAX_TRACKED_IDENTITIES then
              TrackedAt(pruned, |pruned| - (|ledger| - p), ledger[p].identity, ledger[p].at, Keys(ledger[p + 1..]))
            else !Holds(pruned, ledger[p].identity)
  {
    PruneDropsOldest(ledger, clock, now);
    var cut, pruned := Cut(ledger, now), Prune(ledger, now);
    if p >= cut {
      assert pruned[p - cut] == ledger[p] && pruned[p - cut + 1..] == ledger[p + 1..];
    } else {
      assert forall k :: 0 <= k < |pruned| ==> pruned[k] == ledger[cut + k];
    }
  }

  lemma PruneAddsNothing(ledger: seq<Seen>, clock: int, now: int, x: string)
    requires LedgerOk(ledger, clock) && !Holds(ledger, x)
    ensures !Holds(Prune(ledger, now), x)
  {
    PruneDropsOldest(ledger, clock, now);
    var cut, pruned := Cut(ledger, now), Prune(ledger, now);
    assert forall k :: 0 <= k < |pruned| ==> pruned[k] == ledger[cut + k];
  }

  lemma PruneKeepsTrack(ledger: seq<Seen>, clock: int, now: int, x: string, t: int, later: set<string>)
    requires LedgerOk(ledger, clock) && Tracks(ledger, x, t, later)
    requires now - t < IDENTITY_WINDOW_MS
    ensures Tracks(Prune(ledger, now), x, t, later)
    ensures Holds(Prune(ledger, now), x) <==> |later| < MAX_TRACKED_IDENTITIES
  {
    if p :| TrackedAt(ledger, p, x, t, later) {
      KeysCount(ledger[p + 1..]);
      PrunedEntry(ledger, clock, now, p);
    } else {
      PruneAddsNothing(ledger, clock, now, x);
    }
  }

  lemma AppendKeepsTrack(ledger: seq<Seen>, s: Seen, x: string, t: int, later: set<string>)
    requires Tracks(ledger, x, t, later) && s.identity != x
    ensures Tracks(ledger + [s], x, t, later + {s.identity})
  {
    var longer := ledger + [s];
    if p :| TrackedAt(ledger, p, x, t, later) {
      assert longer[p] == Seen(x, t);
      var rest, rest' := ledger[p + 1..], longer[p + 1..];
      assert rest' == rest + [s];
      assert Keys(rest') == Keys(rest) + {s.identity} by {
        assert rest'[|rest|] == s;
        assert forall k :: 0 <= k < |rest| ==> rest'[k] == rest[k];
      }
      assert TrackedAt(longer, p, x, t, later + {s.identity});
    } else {
      assert later <= later + {s.identity};
      SubsetIsSmaller(later, later + {s.identity});
    }
  }

  lemma StepKeepsTrack(ledger: seq<Seen>, a: Ask, ledger': seq<Seen>, x: string, t: int, later: set<string>)
    requires LedgerOk(ledger, a.now) && LedgerStep(ledger, a, ledger') && !Runs(a, x)
    requires Tracks(ledger, x, t, later) && a.now - t < IDENTITY_WINDOW_MS
    ensures Tracks(ledger', x, t, later + Ran(a))
  {
    if a.report.Some? {
      PruneKeepsTrack(ledger, a.now, a.now, x, t, later);
      if a.ran {
        AppendKeepsTrack(Prune(ledger, a.now), Seen(a.report.value, a.now), x, t, later);
      }
    }
    assert !a.ran || a.report.None? ==> later + Ran(a) == later;
  }

  lemma RunStartsTrack(ledger: seq<Seen>, a: Ask, ledger': seq<Seen>, x: string)
    requires LedgerStep(ledger, a, ledger') && Runs(a, x)
    ensures Tracks(ledger', x, a.now, {})
  {
    var p := |ledger'| - 1;
    assert TrackedAt(ledger', p, x, a.now, {});
  }

  lemma TracksNext(ledgers: seq<seq<Seen>>, asks: seq<Ask>, i: nat, k: nat, x: string)
    requires LedgerRun(ledgers, asks) && i < k < |asks| && !Runs(asks[k], x)
    requires asks[k].now - asks[i].now < IDENTITY_WINDOW_MS
    requires Tracks(ledgers[k], x, asks[i].now, Reports(asks, i + 1, k))
    ensures Tracks(ledgers[k + 1], x, asks[i].now, Reports(asks, i + 1, k + 1))
  {
    assert StepAt(ledgers, asks, k);
    StepKeepsTrack(ledgers[k], asks[k], ledgers[k + 1], x, asks[i].now, Reports(asks, i + 1, k));
    OneMoreReport(asks, i + 1, k);
  }

  lemma TracksFirst(ledgers: seq<seq<Seen>>, asks: seq<Ask>, i: nat, x: string)
    requires LedgerRun(ledgers, asks) && i < |asks| && Runs(asks[i], x)
    ensures Tracks(ledgers[i + 1], x, asks[i].now, Reports(asks, i + 1, i + 1))
  {
    assert StepAt(ledgers, asks, i);
    RunStartsTrack(ledgers[i], asks[i], ledgers[i + 1], x);
    NoReports(asks, i + 1);
  }

  lemma {:induction false} TracksFrom(ledgers: seq<seq<Seen>>, asks: seq<Ask>, i: nat, k: nat, x: string)
    requires LedgerRun(ledgers, asks) && i < k <= |asks|
    requires Runs(asks[i], x)
    requires forall m :: i < m < k ==> asks[m].now - asks[i].now < IDENTITY_WINDOW_MS && !Runs(asks[m], x)
    ensures Tracks(ledgers[k], x, asks[i].now, Reports(asks, i + 1, k))
    decreases k
  {
    if k == i + 1 {
      TracksFirst(ledgers, asks, i, x);
    } else {
      TracksFrom(ledgers, asks, i, k - 1, x);
      TracksNext(ledgers, asks, i, k - 1, x);
    }
  }

  lemma HeldExactly(ledgers: seq<seq<Seen>>, asks: seq<Ask>, i: nat, j: nat, x: string)
    requires LedgerRun(ledgers, asks) && i < j < |asks|
    requires Runs(asks[i], x) && forall m :: i < m < j ==> !Runs(asks[m], x)
    requires forall m :: i < m <= j ==> asks[m].now - asks[i].now < IDENTITY_WINDOW_MS
    ensures Holds(Prune(ledgers[j], asks[j].now), x) <==> |Reports(asks, i + 1, j)| < MAX_TRACKED_IDENTITIES
  {
    TracksFrom(ledgers, asks, i, j, x);
    assert StepAt(ledgers, asks, j);
    PruneKeepsTrack(ledgers[j], asks[j].now, asks[j].now, x, asks[i].now, Reports(asks, i + 1, j));
  }

  lemma {:induction false} CrowdBetween(ledgers: seq<seq<Seen>>, asks: seq<Ask>, i: nat, j: nat, x: string)
    requires LedgerRun(ledgers, asks) && i < j < |asks|
    requires Runs(asks[i], x) && Runs(asks[j], x)
    requires forall m, n :: i <= m <= n <= j ==> 0 <= asks[n].now - asks[m].now < IDENTITY_WINDOW_MS
    ensures |Reports(asks, i + 1, j) - {x}| >= MAX_TRACKED_IDENTITIES
    decreases j - i
  {
    var between := Reports(asks, i + 1, j);
    if m :| i < m < j && Runs(asks[m], x) {
      CrowdBetween(ledgers, asks, m, j, x);
      SubsetIsSmaller(Reports(asks, m + 1, j) - {x}, between - {x});
    } else {
      HeldExactly(ledgers, asks, i, j, x);
      assert StepAt(ledgers, asks, j);
      assert between - {x} == between;
    }
  }

  // ---- the limiter's runs are such runs

  ghost function AskAt(t0: int, events: seq<Event>, k: nat): Ask
    requires k < |events|
  {
    var r := events[k].req;
    Ask(events[k].now, if r.Check? then r.identity else None, GrantedAt(t0, events, k))
  }

  ghost function AsksUpTo(t0: int, events: seq<Event>, n: nat): (asks: seq<Ask>)
    requires n <= |events|
    ensures |asks| == n
  {
    if n == 0 then [] else AsksUpTo(t0, events, n - 1) + [AskAt(t0, events, n - 1)]
  }

  /** The requests of a run as the ledger sees them. */
  ghost function Asks(t0: int, events: seq<Event>): (asks: seq<Ask>)
    ensures |asks| == |events|
  {
    AsksUpTo(t0, events, |events|)
  }

  ghost function LedgersUpTo(t0: int, events: seq<Event>, n: nat): (ledgers: seq<seq<Seen>>)
    requires n <= |events|
    ensures |ledgers| == n + 1
  {
    (if n == 0 then [] else LedgersUpTo(t0, events, n - 1)) + [At(t0, events, n).identities]
  }

  lemma {:induction false} AsksEntry(t0: int, events: seq<Event>, n: nat, k: nat)
    requires k < n <= |events|
    ensures AsksUpTo(t0, events, n)[k] == AskAt(t0, events, k)
  {
    if k < n - 1 {
      AsksEntry(t0, events, n - 1, k);
    }
  }

  lemma {:induction false} LedgersEntry(t0: int, events: seq<Event>, n: nat, k: nat)
    requires k <= n <= |events|
    ensures LedgersUpTo(t0, events, n)[k] == At(t0, events, k).identities
  {
    if k < n {
      LedgersEntry(t0, events, n - 1, k);
      assert LedgersUpTo(t0, events, n)[k] == LedgersUpTo(t0, events, n - 1)[k];
    }
  }

  ghost predicate RefusedAsRepeat(t0: int, events: seq<Event>, k: nat)
    requires k < |events| && events[k].req.Check?
  {
    var v := CheckSpec(At(t0, events, k), events[k].now, events[k].req.family, events[k].req.identity).1;
    v.Denied? && v.reason == SameReport
  }

  lemma RequestOnLedger(t0: int, events: seq<Event>, k: nat)
    requires IsRun(t0, events) && k < |events|
    ensures LedgerOk(At(t0, events, k).identities, events[k].now)
    ensures LedgerStep(At(t0, events, k).identities, AskAt(t0, events, k), At(t0, events, k + 1).identities)
    ensures events[k].req.Check? && events[k].req.identity.Some? ==>
              (RefusedAsRepeat(t0, events, k)
               <==> Holds(Prune(At(t0, events, k).identities, events[k].now), events[k].req.identity.value))
  {
    ReachableIsValid(t0, events, k);
    var st, clock, now, r := At(t0, events, k), ClockAt(t0, events, k), events[k].now, events[k].req;
    if r.Check? {
      CheckOnLedger(st, clock, now, r.family, r.identity);
    }
  }

  lemma RunOnLedger(t0: int, events: seq<Event>)
    requires IsRun(t0, events)
    ensures LedgerRun(LedgersUpTo(t0, events, |events|), Asks(t0, events))
    ensures forall k :: 0 <= k < |events| ==> Asks(t0, events)[k].now == events[k].now
  {
    var asks, ledgers := Asks(t0, events), LedgersUpTo(t0, events, |events|);
    forall k | 0 <= k < |asks| ensures asks[k].now == events[k].now && StepAt(ledgers, asks, k) {
      AsksEntry(t0, events, |events|, k);
      LedgersEntry(t0, events, |events|, k);
      LedgersEntry(t0, events, |events|, k + 1);
      RequestOnLedger(t0, events, k);
    }
  }

  /** Exactly when a repeat is caught.  Asked again within a minute of its last run, a report is
      refused as a repeat if and only if fewer than 512 other reports ran in between. */
  lemma RepeatCaughtExactly(t0: int, events: seq<Event>, asks: seq<Ask>, i: nat, j: nat, x: string)
    requires IsRun(t0, events) && asks == Asks(t0, events) && i < j < |events|
    requires Runs(asks[i], x) && events[j].req.Check? && events[j].req.identity == Some(x)
    requires forall m :: i < m < j ==> !Runs(asks[m], x)
    requires events[j].now - events[i].now < 60_000
    ensures RefusedAsRepeat(t0, events, j) <==> |Reports(asks, i + 1, j)| < 512
  {
    var ledgers := LedgersUpTo(t0, events, |events|);
    RunOnLedger(t0, events);
    HeldExactly(ledgers, asks, i, j, x);
    LedgersEntry(t0, events, |events|, j);
    RequestOnLedger(t0, events, j);
  }

  /** Two runs of one report less than a minute apart have at least 512 other reports between them. */
  lemma RepeatNeedsCrowd(t0: int, events: seq<Event>, asks: seq<Ask>, i: nat, j: nat, x: string)
    requires IsRun(t0, events) && asks == Asks(t0, events) && i < j < |events|
    requires Runs(asks[i], x) && Runs(asks[j], x)
    requires events[j].now - events[i].now < 60_000
    ensures |Reports(asks, i + 1, j) - {x}| >= 512
  {
    RunOnLedger(t0, events);
    CrowdBetween(LedgersUpTo(t0, events, |events|), asks, i, j, x);
  }

  // ---- how soon a repeat can slip through

  /** Each report run before position j took a grant of its own, and so did the one at j. */
  lemma {:induction false} GrantsCoverReports(asks: seq<Ask>, ticks: seq<Tick>, i: nat, j: nat, a: int, b: int)
    requires |asks| == |ticks| && i <= j < |ticks|
    requires forall k :: i <= k <= j ==> a <= ticks[k].now < b && (asks[k].ran ==> ticks[k].hit)
    requires asks[j].ran
    ensures |Reports(asks, i, j)| + 1 <= Hits(ticks, i, a, b)
    decreases j - i
  {
    if i < j {
      GrantsCoverReports(asks, ticks, i + 1, j, a, b);
      assert Reports(asks, i, j) == Reports(asks, i + 1, j) + Ran(asks[i]);
    } else {
      NoReports(asks, i);
    }
  }

  lemma {:induction false} FewerHitsLater(ticks: seq<Tick>, i: nat, a: int, b: int)
    requires i <= |ticks|
    ensures Hits(ticks, i, a, b) <= Hits(ticks, 0, a, b)
  {
    if i > 0 {
      FewerHitsLater(ticks, i - 1, a, b);
    }
  }

  lemma CrowdTakesTime(asks: seq<Ask>, ticks: seq<Tick>, i: nat, j: nat, x: string, a: int, b: int)
    requires |asks| == |ticks| && i < j < |ticks|
    requires forall k :: i <= k <= j ==> a <= ticks[k].now < b && (asks[k].ran ==> ticks[k].hit)
    requires asks[i].ran && asks[j].ran
    requires |Reports(asks, i + 1, j) - {x}| >= MAX_TRACKED_IDENTITIES
    requires Hits(ticks, 0, a, b) <= AGGREGATE_CAP * (1 + Windows(b - a))
    ensures b - a > 24_000
  {
    SubsetIsSmaller(Reports(asks, i + 1, j) - {x}, Reports(asks, i + 1, j));
    GrantsCoverReports(asks, ticks, i + 1, j, a, b);
    FewerHitsLater(ticks, i, a, b);
  }

  lemma RanWasGranted(t0: int, events: seq<Event>)
    ensures forall k :: 0 <= k < |events| ==> AllTicks(t0, events)[k].now == events[k].now
    ensures forall k :: 0 <= k < |events| && Asks(t0, events)[k].ran ==> AllTicks(t0, events)[k].hit
  {
    forall k | 0 <= k < |events|
      ensures AllTicks(t0, events)[k].now == events[k].now
      ensures Asks(t0, events)[k].ran ==> AllTicks(t0, events)[k].hit
    {
      AsksEntry(t0, events, |events|, k);
    }
  }

  /** Whatever the traffic, two runs of one report are at least 24 seconds apart: 514 grants need
      that long under the aggregate budget. */
  lemma RepeatsAtLeast24SecondsApart(t0: int, events: seq<Event>, asks: seq<Ask>, i: nat, j: nat, x: string)
    requires IsRun(t0, events) && asks == Asks(t0, events) && i < j < |events|
    requires Runs(asks[i], x) && Runs(asks[j], x)
    ensures events[j].now - events[i].now >= 24_000
  {
    if events[j].now - events[i].now < IDENTITY_WINDOW_MS {
      var a, b, ticks := events[i].now, events[j].now + 1, AllTicks(t0, events);
      assert forall k :: i <= k <= j ==> a <= ticks[k].now < b && (asks[k].ran ==> ticks[k].hit) by {
        RanWasGranted(t0, events);
      }
      RepeatNeedsCrowd(t0, events, asks, i, j, x);
      AggregateBound(t0, events, a, b);
      CrowdTakesTime(asks, ticks, i, j, x, a, b);
    }
  }

  // ---- and that one can

  /** A name no shorter report shares. */
  ghost function ReportName(k: nat): string {
    seq(k + 1, _ => 'r')
  }

  const CROWD := MAX_TRACKED_IDENTITIES + 1

  /** One report every 100 ms, 513 of them, and then the first one again. */
  ghost function CrowdedRun(): seq<Event> {
    seq(CROWD + 1, k requires 0 <= k =>
      Event(100 * k, Check("reporting", Some(ReportName(if k == CROWD then 0 else k)))))
  }

  /** The budgets after k > 0 checks, ten to a window. */
  ghost predicate CrowdState(st: State, k: nat)
    requires k > 0
  {
    var start, count := 1000 * ((k - 1) / 10), (k - 1) % 10 + 1;
    && st.aggregateWindowStart == start && st.aggregateCount == count
    && st.families == map["reporting" := FamilyState(count, start, 0)]
    && (forall e :: e in st.identities ==> |e.identity| <= k)
  }

  lemma CrowdStep(st: State, k: nat, name: string)
    requires if k == 0 then st == Initial(0) else CrowdState(st, k)
    requires !Repeats(Prune(st.identities, 100 * k), Some(name), 100 * k)
    ensures Granted(st, 100 * k, Check("reporting", Some(name)))
    ensures var st' := Handle(st, 100 * k, Check("reporting", Some(name)));
            && st'.aggregateWindowStart == 1000 * (k / 10) && st'.aggregateCount == k % 10 + 1
            && st'.families == map["reporting" := FamilyState(k % 10 + 1, 1000 * (k / 10), 0)]
  {
  }

  lemma CrowdFinds(st: State, clock: int, now: int, name: string)
    requires Valid(st, clock) && clock <= now
    requires forall e :: e in st.identities ==> e.identity != name
    ensures !Repeats(Prune(st.identities, now), Some(name), now)
    ensures forall e :: e in Prune(st.identities, now) ==> e in st.identities
  {
    PruneDropsOldest(st.identities, clock, now);
    var pruned := Prune(st.identities, now);
    assert forall e :: e in pruned ==> e in st.identities;
    assert forall n :: 0 <= n < |pruned| ==> pruned[n] in pruned;
    LookupFinds(pruned, name);
  }

  lemma CrowdGrows(st: State, clock: int, k: nat)
    requires if k == 0 then st == Initial(0) else CrowdState(st, k)
    requires Valid(st, clock) && clock <= 100 * k
    ensures var r := Check("reporting", Some(ReportName(k)));
            Granted(st, 100 * k, r) && CrowdState(Handle(st, 100 * k, r), k + 1)
  {
    var name := ReportName(k);
    CrowdFinds(st, clock, 100 * k, name);
    CrowdStep(st, k, name);
    CheckOnLedger(st, clock, 100 * k, "reporting", Some(name));
    var ledger := Prune(st.identities, 100 * k);
    assert forall e :: e in ledger + [Seen(name, 100 * k)] ==> e in ledger || e == Seen(name, 100 * k);
  }

  lemma CrowdNext(events: seq<Event>, m: nat)
    requires IsRun(0, events) && m < CROWD && m < |events|
    requires events[m] == Event(100 * m, Check("reporting", Some(ReportName(m))))
    requires m > 0 ==> CrowdState(At(0, events, m), m)
    ensures CrowdState(At(0, events, m + 1), m + 1)
    ensures AskAt(0, events, m) == Ask(100 * m, Some(ReportName(m)), true)
  {
    ReachableIsValid(0, events, m);
    CrowdGrows(At(0, events, m), ClockAt(0, events, m), m);
  }

  /** These are the events of the crowded run, but perhaps the last. */
  ghost predicate IsCrowd(events: seq<Event>) {
    && IsRun(0, events) && |events| == CROWD + 1
    && forall m: nat {:trigger ReportName(m)} :: m < CROWD ==> events[m] == Event(100 * m, Check("reporting", Some(ReportName(m))))
  }

  lemma CrowdedRunIsCrowd()
    ensures IsCrowd(CrowdedRun())
  {
    forall m: nat | m < CROWD ensures CrowdedRun()[m] == Event(100 * m, Check("reporting", Some(ReportName(m)))) {
    }
  }

  lemma {:induction false} CrowdedUpTo(events: seq<Event>, k: nat)
    requires IsCrowd(events) && k <= CROWD
    ensures k > 0 ==> CrowdState(At(0, events, k), k)
  {
    if k > 0 {
      CrowdedUpTo(events, k - 1);
      assert events[k - 1] == Event(100 * (k - 1), Check("reporting", Some(ReportName(k - 1))));
      CrowdNext(events, k - 1);
    }
  }

  lemma CrowdAsk(events: seq<Event>, m: nat)
    requires IsCrowd(events) && m < CROWD
    ensures Asks(0, events)[m] == Ask(100 * m, Some(ReportName(m)), true)
  {
    CrowdedUpTo(events, m);
    assert events[m] == Event(100 * m, Check("reporting", Some(ReportName(m))));
    CrowdNext(events, m);
    AsksEntry(0, events, CROWD + 1, m);
  }

  lemma {:induction false} DistinctNames(asks: seq<Ask>, k: nat)
    requires 1 <= k <= |asks| && forall m :: 0 <= m < k ==> Runs(asks[m], ReportName(m))
    ensures |Reports(asks, 1, k)| == k - 1
    ensures forall n :: n in Reports(asks, 1, k) ==> |n| <= k
  {
    if k == 1 {
      NoReports(asks, 1);
    } else {
      DistinctNames(asks, k - 1);
      OneMoreReport(asks, 1, k - 1);
      assert |ReportName(k - 1)| == k;
      assert Ran(asks[k - 1]) == {ReportName(k - 1)};
    }
  }

  lemma CrowdRan(events: seq<Event>, asks: seq<Ask>)
    requires IsCrowd(events) && asks == Asks(0, events)
    ensures forall m :: 0 <= m < CROWD ==> Runs(asks[m], ReportName(m))
  {
    forall m | 0 <= m < CROWD ensures Runs(asks[m], ReportName(m)) {
      CrowdAsk(events, m);
    }
  }

  lemma FirstNameOnce(asks: seq<Ask>, k: nat)
    requires 1 <= k <= |asks| && forall m :: 0 <= m < k ==> Runs(asks[m], ReportName(m))
    ensures forall m :: 0 < m < k ==> !Runs(asks[m], ReportName(0))
  {
    forall m | 0 < m < k ensures !Runs(asks[m], ReportName(0)) {
      assert |ReportName(m)| == m + 1;
    }
  }

  /** After 512 others the first report of all is no repeat. */
  lemma LastIsNotRefused(events: seq<Event>, asks: seq<Ask>, k: nat)
    requires IsRun(0, events) && asks == Asks(0, events) && |events| == k + 1 && k > 512
    requires events[k].req == Check("reporting", Some(ReportName(0)))
    requires events[k].now - events[0].now < IDENTITY_WINDOW_MS
    requires forall m :: 0 <= m < k ==> Runs(asks[m], ReportName(m))
    ensures !RefusedAsRepeat(0, events, k)
  {
    DistinctNames(asks, k);
    FirstNameOnce(asks, k);
    RepeatCaughtExactly(0, events, asks, 0, k, ReportName(0));
  }

  lemma LastIsGranted(events: seq<Event>)
    requires |events| == CROWD + 1 && CrowdState(At(0, events, CROWD), CROWD)
    requires events[CROWD] == Event(51_300, Check("reporting", Some(ReportName(0))))
    requires !RefusedAsRepeat(0, events, CROWD)
    ensures Runs(AskAt(0, events, CROWD), ReportName(0))
  {
  }

  /** The documented rule, one run of a report a minute, can fail: the crowded run grants its first
      report again after 51.3 seconds. */
  lemma RepeatCanSlipThrough()
    ensures var events := CrowdedRun();
            && IsRun(0, events) && |events| == CROWD + 1
            && Runs(Asks(0, events)[0], ReportName(0)) && Runs(Asks(0, events)[CROWD], ReportName(0))
            && events[CROWD].now - events[0].now == 51_300
  {
    var events := CrowdedRun();
    CrowdedRunIsCrowd();
    CrowdRan(events, Asks(0, events));
    CrowdedUpTo(events, CROWD);
    assert events[CROWD] == Event(51_300, Check("reporting", Some(ReportName(0))));
    LastIsNotRefused(events, Asks(0, events), CROWD);
    LastIsGranted(events);
    AsksEntry(0, events, CROWD + 1, CROWD);
  }

  lemma CrowdGranted(events: seq<Event>, asks: seq<Ask>, ticks: seq<Tick>)
    requires IsRun(0, events) && |events| == CROWD + 1 && asks == Asks(0, events) && ticks == AllTicks(0, events)
    requires forall k :: 0 <= k <= CROWD ==> events[k].now == 100 * k
    ensures forall k :: 1 <= k <= CROWD ==> 0 <= ticks[k].now < 60_000 && (asks[k].ran ==> ticks[k].hit)
  {
    RanWasGranted(0, events);
  }

  lemma CrowdReports(events: seq<Event>, asks: seq<Ask>)
    requires IsCrowd(events) && asks == Asks(0, events)
    ensures |Reports(asks, 1, CROWD)| == MAX_TRACKED_IDENTITIES
  {
    CrowdRan(events, asks);
    DistinctNames(asks, CROWD);
  }

  /** Nor are calls held to 80 a minute: the crowded run is granted more than 512 in its first. */
  lemma FarMoreThanEightyAMinute()
    ensures IsRun(0, CrowdedRun()) && Hits(AllTicks(0, CrowdedRun()), 0, 0, 60_000) > 512
  {
    var events := CrowdedRun();
    var asks, ticks := Asks(0, events), AllTicks(0, events);
    RepeatCanSlipThrough();
    CrowdedRunIsCrowd();
    CrowdGranted(events, asks, ticks);
    CrowdReports(events, asks);
    GrantsCoverReports(asks, ticks, 1, CROWD, 0, 60_000);
    FewerHitsLater(ticks, 1, 0, 60_000);
  }
}
