/** The Worker's side of the limiter: a check before every upstream call, short denials waited out,
    and an upstream 429 reported back. */
module RateLimitGuard {
  import opened Wrappers
  import opened FixedWindow
  import opened RateLimiter
  import opened Burst
  import opened LimiterRuns

  const MAX_PACE_WAIT_MS := 1_200
  const MAX_PACE_ATTEMPTS := 3

  /** One turn of the caller: the requests of others served since its last check, and the time of its own. */
  datatype Turn = Turn(others: seq<Event>, now: int)

  datatype Outcome =
    | Passed
    | RateLimited(retryAfterMs: int, reason: DenyReason)

  /** `checks` is the number of checks sent. */
  datatype Paced = Paced(st: State, outcome: Outcome, checks: nat)

  function ServeAll(st: State, events: seq<Event>): State {
    if events == [] then st
    else
      var last := events[|events| - 1];
      Handle(ServeAll(st, events[..|events| - 1]), last.now, last.req)
  }

  /** Others' requests are served one after another, as in a run. */
  lemma {:induction false} ServeAllRuns(t0: int, events: seq<Event>, n: nat)
    requires n <= |events|
    ensures ServeAll(Initial(t0), events[..n]) == At(t0, events, n)
  {
    if n > 0 {
      ServeAllRuns(t0, events, n - 1);
      assert events[..n][..n - 1] == events[..n - 1];
    }
  }

  predicate Paceable(v: Verdict) {
    v.Denied? && v.reason != SameReport && v.retryAfterMs <= MAX_PACE_WAIT_MS
  }

  /** The pacing loop from its k-th turn on. */
  function Pace(st0: State, k: nat, turns: seq<Turn>, family: string, identity: Option<string>): Paced
    requires k <= MAX_PACE_ATTEMPTS && |turns| == MAX_PACE_ATTEMPTS + 1
    decreases MAX_PACE_ATTEMPTS - k
  {
    var (st, v) := CheckSpec(ServeAll(st0, turns[k].others), turns[k].now, family, identity);
    if v == Allowed then Paced(st, Passed, k + 1)
    else if Paceable(v) && k < MAX_PACE_ATTEMPTS then Pace(st, k + 1, turns, family, identity)
    else Paced(st, RateLimited(v.retryAfterMs, v.reason), k + 1)
  }

  method ServeOthers(limiter: StRateLimiter, events: seq<Event>)
    modifies limiter, limiter.storage
    ensures limiter.Abs() == ServeAll(old(limiter.Abs()), events)
  {
    var k := 0;
    while k < |events|
      invariant k <= |events|
      invariant limiter.Abs() == ServeAll(old(limiter.Abs()), events[..k])
    {
      var _ := limiter.Fetch(events[k].now, events[k].req);
      k := k + 1;
      assert events[..k][..k - 1] == events[..k - 1];
    }
    assert events[..k] == events;
  }

  method CheckRateLimit(limiter: StRateLimiter, turns: seq<Turn>, family: string, identity: Option<string>)
    returns (outcome: Outcome, checks: nat)
    requires |turns| == MAX_PACE_ATTEMPTS + 1
    modifies limiter, limiter.storage
    ensures Paced(limiter.Abs(), outcome, checks) == Pace(old(limiter.Abs()), 0, turns, family, identity)
  {
    var attempt := 0;
    while true
      invariant attempt <= MAX_PACE_ATTEMPTS
      invariant Pace(limiter.Abs(), attempt, turns, family, identity)
                == Pace(old(limiter.Abs()), 0, turns, family, identity)
      decreases MAX_PACE_ATTEMPTS - attempt
    {
      ServeOthers(limiter, turns[attempt].others);
      var reply := limiter.Fetch(turns[attempt].now, Check(family, identity));
      var v := reply.value;
      if v == Allowed {
        return Passed, attempt + 1;
      }
      if v.reason != SameReport && v.retryAfterMs <= MAX_PACE_WAIT_MS && attempt < MAX_PACE_ATTEMPTS {
        attempt := attempt + 1;
      } else {
        return RateLimited(v.retryAfterMs, v.reason), attempt + 1;
      }
    }
  }

  // ---- what a denial costs

  /** A budget denial asks for 1 to 1000 ms, so it is always short enough to wait out. */
  lemma BudgetDenialIsShort(st: State, clock: int, now: int, family: string, identity: Option<string>)
    requires Valid(st, clock) && clock <= now
    ensures var v := CheckSpec(st, now, family, identity).1;
            v.Denied? && v.reason != SameReport ==>
              1 <= v.retryAfterMs <= 1000 && v.retryAfter == 1 && Paceable(v)
  {
  }

  /** A grant takes one unit of each budget and logs its report; a denial takes nothing and logs nothing. */
  lemma UnitsSpent(st: State, clock: int, now: int, family: string, identity: Option<string>)
    requires Valid(st, clock) && clock <= now
    ensures var (st', v) := CheckSpec(st, now, family, identity);
            var ledger := if identity.Some? then Prune(st.identities, now) else st.identities;
            if v == Allowed then
              && st'.aggregateCount == RollAggregate(st, now).aggregateCount + 1
              && st'.families[family].count == RollFamily(FamilyOf(st, family, now), now).count + 1
              && st'.identities == ledger + if identity.Some? then [Seen(identity.value, now)] else []
            else
              && st'.aggregateCount <= st.aggregateCount
              && (family in st'.families ==> st'.families[family].count <= FamilyOf(st, family, now).count)
              && st'.identities == ledger
              && st'.(families := st.families, identities := st.identities) in {st, RollAggregate(st, now)}
              && st'.families in {st.families, st.families[family := RollFamily(FamilyOf(st, family, now), now)]}
  {
    CheckOnLedger(st, clock, now, family, identity);
  }

  // ---- under any contention

  /** The limiter before the caller's j-th check, when it has made one on every turn before. */
  ghost function Before(st: State, turns: seq<Turn>, family: string, identity: Option<string>, j: nat): State
    requires j < |turns|
  {
    var start := if j == 0 then st
                 else Handle(Before(st, turns, family, identity, j - 1), turns[j - 1].now, Check(family, identity));
    ServeAll(start, turns[j].others)
  }

  ghost function VerdictOn(st: State, turns: seq<Turn>, family: string, identity: Option<string>, j: nat): Verdict
    requires j < |turns|
  {
    CheckSpec(Before(st, turns, family, identity, j), turns[j].now, family, identity).1
  }

  /** These are the verdicts the caller would meet, turn by turn. */
  ghost predicate Meets(st: State, turns: seq<Turn>, family: string, identity: Option<string>, verdicts: seq<Verdict>) {
    && |verdicts| == |turns|
    && forall j: nat {:trigger VerdictOn(st, turns, family, identity, j)} :: j < |turns| ==>
         verdicts[j] == VerdictOn(st, turns, family, identity, j)
  }

  /** The loop's own logic on the verdicts it would meet: how it ends and at which check. */
  function Decide(verdicts: seq<Verdict>, k: nat): (Outcome, nat)
    requires k <= MAX_PACE_ATTEMPTS && |verdicts| == MAX_PACE_ATTEMPTS + 1
    decreases MAX_PACE_ATTEMPTS - k
  {
    var v := verdicts[k];
    if v == Allowed then (Passed, k + 1)
    else if Paceable(v) && k < MAX_PACE_ATTEMPTS then Decide(verdicts, k + 1)
    else (RateLimited(v.retryAfterMs, v.reason), k + 1)
  }

  lemma {:induction false} DecideExactly(verdicts: seq<Verdict>, k: nat)
    requires k <= MAX_PACE_ATTEMPTS && |verdicts| == MAX_PACE_ATTEMPTS + 1
    ensures var (outcome, checks) := Decide(verdicts, k);
            && k < checks <= MAX_PACE_ATTEMPTS + 1
            && (forall j :: k <= j < checks - 1 ==> Paceable(verdicts[j]))
            && (var last := verdicts[checks - 1];
                if last == Allowed then outcome == Passed
                else
                  && outcome == RateLimited(last.retryAfterMs, last.reason)
                  && (Paceable(last) ==> checks == MAX_PACE_ATTEMPTS + 1))
    decreases MAX_PACE_ATTEMPTS - k
  {
    if Paceable(verdicts[k]) && k < MAX_PACE_ATTEMPTS {
      DecideExactly(verdicts, k + 1);
    }
  }

  /** The loop at its k-th turn, from the state left by its check before, meets the k-th verdict. */
  lemma PaceMeets(st0: State, st: State, k: nat, turns: seq<Turn>, family: string, identity: Option<string>)
    returns (st': State)
    requires k <= MAX_PACE_ATTEMPTS && |turns| == MAX_PACE_ATTEMPTS + 1
    requires ServeAll(st, turns[k].others) == Before(st0, turns, family, identity, k)
    ensures k < MAX_PACE_ATTEMPTS ==> ServeAll(st', turns[k + 1].others) == Before(st0, turns, family, identity, k + 1)
    ensures var v := VerdictOn(st0, turns, family, identity, k);
            Pace(st, k, turns, family, identity) ==
            if v == Allowed then Paced(st', Passed, k + 1)
            else if Paceable(v) && k < MAX_PACE_ATTEMPTS then Pace(st', k + 1, turns, family, identity)
            else Paced(st', RateLimited(v.retryAfterMs, v.reason), k + 1)
  {
    st' := CheckSpec(Before(st0, turns, family, identity, k), turns[k].now, family, identity).0;
  }

  lemma {:induction false} PaceDecides(st0: State, st: State, k: nat, turns: seq<Turn>, family: string,
                                       identity: Option<string>, verdicts: seq<Verdict>)
    requires k <= MAX_PACE_ATTEMPTS && |turns| == |verdicts| == MAX_PACE_ATTEMPTS + 1
    requires Meets(st0, turns, family, identity, verdicts)
    requires ServeAll(st, turns[k].others) == Before(st0, turns, family, identity, k)
    ensures var r := Pace(st, k, turns, family, identity);
            (r.outcome, r.checks) == Decide(verdicts, k)
    decreases MAX_PACE_ATTEMPTS - k
  {
    var st' := PaceMeets(st0, st, k, turns, family, identity);
    if Paceable(verdicts[k]) && k < MAX_PACE_ATTEMPTS {
      PaceDecides(st0, st', k + 1, turns, family, identity, verdicts);
    }
  }

  lemma DecidedGuard(r: Paced, verdicts: seq<Verdict>, k: nat)
    requires k <= MAX_PACE_ATTEMPTS && |verdicts| == MAX_PACE_ATTEMPTS + 1 && (r.outcome, r.checks) == Decide(verdicts, k)
    ensures k < r.checks <= MAX_PACE_ATTEMPTS + 1
    ensures forall j :: k <= j < r.checks - 1 ==> Paceable(verdicts[j])
    ensures var last := verdicts[r.checks - 1];
            if last == Allowed then r.outcome == Passed
            else
              && r.outcome == RateLimited(last.retryAfterMs, last.reason)
              && (Paceable(last) ==> r.checks == MAX_PACE_ATTEMPTS + 1)
  {
    DecideExactly(verdicts, k);
  }

  /** Whatever others do between its turns, a caller sends one to four checks, all but the last denied;
      it passes exactly when the last is granted, and otherwise reports that last denial, which is a
      repeated report, too long a wait, or the fourth. */
  lemma GuardExactly(st: State, turns: seq<Turn>, family: string, identity: Option<string>, verdicts: seq<Verdict>)
    requires |turns| == |verdicts| == 4 && Meets(st, turns, family, identity, verdicts)
    ensures var r := Pace(st, 0, turns, family, identity);
            && 1 <= r.checks <= 4
            && (forall j :: 0 <= j < r.checks - 1 ==>
                  verdicts[j].Denied? && verdicts[j].reason != SameReport && verdicts[j].retryAfterMs <= 1200)
            && (var last := verdicts[r.checks - 1];
                if last == Allowed then r.outcome == Passed
                else
                  && r.outcome == RateLimited(last.retryAfterMs, last.reason)
                  && (last.reason != SameReport && last.retryAfterMs <= 1200 ==> r.checks == 4))
  {
    PaceDecides(st, st, 0, turns, family, identity, verdicts);
    DecidedGuard(Pace(st, 0, turns, family, identity), verdicts, 0);
  }

  // ---- what the loop spends

  /** Units of a budget taken between two states: from zero where a new window began in between. */
  function AggregateTaken(st: State, st': State): int {
    st'.aggregateCount - if st'.aggregateWindowStart == st.aggregateWindowStart then st.aggregateCount else 0
  }

  function FamilyTaken(st: State, st': State, family: string): int {
    if family !in st'.families then 0
    else
      var fs := st'.families[family];
      fs.count - if family in st.families && st.families[family].windowStart == fs.windowStart then st.families[family].count else 0
  }

  lemma CheckTakes(st: State, now: int, family: string, identity: Option<string>)
    ensures var (st', v) := CheckSpec(st, now, family, identity);
            AggregateTaken(st, st') == FamilyTaken(st, st', family) == if v == Allowed then 1 else 0
  {
  }

  /** The states around the caller's own first n checks. */
  ghost function OwnChecks(st: State, turns: seq<Turn>, family: string, identity: Option<string>, n: nat): (checks: seq<(State, State)>)
    requires n <= |turns|
    ensures |checks| == n
  {
    seq(n, j requires 0 <= j < n =>
      var before := Before(st, turns, family, identity, j);
      (before, CheckSpec(before, turns[j].now, family, identity).0))
  }

  /** What checks take of the two budgets, the work of others between them left out. */
  function Taken(checks: seq<(State, State)>, family: string): (int, int) {
    if checks == [] then (0, 0)
    else
      var earlier, (before, after) := Taken(checks[..|checks| - 1], family), checks[|checks| - 1];
      (earlier.0 + AggregateTaken(before, after), earlier.1 + FamilyTaken(before, after, family))
  }

  lemma TakenMore(checks: seq<(State, State)>, check: (State, State), family: string)
    ensures Taken([], family) == (0, 0)
    ensures Taken(checks + [check], family) ==
            (Taken(checks, family).0 + AggregateTaken(check.0, check.1), Taken(checks, family).1 + FamilyTaken(check.0, check.1, family))
  {
    assert (checks + [check])[..|checks|] == checks;
  }

  predicate Takes(check: (State, State), family: string, units: int) {
    AggregateTaken(check.0, check.1) == FamilyTaken(check.0, check.1, family) == units
  }

  lemma {:induction false} NothingTaken(checks: seq<(State, State)>, family: string)
    requires forall j :: 0 <= j < |checks| ==> Takes(checks[j], family, 0)
    ensures Taken(checks, family) == (0, 0)
  {
    if checks != [] {
      NothingTaken(checks[..|checks| - 1], family);
    }
  }

  lemma OwnCheckTakes(st: State, turns: seq<Turn>, family: string, identity: Option<string>, n: nat, j: nat)
    requires j < n <= |turns|
    ensures Takes(OwnChecks(st, turns, family, identity, n)[j], family,
                  if VerdictOn(st, turns, family, identity, j) == Allowed then 1 else 0)
  {
    CheckTakes(Before(st, turns, family, identity, j), turns[j].now, family, identity);
  }

  lemma LastTakes(checks: seq<(State, State)>, family: string, units: int)
    requires checks != [] && Takes(checks[|checks| - 1], family, units)
    requires forall j :: 0 <= j < |checks| - 1 ==> Takes(checks[j], family, 0)
    ensures Taken(checks, family) == (units, units)
  {
    NothingTaken(checks[..|checks| - 1], family);
  }

  ghost function VerdictsOn(st: State, turns: seq<Turn>, family: string, identity: Option<string>): (verdicts: seq<Verdict>)
    ensures Meets(st, turns, family, identity, verdicts)
  {
    seq(|turns|, j requires 0 <= j < |turns| => VerdictOn(st, turns, family, identity, j))
  }

  lemma OwnChecksTake(st: State, turns: seq<Turn>, family: string, identity: Option<string>, verdicts: seq<Verdict>, n: nat)
    requires n <= |turns| && verdicts == VerdictsOn(st, turns, family, identity)
    ensures forall j :: 0 <= j < n ==>
              Takes(OwnChecks(st, turns, family, identity, n)[j], family, if verdicts[j] == Allowed then 1 else 0)
  {
    forall j: nat | j < n
      ensures Takes(OwnChecks(st, turns, family, identity, n)[j], family, if verdicts[j] == Allowed then 1 else 0)
    {
      OwnCheckTakes(st, turns, family, identity, n, j);
    }
  }

  lemma LastOfDenialsTakes(checks: seq<(State, State)>, family: string, verdicts: seq<Verdict>)
    requires 0 < |checks| <= |verdicts|
    requires forall j :: 0 <= j < |checks| ==> Takes(checks[j], family, if verdicts[j] == Allowed then 1 else 0)
    requires forall j :: 0 <= j < |checks| - 1 ==> verdicts[j].Denied?
    ensures Taken(checks, family) == if verdicts[|checks| - 1] == Allowed then (1, 1) else (0, 0)
  {
    LastTakes(checks, family, if verdicts[|checks| - 1] == Allowed then 1 else 0);
  }

  lemma ChecksTake(st: State, turns: seq<Turn>, family: string, identity: Option<string>, verdicts: seq<Verdict>, n: nat)
    requires 0 < n <= |turns| && verdicts == VerdictsOn(st, turns, family, identity)
    requires forall j :: 0 <= j < n - 1 ==> verdicts[j].Denied?
    ensures Taken(OwnChecks(st, turns, family, identity, n), family) == if verdicts[n - 1] == Allowed then (1, 1) else (0, 0)
  {
    OwnChecksTake(st, turns, family, identity, verdicts, n);
    LastOfDenialsTakes(OwnChecks(st, turns, family, identity, n), family, verdicts);
  }

  /** Whatever others do between its turns, a caller that passes has taken exactly one unit of each budget
      with its own checks, and one that is turned away none. */
  lemma LoopTakesExactly(st: State, turns: seq<Turn>, family: string, identity: Option<string>, r: Paced)
    requires |turns| == 4 && r == Pace(st, 0, turns, family, identity)
    ensures 1 <= r.checks <= |turns|
    ensures Taken(OwnChecks(st, turns, family, identity, r.checks), family) == if r.outcome == Passed then (1, 1) else (0, 0)
  {
    var verdicts := VerdictsOn(st, turns, family, identity);
    GuardExactly(st, turns, family, identity, verdicts);
    ChecksTake(st, turns, family, identity, verdicts, r.checks);
  }

  // ---- alone

  /** The caller is alone, and sleeps at least as long as it was told to. */
  ghost predicate AloneAndPatient(st: State, k: nat, turns: seq<Turn>, family: string, identity: Option<string>)
    requires k <= MAX_PACE_ATTEMPTS && |turns| == MAX_PACE_ATTEMPTS + 1
    decreases MAX_PACE_ATTEMPTS - k
  {
    && turns[k].others == []
    && var (st', v) := CheckSpec(st, turns[k].now, family, identity);
       Paceable(v) && k < MAX_PACE_ATTEMPTS ==>
         && turns[k].now + v.retryAfterMs <= turns[k + 1].now
         && AloneAndPatient(st', k + 1, turns, family, identity)
  }

  ghost predicate ReportIsDue(ledger: seq<Seen>, identity: Option<string>, now: int) {
    identity.Some? ==> forall s :: s in ledger && s.identity == identity.value ==> Expired(s, now)
  }

  lemma DueIsNotRepeat(st: State, clock: int, now: int, identity: Option<string>)
    requires Valid(st, clock) && clock <= now && ReportIsDue(st.identities, identity, now)
    ensures identity.Some? ==> !Holds(Prune(st.identities, now), identity.value)
    ensures !Repeats(if identity.Some? then Prune(st.identities, now) else st.identities, identity, now)
  {
    if identity.Some? {
      PruneDropsOldest(st.identities, clock, now);
      var cut, pruned := Cut(st.identities, now), Prune(st.identities, now);
      assert forall k :: 0 <= k < |pruned| ==> pruned[k] == st.identities[cut + k] && !Expired(pruned[k], now);
      LookupFinds(pruned, identity.value);
    }
  }

  /** A budget denial leaves that budget free once its wait is over ... */
  lemma BudgetAfterDenial(st: State, now: int, family: string, identity: Option<string>, later: int)
    requires CountersOk(st, now)
    ensures var (st', v) := SpendBudget(st, now, family, identity);
            v.Denied? && now + v.retryAfterMs <= later ==>
              && RollAggregate(st', later).aggregateCount < AGGREGATE_CAP
              && (v.reason == Aggregate ==> RollAggregate(st', later).aggregateCount == 0)
              && (v.reason == Family ==> RollFamily(FamilyOf(st', family, later), later).count == 0)
  {
  }

  /** ... and a due report due. */
  lemma AfterDenial(st: State, clock: int, now: int, family: string, identity: Option<string>, later: int)
    requires Valid(st, clock) && clock <= now && ReportIsDue(st.identities, identity, now)
    ensures var (st', v) := CheckSpec(st, now, family, identity);
            v.Denied? ==>
              && Valid(st', now) && v.reason != SameReport && Paceable(v)
              && (now + v.retryAfterMs <= later ==>
                    && ReportIsDue(st'.identities, identity, later)
                    && RollAggregate(st', later).aggregateCount < AGGREGATE_CAP
                    && (v.reason == Family ==> RollFamily(FamilyOf(st', family, later), later).count == 0))
  {
    DueIsNotRepeat(st, clock, now, identity);
    BudgetDenialIsShort(st, clock, now, family, identity);
    HandleKeepsValid(st, clock, now, Check(family, identity));
    CheckOnLedger(st, clock, now, family, identity);
    var ledger := if identity.Some? then Prune(st.identities, now) else st.identities;
    BudgetAfterDenial(st.(identities := ledger), now, family, identity, later);
    if identity.Some? {
      PruneDropsOldest(st.identities, clock, now);
      assert forall s :: s in ledger ==> s in st.identities;
    }
  }

  lemma FreeBudgetsGrant(st: State, clock: int, now: int, family: string, identity: Option<string>)
    requires Valid(st, clock) && clock <= now && ReportIsDue(st.identities, identity, now)
    requires RollAggregate(st, now).aggregateCount < AGGREGATE_CAP
    ensures var v := CheckSpec(st, now, family, identity).1;
            && (v.Denied? ==> v.reason == Family)
            && (RollFamily(FamilyOf(st, family, now), now).count == 0 ==> v == Allowed)
  {
    DueIsNotRepeat(st, clock, now, identity);
  }

  /** The verdicts a lone caller meets: at most two denials, both waited out, and then a grant. */
  lemma LoneVerdicts(st: State, clock: int, turns: seq<Turn>, family: string, identity: Option<string>)
    requires |turns| == MAX_PACE_ATTEMPTS + 1
    requires Valid(st, clock) && clock <= turns[0].now && ReportIsDue(st.identities, identity, turns[0].now)
    requires AloneAndPatient(st, 0, turns, family, identity)
    ensures var (st1, v0) := CheckSpec(st, turns[0].now, family, identity);
            var (st2, v1) := CheckSpec(st1, turns[1].now, family, identity);
            && turns[0].others == []
            && (v0.Denied? ==>
                  && Paceable(v0) && turns[1].others == []
                  && (v1.Denied? ==>
                        && Paceable(v1) && turns[2].others == []
                        && CheckSpec(st2, turns[2].now, family, identity).1 == Allowed))
  {
    var (st1, v0) := CheckSpec(st, turns[0].now, family, identity);
    if v0.Denied? {
      AfterDenial(st, clock, turns[0].now, family, identity, turns[1].now);
      FreeBudgetsGrant(st1, turns[0].now, turns[1].now, family, identity);
      var (st2, v1) := CheckSpec(st1, turns[1].now, family, identity);
      if v1.Denied? {
        AfterDenial(st1, turns[0].now, turns[1].now, family, identity, turns[2].now);
        FreeBudgetsGrant(st2, turns[1].now, turns[2].now, family, identity);
      }
    }
  }

  /** From any reachable limiter state, a lone caller whose report is due passes after at most two waits. */
  lemma LoneCallerPasses(st: State, clock: int, turns: seq<Turn>, family: string, identity: Option<string>)
    requires |turns| == 4
    requires Valid(st, clock) && clock <= turns[0].now && ReportIsDue(st.identities, identity, turns[0].now)
    requires AloneAndPatient(st, 0, turns, family, identity)
    ensures Pace(st, 0, turns, family, identity).outcome == Passed
    ensures Pace(st, 0, turns, family, identity).checks <= 3
  {
    LoneVerdicts(st, clock, turns, family, identity);
  }

  /** Twenty checks half a second after the limiter began. */
  function FullRun(): seq<Event> {
    seq(AGGREGATE_CAP, k requires 0 <= k => Event(500, CheckAt(k)))
  }

  lemma {:induction false} FullRunReaches(k: nat)
    requires k <= AGGREGATE_CAP
    ensures At(0, FullRun(), k) == After(0, 500, k)
  {
    if k > 0 {
      FullRunReaches(k - 1);
      BurstStep(0, 500, k - 1);
      assert FullRun()[k - 1] == Event(500, CheckAt(k - 1));
    }
  }

  lemma FullRunIsRun()
    ensures IsRun(0, FullRun()) && ClockAt(0, FullRun(), |FullRun()|) == 500
  {
  }

  lemma TwoWaitsFrom(st: State, turns: seq<Turn>)
    requires st == After(0, 500, AGGREGATE_CAP)
    requires turns == [Turn([], 999), Turn([], 1000), Turn([], 1500), Turn([], 1500)]
    ensures Valid(st, 500) && AloneAndPatient(st, 0, turns, "crm", None)
    ensures Pace(st, 0, turns, "crm", None).checks == 3
  {
    var (st1, v0) := CheckSpec(st, 999, "crm", None);
    var (st2, v1) := CheckSpec(st1, 1000, "crm", None);
    assert v0 == BudgetDenial(0, 999, Aggregate) && v1 == BudgetDenial(500, 1000, Family);
    assert CheckSpec(st2, 1500, "crm", None).1 == Allowed;
    assert AloneAndPatient(st2, 2, turns, "crm", None);
    assert AloneAndPatient(st1, 1, turns, "crm", None);
  }

  /** Two waits can be needed: this run fills both windows, the family's the younger, and a lone caller after
      it is denied by each in turn. */
  lemma TwoWaitsCanBeNeeded(turns: seq<Turn>)
    requires turns == [Turn([], 999), Turn([], 1000), Turn([], 1500), Turn([], 1500)]
    ensures var events := FullRun();
            var st := At(0, events, |events|);
            && IsRun(0, events) && ClockAt(0, events, |events|) <= turns[0].now
            && AloneAndPatient(st, 0, turns, "crm", None)
            && Pace(st, 0, turns, "crm", None).checks == 3
  {
    FullRunReaches(AGGREGATE_CAP);
    FullRunIsRun();
    TwoWaitsFrom(At(0, FullRun(), |FullRun()|), turns);
  }

  // ---- reporting an upstream 429

  /** The delta-seconds form of Retry-After (RFC 9110, section 10.2.3); anything else means a minute. */
  function ParseRetryAfterSeconds(header: Option<int>): (seconds: int)
    ensures seconds > 0
    ensures header.Some? && header.value > 0 ==> seconds == header.value
    ensures header.None? || header.value <= 0 ==> seconds == 60
  {
    if header.Some? && header.value > 0 then header.value else 60
  }

  /** One guarded call whose upstream, if it is sent, answers `status` (429 is RFC 6585, section 4) at time `done`. */
  method GuardedFamilyFetch(limiter: StRateLimiter, turns: seq<Turn>, family: string, identity: Option<string>,
                            status: int, header: Option<int>, done: int)
    returns (outcome: Outcome, sent: nat)
    requires |turns| == MAX_PACE_ATTEMPTS + 1
    modifies limiter, limiter.storage
    ensures var r := Pace(old(limiter.Abs()), 0, turns, family, identity);
            && outcome == r.outcome
            && sent == (if outcome == Passed then 1 else 0)
            && limiter.Abs() == if outcome == Passed && status == 429
                                then BackoffSpec(r.st, done, family, Some(ParseRetryAfterSeconds(header))) else r.st
  {
    var checks;
    outcome, checks := CheckRateLimit(limiter, turns, family, identity);
    if outcome.RateLimited? { return outcome, 0; }
    sent := 1;
    if status == 429 {
      var _ := limiter.Fetch(done, Backoff(family, Some(ParseRetryAfterSeconds(header))));
    }
  }
}
