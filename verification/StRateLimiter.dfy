/** The rate limiter object: one aggregate counter, one counter per endpoint family, a penalty after
    an upstream 429, and a bounded ledger of recent report runs. */
module RateLimiter {
  import opened Wrappers
  import opened FixedWindow

  const AGGREGATE_CAP := 20
  const DEFAULT_FAMILY_CAP := 12
  const IDENTITY_WINDOW_MS := 60_000
  const MAX_TRACKED_IDENTITIES := 512
  const BACKOFF_MIN_PENALTY_MS := 60_000

  datatype DenyReason = Aggregate | Family | SameReport

  datatype Verdict = Allowed | Denied(retryAfter: int, retryAfterMs: int, reason: DenyReason)

  datatype FamilyState = FamilyState(count: nat, windowStart: int, halvedUntil: int)

  /** A ledger entry.  The ledger is a map in insertion order, here the sequence of its entries. */
  datatype Seen = Seen(identity: string, at: int)

  datatype State = State(
    families: map<string, FamilyState>,
    identities: seq<Seen>,
    aggregateCount: nat,
    aggregateWindowStart: int)

  datatype Request =
    | Check(family: string, identity: Option<string>)
    | Backoff(family: string, retryAfter: Option<int>)  // None: not a number

  function Max(x: int, y: int): int {
    if x < y then y else x
  }

  function CeilSeconds(ms: int): int {
    (ms + 999) / 1000
  }

  function Initial(now: int): State {
    State(map[], [], 0, now)
  }

  // ---- the ledger

  predicate Expired(s: Seen, now: int) {
    now - s.at >= IDENTITY_WINDOW_MS
  }

  function DropExpired(ledger: seq<Seen>, now: int): seq<Seen> {
    if ledger == [] then []
    else (if Expired(ledger[0], now) then [] else [ledger[0]]) + DropExpired(ledger[1..], now)
  }

  /** The library's stable sort, oldest first. */
  function InsertByAge(s: Seen, sorted: seq<Seen>): seq<Seen> {
    if sorted == [] || s.at <= sorted[0].at then [s] + sorted
    else [sorted[0]] + InsertByAge(s, sorted[1..])
  }

  function SortByAge(ledger: seq<Seen>): (sorted: seq<Seen>)
    ensures |sorted| == |ledger|
  {
    if ledger == [] then []
    else
      var rest := SortByAge(ledger[1..]);
      InsertByAgeLength(ledger[0], rest);
      InsertByAge(ledger[0], rest)
  }

  lemma InsertByAgeLength(s: Seen, sorted: seq<Seen>)
    ensures |InsertByAge(s, sorted)| == |sorted| + 1
  {
  }

  predicate Holds(ledger: seq<Seen>, identity: string) {
    exists k :: 0 <= k < |ledger| && ledger[k].identity == identity
  }

  function Without(ledger: seq<Seen>, gone: seq<Seen>): seq<Seen> {
    if ledger == [] then []
    else (if Holds(gone, ledger[0].identity) then [] else [ledger[0]]) + Without(ledger[1..], gone)
  }

  /** Drop what has expired, then the oldest entries beyond the bound. */
  function Prune(ledger: seq<Seen>, now: int): seq<Seen> {
    var live := DropExpired(ledger, now);
    if |live| <= MAX_TRACKED_IDENTITIES then live
    else Without(live, SortByAge(live)[..|live| - MAX_TRACKED_IDENTITIES])
  }

  function Lookup(ledger: seq<Seen>, identity: string): Option<int> {
    if ledger == [] then None
    else if ledger[0].identity == identity then Some(ledger[0].at)
    else Lookup(ledger[1..], identity)
  }

  /** Writing a map key: in place when it is there, at the end when it is new. */
  function Put(ledger: seq<Seen>, s: Seen): seq<Seen> {
    if ledger == [] then [s]
    else if ledger[0].identity == s.identity then [s] + ledger[1..]
    else [ledger[0]] + Put(ledger[1..], s)
  }

  // ---- the two requests

  function FamilyOf(st: State, family: string, now: int): FamilyState {
    if family in st.families then st.families[family] else FamilyState(0, now, 0)
  }

  /** Half the declared cap while a penalty runs, never below one. */
  function CapOf(fs: FamilyState, now: int): nat {
    if now < fs.halvedUntil then Max(1, DEFAULT_FAMILY_CAP / 2) else DEFAULT_FAMILY_CAP
  }

  function RollAggregate(st: State, now: int): State {
    var w := Roll(Window(st.aggregateCount, st.aggregateWindowStart), now);
    st.(aggregateCount := w.count, aggregateWindowStart := w.start)
  }

  function RollFamily(fs: FamilyState, now: int): FamilyState {
    var w := Roll(Window(fs.count, fs.windowStart), now);
    fs.(count := w.count, windowStart := w.start)
  }

  function BudgetDenial(windowStart: int, now: int, reason: DenyReason): Verdict {
    var remaining := windowStart + WINDOW_MS - now;
    Denied(Max(1, CeilSeconds(remaining)), Max(1, remaining), reason)
  }

  /** Whether the report is refused as a repeat, given the pruned ledger. */
  predicate Repeats(ledger: seq<Seen>, identity: Option<string>, now: int) {
    && identity.Some?
    && var seenAt := Lookup(ledger, identity.value);
       seenAt.Some? && now - seenAt.value < IDENTITY_WINDOW_MS
  }

  /** The counters' half of a check, after the same-report rule has passed. */
  function SpendBudget(st0: State, now: int, family: string, identity: Option<string>): (State, Verdict) {
    var st := RollAggregate(st0, now);
    if st.aggregateCount >= AGGREGATE_CAP then
      (st, BudgetDenial(st.aggregateWindowStart, now, Aggregate))
    else
      var fs := RollFamily(FamilyOf(st, family, now), now);
      if fs.count >= CapOf(fs, now) then
        (st.(families := st.families[family := fs]), BudgetDenial(fs.windowStart, now, Family))
      else
        (State(
           st.families[family := fs.(count := fs.count + 1)],
           if identity.Some? then Put(st.identities, Seen(identity.value, now)) else st.identities,
           st.aggregateCount + 1,
           st.aggregateWindowStart),
         Allowed)
  }

  function CheckSpec(st: State, now: int, family: string, identity: Option<string>): (State, Verdict) {
    var ledger := if identity.Some? then Prune(st.identities, now) else st.identities;
    if Repeats(ledger, identity, now) then
      var remaining := Lookup(ledger, identity.value).value + IDENTITY_WINDOW_MS - now;
      (st.(identities := ledger), Denied(CeilSeconds(remaining), remaining, SameReport))
    else
      SpendBudget(st.(identities := ledger), now, family, identity)
  }

  function BackoffSpec(st: State, now: int, family: string, retryAfter: Option<int>): State {
    var seconds := if retryAfter.Some? then retryAfter.value else 60;
    var fs := FamilyOf(st, family, now);
    var until := now + Max(seconds * 1000, BACKOFF_MIN_PENALTY_MS);
    st.(families := st.families[family := fs.(halvedUntil := Max(fs.halvedUntil, until))])
  }

  function Handle(st: State, now: int, r: Request): State {
    match r
    case Check(family, identity) => CheckSpec(st, now, family, identity).0
    case Backoff(family, retryAfter) => BackoffSpec(st, now, family, retryAfter)
  }

  // ---- the object

  /** The durable storage cell of the object. */
  class Storage {
    var saved: Option<State>

    constructor ()
      ensures saved == None
    {
      saved := None;
    }
  }

  class StRateLimiter {
    const storage: Storage
    var families: map<string, FamilyState>
    var identities: seq<Seen>
    var aggregateCount: nat
    var aggregateWindowStart: int

    ghost function Abs(): State
      reads this
    {
      State(families, identities, aggregateCount, aggregateWindowStart)
    }

    /** Waking up: the saved state when there is one, otherwise a fresh window. */
    constructor (storage: Storage, now: int)
      ensures this.storage == storage
      ensures Abs() == if storage.saved.Some? then storage.saved.value else Initial(now)
    {
      this.storage := storage;
      families, identities, aggregateCount, aggregateWindowStart := map[], [], 0, now;
      new;
      if storage.saved.Some? {
        var stored := storage.saved.value;
        families, identities := stored.families, stored.identities;
        aggregateCount, aggregateWindowStart := stored.aggregateCount, stored.aggregateWindowStart;
      }
    }

    /** The expiry loop of a prune. */
    method DeleteExpired(now: int)
      modifies this`identities
      ensures identities == DropExpired(old(identities), now)
    {
      var live, k := [], 0;
      while k < |identities|
        invariant k <= |identities|
        invariant live + DropExpired(identities[k..], now) == DropExpired(identities, now)
      {
        if now - identities[k].at < IDENTITY_WINDOW_MS {
          live := live + [identities[k]];
        }
        k := k + 1;
      }
      identities := live;
    }

    /** The eviction loop of a prune. */
    method DeleteKeys(gone: seq<Seen>)
      modifies this`identities
      ensures identities == Without(old(identities), gone)
    {
      var kept, k := [], 0;
      while k < |identities|
        invariant k <= |identities|
        invariant kept + Without(identities[k..], gone) == Without(identities, gone)
      {
        if !Holds(gone, identities[k].identity) {
          kept := kept + [identities[k]];
        }
        k := k + 1;
      }
      identities := kept;
    }

    method PruneIdentities(now: int)
      modifies this`identities
      ensures identities == Prune(old(identities), now)
    {
      DeleteExpired(now);
      if |identities| <= MAX_TRACKED_IDENTITIES { return; }
      var byAge := SortByAge(identities);
      DeleteKeys(byAge[..|identities| - MAX_TRACKED_IDENTITIES]);
    }

    method GetFamily(family: string, now: int) returns (fs: FamilyState)
      modifies this`families
      ensures fs == FamilyOf(old(Abs()), family, now)
      ensures families == old(families)[family := fs]
    {
      if family !in families {
        families := families[family := FamilyState(0, now, 0)];
      }
      fs := families[family];
      assert families == old(families)[family := fs];
    }

    method CheckReport(now: int, family: string, identity: Option<string>) returns (v: Verdict)
      modifies this
      ensures (Abs(), v) == CheckSpec(old(Abs()), now, family, identity)
    {
      if identity.Some? {
        PruneIdentities(now);
        var seenAt := Lookup(identities, identity.value);
        if seenAt.Some? && now - seenAt.value < IDENTITY_WINDOW_MS {
          var remaining := seenAt.value + IDENTITY_WINDOW_MS - now;
          return Denied(CeilSeconds(remaining), remaining, SameReport);
        }
      }
      v := CheckBudget(now, family, identity);
    }

    method CheckBudget(now: int, family: string, identity: Option<string>) returns (v: Verdict)
      modifies this
      ensures (Abs(), v) == SpendBudget(old(Abs()), now, family, identity)
    {
      if now - aggregateWindowStart >= WINDOW_MS {
        aggregateCount := 0;
        aggregateWindowStart := now;
      }
      if aggregateCount >= AGGREGATE_CAP {
        var remaining := aggregateWindowStart + WINDOW_MS - now;
        return Denied(Max(1, CeilSeconds(remaining)), Max(1, remaining), Aggregate);
      }
      ghost var before := families;
      var fs := GetFamily(family, now);
      if now - fs.windowStart >= WINDOW_MS {
        fs := fs.(count := 0, windowStart := now);
        families := families[family := fs];
      }
      assert families == before[family := fs];
      var cap := if now < fs.halvedUntil then Max(1, DEFAULT_FAMILY_CAP / 2) else DEFAULT_FAMILY_CAP;
      if fs.count >= cap {
        var remaining := fs.windowStart + WINDOW_MS - now;
        return Denied(Max(1, CeilSeconds(remaining)), Max(1, remaining), Family);
      }
      fs := fs.(count := fs.count + 1);
      families := families[family := fs];
      assert families == before[family := fs];
      aggregateCount := aggregateCount + 1;
      if identity.Some? {
        identities := Put(identities, Seen(identity.value, now));
      }
      return Allowed;
    }

    method ApplyBackoff(now: int, family: string, retryAfterSeconds: int)
      modifies this
      ensures Abs() == BackoffSpec(old(Abs()), now, family, Some(retryAfterSeconds))
    {
      var fs := GetFamily(family, now);
      var penaltyMs := Max(retryAfterSeconds * 1000, BACKOFF_MIN_PENALTY_MS);
      ghost var before := old(families);
      fs := fs.(halvedUntil := Max(fs.halvedUntil, now + penaltyMs));
      families := families[family := fs];
      assert families == before[family := fs];
    }

    /** One request: answered, and the whole state saved before the reply leaves. */
    method Fetch(now: int, r: Request) returns (v: Option<Verdict>)
      modifies this, storage
      ensures Abs() == Handle(old(Abs()), now, r)
      ensures storage.saved == Some(Abs())
      ensures v == if r.Check? then Some(CheckSpec(old(Abs()), now, r.family, r.identity).1) else None
    {
      match r {
        case Check(family, identity) =>
          var verdict := CheckReport(now, family, identity);
          v := Some(verdict);
        case Backoff(family, retryAfter) =>
          ApplyBackoff(now, family, if retryAfter.Some? then retryAfter.value else 60);
          v := None;
      }
      storage.saved := Some(State(families, identities, aggregateCount, aggregateWindowStart));
    }
  }
}
