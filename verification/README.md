# A verified model of the ServiceTitan connector's protocol, paging and money logic

The Worker modelled here stands between an AI client and ServiceTitan. Most of its tools are thin
fetches. This project models the part where something can go quietly wrong: the limiter that rations
upstream calls, the two-phase gate in front of every write, the check that a money write took effect,
the decisions about accounts-payable bills, and the small machinery of paging, ranking, locking and
data-age disclosure. Every statement below is about all inputs, all runs or all interleavings, unless
it is a named counterexample. `dafny verify dfyconfig.toml` checks the whole project.

## The modules

**Rate limiting.** `StRateLimiter.dfy` (module `RateLimiter`) is the durable object as a class, its
methods tied to functions on its state. `FixedWindow` turns the step rule of one counter into a bound
on every interval; `LimiterRuns` applies it to whole runs and proves the state invariant;
`SameReport` says what the bounded ledger of report runs really guarantees; `Hibernation` shows that
losing memory and restoring it is invisible; `RateLimitGuard` is the caller's pacing loop against the
live object; `Burst` is the shortest traffic that fills the aggregate window. Time is integer milliseconds that never go back, and one request is one atomic step.

**Writes.** `Canonical` is the canonical form under which arguments are hashed, with its meaning as
nested maps and arrays as an independent reference. `TokenEnvelope` is the token as text. `WriteGate`
is the gate and its token table as classes; `GateProtocol` is every interleaving of any number of
callers at the database steps, with the exact condition for an issued token to pass in every state they reach. `SoundDigest` shows that what is assumed of the cryptography can be had.
`AddLineItems` is the invoice-line write: sequential writes to a remote
that may drop fields or lag, then a verdict by comparison with what was there before.

**Bills.** `ReconcileAmount` is the six-mode reconciler over exact reals with explicit rounding to
cents. `ApListing` pages a server that is not trusted. `DedupCheck` is the four-valued duplicate
verdict.

**Reading.** `PagedRead` holds both page drainers, `UnpaidScan` the filtered window scan,
`SemanticSearch` deduplication and the per-entity quota, `MapLimit` the bounded-concurrency map under
any schedule. `GoldWatermark` and `MirrorFreshness` are the two disclosures of data age, over the
rounding in `Hours`. `SnapshotLock` is the per-customer lock. `Wrappers` holds `Option`; `Sets`, `Money` and
`Chars` hold what several modules share.

## Where the code and its documentation differ

The model follows the code. Each case names its concrete counterexample, its exact condition, or both.

- One run of a report per minute (`src/durable/st-rate-limiter.ts:139-147`) fails once 512 other
  reports have run in between: `SameReport.RepeatCaughtExactly` is the exact condition and
  `SameReport.RepeatCanSlipThrough` a run; no traffic brings two runs closer than 24 seconds.
- A comment puts the aggregate cap at 80 calls a minute (`src/rate-limit-guard.ts:13`); the code allows
  20 a second, and `SameReport.FarMoreThanEightyAMinute` is a run granted more than 512 in a minute.
- A verified write is said to show a new item for each append; the code counts rows, so a reading that
  lists one new line twice also passes: `AddLineItems.NewIdsExactly`, `AddLineItems.OneIdCanVerifyTwoAppends`.
- The best-scoring row is said to represent its group (`src/tools/gold/semantic_search_gold.ts:138-141`);
  the code keeps the first row and raises only its similarity. `SemanticSearch.NamedByBestExactly` is the
  exact condition; it holds of rows ranked by similarity, and `SemanticSearch.RepresentativeNeedNotBeBest`
  is an input where it fails.
- `_pages_scanned` counts one page too many when the window fills early
  (`src/tools/invoicing/list_unpaid_invoices.ts:108`): `UnpaidScan.PagesScannedExactly`,
  `UnpaidScan.OnePageReportedAsTwo`. It is right whenever the scan is incomplete.
- A build is said to be stale past 26 hours and a mirror table unproven past 48; ages are rounded to
  tenths first, so the limits are really 26 h 3 min and 48 h 3 min: `GoldWatermark.StaleExactly`,
  `Hours.AgeExactly`.
- The mirror's `_stale_hours` is documented as null under an unknown headline
  (`src/mirror-freshness.ts:80-84`); the code reports the worst age there too:
  `MirrorFreshness.StaleHoursExactly`, `MirrorFreshness.AgeUnderUnknown`.
- Every path that cannot prove its data current is said to answer unknown
  (`src/mirror-freshness.ts:54-56`); a sync time in the future, however far, reads as fresh:
  `MirrorFreshness.FutureIsFresh`. The warehouse stamp does guard against it, beyond a tolerance of an
  hour: `GoldWatermark.FreshExactly`.
- A token is said to be refused to another actor (`src/write-gate.ts:144`); it is bound to its actor as
  written with %7C for each pipe, so actors that differ only in that share tokens:
  `TokenEnvelope.EscapeSharedExactly` is the exact condition.
- Two values that differ only in an undefined array element have different canonical forms and one
  hash, because JSON writes the element as null: `Canonical.HoleHashesAsNull`.
- `mapLimit` with a limit of zero or less returns an array of empty slots without calling anything:
  `MapLimit.PlainMapExactly`.
- The snapshot lock promises one fetcher per customer; release does not check who holds the lock, so
  a late release can free another caller's: `SnapshotLock.ExclusiveExactly`,
  `SnapshotLock.LateReleaseFreesAnother`.
- A waiter that follows the advised waits to the millisecond reaches the lock's last millisecond,
  where the advice is to wait 0 ms: `SnapshotLock.ExactWaitersAreRefused`.

## Assumptions

SHA-256 never collides on the documents it is given, and neither it nor the MAC puts a '|' into its
output; tool names hold no '|'. `SoundDigest` exhibits a digest with these properties, and that a token is
accepted only once, or that writes need tokens, rests on none of them. D1 returns a numeric `changes`, and
SELECT and UPDATE are each atomic. Sending requests, reading clocks and the answers of remotes are inputs
of the model, arbitrary unless a statement says otherwise. Money and quantities are exact reals.

## Model

| member | source | states |
|---|---|---|
| `RateLimiter.StRateLimiter.constructor` | src/durable/st-rate-limiter.ts:177-189 | waking restores the saved state exactly, or starts a fresh window when nothing was saved |
| `RateLimiter.StRateLimiter.DeleteExpired` | src/durable/st-rate-limiter.ts:231-233 | the expiry loop removes exactly the entries 60 s old or older, whatever their order |
| `RateLimiter.StRateLimiter.DeleteKeys` | src/durable/st-rate-limiter.ts:236-238 | the eviction loop removes exactly the chosen keys |
| `RateLimiter.StRateLimiter.PruneIdentities` | src/durable/st-rate-limiter.ts:230-239 | expiry, then age-ordered eviction down to 512 entries |
| `RateLimiter.StRateLimiter.GetFamily` | src/durable/st-rate-limiter.ts:222-227 | an unknown family is entered with an empty window and no penalty; a known one is returned unchanged |
| `RateLimiter.StRateLimiter.CheckReport` | src/durable/st-rate-limiter.ts:241-303 | a check: same-report rule first, then the aggregate budget, then the family's; the whole new state and the verdict |
| `RateLimiter.StRateLimiter.CheckBudget` | src/durable/st-rate-limiter.ts:262-302 | the two budgets of a check, window rolls included; the whole new state and the verdict |
| `RateLimiter.StRateLimiter.ApplyBackoff` | src/durable/st-rate-limiter.ts:305-309 | an upstream 429 extends the family's halving penalty, never shortens it, and touches nothing else |
| `RateLimiter.StRateLimiter.Fetch` | src/durable/st-rate-limiter.ts:191-220 | one request: the new state is the request's, storage holds exactly that state before the reply, and the reply is the verdict |
| `FixedWindow.SlidingBound` | src/durable/st-rate-limiter.ts:262-301 | any counter that obeys the fixed-window step rule grants at most cap * (1 + ceil(L / 1000)) in any half-open interval of L ms |
| `FixedWindow.WindowsExactly` | src/durable/st-rate-limiter.ts:262-301 | the windows counted in these bounds are the seconds begun: the ceiling of L / 1000, and none for an empty interval |
| `LimiterRuns.ReachableIsValid` | src/durable/st-rate-limiter.ts:191-309 | on every run with a nondecreasing clock, every reachable state keeps its invariant: at most 513 ledger entries, distinct reports, ledger order is time order, counts within caps, windows not in the future |
| `LimiterRuns.PruneDropsOldest` | src/durable/st-rate-limiter.ts:229-239 | on a reachable ledger a prune removes a prefix: only expired entries and, beyond 512, only the oldest |
| `LimiterRuns.SortByAgeSorts` | src/durable/st-rate-limiter.ts:235-236 | eviction goes through the entries from the oldest to the newest, all of them |
| `LimiterRuns.PutExactly` | src/durable/st-rate-limiter.ts:301 | logging a report changes what is found under it and under nothing else, and adds an entry only for a new report |
| `LimiterRuns.CheckOnLedger` | src/durable/st-rate-limiter.ts:248-260 | a check is refused as a repeat exactly when the pruned ledger still holds the report, and a granted one adds one last entry |
| `LimiterRuns.GrantedExactly` | src/durable/st-rate-limiter.ts:241-303 | exactly when a check is granted, with the numbers: no repeat, fewer than 20 units spent in the aggregate window in force and fewer than 12 in the family's, or 6 under a penalty; otherwise which of the three refuses and for how long |
| `LimiterRuns.RepeatWaitIsExact` | src/durable/st-rate-limiter.ts:248-260 | a repeat is refused with a wait of 1 to 60 000 ms, spends nothing, and asked again with nothing in between is refused before that wait is over and never after |
| `LimiterRuns.AggregateBound` | src/durable/st-rate-limiter.ts:262-275 | over every run, any half-open interval of L ms holds at most 20 * (1 + ceil(L / 1000)) granted checks |
| `LimiterRuns.FamilyBound` | src/durable/st-rate-limiter.ts:277-297 | over every run, the same interval holds at most 12 * (1 + ceil(L / 1000)) granted checks of one family |
| `LimiterRuns.PenaltyBound` | src/durable/st-rate-limiter.ts:284-309 | after a reported 429, an interval of L ms inside its penalty holds at most 6 * (1 + ceil(L / 1000)) granted checks of that family (12 in a second) |
| `LimiterRuns.BackoffHalves` | src/durable/st-rate-limiter.ts:305-309 | from the next request on, in every later state, the penalised family is known and its penalty lasts at least as long as announced and at least a minute |
| `LimiterRuns.PenaltyExactly` | src/durable/st-rate-limiter.ts:305-309 | over every run a family is under a penalty at a time exactly when some earlier 429 report of it says so: for its announced seconds, at least 60, from then; penalties do not add up |
| `SameReport.RepeatCaughtExactly` | src/durable/st-rate-limiter.ts:248-260 | asked again within a minute of its last run, a report is refused as a repeat if and only if fewer than 512 distinct other reports ran in between |
| `SameReport.RepeatNeedsCrowd` | src/durable/st-rate-limiter.ts:230-260 | on every run, two grants of one report less than 60 000 ms apart have at least 512 other distinct reports granted between them |
| `SameReport.RepeatsAtLeast24SecondsApart` | src/durable/st-rate-limiter.ts:230-303 | on every run, two grants of one report are at least 24 000 ms apart |
| `SameReport.FarMoreThanEightyAMinute` | src/rate-limit-guard.ts:10-16 | the commented cap of 80 calls a minute is not kept: a concrete run is granted more than 512 in its first minute |
| `SameReport.RepeatCanSlipThrough` | src/durable/st-rate-limiter.ts:139-147 | the documented rule, one run of a report per minute, is not met on all runs: a concrete run grants a report again after 51.3 s |
| `Hibernation.SleepIsInvisible` | src/durable/st-rate-limiter.ts:177-220 | once the saved state is the live one, hibernations at any later moments change no later verdict |
| `Hibernation.ServedThenSleeping` | src/durable/st-rate-limiter.ts:207-219 | one served request is enough: every verdict after it is the same with and without hibernation |
| `Hibernation.ColdSleepExactly` | src/durable/st-rate-limiter.ts:174-188 | before anything is saved, waking leaves the state and every later verdict as they were if and only if no time has passed |
| `Hibernation.WindowsShow` | src/durable/st-rate-limiter.ts:174-188 | the input for the other case: a sequence of checks that is answered differently from the two windows |
| `RateLimitGuard.CheckRateLimit` | src/rate-limit-guard.ts:157-203 | the pacing loop against the live limiter, other callers' requests between its turns: state, outcome and number of checks |
| `RateLimitGuard.GuardExactly` | src/rate-limit-guard.ts:170-202 | under any contention one to four checks are sent, all but the last denied; it passes exactly when the last is granted and otherwise reports that denial, which is a repeat, a wait over 1200 ms, or the fourth |
| `RateLimitGuard.BudgetDenialIsShort` | src/durable/st-rate-limiter.ts:267-297 | every budget denial asks for 1 to 1000 ms, so it is always short enough to wait out |
| `RateLimitGuard.UnitsSpent` | src/durable/st-rate-limiter.ts:262-302 | a grant takes exactly one unit of each budget and logs its report; a denial logs nothing and leaves each counter as it was or rolled to a new window |
| `RateLimitGuard.LoopTakesExactly` | src/rate-limit-guard.ts:157-203 | under any contention a caller that passes has taken exactly one unit of each budget with its own checks, and one that is turned away none |
| `RateLimitGuard.TakenMore` | src/rate-limit-guard.ts:157-203 | what several checks take is what each takes, added up |
| `RateLimitGuard.LoneCallerPasses` | src/rate-limit-guard.ts:157-203 | from any reachable limiter state a lone caller whose report is due passes after at most two waits |
| `RateLimitGuard.TwoWaitsCanBeNeeded` | src/rate-limit-guard.ts:189-196 | two is tight: a run from the start after which the lone caller is denied by each budget in turn |
| `RateLimitGuard.ParseRetryAfterSeconds` | src/rate-limit-guard.ts:228-232 | Retry-After in positive delta-seconds is kept, anything else means 60 |
| `RateLimitGuard.GuardedFamilyFetch` | src/rate-limit-guard.ts:256-268 | a denied call never reaches the upstream; an upstream 429 is reported back once, with the parsed wait |
| `Canonical.CanonicalExactly` | src/write-gate.ts:50-62 | two values have one canonical form if and only if they are equal as nested maps and arrays, undefined fields dropped and key order ignored |
| `Canonical.CanonicalizeIdempotent` | src/write-gate.ts:50-62 | canonicalising twice is canonicalising once |
| `Canonical.KeepsMeaning` | src/write-gate.ts:46-62 | every nested defined field keeps its value, and the result has sorted keys and no undefined field at any depth |
| `Canonical.HashExactly` | src/write-gate.ts:64-70 | given a digest that never collides, two argument values hash alike if and only if they mean the same JSON document |
| `Canonical.HashIsCanonical` | src/write-gate.ts:64-70 | among values without undefined array elements, equal hashes are equal canonical forms |
| `Canonical.HoleHashesAsNull` | src/write-gate.ts:64-66 | an undefined array element hashes as null although the canonical forms differ: exactly the values with such an element |
| `SoundDigest.SoundCryptoExists` | src/write-gate.ts:64-70 | the hypothesis on the cryptography can be met: there is a digest of documents into text that never collides and holds no pipe sign |
| `TokenEnvelope.SplitIssued` | src/write-gate.ts:103-116 | splitting any issued envelope on the pipe sign gives back exactly tool, hash, escaped actor, issue time and MAC |
| `TokenEnvelope.DecimalRoundTrip` | src/write-gate.ts:140-140 | the issue time read back from the envelope is the one printed |
| `TokenEnvelope.MessageIsJoin` | src/write-gate.ts:150-150 | the message re-signed on verification is the message signed on issue |
| `TokenEnvelope.EscapeKeepsPipeFree` | src/write-gate.ts:106-107 | an actor without a pipe is written as it is |
| `TokenEnvelope.EscapeReplacesPipe` | src/write-gate.ts:106-107 | each pipe is written %7C, between what is written for the parts around it |
| `TokenEnvelope.EscapeSharedExactly` | src/write-gate.ts:141-144 | another actor is written alike, and so may use the token, exactly when the actor holds a pipe or a %7C |
| `WriteGate.TokenTable.InsertOrIgnore` | src/write-gate.ts:113-116 | the insert leaves an existing row alone |
| `WriteGate.TokenTable.ConsumeUnused` | src/write-gate.ts:168-170 | the conditional update marks an unused row once and reports whether it did |
| `WriteGate.NewRowExactly` | src/write-gate.ts:103-116 | a fresh row carries its own tool and arguments, is unused, and expires after the time asked for but never more than 900 000 ms after issue |
| `WriteGate.WriteGate.DryRun` | src/write-gate.ts:93-127 | a dry run issues the envelope of these arguments and stores its row with an expiry at most 15 minutes after issue |
| `WriteGate.WriteGate.VerifyToken` | src/write-gate.ts:131-174 | every check in order, then SELECT, then UPDATE with any statements of other callers between them: the verdict and the table |
| `WriteGate.HandleWrite` | src/write-tool-factory.ts:112-158 | an invalid call, a dry run or a refused token sends nothing; one request is sent exactly when the token was consumed by this call |
| `GateProtocol.TokenAcceptedOnce` | src/write-gate.ts:156-173 | over every interleaving of any number of callers' issue, SELECT, UPDATE and write steps, and whatever the digest and the MAC, each token is accepted at most once |
| `GateProtocol.AcceptedWasIssued` | src/write-gate.ts:131-173 | given a digest that never collides, every accepted call answers an earlier dry run of the same tool, the same arguments as JSON and the same escaped actor (the same actor, where neither holds a pipe), checked no later than its expiry, at most 15 minutes after issue |
| `GateProtocol.WritesNeedTokens` | src/write-tool-factory.ts:132-149 | over the same interleavings, whatever the digest and the MAC, live writes never outnumber the distinct tokens issued |
| `GateProtocol.IssuedTokenVerdict` | src/write-gate.ts:131-155 | given a digest that never collides, an issued token presented by anyone with anything is refused for the first of these that differs, in order: tool, escaped actor, 900 000 ms over, arguments as JSON; and for nothing else |
| `GateProtocol.WrongTagIsRefused` | src/write-gate.ts:148-151 | a token in time whose last part is not the MAC of the rest is refused for its signature |
| `GateProtocol.RowVerdict` | src/write-gate.ts:156-173 | over every interleaving, the row of an issued token reads used exactly once a call was accepted with it, expired exactly after its first issue's time, and is never missing |
| `GateProtocol.PassesExactly` | src/write-gate.ts:131-166 | over every interleaving, an issued token passes the checks if and only if tool, actor and arguments are its issue's, it is in time on both clocks, and no call was accepted with it yet |
| `GateProtocol.FreshTokenIsAccepted` | src/write-gate.ts:93-173 | a token issued afresh and presented unchanged within its time is accepted, and its call then writes, in any state of the gate and with any digest and MAC free of the pipe sign |
| `GateProtocol.EveryRunCanWrite` | src/write-tool-factory.ts:121-149 | every run can be continued by a dry run and a live call that consumes its token and writes once |
| `AddLineItems.ValidateLines` | src/tools/invoicing/st_add_invoice_line_item.ts:230-250 | accepts exactly the requests whose appends each name a SKU and a unit price |
| `AddLineItems.IndexItems` | src/tools/invoicing/st_add_invoice_line_item.ts:292-300 | rows by finite id, the last one where an id repeats |
| `AddLineItems.ReRead` | src/tools/invoicing/invoice-verify.ts:209-260 | at most one read more than there are delays; stops at the first reading that shows the appends, else hands over the last reading of the invoice, and gives up only when none was observed |
| `AddLineItems.AdjudicateUpdates` | src/tools/invoicing/st_add_invoice_line_item.ts:550-603 | the first update that did not land, and how; otherwise the ids in order |
| `AddLineItems.Adjudicate` | src/tools/invoicing/st_add_invoice_line_item.ts:495-621 | the verdict on an observed invoice, against the reading taken before the writes |
| `AddLineItems.VerifiedExactly` | src/tools/invoicing/st_add_invoice_line_item.ts:495-621 | verified if and only if the reading shows the effect: one new row per append, their money within 0.005 of the sum of unitPrice * quantity, every updated id present with the price sent (or, unsent, unchanged to 0.005) and an unsent cost unchanged; unavailable exactly when the reading carries no items field |
| `AddLineItems.AddLines` | src/tools/invoicing/st_add_invoice_line_item.ts:330-621 | the whole live call against an arbitrary lagging remote: verified exactly when all writes were answered and the reading judged shows the effect; otherwise the verdict on that reading, or writes stop at the first one not answered and the ids learned before it are reported |
| `AddLineItems.VerifiedReports` | src/tools/invoicing/st_add_invoice_line_item.ts:605-614 | a verified write reports the new rows' ids in order, the updated ids in order, and two totals of the appends that agree to 0.005 |
| `AddLineItems.AppendsVerifiedExactly` | src/tools/invoicing/st_add_invoice_line_item.ts:517-548 | appends read back as new rows, in plain numbers: verified exactly when there are as many rows as lines and the sums of price times quantity, sent and read, are within 0.005; else a no-op by the count or a mismatch by the money |
| `AddLineItems.OneAppendExactly` | src/tools/invoicing/invoice-verify.ts:85-108 | one append and one new row: verified exactly when unitPrice * quantity and the price read times the quantity read are within 0.005, the price from `price` or, where that cannot be read, from `unitPrice` |
| `AddLineItems.OneUpdateExactly` | src/tools/invoicing/st_add_invoice_line_item.ts:550-603 | one update of a line that is still there: verified exactly when the price sent, or if none the price readable before, is read back to 0.005, and an unsent cost readable before likewise; otherwise the money is wrong |
| `AddLineItems.IndexExactly` | src/tools/invoicing/st_add_invoice_line_item.ts:292-300 | the index holds exactly the finite ids, each with its last row |
| `AddLineItems.ChosenIsUnique` | src/tools/invoicing/invoice-verify.ts:220-252 | only one reading is judged |
| `AddLineItems.NewIdsExactly` | src/tools/invoicing/st_add_invoice_line_item.ts:517-537 | a verified reading shows as many new ids as appends exactly when no new id repeats in it |
| `AddLineItems.OneIdCanVerifyTwoAppends` | src/tools/invoicing/st_add_invoice_line_item.ts:518-531 | rows are counted, not ids: a reading that lists one new line twice verifies two appends |
| `ReconcileAmount.ReconcilesExactly` | src/tools/ap_inbox/ap_inbox_reconcile_amount.ts:163-382 | a bill reconciles if and only if nothing in it is refused, some mode fits the header within 4 cents, and all modes that fit give the same cents on every line; the mode is the first that fits |
| `ReconcileAmount.AmbiguousExactly` | src/tools/ap_inbox/ap_inbox_reconcile_amount.ts:345-368 | held as ambiguous if and only if modes fit that differ on some line's cents |
| `ReconcileAmount.MatchesExactly` | src/tools/ap_inbox/ap_inbox_reconcile_amount.ts:277-334 | the winner is the first fitting mode in the fixed order and the matches are exactly the fitting modes |
| `ReconcileAmount.FitsExactly` | src/tools/ap_inbox/ap_inbox_reconcile_amount.ts:178-331 | when each of the six modes fits, in the bill's own numbers: the sum of cost times quantity or of costs, plus the charges the mode adds, within 4 cents of the header, and only with freight or tax to leave out where the mode leaves one out |
| `ReconcileAmount.AllocationsAre` | src/tools/ap_inbox/ap_inbox_reconcile_amount.ts:345-348 | what a mode puts on a line: the cents of cost times quantity, or of the cost in the extended modes |
| `ReconcileAmount.RefusedExactly` | src/tools/ap_inbox/ap_inbox_reconcile_amount.ts:191-275 | a bill is tried exactly when nothing in it is missing, illegible, zero where it may not be, or overtaxed; a reason given for refusing is one that holds |
| `ReconcileAmount.ThreeAtAHundred` | src/tools/ap_inbox/ap_inbox_reconcile_amount.ts:286-290 | three at 100 with a header of 300 reconcile by unit cost |
| `ReconcileAmount.ReconciledTotalNearHeader` | src/tools/ap_inbox/ap_inbox_reconcile_amount.ts:81-82 | the chosen total is within 4 cents of the header |
| `ReconcileAmount.FiledTaxAndShipping` | src/tools/ap_inbox/ap_inbox_reconcile_amount.ts:195-329 | a bill that reconciles was readable throughout; it is filed with its own tax and shipping, each zeroed exactly when the mode says the lines hold it, and only when there is some to zero |
| `ReconcileAmount.HeldReportsNearest` | src/tools/ap_inbox/ap_inbox_reconcile_amount.ts:384-403 | held for want of a mode if and only if the bill is tried and none fits, and the total reported is then that of an eligible mode nearest to the header |
| `ReconcileAmount.QuantitiesOfOneNeverAmbiguous` | src/tools/ap_inbox/ap_inbox_reconcile_amount.ts:345-354 | a bill whose quantities are all 1 is never held as ambiguous |
| `ReconcileAmount.FiledCentsNearHeader` | src/tools/ap_inbox/ap_inbox_reconcile_amount.ts:345-382 | the cents filed line by line plus applied tax and shipping differ from the header's by at most 4 + (n + 3) / 2 for n lines |
| `ReconcileAmount.LineOrderIrrelevant` | src/tools/ap_inbox/ap_inbox_reconcile_amount.ts:163-412 | permuting the lines changes nothing in the answer |
| `ApListing.CheckBatch` | src/tools/ap_inbox/ap_inbox_list_documents.ts:299-345 | the first offending row of a page decides the error: malformed, of another status, contradictory, or seen before |
| `ApListing.NoErrorExactly` | src/tools/ap_inbox/ap_inbox_list_documents.ts:299-345 | a page passes if and only if all its rows are acceptable and all identities so far are distinct |
| `ApListing.FirstErrorExactly` | src/tools/ap_inbox/ap_inbox_list_documents.ts:299-345 | the error names the first thing wrong with the first bad row, in the order malformed, other status, contradictory flag, repeated identity |
| `ApListing.AcceptableExactly` | src/tools/ap_inbox/ap_inbox_list_documents.ts:99-105 | an acceptable row names its document and bill, is of the status asked for, and its flag is true for status 3 and false for status 2 |
| `ApListing.StatusesExactly` | src/tools/ap_inbox/ap_inbox_list_documents.ts:218-218 | each status asked for once, in the order first named; none asked for are 2 and 3 |
| `ApListing.ListStatus` | src/tools/ap_inbox/ap_inbox_list_documents.ts:233-363 | the paging loop of one status |
| `ApListing.ListingCovers` | src/tools/ap_inbox/ap_inbox_list_documents.ts:252-363 | whatever the server answers, a listing that succeeds holds the rows of at most 20 pages, all of the requested status with consistent flags, pairwise distinct, and at least the one total that every page reported |
| `ApListing.HonestServerListed` | src/tools/ap_inbox/ap_inbox_list_documents.ts:252-363 | a server that pages through one unchanging list of at most 20 pages is listed in full |
| `ApListing.ListDocuments` | src/tools/ap_inbox/ap_inbox_list_documents.ts:218-365 | succeeds exactly when every requested status can be listed, and then gives the documents of each status once, in order, each covered and with its own total; otherwise the first failing status decides the error |
| `ApListing.Enrich` | src/tools/ap_inbox/ap_inbox_list_documents.ts:367-422 | exactly the rows of the window get their detail, the rest stay as they were, and the next cursor says where to go on |
| `ApListing.FollowingEnrichesOnce` | src/tools/ap_inbox/ap_inbox_list_documents.ts:369-422 | over an unchanged list, following next_cursor from 0 enriches every row exactly once, in ceil(n / limit) calls, and stops |
| `DedupCheck.NormalizeShape` | src/tools/ap_inbox/ap_inbox_dedup_check.ts:58-76 | the key holds capital letters and digits without leading zeros, is empty exactly when the number holds none, and is its own key |
| `DedupCheck.NormalizeIgnores` | src/tools/ap_inbox/ap_inbox_dedup_check.ts:45-76 | punctuation and blanks anywhere, case and leading zeros do not change the key, and zeros alone never become the empty key |
| `DedupCheck.NormalizeExactly` | src/tools/ap_inbox/ap_inbox_dedup_check.ts:66-73 | the key is the letters and digits kept, without their leading zeros, or a single zero where there is nothing else |
| `DedupCheck.KeptOfOne` | src/tools/ap_inbox/ap_inbox_dedup_check.ts:66-68 | what is kept of each character: digits, capitals, and small letters as capitals |
| `DedupCheck.VendorsMatchExactly` | src/tools/ap_inbox/ap_inbox_dedup_check.ts:116-127 | same vendor: by the ids where both are positive, else by the slugs where both are nonempty, else unknown |
| `DedupCheck.SlugOfOne` | src/tools/ap_inbox/ap_inbox_dedup_check.ts:78-82 | of a vendor name are kept digits, small letters, and capitals as small letters |
| `DedupCheck.CentsEqualExactly` | src/tools/ap_inbox/ap_inbox_dedup_check.ts:42-44 | amounts that agree are less than a cent apart, and whole cents agree only when equal |
| `DedupCheck.Scan` | src/tools/ap_inbox/ap_inbox_dedup_check.ts:296-331 | each set is split, in order, into confirmed rows, doubtful rows and a count of unreadable ones |
| `DedupCheck.DedupCheck` | src/tools/ap_inbox/ap_inbox_dedup_check.ts:242-350 | the verdict is the strongest relation any row of either set stands in, with all the matching rows reported |
| `DedupCheck.ClearExactly` | src/tools/ap_inbox/ap_inbox_dedup_check.ts:344-350 | clear if and only if the candidate is readable, both sets were given, and every row but the candidate itself is readable with another invoice number |
| `DedupCheck.DuplicateExactly` | src/tools/ap_inbox/ap_inbox_dedup_check.ts:303-350 | duplicate if and only if the candidate is readable and some other readable row has the same key, the same vendor and the same cents; ambiguous if and only if only rows of the same key that disagree are found |
| `DedupCheck.MoreRowsNeverLower` | src/tools/ap_inbox/ap_inbox_dedup_check.ts:337-350 | adding rows to a given set only moves the verdict up clear < cannot_judge < ambiguous < duplicate |
| `DedupCheck.OnlyRowsMatter` | src/tools/ap_inbox/ap_inbox_dedup_check.ts:296-350 | row order, repeats and the set a row is in do not matter to the verdict |
| `DedupCheck.DuplicationIsSymmetric` | src/tools/ap_inbox/ap_inbox_dedup_check.ts:108-146 | one bill duplicates another exactly when the other duplicates it; likewise for the doubtful |
| `DedupCheck.DuplicationIsNotTransitive` | src/tools/ap_inbox/ap_inbox_dedup_check.ts:106-127 | a row without a vendor id can confirm two rows of different vendors that are not each other's duplicates |
| `SemanticSearch.DedupeByContent` | src/tools/gold/semantic_search_gold.ts:142-155 | the groups of the rows, ranked by similarity |
| `SemanticSearch.GroupsExactly` | src/tools/gold/semantic_search_gold.ts:142-153 | one group per content, counting its rows, sampling at most five sources, carrying their greatest similarity; the occurrence counts add up to the number of rows |
| `SemanticSearch.NamedRowScoredExactly` | src/tools/gold/semantic_search_gold.ts:138-153 | each match names exactly one row, the first of its content, and that row scored the similarity shown exactly when no later row of the content scores higher |
| `SemanticSearch.NamedByBestExactly` | src/tools/gold/semantic_search_gold.ts:138-153 | all matches are named by a best-scoring row if and only if no content's first row is outscored by a later one |
| `SemanticSearch.RankedRowsNameBest` | src/tools/gold/semantic_search_gold.ts:138-153 | so they are when the rows come ranked by similarity |
| `SemanticSearch.RepresentativeNeedNotBeBest` | src/tools/gold/semantic_search_gold.ts:138-153 | on two rows out of rank the row named by the match is not the one that scored |
| `SemanticSearch.SortRanks` | src/tools/gold/semantic_search_gold.ts:154-154 | ranking keeps exactly the groups |
| `SemanticSearch.ApplyPerEntityQuota` | src/tools/gold/semantic_search_gold.ts:161-184 | the quota loop, the backfill loop and the cut to k; the flag says whether any match was beyond its quota |
| `SemanticSearch.SelectedFills` | src/tools/gold/semantic_search_gold.ts:167-183 | exactly min(k, n) matches are returned, none more often than given |
| `SemanticSearch.SelectedAreDistinct` | src/tools/gold/semantic_search_gold.ts:161-184 | deduplicated matches stay distinct |
| `SemanticSearch.SelectedIsPrefixOfRanking` | src/tools/gold/semantic_search_gold.ts:161-184 | of each entity a prefix of that entity's ranking is returned |
| `SemanticSearch.OverQuotaOnlyInBackfill` | src/tools/gold/semantic_search_gold.ts:162-183 | an entity exceeds max(2, ceil(k / 4)) slots only when every within-quota match of every entity is also returned |
| `PagedRead.SettlePage` | src/paged-st-read.ts:116-168 | the nested retry loop settles a page by its first outcome that is not retried, with at most retries + 1 requests |
| `PagedRead.SettlesAt` | src/paged-st-read.ts:151-167 | the settling attempt is the last one allowed or is not a 429, 502, 503 or 504, and all before it are |
| `PagedRead.PageAtExactly` | src/paged-st-read.ts:109-168 | each page is asked for up to retries + 1 times and settled by the first outcome that is not a 429, 502, 503 or 504 reply, or by the last |
| `PagedRead.ReportsExactly` | src/paged-st-read.ts:109-193 | what each way of stopping puts into warnings, partialFailures and the truncated flag |
| `PagedRead.PagedStRead` | src/paged-st-read.ts:109-193 | stops at the first reason to stop and reports it; the items are the pages startPage to startPage + pageCount - 1, in order, within the request bound |
| `PagedRead.MaxRequestsIs` | src/paged-st-read.ts:109-131 | the request bound of the drain is maxPages * (retries + 1) |
| `PagedRead.ReadIsDetermined` | src/paged-st-read.ts:109-193 | source, limits and abort signal leave only one result |
| `PagedRead.NoWarningsExactly` | src/paged-st-read.ts:109-193 | no warnings if and only if the last page read looked done, or the limits allow no page at all; no earlier page looked done |
| `PagedRead.ReadSTPaged` | src/st.ts:219-248 | reads to the first page without more or to the cap, throws on the first failing page, and keeps the last total reported |
| `PagedRead.DrainersAgree` | src/st.ts:233-248 | on a failure-free upstream that always sends hasMore, both drainers return the same rows, and the same cap flag exactly when at least one page is allowed |
| `PagedRead.LargePagesAreCut` | src/st.ts:228-248 | pages of more than 500 rows are never asked for: any larger page size drains exactly what 500 does |
| `UnpaidScan.ListUnpaidInvoices` | src/tools/invoicing/list_unpaid_invoices.ts:86-110 | the scan of at most 25 pages, none read after the window was full or the source at its end |
| `UnpaidScan.UnpaidExactly` | src/tools/invoicing/list_unpaid_invoices.ts:99-103 | kept, in order, are exactly the rows with a balance that is not zero or not finite; no balance at all is zero |
| `UnpaidScan.ScanRefinesListing` | src/tools/invoicing/list_unpaid_invoices.ts:86-112 | on a source of n pages, a complete scan equals filtering all of it and cutting out the window, an incomplete one is a prefix of that, and at most 25 pages are read |
| `UnpaidScan.CompleteExactly` | src/tools/invoicing/list_unpaid_invoices.ts:108-109 | complete if and only if the source ends within 25 pages or those hold enough unpaid rows |
| `UnpaidScan.PagesScannedExactly` | src/tools/invoicing/list_unpaid_invoices.ts:108 | _pages_scanned is one too many exactly when the window filled before the source ended and before the budget ran out |
| `UnpaidScan.OnePageReportedAsTwo` | src/tools/invoicing/list_unpaid_invoices.ts:104-108 | one page that fills the window, with more behind it, is reported as two |
| `MapLimit.MapLimit` | src/tools/gold/trade_coverage.ts:120-129 | under every schedule: each index called at most once and in order, at most limit calls in flight, rejected exactly when some call rejects, and otherwise every index called once and the output equal to the plain map in input order |
| `MapLimit.InFlightExactly` | src/tools/gold/trade_coverage.ts:124-127 | the peak counts the workers that are in the middle of a call |
| `MapLimit.PlainMapExactly` | src/tools/gold/trade_coverage.ts:121-129 | the plain map comes back if and only if no call rejects and there is a worker or nothing to do; a limit of zero or less returns without calling anything |
| `GoldWatermark.BuildGoldStamp` | src/gold-watermark.ts:163-238 | the stamp of the first of the oldest sources, or unknown when any source is unprovable or there is none |
| `GoldWatermark.LabelsJoin` | src/gold-watermark.ts:164-164 | an unknown stamp names all the sources, in order |
| `GoldWatermark.OrderIrrelevant` | src/gold-watermark.ts:159-161 | the age and the verdict do not depend on the order of the sources |
| `GoldWatermark.LabelFixedExactly` | src/gold-watermark.ts:190 | the source named is the same in every order if and only if the oldest sources share a label |
| `GoldWatermark.MoreSourcesNeverImprove` | src/gold-watermark.ts:159-161 | adding sources to some only moves the verdict down fresh > stale > unknown, and the age up |
| `GoldWatermark.StaleExactly` | src/gold-watermark.ts:216-217 | stale if and only if every source is provable and one is 26 h 3 min old or more |
| `GoldWatermark.FreshExactly` | src/gold-watermark.ts:178-217 | fresh if and only if there are sources and each was built less than 26 h 3 min ago and at most one hour in the future |
| `GoldWatermark.StaleStaysStale` | src/gold-watermark.ts:216-237 | as the clock advances stale stays stale and fresh never becomes unknown |
| `Hours.AgeExactly` | src/gold-watermark.ts:146-148 | rounding to tenths keeps order and lets an age less than three minutes over a limit pass |
| `Hours.TenthsExactly` | src/gold-watermark.ts:144-147 | the age shown is the nearest tenth of an hour, halves away from zero |
| `MirrorFreshness.NewestRowTs` | src/mirror-freshness.ts:128-139 | the newest readable time, or none |
| `MirrorFreshness.JudgeTables` | src/mirror-freshness.ts:194-218 | each table its own verdict, the greatest age, and a headline that is fresh exactly when every table is parseable and less than 48 h 3 min old |
| `MirrorFreshness.TableVerdictExactly` | src/mirror-freshness.ts:199-209 | a table is fresh if and only if its newest readable sync is less than 48 h 3 min old, else unknown; its age is that of the sync |
| `MirrorFreshness.StampMirrorFreshness` | src/mirror-freshness.ts:170-336 | never stale; with table maxima fresh exactly when every table is, without them exactly when some row is recent; the page's own age is reported beside either |
| `MirrorFreshness.StaleHoursExactly` | src/mirror-freshness.ts:196-211 | the table age is missing if and only if no table could be parsed, whatever the headline, and otherwise is the greatest of theirs |
| `MirrorFreshness.AgeUnderUnknown` | src/mirror-freshness.ts:266-275 | an unknown headline can carry an age: 50.0 hours for one table last synced 50 hours ago |
| `MirrorFreshness.FutureIsFresh` | src/mirror-freshness.ts:158-161 | sync times in the future, however far, make a fresh stamp of age 0 |
| `MirrorFreshness.HeadlineIsWorst` | src/mirror-freshness.ts:207-218 | the headline is fresh if and only if every table has an age and the worst is at most 48.0 rounded hours, and adding a table never improves it |
| `SnapshotLock.CustomerSnapshotSingleflight.Acquire` | src/durable/customer-snapshot-flight.ts:49-67 | granted exactly when the lock is absent or held for more than 30 000 ms; a denial changes nothing and advises min(remaining, 500) |
| `SnapshotLock.CustomerSnapshotSingleflight.Release` | src/durable/customer-snapshot-flight.ts:42-45 | releases whoever holds the lock |
| `SnapshotLock.AtMostOneHolder` | src/durable/customer-snapshot-flight.ts:39-67 | if only holders release, each within 30 000 ms of acquiring, no run ever has two holders of one customer's lock |
| `SnapshotLock.ExclusiveExactly` | src/durable/customer-snapshot-flight.ts:39-67 | over any run in which only holders release: no lock ever has two holders if and only if no acquire ever comes for a lock whose holder is overdue |
| `SnapshotLock.SecondHolderExactly` | src/durable/customer-snapshot-flight.ts:53-66 | where the locks are those of the holders and exclusive, an acquire makes a second holder if and only if the first is overdue |
| `SnapshotLock.LateReleaseFreesAnother` | src/durable/customer-snapshot-flight.ts:42-45 | a run in which an overdue holder's release frees another caller's lock and a third acquires beside it |
| `SnapshotLock.AdvisedWait` | src/durable/customer-snapshot-flight.ts:57-62 | the advised wait never exceeds the remaining time or 500 ms and is 0 exactly at 30 000 ms |
| `SnapshotLock.ExactWaitersAreRefused` | src/durable/customer-snapshot-flight.ts:55-62 | a lock never released is free after 30 001 ms, yet a caller whose clock advances by exactly the advised waits is refused every time |

## Left out

- RateLimitGuard.CheckRateLimit: does not model failing open when the limiter object is unreachable, nor the 0 to 24 ms of random extra wait, which only lengthens a wait.
- LimiterRuns.AggregateBound: assumes a clock that never goes back.
- RateLimitGuard.ParseRetryAfterSeconds: takes the header as the integer it starts with, if any; signs and blanks in front of it are not modelled.
- WriteGate.WriteGate.VerifyToken: assumes the numeric `changes` field; the code lets a call through when it is missing.
- TokenEnvelope.DecimalRoundTrip: the reader takes digits at the front only; the blanks and signs that `parseInt` also accepts occur in no issued token, and a forged one with them can be refused for another reason than in the code.
- GateProtocol.RowVerdict: assumes that no token is consumed at time zero, which the code would read as not consumed; that a token is accepted only once does not rest on it.
- WriteGate.HandleWrite: leaves out cache purging, the response body and the audit trail.
- Canonical.KeepsMeaning: takes an object's fields in insertion order; JavaScript puts integer-like names such as "9" and "10" first and in numeric order, so of such an object the real canonical form is not in sorted order. Which values share a form or a hash is unaffected.
- Canonical.HashExactly: a number is the text JSON writes for it; JSON text itself is not modelled, only that it determines the document; `__proto__` as a field name and NaN are outside it.
- AddLineItems.AddLines: ids learned from responses are inputs, the response shapes they are dug out of are not modelled; warnings and the preview of a dry run are left out. A limiter error in the middle of the writes loses the ids written so far, which the model has as its own outcome.
- ReconcileAmount.ReconcilesExactly: which words make a line a freight line is an input; binary floating point is replaced by exact reals.
- ApListing.ListDocuments: the redaction of session credentials, file names and vendor names in a row are not modelled.
- ApListing.Enrich: the detail fetched for a row is one opaque value.
- DedupCheck.NormalizeShape: case folding is ASCII only.
- DedupCheck.DedupCheck: amounts arrive already read as numbers or as unreadable; the report text and the vendor key shown for display are left out.
- PagedRead.PagedStRead: the sleeps between attempts and the backoff reports are not modelled, and `hasMore` is a boolean or missing.
- UnpaidScan.ListUnpaidInvoices: whether a balance text spells a number is an input; the 120 s cache in front of the scan is left out.
- MapLimit.MapLimit: returns when all workers have ended, whereas a rejection surfaces while others still work; the limit is an integer.
- GoldWatermark.BuildGoldStamp: date parsing and warning texts are inputs or left out; ties in rounding follow exact arithmetic.
- SnapshotLock.AtMostOneHolder: callers are trusted to release only what they hold, as the protocol asks of them.
- SemanticSearch.ApplyPerEntityQuota: the relevance floor and the over-fetch before it are not modelled; similarities are exact reals.
- Fetching, KV, D1 and durable-object plumbing, routes, tool registration, prompts, tracing and audit.
- Real cryptography, JWT and OAuth, and the timing-safe comparison.
- Regular-expression scrubbing of texts and all message wording.
- SQL text, and the tools that are a single query or a thin fetch.
- `st_create_adjustment_invoice.ts`, which shares the verify-read modelled here, and the retry wrappers of `d1-proxy.ts` and `supabase.ts`: easier copies of what is here.
