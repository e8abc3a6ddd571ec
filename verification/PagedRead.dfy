/** The two page drainers: `pagedStRead`, which keeps what it has when a page fails, and `readSTPaged`,
    which throws. */
module PagedRead {
  import opened Wrappers

  const RETRYABLE: set<int> := {429, 502, 503, 504}
  const MAX_PAGE_SIZE := 500

  /** What one attempt at a page comes to: the limiter denies it, the connection fails, the body is not
      JSON, the status is not ok, or a page arrives. */
  datatype Outcome<T> =
    | Denied
    | Unreachable
    | BadJson(status: int)
    | Refused(status: int)
    | Body(data: seq<T>, hasMore: Option<bool>)

  /** The upstream, by page size, page number and attempt. */
  type Source<T> = (int, int, nat) -> Outcome<T>

  datatype Options = Options(pageSize: int, maxPages: int, startPage: int, retries: int)

  datatype Warning = Aborted | PartialPaginationFailure | TruncatedAtMaxPages

  datatype Failure = Failure(page: int, status: int)

  datatype Result<T> =
    Result(items: seq<T>, pageCount: nat, truncated: bool, warnings: seq<Warning>, failures: seq<Failure>)

  // ---- one page

  predicate Retried<T>(o: Outcome<T>) {
    o.Refused? && o.status in RETRYABLE
  }

  /** The attempt that settles a page: the first one not retried, or the last one allowed. */
  function SettlingAttempt<T>(source: Source<T>, size: int, page: int, retries: nat, from: nat): (a: nat)
    requires from <= retries
    ensures from <= a <= retries
    decreases retries - from
  {
    if from < retries && Retried(source(size, page, from)) then SettlingAttempt(source, size, page, retries, from + 1)
    else from
  }

  /** Refused with one of the four statuses worth trying again. */
  predicate IsRetryable<T>(o: Outcome<T>) {
    o.Refused? && (o.status == 429 || o.status == 502 || o.status == 503 || o.status == 504)
  }

  lemma {:induction false} SettlesAt<T>(source: Source<T>, size: int, page: int, retries: nat, from: nat)
    requires from <= retries
    ensures var a := SettlingAttempt(source, size, page, retries, from);
            && from <= a <= retries
            && (a == retries || !IsRetryable(source(size, page, a)))
            && forall b: nat {:trigger source(size, page, b)} :: from <= b < a ==> IsRetryable(source(size, page, b))
    decreases retries - from
  {
    if from < retries && Retried(source(size, page, from)) {
      SettlesAt(source, size, page, retries, from + 1);
    }
  }

  /** What a page comes to. */
  function PageAt<T>(source: Source<T>, o: Options, i: int): Outcome<T>
    requires o.retries >= 0
  {
    var page := o.startPage + i;
    source(o.pageSize, page, SettlingAttempt(source, o.pageSize, page, o.retries, 0))
  }

  /** The status a failed page is reported with. */
  function FailureStatus<T>(o: Outcome<T>): int {
    match o
    case Denied => 429
    case Unreachable => 0
    case BadJson(s) => s
    case Refused(s) => s
    case Body(_, _) => 0
  }

  predicate LooksDone<T>(o: Outcome<T>, pageSize: int) {
    o.Body? && (o.hasMore == Some(false) || (o.hasMore.None? && |o.data| < pageSize))
  }

  method SettlePage<T>(source: Source<T>, o: Options, i: int) returns (r: Outcome<T>, ghost requests: nat)
    requires o.retries >= 0
    ensures r == PageAt(source, o, i)
    ensures requests <= o.retries + 1
  {
    var page := o.startPage + i;
    var attempt: nat := 0;
    requests := 0;
    while attempt <= o.retries
      invariant attempt <= o.retries && requests == attempt
      invariant SettlingAttempt(source, o.pageSize, page, o.retries, attempt)
             == SettlingAttempt(source, o.pageSize, page, o.retries, 0)
      decreases o.retries - attempt
    {
      var outcome := source(o.pageSize, page, attempt);
      if outcome.Denied? { return outcome, requests; }
      requests := requests + 1;
      if outcome.Refused? && outcome.status in RETRYABLE && attempt < o.retries {
        attempt := attempt + 1;
        continue;
      }
      return outcome, requests;
    }
    assert false;
  }

  // ---- the drain

  /** Why a drain that has read k pages goes no further, if it does not. */
  datatype Stop = Going | NoPages | LookedDone | Capped | WasAborted | NeverTried | Failed(failure: Failure)

  function WhyStop<T>(source: Source<T>, aborted: int -> bool, o: Options, k: nat): Stop {
    if k > 0 && o.retries >= 0 && LooksDone(PageAt(source, o, k - 1), o.pageSize) then LookedDone
    else if k >= o.maxPages then (if k > 0 then Capped else NoPages)
    else if aborted(o.startPage + k) then WasAborted
    else if o.retries < 0 then NeverTried
    else if PageAt(source, o, k).Body? then Going
    else Failed(Failure(o.startPage + k, FailureStatus(PageAt(source, o, k))))
  }

  ghost predicate KeepsGoing<T>(source: Source<T>, aborted: int -> bool, o: Options, k: nat) {
    forall i: nat {:trigger WhyStop(source, aborted, o, i)} :: i < k ==> WhyStop(source, aborted, o, i).Going?
  }

  ghost predicate AllBodies<T>(source: Source<T>, o: Options, k: nat) {
    k > 0 ==> o.retries >= 0 && forall i: nat {:trigger PageAt(source, o, i)} :: i < k ==> PageAt(source, o, i).Body?
  }

  /** The rows of pages startPage, ..., startPage + k - 1, in order. */
  ghost function PagesRead<T>(source: Source<T>, o: Options, k: nat): seq<T>
    requires AllBodies(source, o, k)
  {
    if k == 0 then [] else PagesRead(source, o, k - 1) + PageAt(source, o, k - 1).data
  }

  /** The result reports the first k at which there is reason to stop, the rows before it, and the reason. */
  ghost predicate Reads<T>(source: Source<T>, aborted: int -> bool, o: Options, r: Result<T>) {
    var stop := WhyStop(source, aborted, o, r.pageCount);
    && KeepsGoing(source, aborted, o, r.pageCount)
    && AllBodies(source, o, r.pageCount)
    && !stop.Going?
    && r.items == PagesRead(source, o, r.pageCount)
    && Reported(stop, r)
  }

  predicate Reported<T>(stop: Stop, r: Result<T>) {
    && r.truncated == stop.Capped?
    && r.warnings == (match stop
                      case WasAborted => [Aborted]
                      case Failed(_) => [PartialPaginationFailure]
                      case Capped => [TruncatedAtMaxPages]
                      case _ => [])
    && r.failures == if stop.Failed? then [stop.failure] else []
  }

  /** What k pages may cost. */
  function MaxRequests(o: Options, k: int): nat {
    if k <= 0 || o.retries < 0 then 0 else MaxRequests(o, k - 1) + (o.retries + 1)
  }

  lemma {:induction false} MoreRequests(o: Options, j: int, k: int)
    requires j <= k
    ensures MaxRequests(o, j) <= MaxRequests(o, k)
    decreases k - j
  {
    if j < k {
      MoreRequests(o, j, k - 1);
    }
  }

  /** At most maxPages * (retries + 1) requests. */
  lemma {:induction false} MaxRequestsIs(o: Options, k: nat)
    ensures MaxRequests(o, k) == if o.retries < 0 then 0 else k * (o.retries + 1)
  {
    if k > 0 {
      MaxRequestsIs(o, k - 1);
    }
  }

  /** The abort check, the attempts at the next page and what they come to. */
  method ReadPage<T>(source: Source<T>, aborted: int -> bool, o: Options, k: nat)
    returns (why: Stop, outcome: Outcome<T>, ghost requests: nat)
    requires k < o.maxPages && WhyStop(source, aborted, o, k) != LookedDone
    ensures why == WhyStop(source, aborted, o, k)
    ensures why.Going? ==> o.retries >= 0 && outcome == PageAt(source, o, k) && outcome.Body?
    ensures requests <= MaxRequests(o, k + 1) - MaxRequests(o, k)
  {
    requests, outcome := 0, Denied;
    if aborted(o.startPage + k) { return WasAborted, outcome, 0; }
    if o.retries < 0 { return NeverTried, outcome, 0; }
    outcome, requests := SettlePage(source, o, k);
    if !outcome.Body? {
      why := Failed(Failure(o.startPage + k, FailureStatus(outcome)));
    } else {
      why := Going;
    }
  }

  method PagedStRead<T>(source: Source<T>, aborted: int -> bool, o: Options)
    returns (r: Result<T>, ghost requests: nat)
    ensures Reads(source, aborted, o, r)
    ensures requests <= MaxRequests(o, o.maxPages)
  {
    var items: seq<T> := [];
    var pageCount: nat := 0;
    var warnings: seq<Warning> := [];
    var failures: seq<Failure> := [];
    var truncated := false;
    requests := 0;
    ghost var stop := Stop.NoPages;
    while pageCount < o.maxPages
      invariant pageCount > 0 ==> WhyStop(source, aborted, o, pageCount) != LookedDone && pageCount < o.maxPages
      invariant KeepsGoing(source, aborted, o, pageCount) && AllBodies(source, o, pageCount)
      invariant items == PagesRead(source, o, pageCount)
      invariant !truncated && warnings == [] && failures == [] && stop == NoPages
      invariant requests <= MaxRequests(o, pageCount)
      decreases o.maxPages - pageCount
    {
      var why, outcome, tried := ReadPage(source, aborted, o, pageCount);
      requests := requests + tried;
      MoreRequests(o, pageCount + 1, o.maxPages);
      if !why.Going? {
        stop := why;
        if why.WasAborted? { warnings := warnings + [Aborted]; }
        if why.Failed? {
          failures, warnings := failures + [why.failure], warnings + [PartialPaginationFailure];
        }
        break;
      }
      items := items + outcome.data;
      pageCount := pageCount + 1;
      stop := WhyStop(source, aborted, o, pageCount);
      if LooksDone(outcome, o.pageSize) { break; }
      if pageCount == o.maxPages {
        truncated, warnings := true, warnings + [TruncatedAtMaxPages];
        break;
      }
      stop := NoPages;
    }
    assert stop == WhyStop(source, aborted, o, pageCount);
    r := Result(items, pageCount, truncated, warnings, failures);
    assert Reported(stop, r);
  }

  // ---- what a result says

  /** There is only one result: the source, the limits and the abort signal decide everything. */
  lemma ReadIsDetermined<T>(source: Source<T>, aborted: int -> bool, o: Options, r: Result<T>, r': Result<T>)
    requires Reads(source, aborted, o, r) && Reads(source, aborted, o, r')
    ensures r == r'
  {
  }

  /** Page i comes to the first of its attempts that is not worth trying again, or to the last one allowed. */
  lemma PageAtExactly<T>(source: Source<T>, o: Options, i: int) returns (a: nat)
    requires o.retries >= 0
    ensures a <= o.retries && PageAt(source, o, i) == source(o.pageSize, o.startPage + i, a)
    ensures a == o.retries || !IsRetryable(PageAt(source, o, i))
    ensures forall b: nat {:trigger source(o.pageSize, o.startPage + i, b)} :: b < a ==>
              IsRetryable(source(o.pageSize, o.startPage + i, b))
  {
    a := SettlingAttempt(source, o.pageSize, o.startPage + i, o.retries, 0);
    SettlesAt(source, o.pageSize, o.startPage + i, o.retries, 0);
  }

  /** What a drain reports, where its limits allow a page: nothing when the last page read says there is no more
      or, not saying, is short; else that it reached its limit, was aborted, or failed, and with which status. */
  lemma ReportsExactly<T>(source: Source<T>, aborted: int -> bool, o: Options, r: Result<T>)
    requires Reads(source, aborted, o, r) && o.maxPages >= 1 && o.retries >= 0
    ensures var k := r.pageCount;
            var done := k > 0 && PageAt(source, o, k - 1).Body?
                        && (PageAt(source, o, k - 1).hasMore == Some(false)
                            || (PageAt(source, o, k - 1).hasMore.None? && |PageAt(source, o, k - 1).data| < o.pageSize));
            var failed := !done && k < o.maxPages && !aborted(o.startPage + k);
            && k <= o.maxPages
            && (r.truncated <==> !done && k == o.maxPages)
            && r.warnings == (if done then [] else if k == o.maxPages then [TruncatedAtMaxPages]
                              else if aborted(o.startPage + k) then [Aborted] else [PartialPaginationFailure])
            && (!failed ==> r.failures == [])
            && (failed ==>
                  r.failures == [Failure(o.startPage + k, match PageAt(source, o, k)
                                                          case Denied => 429
                                                          case Unreachable => 0
                                                          case BadJson(status) => status
                                                          case Refused(status) => status
                                                          case Body(_, _) => -1)]
                  && !PageAt(source, o, k).Body?)
  {
    var k := r.pageCount;
    assert k > 0 ==> WhyStop(source, aborted, o, k - 1).Going?;
  }

  /** No warnings: exactly when the last page read looked done, or no page was ever asked for because
      the limits allow none. */
  lemma NoWarningsExactly<T>(source: Source<T>, aborted: int -> bool, o: Options, r: Result<T>)
    requires Reads(source, aborted, o, r)
    ensures r.warnings == [] <==>
              || o.maxPages <= 0
              || (o.retries < 0 && !aborted(o.startPage))
              || (r.pageCount > 0 && LooksDone(PageAt(source, o, r.pageCount - 1), o.pageSize))
    ensures r.pageCount > 0 ==>
              forall i :: 0 <= i < r.pageCount - 1 ==> !LooksDone(PageAt(source, o, i), o.pageSize)
  {
    assert r.pageCount > 0 ==> WhyStop(source, aborted, o, 0).Going?;
    forall i | 0 <= i < r.pageCount - 1 ensures !LooksDone(PageAt(source, o, i), o.pageSize) {
      assert WhyStop(source, aborted, o, i + 1).Going?;
    }
  }

  // ---- readSTPaged

  datatype Reply<T> = Reply(rows: seq<T>, more: Option<bool>, totalCount: Option<int>)

  /** `readST` by page size and page; None is a throw. */
  type Read<T> = (int, int) -> Option<Reply<T>>

  datatype Drained<T> = Drained(rows: seq<T>, pagesFetched: int, hitCap: bool, totalCount: Option<int>)

  function SizeOf(o: Options): int {
    if o.pageSize < MAX_PAGE_SIZE then o.pageSize else MAX_PAGE_SIZE
  }

  function ReplyAt<T>(read: Read<T>, o: Options, i: int): Option<Reply<T>> {
    read(SizeOf(o), o.startPage + i)
  }

  ghost predicate AllReplied<T>(read: Read<T>, o: Options, k: nat) {
    forall i: nat {:trigger ReplyAt(read, o, i)} :: i < k ==> ReplyAt(read, o, i).Some?
  }

  ghost predicate AllMore<T>(read: Read<T>, o: Options, k: nat) {
    forall i: nat {:trigger ReplyAt(read, o, i)} :: i < k ==>
      ReplyAt(read, o, i).Some? && ReplyAt(read, o, i).value.more == Some(true)
  }

  ghost function RowsReplied<T>(read: Read<T>, o: Options, k: nat): seq<T>
    requires AllReplied(read, o, k)
  {
    if k == 0 then [] else RowsReplied(read, o, k - 1) + ReplyAt(read, o, k - 1).value.rows
  }

  /** The total on the last reply that carried one. */
  ghost function LastTotal<T>(read: Read<T>, o: Options, k: nat): Option<int>
    requires AllReplied(read, o, k)
  {
    if k == 0 then None
    else if ReplyAt(read, o, k - 1).value.totalCount.Some? then ReplyAt(read, o, k - 1).value.totalCount
    else LastTotal(read, o, k - 1)
  }

  /** k pages were read: up to the first without more, or to the cap; a throw before that is passed on. */
  ghost predicate Drains<T>(read: Read<T>, o: Options, r: Option<Drained<T>>, k: nat) {
    match r
    case None => k < o.maxPages && AllMore(read, o, k) && ReplyAt(read, o, k).None?
    case Some(d) =>
      && AllReplied(read, o, k)
      && d.rows == RowsReplied(read, o, k)
      && d.totalCount == LastTotal(read, o, k)
      && if d.hitCap then AllMore(read, o, k) && d.pagesFetched == o.maxPages && (k == o.maxPages || (k == 0 && o.maxPages < 0))
         else 0 < k <= o.maxPages && k == d.pagesFetched && AllMore(read, o, k - 1)
              && ReplyAt(read, o, k - 1).value.more != Some(true)
  }

  method ReadSTPaged<T>(read: Read<T>, o: Options) returns (r: Option<Drained<T>>)
    ensures exists k :: Drains(read, o, r, k)
  {
    var page := o.startPage;
    var rows: seq<T> := [];
    var totalCount: Option<int> := None;
    var i: nat := 0;
    while i < o.maxPages
      invariant i <= o.maxPages || i == 0
      invariant page == o.startPage + i
      invariant AllMore(read, o, i) && AllReplied(read, o, i)
      invariant rows == RowsReplied(read, o, i) && totalCount == LastTotal(read, o, i)
    {
      var body := read(SizeOf(o), page);
      assert body == ReplyAt(read, o, i);
      if body.None? {
        assert Drains<T>(read, o, None, i);
        return None;
      }
      rows := rows + body.value.rows;
      if body.value.totalCount.Some? { totalCount := body.value.totalCount; }
      if body.value.more != Some(true) {
        r := Some(Drained(rows, i + 1, false, totalCount));
        assert Drains(read, o, r, i + 1);
        return;
      }
      page := page + 1;
      i := i + 1;
    }
    r := Some(Drained(rows, o.maxPages, true, totalCount));
    assert Drains(read, o, r, i);
  }

  lemma {:induction false} SameReplies<T>(read: Read<T>, o: Options, o': Options, k: nat)
    requires forall i :: ReplyAt(read, o, i) == ReplyAt(read, o', i)
    requires AllReplied(read, o, k)
    ensures AllReplied(read, o', k)
    ensures RowsReplied(read, o, k) == RowsReplied(read, o', k) && LastTotal(read, o, k) == LastTotal(read, o', k)
  {
    assert forall i: nat :: i < k ==> ReplyAt(read, o', i) == ReplyAt(read, o, i);
    if k > 0 {
      SameReplies(read, o, o', k - 1);
    }
  }

  /** Asking for pages of more than 500 rows drains exactly what pages of 500 do. */
  lemma LargePagesAreCut<T>(read: Read<T>, o: Options, r: Option<Drained<T>>, k: nat)
    requires o.pageSize > 500
    ensures Drains(read, o, r, k) <==> Drains(read, o.(pageSize := 500), r, k)
  {
    var o' := o.(pageSize := 500);
    assert forall i :: ReplyAt(read, o, i) == ReplyAt(read, o', i);
    if AllReplied(read, o, k) { SameReplies(read, o, o', k); }
    if AllReplied(read, o', k) { SameReplies(read, o', o, k); }
  }

  // ---- the two agree

  /** Both see the same failure-free upstream, which always says whether there is more. */
  ghost predicate SameUpstream<T>(source: Source<T>, read: Read<T>) {
    forall size, page {:trigger source(size, page, 0)} {:trigger read(size, page)} ::
      && source(size, page, 0).Body? && source(size, page, 0).hasMore.Some?
      && read(size, page).Some? && read(size, page).value.rows == source(size, page, 0).data
      && read(size, page).value.more == source(size, page, 0).hasMore
  }

  lemma {:induction false} SameRows<T>(source: Source<T>, read: Read<T>, o: Options, k: nat)
    requires SameUpstream(source, read) && o.pageSize <= 500 && o.retries >= 0
    ensures AllBodies(source, o, k)
    ensures AllReplied(read, o, k)
    ensures PagesRead(source, o, k) == RowsReplied(read, o, k)
  {
    if k > 0 {
      SameRows(source, read, o, k - 1);
      SamePage(source, read, o, k - 1);
    }
  }

  lemma SamePage<T>(source: Source<T>, read: Read<T>, o: Options, i: int)
    requires SameUpstream(source, read) && o.pageSize <= 500 && o.retries >= 0
    ensures var page, reply := PageAt(source, o, i), ReplyAt(read, o, i);
            && page.Body? && reply.Some? && reply.value.rows == page.data
            && page.hasMore.Some? && reply.value.more == page.hasMore
            && (LooksDone(page, o.pageSize) <==> reply.value.more != Some(true))
  {
    var size, page := o.pageSize, o.startPage + i;
    assert source(size, page, 0).Body?;
    assert SettlingAttempt(source, size, page, o.retries, 0) == 0;
    var more := source(size, page, 0).hasMore.value;
    assert more == true || more == false;
  }

  /** On such an upstream, unaborted and with page sizes up to 500, the two drainers return the same
      rows; and the same cap flag exactly when at least one page is allowed. */
  lemma DrainersAgree<T>(source: Source<T>, read: Read<T>, aborted: int -> bool, o: Options,
                         r: Result<T>, r': Option<Drained<T>>, k: nat)
    requires SameUpstream(source, read) && o.pageSize <= 500 && o.retries >= 0
    requires forall p :: !aborted(p)
    requires Reads(source, aborted, o, r) && Drains(read, o, r', k)
    ensures r'.Some? && r.items == r'.value.rows
    ensures r.truncated == r'.value.hitCap <==> o.maxPages >= 1
    ensures o.maxPages >= 0 ==> r.pageCount == r'.value.pagesFetched
    ensures r.failures == []
  {
    SamePage(source, read, o, k);
    SamePage(source, read, o, k - 1);
    SamePage(source, read, o, r.pageCount);
    SamePage(source, read, o, r.pageCount - 1);
    assert k < r.pageCount ==> WhyStop(source, aborted, o, k).Going?;
    SameRows(source, read, o, k);
  }
}
