/** Listing the documents of the AP inbox from a server that is not trusted to page honestly. */
module ApListing {
  import opened Wrappers

  const PENDING := 2
  const CREATED := 3
  const MAX_PAGES := 20
  const DEFAULT_ENRICH_LIMIT := 50
  const MAX_ENRICH_LIMIT := 200

  /** A row as sent; a field is None where it is missing or of the wrong type. */
  datatype RawRow = RawRow(id: Option<int>, ocrResultId: Option<int>, status: Option<int>, billWasCreated: Option<bool>,
                           totalAmount: Option<real>)

  /** One reply to a page request.  `result` is None when it is not an array, `totalCount` when it is
      not a nonnegative integer. */
  datatype Reply = FetchError | Page(result: Option<seq<RawRow>>, totalCount: Option<nat>)

  /** What the server answers to each page of each status; nothing is assumed of it. */
  type Server = (int, nat) -> Reply

  datatype Error =
    | UpstreamError | BadEnvelope | BadTotalCount | TotalCountChanged | MalformedRow | WrongStatus
    | ContradictoryRow | DuplicateIdentity | Incomplete | CursorPastEnd

  datatype Result<T> = Ok(value: T) | Err(error: Error)

  datatype Document = Document(documentId: int, ocrResultId: int, status: int, billWasCreated: bool,
                               totalAmount: Option<real>, detail: Option<string>)

  // ---- what a row must satisfy

  predicate WellFormed(r: RawRow) {
    r.id.Some? && r.ocrResultId.Some? && r.status.Some? && r.billWasCreated.Some?
  }

  /** Status 3 is created and status 2 is pending; the flag may not say otherwise. */
  predicate Consistent(r: RawRow) {
    && (r.status == Some(CREATED) ==> r.billWasCreated != Some(false))
    && (r.status == Some(PENDING) ==> r.billWasCreated != Some(true))
  }

  predicate Acceptable(r: RawRow, status: int) {
    WellFormed(r) && r.status == Some(status) && Consistent(r)
  }

  function Key(r: RawRow): (Option<int>, Option<int>) {
    (r.id, r.ocrResultId)
  }

  /** No two rows are the same document and the same bill of it. */
  ghost predicate DistinctKeys(rows: seq<RawRow>) {
    forall j, k :: 0 <= j < k < |rows| ==> !(rows[j].id == rows[k].id && rows[j].ocrResultId == rows[k].ocrResultId)
  }

  /** The row names its document and bill, is of the status asked for, and its flag says created for status 3 and
      not created for status 2. */
  ghost predicate IsRowOf(r: RawRow, status: int) {
    && r.id.Some? && r.ocrResultId.Some? && r.status == Some(status) && r.billWasCreated.Some?
    && (status == 3 ==> r.billWasCreated.value)
    && (status == 2 ==> !r.billWasCreated.value)
  }

  lemma AcceptableExactly(r: RawRow, status: int)
    ensures Acceptable(r, status) <==> IsRowOf(r, status)
  {
    if r.billWasCreated.Some? {
      var created := r.billWasCreated.value;
      assert created == true || created == false;
    }
  }

  predicate HasKey(rows: seq<RawRow>, key: (Option<int>, Option<int>)) {
    exists k :: 0 <= k < |rows| && Key(rows[k]) == key
  }

  /** What is wrong with the first bad row of a batch, given the rows of earlier pages. */
  function FirstError(batch: seq<RawRow>, status: int, rows: seq<RawRow>): Option<Error> {
    if batch == [] then None
    else
      var r := batch[0];
      if !WellFormed(r) then Some(MalformedRow)
      else if r.status.value != status then Some(WrongStatus)
      else if !Consistent(r) then Some(ContradictoryRow)
      else if HasKey(rows, Key(r)) then Some(DuplicateIdentity)
      else FirstError(batch[1..], status, rows + [r])
  }

  ghost predicate SeenIs(seen: set<(Option<int>, Option<int>)>, rows: seq<RawRow>) {
    forall key :: key in seen <==> HasKey(rows, key)
  }

  lemma SeenMore(seen: set<(Option<int>, Option<int>)>, rows: seq<RawRow>, r: RawRow)
    requires SeenIs(seen, rows)
    ensures SeenIs(seen + {Key(r)}, rows + [r])
  {
    forall key ensures HasKey(rows + [r], key) <==> HasKey(rows, key) || key == Key(r) {
      if HasKey(rows, key) {
        var k :| 0 <= k < |rows| && Key(rows[k]) == key;
        assert Key((rows + [r])[k]) == key;
      }
      assert (rows + [r])[|rows|] == r;
    }
  }

  method CheckBatch(batch: seq<RawRow>, status: int, ghost rows: seq<RawRow>, seen0: set<(Option<int>, Option<int>)>)
    returns (error: Option<Error>, seen: set<(Option<int>, Option<int>)>)
    requires SeenIs(seen0, rows)
    ensures error == FirstError(batch, status, rows)
    ensures error.None? ==> SeenIs(seen, rows + batch)
  {
    seen := seen0;
    var k := 0;
    assert rows + batch[..0] == rows;
    while k < |batch|
      invariant k <= |batch|
      invariant SeenIs(seen, rows + batch[..k])
      invariant FirstError(batch[k..], status, rows + batch[..k]) == FirstError(batch, status, rows)
    {
      var r := batch[k];
      assert rows + batch[..k + 1] == (rows + batch[..k]) + [r];
      if r.id.None? || r.ocrResultId.None? || r.status.None? || r.billWasCreated.None? { return Some(MalformedRow), seen; }
      if r.status.value != status { return Some(WrongStatus), seen; }
      var created, pending := r.status.value == CREATED, r.status.value == PENDING;
      if (created && !r.billWasCreated.value) || (pending && r.billWasCreated.value) {
        return Some(ContradictoryRow), seen;
      }
      if Key(r) in seen { return Some(DuplicateIdentity), seen; }
      SeenMore(seen, rows + batch[..k], r);
      seen := seen + {Key(r)};
      k := k + 1;
    }
    assert rows + batch[..k] == rows + batch;
    return None, seen;
  }

  lemma {:induction false} NoErrorExactly(batch: seq<RawRow>, status: int, rows: seq<RawRow>)
    requires DistinctKeys(rows)
    ensures FirstError(batch, status, rows).None? <==>
              (forall k :: 0 <= k < |batch| ==> Acceptable(batch[k], status)) && DistinctKeys(rows + batch)
  {
    if batch == [] {
      assert rows + batch == rows;
    } else {
      var r, longer, all := batch[0], rows + [batch[0]], rows + batch;
      assert all == longer + batch[1..];
      assert all[|rows|] == r;
      if HasKey(rows, Key(r)) {
        var k :| 0 <= k < |rows| && Key(rows[k]) == Key(r);
        assert all[k] == rows[k];
      } else {
        assert DistinctKeys(longer);
        NoErrorExactly(batch[1..], status, longer);
        assert forall k :: 0 < k < |batch| ==> batch[k] == batch[1..][k - 1];
      }
    }
  }

  /** The error names the first thing wrong with the first bad row. */
  lemma {:induction false} FirstErrorExactly(batch: seq<RawRow>, status: int, rows: seq<RawRow>) returns (k: nat)
    requires FirstError(batch, status, rows).Some?
    ensures k < |batch| && FirstError(batch[..k], status, rows).None?
    ensures var r := batch[k];
            var wrongStatus := r.status != Some(status);
            var contradictory := (status == 3 && r.billWasCreated == Some(false)) || (status == 2 && r.billWasCreated == Some(true));
            FirstError(batch, status, rows).value ==
            if r.id.None? || r.ocrResultId.None? || r.status.None? || r.billWasCreated.None? then MalformedRow
            else if wrongStatus then WrongStatus
            else if contradictory then ContradictoryRow
            else DuplicateIdentity
    ensures FirstError(batch, status, rows) == Some(DuplicateIdentity) ==>
              exists b :: b in rows + batch[..k] && b.id == batch[k].id && b.ocrResultId == batch[k].ocrResultId
  {
    var r := batch[0];
    if WellFormed(r) && r.status.value == status && Consistent(r) && !HasKey(rows, Key(r)) {
      k := FirstErrorExactly(batch[1..], status, rows + [r]);
      k := k + 1;
      assert batch[..k][0] == r && batch[..k][1..] == batch[1..][..k - 1];
      assert rows + batch[..k] == (rows + [r]) + batch[1..][..k - 1];
    } else {
      k := 0;
      assert rows + batch[..0] == rows;
      if HasKey(rows, Key(r)) {
        var m :| 0 <= m < |rows| && Key(rows[m]) == Key(r);
        assert rows[m] in rows;
      }
    }
  }

  // ---- paging one status

  ghost predicate GoodPage(server: Server, status: int, page: nat) {
    server(status, page).Page? && server(status, page).result.Some? && server(status, page).totalCount.Some?
  }

  /** The rows of pages 1, ..., n. */
  ghost function RowsOfPages(server: Server, status: int, n: nat): seq<RawRow>
    requires forall p :: 1 <= p <= n ==> GoodPage(server, status, p)
  {
    if n == 0 then []
    else
      assert GoodPage(server, status, n);
      RowsOfPages(server, status, n - 1) + server(status, n).result.value
  }

  /** What a listing of one status proves: the rows are those of the pages asked for, at most twenty;
      each row is of that status with flags that agree; no two are the same document; and every page
      reported the same total, which the rows reach. */
  ghost predicate Covers(server: Server, status: int, rows: seq<RawRow>, pages: nat, total: nat) {
    && 1 <= pages <= 20
    && (forall p :: 1 <= p <= pages ==> GoodPage(server, status, p) && server(status, p).totalCount == Some(total))
    && rows == RowsOfPages(server, status, pages)
    && (forall k :: 0 <= k < |rows| ==> IsRowOf(rows[k], status))
    && DistinctKeys(rows)
    && |rows| >= total
  }

  datatype Scan = Done(rows: seq<RawRow>, total: nat, pages: nat) | Failed(error: Error)

  /** The paging loop from page `page` on. */
  function ScanFrom(server: Server, status: int, page: nat, rows: seq<RawRow>, total: Option<nat>): Scan
    requires 1 <= page <= MAX_PAGES
    decreases MAX_PAGES - page
  {
    match server(status, page)
    case FetchError => Failed(UpstreamError)
    case Page(result, tc) =>
      if result.None? then Failed(BadEnvelope)
      else if tc.None? then Failed(BadTotalCount)
      else if total.Some? && tc != total then Failed(TotalCountChanged)
      else
        var error := FirstError(result.value, status, rows);
        if error.Some? then Failed(error.value)
        else
          var all := rows + result.value;
          if |result.value| > 0 && |all| < tc.value && page < MAX_PAGES then ScanFrom(server, status, page + 1, all, tc)
          else if |all| < tc.value then Failed(Incomplete)
          else Done(all, tc.value, page)
  }

  method ListStatus(server: Server, status: int) returns (r: Scan)
    ensures r == ScanFrom(server, status, 1, [], None)
  {
    var rows: seq<RawRow> := [];
    var totalCount: Option<nat> := None;
    var seen: set<(Option<int>, Option<int>)> := {};
    var pageIndex := 1;
    while true
      invariant 1 <= pageIndex <= MAX_PAGES
      invariant SeenIs(seen, rows)
      invariant ScanFrom(server, status, pageIndex, rows, totalCount) == ScanFrom(server, status, 1, [], None)
      decreases MAX_PAGES - pageIndex
    {
      var page := server(status, pageIndex);
      if page.FetchError? { return Failed(UpstreamError); }
      if page.result.None? { return Failed(BadEnvelope); }
      if page.totalCount.None? { return Failed(BadTotalCount); }
      if totalCount.Some? && page.totalCount != totalCount { return Failed(TotalCountChanged); }
      totalCount := page.totalCount;
      var batch := page.result.value;
      var error, seen' := CheckBatch(batch, status, rows, seen);
      if error.Some? { return Failed(error.value); }
      rows, seen := rows + batch, seen';
      if |batch| == 0 || |rows| >= totalCount.value || pageIndex == MAX_PAGES { break; }
      pageIndex := pageIndex + 1;
    }
    if |rows| < totalCount.value { return Failed(Incomplete); }
    return Done(rows, totalCount.value, pageIndex);
  }

  /** The pages before `page` were good, reported `total`, and gave `rows`. */
  ghost predicate SoFar(server: Server, status: int, page: nat, rows: seq<RawRow>, total: Option<nat>) {
    && page >= 1
    && (forall p :: 1 <= p < page ==> GoodPage(server, status, p) && server(status, p).totalCount == total)
    && rows == RowsOfPages(server, status, page - 1)
    && (forall k :: 0 <= k < |rows| ==> IsRowOf(rows[k], status))
    && DistinctKeys(rows)
  }

  lemma {:induction false} ScanCovers(server: Server, status: int, page: nat, rows: seq<RawRow>, total: Option<nat>)
    requires 1 <= page <= MAX_PAGES && SoFar(server, status, page, rows, total) && (page > 1 ==> total.Some?)
    ensures var r := ScanFrom(server, status, page, rows, total);
            r.Done? ==> Covers(server, status, r.rows, r.pages, r.total)
    decreases MAX_PAGES - page
  {
    var reply := server(status, page);
    if reply.Page? && reply.result.Some? && reply.totalCount.Some? && (total.None? || reply.totalCount == total) {
      var batch := reply.result.value;
      NoErrorExactly(batch, status, rows);
      if FirstError(batch, status, rows).None? {
        forall k | 0 <= k < |batch| ensures IsRowOf(batch[k], status) {
          AcceptableExactly(batch[k], status);
        }
        assert GoodPage(server, status, page);
        assert SoFar(server, status, page + 1, rows + batch, reply.totalCount);
        if |batch| > 0 && |rows + batch| < reply.totalCount.value && page < MAX_PAGES {
          ScanCovers(server, status, page + 1, rows + batch, reply.totalCount);
        }
      }
    }
  }

  /** A listing that succeeds proves its coverage, whatever the server. */
  lemma ListingCovers(server: Server, status: int)
    ensures var r := ScanFrom(server, status, 1, [], None);
            r.Done? ==> Covers(server, status, r.rows, r.pages, r.total)
  {
    ScanCovers(server, status, 1, [], None);
  }

  /** The server pages through one fixed list. */
  ghost predicate Honest(server: Server, status: int, all: seq<RawRow>, pageSize: nat) {
    forall p {:trigger server(status, p)} :: 1 <= p <= MAX_PAGES ==>
      server(status, p) == Page(Some(all[Upto(all, pageSize, p - 1)..Upto(all, pageSize, p)]), Some(|all|))
  }

  function Upto(all: seq<RawRow>, pageSize: nat, p: nat): (k: nat)
    ensures k <= |all|
  {
    if p == 0 then 0
    else if Upto(all, pageSize, p - 1) + pageSize <= |all| then Upto(all, pageSize, p - 1) + pageSize
    else |all|
  }

  lemma {:induction false} UptoIs(all: seq<RawRow>, pageSize: nat, p: nat)
    ensures Upto(all, pageSize, p) == if p * pageSize < |all| then p * pageSize else |all|
  {
    if p > 0 {
      UptoIs(all, pageSize, p - 1);
      assert p * pageSize == (p - 1) * pageSize + pageSize;
    }
  }

  lemma HonestPage(server: Server, status: int, all: seq<RawRow>, pageSize: nat, page: nat)
    requires 1 <= page <= MAX_PAGES && Honest(server, status, all, pageSize) && pageSize > 0
    requires (forall k :: 0 <= k < |all| ==> Acceptable(all[k], status)) && DistinctKeys(all)
    requires |all| <= MAX_PAGES * pageSize
    ensures var lo, hi := Upto(all, pageSize, page - 1), Upto(all, pageSize, page);
            && lo <= hi && all[..lo] + all[lo..hi] == all[..hi]
            && server(status, page) == Page(Some(all[lo..hi]), Some(|all|))
            && FirstError(all[lo..hi], status, all[..lo]).None?
            && (hi < |all| ==> page < MAX_PAGES && |all[lo..hi]| > 0)
  {
    var lo, hi := Upto(all, pageSize, page - 1), Upto(all, pageSize, page);
    assert all[..lo] + all[lo..hi] == all[..hi];
    NoErrorExactly(all[lo..hi], status, all[..lo]);
    UptoIs(all, pageSize, MAX_PAGES);
  }

  lemma HonestStep(server: Server, status: int, all: seq<RawRow>, pageSize: nat, page: nat,
                   rows: seq<RawRow>, total: Option<nat>)
    requires 1 <= page <= MAX_PAGES && Honest(server, status, all, pageSize) && pageSize > 0
    requires (forall k :: 0 <= k < |all| ==> Acceptable(all[k], status)) && DistinctKeys(all)
    requires |all| <= MAX_PAGES * pageSize
    requires rows == all[..Upto(all, pageSize, page - 1)] && (total.None? || total == Some(|all|))
    ensures var hi := Upto(all, pageSize, page);
            && (hi < |all| ==> page < MAX_PAGES)
            && ScanFrom(server, status, page, rows, total) ==
               if hi < |all| then ScanFrom(server, status, page + 1, all[..hi], Some(|all|)) else Done(all, |all|, page)
  {
    var lo, hi := Upto(all, pageSize, page - 1), Upto(all, pageSize, page);
    var batch, longer := all[lo..hi], all[..hi];
    HonestPage(server, status, all, pageSize, page);
    assert rows + batch == longer;
    if hi == |all| {
      assert longer == all;
    }
  }

  lemma {:induction false} HonestScan(server: Server, status: int, all: seq<RawRow>, pageSize: nat, page: nat,
                                      rows: seq<RawRow>, total: Option<nat>) returns (pages: nat)
    requires 1 <= page <= MAX_PAGES && Honest(server, status, all, pageSize) && pageSize > 0
    requires (forall k :: 0 <= k < |all| ==> Acceptable(all[k], status)) && DistinctKeys(all)
    requires |all| <= MAX_PAGES * pageSize
    requires rows == all[..Upto(all, pageSize, page - 1)] && (total.None? || total == Some(|all|))
    ensures ScanFrom(server, status, page, rows, total) == Done(all, |all|, pages)
    decreases MAX_PAGES - page
  {
    HonestStep(server, status, all, pageSize, page, rows, total);
    var hi := Upto(all, pageSize, page);
    if hi < |all| {
      pages := HonestScan(server, status, all, pageSize, page + 1, all[..hi], Some(|all|));
    } else {
      pages := page;
    }
  }

  /** And an honest server with an unchanging list of at most twenty pages is listed in full. */
  lemma HonestServerListed(server: Server, status: int, all: seq<RawRow>, pageSize: nat)
    requires Honest(server, status, all, pageSize) && 0 < pageSize && |all| <= 20 * pageSize
    requires (forall k :: 0 <= k < |all| ==> Acceptable(all[k], status)) && DistinctKeys(all)
    ensures var r := ScanFrom(server, status, 1, [], None);
            r.Done? && r.rows == all && r.total == |all|
  {
    var _ := HonestScan(server, status, all, pageSize, 1, [], None);
  }

  function Slim(r: RawRow): Document
    requires WellFormed(r)
  {
    Document(r.id.value, r.ocrResultId.value, r.status.value, r.billWasCreated.value, r.totalAmount, None)
  }

  function SlimAll(rows: seq<RawRow>): (docs: seq<Document>)
    requires forall k :: 0 <= k < |rows| ==> WellFormed(rows[k])
    ensures |docs| == |rows| && forall k :: 0 <= k < |rows| ==> docs[k] == Slim(rows[k])
  {
    if rows == [] then [] else [Slim(rows[0])] + SlimAll(rows[1..])
  }

  /** Each status once, in the order first asked for. */
  function Once(statuses: seq<int>): (r: seq<int>)
    ensures forall s :: s in r <==> s in statuses
    ensures forall j, k :: 0 <= j < k < |r| ==> r[j] != r[k]
  {
    if statuses == [] then []
    else
      var init, last := statuses[..|statuses| - 1], statuses[|statuses| - 1];
      assert statuses == init + [last];
      if last in init then Once(init) else Once(init) + [last]
  }

  /** What the whole listing proves, a part for each status. */
  ghost predicate AllCovered(server: Server, statuses: seq<int>, parts: seq<seq<RawRow>>, totals: map<int, nat>) {
    && |parts| == |statuses|
    && totals.Keys == (set s | s in statuses)
    && forall i :: 0 <= i < |statuses| ==> PartCovered(server, statuses[i], parts[i], totals)
  }

  ghost predicate PartCovered(server: Server, status: int, part: seq<RawRow>, totals: map<int, nat>) {
    && status in totals
    && exists pages ::
         && ScanFrom(server, status, 1, [], None) == Done(part, totals[status], pages)
         && Covers(server, status, part, pages, totals[status])
  }

  function Flatten(parts: seq<seq<RawRow>>): seq<RawRow> {
    if parts == [] then [] else Flatten(parts[..|parts| - 1]) + parts[|parts| - 1]
  }

  /** The document holds the row's own fields, and no detail yet. */
  ghost predicate IsSlimOf(d: Document, r: RawRow) {
    && r.id == Some(d.documentId) && r.ocrResultId == Some(d.ocrResultId)
    && r.status == Some(d.status) && r.billWasCreated == Some(d.billWasCreated)
    && d.totalAmount == r.totalAmount && d.detail == None
  }

  ghost predicate SlimOf(docs: seq<Document>, rows: seq<RawRow>) {
    |docs| == |rows| && forall k :: 0 <= k < |rows| ==> IsSlimOf(docs[k], rows[k])
  }

  lemma SlimAppend(docs: seq<Document>, rows: seq<RawRow>, more: seq<RawRow>)
    requires SlimOf(docs, rows) && forall k :: 0 <= k < |more| ==> WellFormed(more[k])
    ensures SlimOf(docs + SlimAll(more), rows + more)
  {
    var slim := SlimAll(more);
    var longer, all := docs + slim, rows + more;
    forall k | 0 <= k < |all| ensures IsSlimOf(longer[k], all[k]) {
      if k < |docs| {
        assert all[k] == rows[k] && longer[k] == docs[k];
      } else {
        assert all[k] == more[k - |docs|] && longer[k] == slim[k - |docs|];
      }
    }
  }

  lemma OnePartMore(server: Server, statuses: seq<int>, parts: seq<seq<RawRow>>, totals: map<int, nat>, scan: Scan)
    requires |parts| < |statuses| && scan == ScanFrom(server, statuses[|parts|], 1, [], None) && scan.Done?
    requires forall j, k :: 0 <= j < k < |statuses| ==> statuses[j] != statuses[k]
    requires forall j :: 0 <= j < |parts| ==> PartCovered(server, statuses[j], parts[j], totals)
    ensures forall j :: 0 <= j <= |parts| ==>
              PartCovered(server, statuses[j], (parts + [scan.rows])[j], totals[statuses[|parts|] := scan.total])
  {
    var i := |parts|;
    var totals' := totals[statuses[i] := scan.total];
    ListingCovers(server, statuses[i]);
    forall j | 0 <= j <= i ensures PartCovered(server, statuses[j], (parts + [scan.rows])[j], totals') {
      if j == i {
        assert Covers(server, statuses[i], scan.rows, scan.pages, totals'[statuses[i]]);
      } else {
        assert PartCovered(server, statuses[j], parts[j], totals) && statuses[j] != statuses[i];
      }
    }
  }

  function Statuses(asked: seq<int>): seq<int> {
    Once(if asked == [] then [PENDING, CREATED] else asked)
  }

  /** The statuses asked for, each once and in the order first named; none asked for are 2 and 3. */
  lemma StatusesExactly(asked: seq<int>)
    ensures asked == [] ==> Statuses(asked) == [2, 3]
    ensures forall s :: asked != [] ==> (s in Statuses(asked) <==> s in asked)
    ensures forall j, k :: 0 <= j < k < |Statuses(asked)| ==> Statuses(asked)[j] != Statuses(asked)[k]
    ensures forall j, k :: 0 <= j < k < |asked| && asked[j] !in asked[..j] && asked[k] !in asked[..k] ==>
              Precedes(Statuses(asked), asked[j], asked[k])
  {
    var s := [2, 3];
    assert s[..1] == [2] && [2][..0] == [];
    assert Once([2][..0]) == [];
    assert Once([2]) == [2];
    assert Once(s) == s;
    forall j, k | 0 <= j < k < |asked| && asked[j] !in asked[..j] && asked[k] !in asked[..k]
      ensures Precedes(Once(asked), asked[j], asked[k])
    {
      OnceInOrder(asked, j, k);
    }
  }

  ghost predicate Precedes(s: seq<int>, x: int, y: int) {
    exists a, b :: 0 <= a < b < |s| && s[a] == x && s[b] == y
  }

  lemma {:induction false} OnceInOrder(s: seq<int>, j: nat, k: nat)
    requires j < k < |s| && s[j] !in s[..j] && s[k] !in s[..k]
    ensures Precedes(Once(s), s[j], s[k])
  {
    var init := s[..|s| - 1];
    if k < |s| - 1 {
      assert init[..j] == s[..j] && init[..k] == s[..k];
      OnceInOrder(init, j, k);
      var a, b :| 0 <= a < b < |Once(init)| && Once(init)[a] == s[j] && Once(init)[b] == s[k];
      assert Once(s)[a] == s[j] && Once(s)[b] == s[k];
    } else {
      assert init[j] == s[j] && s[j] in Once(init);
      var a :| 0 <= a < |Once(init)| && Once(init)[a] == s[j];
      assert Once(s)[a] == s[j] && Once(s)[|Once(init)|] == s[k];
    }
  }

  predicate Lists(server: Server, status: int) {
    ScanFrom(server, status, 1, [], None).Done?
  }

  /** The documents are those of the parts, each covered. */
  ghost predicate Listed(server: Server, statuses: seq<int>, documents: seq<Document>, totals: map<int, nat>) {
    exists parts :: AllCovered(server, statuses, parts, totals) && SlimOf(documents, Flatten(parts))
  }

  lemma AllListed(server: Server, statuses: seq<int>, documents: seq<Document>, parts: seq<seq<RawRow>>, totals: map<int, nat>)
    requires |parts| == |statuses| && totals.Keys == set j | 0 <= j < |statuses| :: statuses[j]
    requires forall j :: 0 <= j < |statuses| ==> PartCovered(server, statuses[j], parts[j], totals)
    requires SlimOf(documents, Flatten(parts))
    ensures Listed(server, statuses, documents, totals)
  {
    assert AllCovered(server, statuses, parts, totals);
  }

  /** All statuses are listed, or the first that is not says why. */
  method ListDocuments(server: Server, asked: seq<int>) returns (r: Result<seq<Document>>, totals: map<int, nat>)
    ensures r.Ok? ==> Listed(server, Statuses(asked), r.value, totals)
    ensures r.Ok? <==> forall s :: s in Statuses(asked) ==> Lists(server, s)
    ensures r.Err? ==>
              exists i :: 0 <= i < |Statuses(asked)| && ScanFrom(server, Statuses(asked)[i], 1, [], None) == Failed(r.error)
                          && forall j :: 0 <= j < i ==> Lists(server, Statuses(asked)[j])
  {
    var statuses := Statuses(asked);
    var documents: seq<Document> := [];
    totals := map[];
    ghost var parts: seq<seq<RawRow>> := [];
    var i := 0;
    while i < |statuses|
      invariant i <= |statuses| && |parts| == i
      invariant totals.Keys == set j | 0 <= j < i :: statuses[j]
      invariant forall j :: 0 <= j < i ==> PartCovered(server, statuses[j], parts[j], totals)
      invariant forall j :: 0 <= j < i ==> Lists(server, statuses[j])
      invariant SlimOf(documents, Flatten(parts))
    {
      var scan := ListStatus(server, statuses[i]);
      if scan.Failed? {
        assert statuses[i] in statuses && !Lists(server, statuses[i]);
        return Err(scan.error), totals;
      }
      OnePartMore(server, statuses, parts, totals, scan);
      ListingCovers(server, statuses[i]);
      totals := totals[statuses[i] := scan.total];
      assert (parts + [scan.rows])[..i] == parts;
      SlimAppend(documents, Flatten(parts), scan.rows);
      parts := parts + [scan.rows];
      documents := documents + SlimAll(scan.rows);
      i := i + 1;
    }
    AllListed(server, statuses, documents, parts, totals);
    return Ok(documents), totals;
  }

  // ---- enriching a window of the list

  /** The rows one call reads in detail, and where the next call starts. */
  datatype Window = Window(lo: nat, hi: nat, next: Option<nat>)

  function WindowAt(n: nat, cursor: nat, limit: nat): Result<Window> {
    if cursor >= n && n > 0 then Err(CursorPastEnd)
    else
      var end := if cursor + limit < n then cursor + limit else n;
      Ok(Window(cursor, end, if end < n then Some(end) else None))
  }

  method Enrich(documents: seq<Document>, cursor: nat, asked: Option<nat>, details: seq<string>)
    returns (r: Result<seq<Document>>, next: Option<nat>, count: nat)
    requires |details| == |documents|
    ensures var limit := if asked.None? then 50 else if asked.value < 200 then asked.value else 200;
            var past := cursor >= |documents| > 0;
            && (r.Err? <==> past) && (past ==> r == Err(CursorPastEnd))
            && (!past ==>
                  && |r.value| == |documents|
                  && (forall k :: 0 <= k < |documents| ==>
                        r.value[k] == if cursor <= k < cursor + limit then documents[k].(detail := Some(details[k])) else documents[k])
                  && next == (if cursor + limit < |documents| then Some(cursor + limit) else None)
                  && (documents != [] ==> count == (if cursor + limit < |documents| then limit else |documents| - cursor)))
            && match WindowAt(|documents|, cursor, limit)
               case Err(e) => r == Err(e)
               case Ok(w) =>
                 && r.Ok? && |r.value| == |documents| && next == w.next && (documents != [] ==> count == w.hi - w.lo)
                 && forall k :: 0 <= k < |documents| ==>
                      r.value[k] == if w.lo <= k < w.hi then documents[k].(detail := Some(details[k])) else documents[k]
  {
    var limit := if asked.None? then DEFAULT_ENRICH_LIMIT
                 else if asked.value < MAX_ENRICH_LIMIT then asked.value else MAX_ENRICH_LIMIT;
    if cursor >= |documents| && |documents| > 0 { return Err(CursorPastEnd), None, 0; }
    var end := if cursor + limit < |documents| then cursor + limit else |documents|;
    var docs := documents;
    var i := cursor;
    count := 0;
    while i < end
      invariant |docs| == |documents|
      invariant documents != [] ==> cursor <= i <= end && count == i - cursor
      invariant forall k :: 0 <= k < |docs| ==>
                  docs[k] == if cursor <= k < i && k < end then documents[k].(detail := Some(details[k])) else documents[k]
    {
      docs := docs[i := docs[i].(detail := Some(details[i]))];
      count := count + 1;
      i := i + 1;
    }
    return Ok(docs), if end < |documents| then Some(end) else None, count;
  }

  /** Calling again from each next cursor, over a list of n rows that stays as it is. */
  function Follow(n: nat, cursor: nat, limit: nat): seq<Window>
    requires limit > 0
    decreases n - cursor
  {
    match WindowAt(n, cursor, limit)
    case Err(_) => []
    case Ok(w) => [w] + if w.next.Some? then Follow(n, w.next.value, limit) else []
  }

  /** How many of the windows hold row i. */
  function TimesEnriched(ws: seq<Window>, i: nat): nat {
    if ws == [] then 0 else (if ws[0].lo <= i < ws[0].hi then 1 else 0) + TimesEnriched(ws[1..], i)
  }

  lemma {:induction false} FollowTiles(n: nat, cursor: nat, limit: nat, i: nat)
    requires limit > 0 && (cursor < n || n == 0 == cursor) && i < n
    ensures TimesEnriched(Follow(n, cursor, limit), i) == if cursor <= i then 1 else 0
    ensures Follow(n, cursor, limit) != [] && Follow(n, cursor, limit)[|Follow(n, cursor, limit)| - 1].next.None?
    ensures |Follow(n, cursor, limit)| == (n - cursor + limit - 1) / limit
    decreases n - cursor
  {
    var ws := Follow(n, cursor, limit);
    var w := WindowAt(n, cursor, limit).value;
    if w.next.Some? {
      FollowTiles(n, w.next.value, limit, i);
      assert ws[1..] == Follow(n, w.next.value, limit);
      assert (n - cursor + limit - 1) / limit == (n - w.next.value + limit - 1) / limit + 1 by {
        DivideStep(n - w.next.value + limit - 1, limit);
      }
    } else {
      assert ws == [w] && ws[1..] == [];
      DivideSmall(n - cursor, limit);
    }
  }

  lemma MultiplyMonotone(a: int, b: int, d: nat)
    ensures a <= b ==> a * d <= b * d
  {
  }

  lemma QuotientIs(x: nat, d: nat, q: nat, r: nat)
    requires x == q * d + r && r < d
    ensures x / d == q
  {
    MultiplyMonotone(x / d + 1, q, d);
    MultiplyMonotone(q + 1, x / d, d);
  }

  lemma DivideStep(x: nat, d: nat)
    requires d > 0
    ensures (x + d) / d == x / d + 1
  {
    assert x + d == (x / d + 1) * d + x % d;
    QuotientIs(x + d, d, x / d + 1, x % d);
  }

  lemma DivideSmall(x: nat, d: nat)
    requires 0 < x <= d
    ensures (x + d - 1) / d == 1
  {
  }

  /** From cursor 0, following the cursor enriches every row exactly once, in ceil(n / limit) calls,
      and stops with no next cursor; an empty list takes one call. */
  lemma FollowingEnrichesOnce(n: nat, limit: nat)
    requires limit > 0
    ensures var ws := Follow(n, 0, limit);
            && (forall i :: 0 <= i < n ==> TimesEnriched(ws, i) == 1)
            && ws != [] && ws[|ws| - 1].next.None?
            && |ws| == if n == 0 then 1 else (n + limit - 1) / limit
  {
    forall i | 0 <= i < n ensures TimesEnriched(Follow(n, 0, limit), i) == 1 {
      FollowTiles(n, 0, limit, i);
    }
    if n > 0 {
      FollowTiles(n, 0, limit, 0);
    }
  }
}
