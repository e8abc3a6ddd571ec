/** Listing the unpaid invoices: the source cannot filter, so its pages are scanned and the caller's
    window is cut out of the unpaid rows found. */
module UnpaidScan {
  import opened Wrappers

  const MAX_SCAN_PAGES := 25

  /** A balance as sent: absent or null, a finite number (or the text of one), or something else. */
  datatype Balance = Absent | Finite(value: real) | NotFinite

  datatype Invoice = Invoice(id: int, balance: Balance)

  /** A page of the source; `hasMore` missing is false and `data` missing is no rows. */
  datatype Page = Page(rows: seq<Invoice>, hasMore: bool)

  /** The source while one scan runs; None is a read that throws. */
  type Source = nat -> Option<Page>

  datatype Answer = Answer(invoices: seq<Invoice>, scanComplete: bool, pagesScanned: nat, unpaidFound: nat)

  /** A malformed balance keeps the row; no balance at all counts as zero. */
  predicate IsUnpaid(i: Invoice) {
    i.balance.NotFinite? || (i.balance.Finite? && i.balance.value != 0.0)
  }

  function Unpaid(rows: seq<Invoice>): seq<Invoice> {
    if rows == [] then []
    else Unpaid(rows[..|rows| - 1]) + if IsUnpaid(rows[|rows| - 1]) then [rows[|rows| - 1]] else []
  }

  /** The unpaid rows of two stretches, one after the other. */
  lemma {:induction false} UnpaidAppend(a: seq<Invoice>, b: seq<Invoice>)
    ensures Unpaid(a + b) == Unpaid(a) + Unpaid(b)
  {
    if b == [] {
      assert a + b == a;
    } else {
      var ab, init := a + b, b[..|b| - 1];
      assert ab[..|ab| - 1] == a + init;
      UnpaidAppend(a, init);
    }
  }

  /** The simple listing keeps, in order, the rows whose balance is not zero or not a number. */
  lemma {:induction false} UnpaidExactly(rows: seq<Invoice>, i: Invoice)
    ensures var owed := match i.balance case Absent => false case NotFinite => true case Finite(x) => x < 0.0 || x > 0.0;
            && (i in Unpaid(rows) <==> i in rows && owed)
            && Unpaid(rows + [i]) == Unpaid(rows) + if owed then [i] else []
    ensures Unpaid([]) == [] && |Unpaid(rows)| <= |rows|
  {
    assert (rows + [i])[..|rows|] == rows;
    if rows != [] {
      UnpaidExactly(rows[..|rows| - 1], i);
      assert rows == rows[..|rows| - 1] + [rows[|rows| - 1]];
    }
  }

  function Clamp(k: nat, n: nat): (r: nat)
    ensures r <= n
  {
    if k < n then k else n
  }

  /** Elements lo, ..., hi - 1 of s, as far as s goes. */
  function Window<T>(s: seq<T>, lo: nat, hi: nat): seq<T>
    requires lo <= hi
  {
    s[Clamp(lo, |s|)..Clamp(hi, |s|)]
  }

  // ---- the source

  ghost predicate Replied(source: Source, n: nat) {
    forall p {:trigger source(p)} :: 1 <= p <= n ==> source(p).Some?
  }

  ghost predicate More(source: Source, p: nat) {
    source(p).Some? && source(p).value.hasMore
  }

  /** The source has at least n pages. */
  ghost predicate Reaches(source: Source, n: nat) {
    Replied(source, n) && forall p {:trigger More(source, p)} :: 1 <= p < n ==> More(source, p)
  }

  /** The source has exactly n pages. */
  ghost predicate HasPages(source: Source, n: nat) {
    n >= 1 && Reaches(source, n) && !More(source, n)
  }

  ghost function Rows(source: Source, n: nat): seq<Invoice>
    requires Replied(source, n)
  {
    if n == 0 then [] else Rows(source, n - 1) + source(n).value.rows
  }

  ghost predicate Short(source: Source, k: nat, needed: nat) {
    Replied(source, k) && |Unpaid(Rows(source, k))| < needed
  }

  /** The first n pages hold enough. */
  ghost predicate Enough(source: Source, n: nat, needed: nat) {
    Reaches(source, n) && |Unpaid(Rows(source, n))| >= needed
  }

  /** A scan for unpaid rows lo, ..., needed - 1 that read pages 1, ..., fetched, none of them after
      the window was full or the source at its end. */
  ghost predicate Scans(source: Source, lo: nat, needed: nat, r: Option<Answer>, fetched: nat)
    requires lo <= needed
  {
    && fetched <= 25
    && (forall k {:trigger Short(source, k, needed)} :: 0 <= k < fetched ==> Short(source, k, needed))
    && match r
       case None => fetched >= 1 && Reaches(source, fetched - 1) && !HasPages(source, fetched - 1) && source(fetched).None?
       case Some(a) => Reaches(source, fetched) && Answers(source, lo, needed, a, fetched)
  }

  ghost predicate Answers(source: Source, lo: nat, needed: nat, a: Answer, fetched: nat)
    requires lo <= needed && Reaches(source, fetched)
  {
    var unpaid := Unpaid(Rows(source, fetched));
    var filled, ended := |unpaid| >= needed, HasPages(source, fetched);
    && (filled || ended || fetched == 25)
    && a.invoices == Window(unpaid, lo, needed)
    && a.unpaidFound == |unpaid|
    && a.scanComplete == (filled || ended)
    && a.pagesScanned == if !ended && fetched < 25 then fetched + 1 else fetched
  }

  /** The answer of such a scan. */
  ghost predicate Scanned(source: Source, lo: nat, needed: nat, r: Option<Answer>)
    requires lo <= needed
  {
    exists fetched :: Scans(source, lo, needed, r, fetched)
  }

  method KeepUnpaid(unpaid0: seq<Invoice>, rows: seq<Invoice>) returns (unpaid: seq<Invoice>)
    ensures unpaid == unpaid0 + Unpaid(rows)
  {
    unpaid := unpaid0;
    var k := 0;
    while k < |rows|
      invariant k <= |rows| && unpaid == unpaid0 + Unpaid(rows[..k])
    {
      assert rows[..k + 1][..k] == rows[..k];
      if rows[k].balance.NotFinite? || (rows[k].balance.Finite? && rows[k].balance.value != 0.0) {
        unpaid := unpaid + [rows[k]];
      }
      k := k + 1;
    }
    assert rows[..k] == rows;
  }

  /** One more page read. */
  lemma ReadOne(source: Source, n: nat)
    requires Reaches(source, n) && (n > 0 ==> More(source, n)) && source(n + 1).Some?
    ensures Reaches(source, n + 1)
    ensures Unpaid(Rows(source, n + 1)) == Unpaid(Rows(source, n)) + Unpaid(source(n + 1).value.rows)
  {
    UnpaidAppend(Rows(source, n), source(n + 1).value.rows);
  }

  /** The pages before a page were read in full and none of them was the last or held enough. */
  ghost predicate Scanning(source: Source, needed: nat, fetched: nat) {
    && fetched <= 25 && Reaches(source, fetched) && (fetched > 0 ==> More(source, fetched))
    && forall k {:trigger Short(source, k, needed)} :: 0 <= k < fetched ==> Short(source, k, needed)
  }

  lemma ScanThrows(source: Source, lo: nat, needed: nat, fetched: nat)
    requires lo <= needed && fetched < 25 && Scanning(source, needed, fetched) && Short(source, fetched, needed)
    requires source(fetched + 1).None?
    ensures Scanned(source, lo, needed, None)
  {
    assert Scans(source, lo, needed, None, fetched + 1);
  }

  lemma ScanAnswers(source: Source, lo: nat, needed: nat, a: Answer, fetched: nat)
    requires lo <= needed && fetched <= 25 && Reaches(source, fetched)
    requires forall k {:trigger Short(source, k, needed)} :: 0 <= k < fetched ==> Short(source, k, needed)
    requires Answers(source, lo, needed, a, fetched)
    ensures Scanned(source, lo, needed, Some(a))
  {
    assert Scans(source, lo, needed, Some(a), fetched);
  }

  method Scan(source: Source, lo: nat, needed: nat) returns (r: Option<Answer>)
    requires lo <= needed
    ensures Scanned(source, lo, needed, r)
  {
    var unpaid: seq<Invoice> := [];
    var stPage := 1;
    var exhausted := false;
    ghost var fetched := 0;
    while |unpaid| < needed && stPage <= MAX_SCAN_PAGES
      invariant 1 <= stPage <= MAX_SCAN_PAGES + 1 && fetched == stPage - 1 && !exhausted
      invariant Scanning(source, needed, fetched)
      invariant unpaid == Unpaid(Rows(source, fetched))
    {
      assert Short(source, fetched, needed);
      var data := source(stPage);
      if data.None? {
        ScanThrows(source, lo, needed, fetched);
        return None;
      }
      ReadOne(source, fetched);
      fetched := stPage;
      unpaid := KeepUnpaid(unpaid, data.value.rows);
      if !data.value.hasMore { exhausted := true; break; }
      stPage := stPage + 1;
    }
    var pagesScanned := if stPage < MAX_SCAN_PAGES then stPage else MAX_SCAN_PAGES;
    var invoices := Window(unpaid, lo, needed);
    r := Some(Answer(invoices, exhausted || |unpaid| >= needed, pagesScanned, |unpaid|));
    ScanAnswers(source, lo, needed, r.value, fetched);
  }

  method ListUnpaidInvoices(source: Source, page: nat, pageSize: nat) returns (r: Option<Answer>)
    requires page >= 1 && 1 <= pageSize <= 200
    ensures 0 <= (page - 1) * pageSize <= page * pageSize
    ensures Scanned(source, (page - 1) * pageSize, page * pageSize, r)
  {
    r := Scan(source, (page - 1) * pageSize, page * pageSize);
  }

  // ---- what an answer says about the whole source

  lemma {:induction false} RowsGrow(source: Source, m: nat, n: nat)
    requires m <= n && Replied(source, n)
    ensures Unpaid(Rows(source, m)) <= Unpaid(Rows(source, n))
    decreases n - m
  {
    if m < n {
      RowsGrow(source, m, n - 1);
      UnpaidAppend(Rows(source, n - 1), source(n).value.rows);
    }
  }

  lemma WindowOfPrefix<T>(s: seq<T>, whole: seq<T>, lo: nat, hi: nat)
    requires lo <= hi && s <= whole
    ensures Window(s, lo, hi) <= Window(whole, lo, hi)
    ensures |s| >= hi || s == whole ==> Window(s, lo, hi) == Window(whole, lo, hi)
  {
  }

  /** On a source of n pages: a complete scan returns what filtering all of it and cutting out the
      window would, an incomplete one a prefix of that, and either reads at most 25 pages. */
  lemma ScanRefinesListing(source: Source, lo: nat, needed: nat, r: Option<Answer>, fetched: nat, n: nat)
    requires lo <= needed && Scans(source, lo, needed, r, fetched) && HasPages(source, n)
    ensures r.Some? && fetched <= n && fetched <= 25
    ensures var simple := Window(Unpaid(Rows(source, n)), lo, needed);
            && (r.value.scanComplete ==> r.value.invoices == simple)
            && r.value.invoices <= simple
  {
    assert n < fetched - 1 ==> More(source, n);
    assert r.Some? && n < fetched ==> More(source, n);
    assert 1 <= fetched <= n ==> source(fetched).Some?;
    assert r.Some? && fetched <= n;
    RowsGrow(source, fetched, n);
    WindowOfPrefix(Unpaid(Rows(source, fetched)), Unpaid(Rows(source, n)), lo, needed);
    assert 1 <= fetched < n ==> More(source, fetched);
  }

  /** A scan is complete exactly when the source ends within 25 pages or those hold enough unpaid rows. */
  lemma CompleteExactly(source: Source, lo: nat, needed: nat, r: Option<Answer>, fetched: nat)
    requires lo <= needed && Scans(source, lo, needed, r, fetched) && r.Some?
    ensures r.value.scanComplete <==>
              || (exists n: nat {:trigger HasPages(source, n)} :: n <= 25 && HasPages(source, n))
              || (exists n: nat {:trigger Enough(source, n, needed)} :: n <= 25 && Enough(source, n, needed))
  {
    if r.value.scanComplete {
      assert HasPages(source, fetched) || Enough(source, fetched, needed);
    } else {
      forall n: nat | n <= MAX_SCAN_PAGES ensures !HasPages(source, n) {
        assert 1 <= n < fetched ==> More(source, n);
      }
      forall n: nat | n <= MAX_SCAN_PAGES ensures !Enough(source, n, needed) {
        RowsGrow(source, n, fetched);
      }
    }
  }

  /** `_pages_scanned` is the number of pages read, or one more: exactly when the window filled before
      the source ended and before the budget ran out.  A scan reported as incomplete counts right. */
  lemma PagesScannedExactly(source: Source, lo: nat, needed: nat, r: Option<Answer>, fetched: nat)
    requires lo <= needed && Scans(source, lo, needed, r, fetched) && r.Some?
    ensures fetched <= r.value.pagesScanned <= fetched + 1 && r.value.pagesScanned <= 25
    ensures r.value.pagesScanned == fetched + 1 <==>
              fetched < 25 && Enough(source, fetched, needed) && !HasPages(source, fetched)
    ensures !r.value.scanComplete ==> r.value.pagesScanned == fetched
  {
  }

  lemma OneRow(source: Source, invoice: Invoice)
    requires source(1) == Some(Page([invoice], true)) && IsUnpaid(invoice)
    ensures Replied(source, 1) && Unpaid(Rows(source, 1)) == [invoice] && Unpaid(Rows(source, 0)) == []
  {
  }

  /** One page of one unpaid invoice, with more behind it, fills a window of one: two pages are reported. */
  lemma OnePageReportedAsTwo(source: Source, invoice: Invoice, r: Option<Answer>, fetched: nat)
    requires source(1) == Some(Page([invoice], true)) && IsUnpaid(invoice)
    requires Scans(source, 0, 1, r, fetched)
    ensures fetched == 1 && r == Some(Answer([invoice], true, 2, 1))
  {
    OneRow(source, invoice);
    assert !Short(source, 1, 1);
    assert fetched <= 1;
    assert !HasPages(source, 0);
    assert fetched == 1;
    assert More(source, 1);
    assert Window([invoice], 0, 1) == [invoice];
  }
}
