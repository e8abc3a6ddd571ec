/** Has this AP-inbox document been filed already, or is it waiting twice? */
module DedupCheck {
  import opened Wrappers
  import opened Chars
  import opened Money

  // ---- keys

  predicate IsUpper(c: char) { 'A' <= c <= 'Z' }

  predicate IsLower(c: char) { 'a' <= c <= 'z' }

  predicate IsAlnum(c: char) { IsDigit(c) || IsUpper(c) || IsLower(c) }

  function ToUpper(c: char): char {
    if IsLower(c) then ((c as int) - 32) as char else c
  }

  function ToLower(c: char): char {
    if IsUpper(c) then ((c as int) + 32) as char else c
  }

  /** The letters and digits of s, upper case. */
  function Kept(s: string): string {
    if s == "" then "" else (if IsAlnum(s[0]) then [ToUpper(s[0])] else "") + Kept(s[1..])
  }

  function StripZeros(s: string): string {
    if s != "" && s[0] == '0' then StripZeros(s[1..]) else s
  }

  /** A missing number is the empty one; "000" is "0", not empty. */
  function NormalizeInvoiceNumber(raw: Option<string>): string {
    if raw.None? then ""
    else
      var s := Kept(raw.value);
      if s == "" then "" else if StripZeros(s) == "" then "0" else StripZeros(s)
  }

  /** The letters and digits of s, lower case. */
  function Slug(s: string): string {
    if s == "" then "" else (if IsAlnum(s[0]) then [ToLower(s[0])] else "") + Slug(s[1..])
  }

  lemma {:induction false} KeptShape(s: string)
    ensures forall k :: 0 <= k < |Kept(s)| ==> IsDigit(Kept(s)[k]) || IsUpper(Kept(s)[k])
    ensures Kept(s) == "" <==> forall k :: 0 <= k < |s| ==> !IsAlnum(s[k])
  {
    if s != "" {
      KeptShape(s[1..]);
      assert forall k :: 0 < k < |s| ==> s[k] == s[1..][k - 1];
    }
  }

  lemma {:induction false} KeptFixed(s: string)
    requires forall k :: 0 <= k < |s| ==> IsDigit(s[k]) || IsUpper(s[k])
    ensures Kept(s) == s
  {
    if s != "" {
      KeptFixed(s[1..]);
    }
  }

  lemma {:induction false} KeptAppend(a: string, b: string)
    ensures Kept(a + b) == Kept(a) + Kept(b)
  {
    if a == "" {
      assert a + b == b;
    } else {
      var ab, rest := a + b, a[1..];
      var head := if IsAlnum(a[0]) then [ToUpper(a[0])] else "";
      assert ab[0] == a[0] && ab[1..] == rest + b;
      KeptAppend(rest, b);
      assert Kept(ab) == head + (Kept(rest) + Kept(b));
      assert head + (Kept(rest) + Kept(b)) == (head + Kept(rest)) + Kept(b);
    }
  }

  /** What is kept of one character: digits, capitals, and small letters as capitals. */
  lemma KeptOfOne(c: char)
    ensures Kept([c]) ==
            if '0' <= c <= '9' || 'A' <= c <= 'Z' then [c]
            else if 'a' <= c <= 'z' then [((c as int) - 'a' as int + 'A' as int) as char] else ""
  {
    assert [c][1..] == "" && Kept("") == "";
  }

  /** And for vendor names: digits, small letters, and capitals as small letters. */
  lemma SlugOfOne(c: char)
    ensures Slug([c]) ==
            if '0' <= c <= '9' || 'a' <= c <= 'z' then [c]
            else if 'A' <= c <= 'Z' then [((c as int) - 'A' as int + 'a' as int) as char] else ""
  {
    assert [c][1..] == "" && Slug("") == "";
  }

  /** Each character is kept or dropped on its own. */
  lemma {:induction false} SlugAppend(a: string, b: string)
    ensures Slug(a + b) == Slug(a) + Slug(b)
  {
    if a == "" {
      assert a + b == b;
    } else {
      var ab, rest := a + b, a[1..];
      var head := if IsAlnum(a[0]) then [ToLower(a[0])] else "";
      assert ab[0] == a[0] && ab[1..] == rest + b;
      SlugAppend(rest, b);
      assert Slug(ab) == head + (Slug(rest) + Slug(b));
      assert head + (Slug(rest) + Slug(b)) == (head + Slug(rest)) + Slug(b);
    }
  }

  /** The key is what is kept, without its leading zeros, unless it is nothing but zeros. */
  lemma NormalizeExactly(zeros: string, rest: string, s: string)
    requires forall k :: 0 <= k < |zeros| ==> zeros[k] == '0'
    requires Kept(s) == zeros + rest && (rest != "" ==> rest[0] != '0')
    ensures NormalizeInvoiceNumber(Some(s)) == if rest != "" then rest else if zeros != "" then "0" else ""
  {
    StripsZeros(zeros, rest);
  }

  lemma {:induction false} StripsZeros(zeros: string, rest: string)
    requires forall k :: 0 <= k < |zeros| ==> zeros[k] == '0'
    requires rest != "" ==> rest[0] != '0'
    ensures StripZeros(zeros + rest) == rest
  {
    if zeros == "" {
      assert zeros + rest == rest;
    } else {
      assert (zeros + rest)[1..] == zeros[1..] + rest;
      StripsZeros(zeros[1..], rest);
    }
  }

  lemma {:induction false} StripShape(s: string)
    ensures var r := StripZeros(s);
            && |r| <= |s| && r == s[|s| - |r|..]
            && (r != "" ==> r[0] != '0')
            && StripZeros(r) == r
  {
    if s != "" && s[0] == '0' {
      StripShape(s[1..]);
    }
  }

  /** The key is canonical, is empty exactly when the number holds no letter and no digit, and normalising
      it again changes nothing. */
  lemma NormalizeShape(raw: Option<string>)
    ensures var key := NormalizeInvoiceNumber(raw);
            && (forall k :: 0 <= k < |key| ==> '0' <= key[k] <= '9' || 'A' <= key[k] <= 'Z')
            && (|key| > 1 ==> key[0] != '0')
    ensures NormalizeInvoiceNumber(raw) == "" <==>
              raw.None? || forall k :: 0 <= k < |raw.value| ==> !IsAlnum(raw.value[k])
    ensures NormalizeInvoiceNumber(Some(NormalizeInvoiceNumber(raw))) == NormalizeInvoiceNumber(raw)
  {
    if raw.Some? {
      var n := NormalizeInvoiceNumber(raw);
      KeptShape(raw.value);
      StripShape(Kept(raw.value));
      KeptFixed(n);
      assert n == "0" ==> n[1..] == "" && StripZeros(n) == "";
    }
  }

  lemma {:induction false} KeptIgnoresCase(s: string, t: string)
    requires |s| == |t| && forall k :: 0 <= k < |s| ==> ToUpper(s[k]) == ToUpper(t[k])
    ensures Kept(s) == Kept(t)
  {
    if s != "" {
      assert IsAlnum(s[0]) <==> IsAlnum(t[0]);
      KeptIgnoresCase(s[1..], t[1..]);
    }
  }

  /** Noise does not matter: punctuation and blanks anywhere, the case of letters, and zeros in front
      (unless nothing else is there). */
  lemma NormalizeIgnores(a: string, noise: string, b: string, a': string, zero: string)
    requires |a'| == |a| && forall k :: 0 <= k < |a| ==> ToUpper(a'[k]) == ToUpper(a[k])
    requires forall k :: 0 <= k < |noise| ==> !IsAlnum(noise[k])
    requires zero == "0"
    ensures NormalizeInvoiceNumber(Some(a + noise + b)) == NormalizeInvoiceNumber(Some(a + b))
    ensures NormalizeInvoiceNumber(Some(a')) == NormalizeInvoiceNumber(Some(a))
    ensures NormalizeInvoiceNumber(Some(zero + a)) ==
            if NormalizeInvoiceNumber(Some(a)) == "" then zero else NormalizeInvoiceNumber(Some(a))
  {
    KeptShape(noise);
    assert Kept(a) + Kept(noise) == Kept(a);
    KeptIgnoresCase(a', a);
    KeptAppend(a + noise, b);
    KeptAppend(a, noise);
    KeptAppend(a, b);
    KeptAppend(zero, a);
    assert zero[1..] == "" && Kept(zero) == zero;
    assert (zero + Kept(a))[1..] == Kept(a);
    StripShape(Kept(a));
  }

  // ---- rows

  datatype Bill = Bill(documentId: Option<int>, ocrResultId: Option<int>, vendorName: Option<string>,
                       vendorId: Option<int>, invoiceNumber: Option<string>, amount: Option<real>)

  function PositiveId(v: Option<int>): Option<int> {
    if v.Some? && v.value > 0 then v else None
  }

  function VendorSlug(b: Bill): string {
    if b.vendorName.Some? then Slug(b.vendorName.value) else ""
  }

  /** Whether two rows name the same vendor; None is unknown. */
  function VendorsMatch(a: Bill, b: Bill): Option<bool> {
    var aid, bid := PositiveId(a.vendorId), PositiveId(b.vendorId);
    if aid.Some? && bid.Some? then Some(aid == bid)
    else if VendorSlug(a) != "" && VendorSlug(b) != "" then Some(VendorSlug(a) == VendorSlug(b))
    else None
  }

  predicate IsSameRow(a: Bill, b: Bill) {
    && a.documentId.Some? && b.documentId.Some? && a.ocrResultId.Some? && b.ocrResultId.Some?
    && a.documentId == b.documentId && a.ocrResultId == b.ocrResultId
  }

  predicate CentsEqual(a: real, b: real) {
    Cents(a) == Cents(b)
  }

  /** To the penny: whole cents agree only when equal, and amounts that agree are less than a cent apart. */
  lemma CentsEqualExactly(a: real, b: real, m: int, n: int)
    ensures CentsEqual(a, b) ==> -0.01 < a - b < 0.01
    ensures CentsEqual(m as real / 100.0, n as real / 100.0) <==> m == n
  {
  }

  predicate Readable(b: Bill) {
    NormalizeInvoiceNumber(b.invoiceNumber) != "" && b.amount.Some?
  }

  // ---- the check

  datatype Verdict = Clear | CannotJudge | Ambiguous | Duplicate

  datatype Origin = FromCreated | FromPending

  datatype Result = Result(verdict: Verdict, matched: seq<(Origin, Bill)>, ambiguous: seq<(Origin, Bill)>, unjudgeable: nat)

  /** What a row is to a candidate. */
  datatype Relation = Itself | Unreadable | OtherInvoice | Confirmed | Doubtful

  function Relate(candidate: Bill, row: Bill): Relation
    requires Readable(candidate)
  {
    if IsSameRow(row, candidate) then Itself
    else if !Readable(row) then Unreadable
    else if NormalizeInvoiceNumber(row.invoiceNumber) != NormalizeInvoiceNumber(candidate.invoiceNumber) then OtherInvoice
    else if VendorsMatch(candidate, row) == Some(true) && CentsEqual(row.amount.value, candidate.amount.value) then Confirmed
    else Doubtful
  }

  /** The rows of one relation, in order, labelled with where they came from. */
  function RowsThat(candidate: Bill, rows: seq<Bill>, origin: Origin, relation: Relation): seq<(Origin, Bill)>
    requires Readable(candidate)
  {
    if rows == [] then []
    else
      var last := rows[|rows| - 1];
      RowsThat(candidate, rows[..|rows| - 1], origin, relation)
        + if Relate(candidate, last) == relation then [(origin, last)] else []
  }

  method Scan(candidate: Bill, rows: seq<Bill>, origin: Origin)
    returns (matched: seq<(Origin, Bill)>, ambiguous: seq<(Origin, Bill)>, unjudgeable: nat)
    requires Readable(candidate)
    ensures matched == RowsThat(candidate, rows, origin, Confirmed)
    ensures ambiguous == RowsThat(candidate, rows, origin, Doubtful)
    ensures unjudgeable == |RowsThat(candidate, rows, origin, Unreadable)|
  {
    var inv, amount := NormalizeInvoiceNumber(candidate.invoiceNumber), candidate.amount.value;
    matched, ambiguous, unjudgeable := [], [], 0;
    var k := 0;
    while k < |rows|
      invariant k <= |rows|
      invariant matched == RowsThat(candidate, rows[..k], origin, Confirmed)
      invariant ambiguous == RowsThat(candidate, rows[..k], origin, Doubtful)
      invariant unjudgeable == |RowsThat(candidate, rows[..k], origin, Unreadable)|
    {
      var row := rows[k];
      assert rows[..k + 1][..k] == rows[..k];
      k := k + 1;
      if IsSameRow(row, candidate) { continue; }
      var rowInv := NormalizeInvoiceNumber(row.invoiceNumber);
      if rowInv == "" || row.amount.None? {
        unjudgeable := unjudgeable + 1;
        continue;
      }
      if rowInv != inv { continue; }
      var vendorVerdict := VendorsMatch(candidate, row);
      if vendorVerdict == Some(true) && CentsEqual(row.amount.value, amount) {
        matched := matched + [(origin, row)];
      } else {
        ambiguous := ambiguous + [(origin, row)];
      }
    }
    assert rows[..k] == rows;
  }

  function Given(rows: Option<seq<Bill>>): seq<Bill> {
    if rows.Some? then rows.value else []
  }

  /** Some row of either set stands in this relation to the candidate. */
  ghost predicate AnyRow(candidate: Bill, created: Option<seq<Bill>>, pending: Option<seq<Bill>>, relation: Relation)
    requires Readable(candidate)
  {
    exists row {:trigger Relate(candidate, row)} ::
      (row in Given(created) || row in Given(pending)) && Relate(candidate, row) == relation
  }

  /** The verdict, by what the rows are to the candidate. */
  ghost function VerdictOf(candidate: Bill, created: Option<seq<Bill>>, pending: Option<seq<Bill>>): Verdict {
    if !Readable(candidate) then CannotJudge
    else if AnyRow(candidate, created, pending, Confirmed) then Duplicate
    else if AnyRow(candidate, created, pending, Doubtful) then Ambiguous
    else if AnyRow(candidate, created, pending, Unreadable) || created.None? || pending.None? then CannotJudge
    else Clear
  }

  lemma {:induction false} RowsThatExactly(candidate: Bill, rows: seq<Bill>, origin: Origin, relation: Relation)
    requires Readable(candidate)
    ensures RowsThat(candidate, rows, origin, relation) != [] <==>
              exists row {:trigger Relate(candidate, row)} :: row in rows && Relate(candidate, row) == relation
    ensures forall p :: p in RowsThat(candidate, rows, origin, relation) <==>
              p.0 == origin && p.1 in rows && Relate(candidate, p.1) == relation
  {
    if rows != [] {
      var init, last := rows[..|rows| - 1], rows[|rows| - 1];
      assert rows == init + [last];
      RowsThatExactly(candidate, init, origin, relation);
      assert last in rows;
    }
  }

  method DedupCheck(candidate: Bill, created: Option<seq<Bill>>, pending: Option<seq<Bill>>) returns (r: Result)
    ensures r.verdict == VerdictOf(candidate, created, pending)
    ensures Readable(candidate) ==>
              && r.matched == RowsThat(candidate, Given(created), FromCreated, Confirmed)
                           + RowsThat(candidate, Given(pending), FromPending, Confirmed)
              && r.ambiguous == RowsThat(candidate, Given(created), FromCreated, Doubtful)
                             + RowsThat(candidate, Given(pending), FromPending, Doubtful)
              && r.unjudgeable == |RowsThat(candidate, Given(created), FromCreated, Unreadable)|
                               + |RowsThat(candidate, Given(pending), FromPending, Unreadable)|
    ensures !Readable(candidate) ==> r == Result(CannotJudge, [], [], 0)
  {
    var inv := NormalizeInvoiceNumber(candidate.invoiceNumber);
    if inv == "" { return Result(CannotJudge, [], [], 0); }
    if candidate.amount.None? { return Result(CannotJudge, [], [], 0); }
    var matched: seq<(Origin, Bill)> := [];
    var ambiguous: seq<(Origin, Bill)> := [];
    var unjudgeable := 0;
    if created.Some? {
      matched, ambiguous, unjudgeable := Scan(candidate, created.value, FromCreated);
    }
    if pending.Some? {
      var m, a, u := Scan(candidate, pending.value, FromPending);
      matched, ambiguous, unjudgeable := matched + m, ambiguous + a, unjudgeable + u;
    }
    var verdict := if |matched| > 0 then Duplicate
                   else if |ambiguous| > 0 then Ambiguous
                   else if unjudgeable > 0 || created.None? || pending.None? then CannotJudge
                   else Clear;
    ScannedExactly(candidate, created, pending, Confirmed);
    ScannedExactly(candidate, created, pending, Doubtful);
    ScannedExactly(candidate, created, pending, Unreadable);
    r := Result(verdict, matched, ambiguous, unjudgeable);
  }

  lemma ScannedExactly(candidate: Bill, created: Option<seq<Bill>>, pending: Option<seq<Bill>>, relation: Relation)
    requires Readable(candidate)
    ensures AnyRow(candidate, created, pending, relation) <==>
              || RowsThat(candidate, Given(created), FromCreated, relation) != []
              || RowsThat(candidate, Given(pending), FromPending, relation) != []
  {
    RowsThatExactly(candidate, Given(created), FromCreated, relation);
    RowsThatExactly(candidate, Given(pending), FromPending, relation);
  }

  // ---- what a verdict says

  /** Two rows name the same vendor: by their ids where both have one, else by their names. */
  lemma VendorsMatchExactly(a: Bill, b: Bill)
    ensures VendorsMatch(a, b) == Some(true) <==>
              if a.vendorId.Some? && a.vendorId.value > 0 && b.vendorId.Some? && b.vendorId.value > 0 then
                a.vendorId == b.vendorId
              else
                a.vendorName.Some? && b.vendorName.Some? && Slug(a.vendorName.value) == Slug(b.vendorName.value) != ""
    ensures VendorsMatch(a, b) == None <==>
              && !(a.vendorId.Some? && a.vendorId.value > 0 && b.vendorId.Some? && b.vendorId.value > 0)
              && !(a.vendorName.Some? && b.vendorName.Some? && Slug(a.vendorName.value) != "" && Slug(b.vendorName.value) != "")
  {
  }

  /** Both name a document and a bill of it, and the same ones. */
  predicate IsSameDocument(candidate: Bill, row: Bill) {
    && row.documentId.Some? && row.documentId == candidate.documentId
    && row.ocrResultId.Some? && row.ocrResultId == candidate.ocrResultId
  }

  /** The row is another one, readable, under the same invoice number. */
  predicate SameInvoice(candidate: Bill, row: Bill) {
    && !IsSameDocument(candidate, row) && NormalizeInvoiceNumber(row.invoiceNumber) != "" && row.amount.Some?
    && NormalizeInvoiceNumber(row.invoiceNumber) == NormalizeInvoiceNumber(candidate.invoiceNumber)
  }

  /** The vendors match and the amounts agree to the cent. */
  predicate Agrees(candidate: Bill, row: Bill)
    requires Readable(candidate) && Readable(row)
  {
    VendorsMatch(candidate, row) == Some(true) && Cents(row.amount.value) == Cents(candidate.amount.value)
  }

  /** Duplicate: exactly when another readable row has the same number, the same vendor and the same cents.
      Ambiguous: exactly when only rows of the same number that disagree on vendor or cents are found. */
  lemma DuplicateExactly(candidate: Bill, created: Option<seq<Bill>>, pending: Option<seq<Bill>>)
    ensures VerdictOf(candidate, created, pending) == Duplicate <==>
              && Readable(candidate)
              && exists row {:trigger SameInvoice(candidate, row)} ::
                   (row in Given(created) || row in Given(pending)) && SameInvoice(candidate, row) && Agrees(candidate, row)
    ensures VerdictOf(candidate, created, pending) == Ambiguous <==>
              && Readable(candidate)
              && VerdictOf(candidate, created, pending) != Duplicate
              && exists row {:trigger SameInvoice(candidate, row)} ::
                   (row in Given(created) || row in Given(pending)) && SameInvoice(candidate, row)
  {
    if Readable(candidate) {
      forall row ensures Relate(candidate, row) == Confirmed <==> SameInvoice(candidate, row) && Agrees(candidate, row) {
      }
      forall row ensures Relate(candidate, row) in {Confirmed, Doubtful} <==> SameInvoice(candidate, row) {
      }
    }
  }

  /** Clear: exactly when the candidate is readable, both sets were given, and every row but the candidate
      itself is readable and carries another invoice number. */
  lemma ClearExactly(candidate: Bill, created: Option<seq<Bill>>, pending: Option<seq<Bill>>)
    ensures VerdictOf(candidate, created, pending) == Clear <==>
              && NormalizeInvoiceNumber(candidate.invoiceNumber) != "" && candidate.amount.Some? && created.Some? && pending.Some?
              && forall row :: row in created.value || row in pending.value ==>
                   || IsSameDocument(candidate, row)
                   || (NormalizeInvoiceNumber(row.invoiceNumber) != "" && row.amount.Some?
                       && NormalizeInvoiceNumber(row.invoiceNumber) != NormalizeInvoiceNumber(candidate.invoiceNumber))
  {
    if Readable(candidate) && created.Some? && pending.Some? {
      forall row | row in created.value || row in pending.value
        ensures Relate(candidate, row) in {Itself, Unreadable, OtherInvoice, Confirmed, Doubtful}
      {
      }
    }
  }

  function Rank(v: Verdict): nat {
    match v case Clear => 0 case CannotJudge => 1 case Ambiguous => 2 case Duplicate => 3
  }

  ghost predicate MoreRows(rows: Option<seq<Bill>>, more: Option<seq<Bill>>) {
    (rows.Some? <==> more.Some?) && forall row :: row in Given(rows) ==> row in Given(more)
  }

  /** More rows never lower the verdict. */
  lemma MoreRowsNeverLower(candidate: Bill, created: Option<seq<Bill>>, pending: Option<seq<Bill>>,
                           created': Option<seq<Bill>>, pending': Option<seq<Bill>>)
    requires MoreRows(created, created') && MoreRows(pending, pending')
    ensures Rank(VerdictOf(candidate, created, pending)) <= Rank(VerdictOf(candidate, created', pending'))
  {
  }

  /** The order of the rows, repeats, and which set a row is in do not matter. */
  lemma OnlyRowsMatter(candidate: Bill, created: Option<seq<Bill>>, pending: Option<seq<Bill>>,
                       created': Option<seq<Bill>>, pending': Option<seq<Bill>>)
    requires created.None? || pending.None? <==> created'.None? || pending'.None?
    requires forall row :: row in Given(created) + Given(pending) <==> row in Given(created') + Given(pending')
    ensures VerdictOf(candidate, created, pending) == VerdictOf(candidate, created', pending')
  {
    if Readable(candidate) {
      forall relation ensures AnyRow(candidate, created, pending, relation) <==> AnyRow(candidate, created', pending', relation) {
        SameSome(candidate, created, pending, created', pending', relation);
        SameSome(candidate, created', pending', created, pending, relation);
      }
    }
  }

  lemma SameSome(candidate: Bill, created: Option<seq<Bill>>, pending: Option<seq<Bill>>,
                 created': Option<seq<Bill>>, pending': Option<seq<Bill>>, relation: Relation)
    requires Readable(candidate)
    requires forall row :: row in Given(created) + Given(pending) ==> row in Given(created') + Given(pending')
    ensures AnyRow(candidate, created, pending, relation) ==> AnyRow(candidate, created', pending', relation)
  {
    if AnyRow(candidate, created, pending, relation) {
      var row :| (row in Given(created) || row in Given(pending)) && Relate(candidate, row) == relation;
      assert row in Given(created) + Given(pending);
      assert row in Given(created') + Given(pending');
    }
  }

  /** One bill is a duplicate of another exactly when the other is of it; likewise for the doubtful. */
  lemma DuplicationIsSymmetric(a: Bill, b: Bill)
    ensures VerdictOf(a, Some([b]), Some([])) == Duplicate <==> VerdictOf(b, Some([a]), Some([])) == Duplicate
    ensures VerdictOf(a, Some([b]), Some([])) == Ambiguous <==> VerdictOf(b, Some([a]), Some([])) == Ambiguous
  {
    if Readable(a) && Readable(b) {
      assert Relate(a, b) == Relate(b, a);
      OneRow(a, b);
      OneRow(b, a);
    } else {
      if Readable(a) { OneRow(a, b); }
      if Readable(b) { OneRow(b, a); }
    }
  }

  lemma OneRow(a: Bill, b: Bill)
    requires Readable(a)
    ensures VerdictOf(a, Some([b]), Some([])) ==
            match Relate(a, b) case Confirmed => Duplicate case Doubtful => Ambiguous case Unreadable => CannotJudge case _ => Clear
  {
  }

  /** But it is not transitive: a row without a vendor id confirms two rows of different vendors that print
      the same name, and those two are not confirmed as each other's duplicates. */
  lemma DuplicationIsNotTransitive(a: Bill, b: Bill, c: Bill)
    requires a == Bill(Some(1), Some(1), Some("ACME"), Some(7), Some("42"), Some(10.0))
    requires b == Bill(Some(2), Some(2), Some("Acme"), None, Some("42"), Some(10.0))
    requires c == Bill(Some(3), Some(3), Some("ACME"), Some(8), Some("42"), Some(10.0))
    ensures Readable(a) && Readable(b) && Readable(c)
    ensures Relate(a, b) == Confirmed && Relate(b, c) == Confirmed && Relate(a, c) == Doubtful
  {
    assert Kept("42") == "42" by {
      KeptFixed("42");
    }
    SlugOf("ACME");
    SlugOf("Acme");
  }

  lemma SlugOf(s: string)
    requires s == "ACME" || s == "Acme"
    ensures Slug(s) == "acme"
  {
    assert s[1..][1..] == s[2..] && s[2..][1..] == s[3..] && s[3..][1..] == "";
    assert Slug(s[3..]) == "e";
    assert Slug(s[2..]) == "me";
    assert Slug(s[1..]) == "cme";
  }
}
