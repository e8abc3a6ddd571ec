/** Adding and updating invoice lines: sequential writes to a remote that may drop fields or lag, then
    a verification of the money against what was there before. */
module AddLineItems {
  import opened Wrappers
  import opened Money

  const MONEY_EPSILON := 0.005

  /** A numeric field of a reading: a number, a string (with the number it spells, if any), or neither. */
  datatype Raw = Missing | Finite(n: real) | NotFinite | Text(number: Option<real>) | Other

  /** A line as read back.  `id` is None where it is not a finite number. */
  datatype Item = Item(id: Option<int>, quantity: Raw, cost: Raw, price: Raw, unitPrice: Raw)

  datatype ItemsField = Absent | NullItems | Items(items: seq<Item>)

  datatype Invoice = Invoice(id: Option<int>, items: ItemsField)

  /** One attempt to read the invoice: an error, nothing, or the first row returned. */
  datatype Reading = ReadError | Empty | Row(invoice: Invoice)

  /** A line to write: an update when it names an id, otherwise an append. */
  datatype Line = Line(id: Option<int>, skuId: Option<int>, skuName: Option<string>,
                       quantity: real, cost: Option<real>, unitPrice: Option<real>)

  /** How one PATCH ended: refused by the limiter or lost, failed, or answered (with an item id, if any). */
  datatype Patch = Threw | Failed | Answered(id: Option<int>)

  datatype Outcome =
    | ValidationError
    | InvoiceNotFound
    | IdsNotHonored
    | TokenRefused
    | WriteThrew(sent: nat)
    | PartialWrite(failedAtCall: nat, writtenIds: seq<int>)
    | VerifyUnavailable
    | SilentNoop
    | AmountMismatch
    | Verified(appendedIds: seq<int>, updatedIds: seq<int>, expected: real, actual: real)

  // ---- reading money

  function ToMoney(v: Raw): Option<real> {
    match v
    case Finite(n) => Some(n)
    case Text(number) => number
    case _ => None
  }

  function OrElse(a: Option<real>, b: Option<real>): Option<real> {
    if a.Some? then a else b
  }

  function OrZero(a: Option<real>): real {
    if a.Some? then a.value else 0.0
  }

  function ItemPrice(it: Item): Option<real> {
    OrElse(ToMoney(it.price), ToMoney(it.unitPrice))
  }

  function ItemAmount(it: Item): real {
    OrZero(ItemPrice(it)) * OrZero(ToMoney(it.quantity))
  }

  function IntendedAmount(li: Line): real {
    OrZero(li.unitPrice) * li.quantity
  }

  predicate MoneyEquals(a: real, b: real) {
    -MONEY_EPSILON <= a - b <= MONEY_EPSILON
  }

  // ---- lines and rows

  predicate IsAppend(li: Line) {
    li.id.None?
  }

  function Appends(lines: seq<Line>): seq<Line> {
    if lines == [] then [] else (if IsAppend(lines[0]) then [lines[0]] else []) + Appends(lines[1..])
  }

  function Updates(lines: seq<Line>): seq<Line> {
    if lines == [] then [] else (if IsAppend(lines[0]) then [] else [lines[0]]) + Updates(lines[1..])
  }

  function IntendedTotal(lines: seq<Line>): real {
    if lines == [] then 0.0 else IntendedAmount(lines[0]) + IntendedTotal(lines[1..])
  }

  function AmountTotal(items: seq<Item>): real {
    if items == [] then 0.0 else ItemAmount(items[0]) + AmountTotal(items[1..])
  }

  /** Rows by id; where an id repeats, the last row. */
  function Index(items: seq<Item>): map<int, Item> {
    if items == [] then map[]
    else
      var last := items[|items| - 1];
      var before := Index(items[..|items| - 1]);
      if last.id.Some? then before[last.id.value := last] else before
  }

  /** The rows whose id was not there before. */
  function NewRows(items: seq<Item>, known: set<int>): seq<Item> {
    if items == [] then []
    else
      (if items[0].id.Some? && items[0].id.value !in known then [items[0]] else []) + NewRows(items[1..], known)
  }

  function IdsOf(items: seq<Item>): seq<int>
    requires forall k :: 0 <= k < |items| ==> items[k].id.Some?
  {
    if items == [] then [] else [items[0].id.value] + IdsOf(items[1..])
  }

  function RowsOf(field: ItemsField): seq<Item> {
    if field.Items? then field.items else []
  }

  // ---- checks

  predicate LineOk(li: Line) {
    IsAppend(li) ==> (li.skuId.Some? || li.skuName.Some?) && li.unitPrice.Some?
  }

  predicate LinesOk(lines: seq<Line>) {
    lines != [] && forall k :: 0 <= k < |lines| ==> LineOk(lines[k])
  }

  /** A value sent is the value read back; a value not sent but readable before has not moved. */
  predicate Honoured(sent: Option<real>, before: Option<real>, after: Option<real>) {
    if sent.Some? then after.Some? && MoneyEquals(after.value, sent.value)
    else before.Some? ==> after.Some? && MoneyEquals(before.value, after.value)
  }

  function PriceBefore(li: Line, baseline: map<int, Item>): Option<real>
    requires li.id.Some?
  {
    if li.id.value in baseline then ItemPrice(baseline[li.id.value]) else None
  }

  function CostBefore(li: Line, baseline: map<int, Item>): Option<real>
    requires li.id.Some?
  {
    if li.id.value in baseline then ToMoney(baseline[li.id.value].cost) else None
  }

  predicate UpdateLanded(li: Line, baseline: map<int, Item>, post: map<int, Item>)
    requires li.id.Some?
  {
    && li.id.value in post
    && Honoured(li.unitPrice, PriceBefore(li, baseline), ItemPrice(post[li.id.value]))
    && (li.cost.None? ==> Honoured(None, CostBefore(li, baseline), ToMoney(post[li.id.value].cost)))
  }

  method IndexItems(items: seq<Item>) returns (index: map<int, Item>)
    ensures index == Index(items)
  {
    index := map[];
    var k := 0;
    while k < |items|
      invariant k <= |items|
      invariant index == Index(items[..k])
    {
      if items[k].id.Some? {
        index := index[items[k].id.value := items[k]];
      }
      k := k + 1;
      assert items[..k][..k - 1] == items[..k - 1];
    }
    assert items[..k] == items;
  }

  method ValidateLines(lines: seq<Line>) returns (ok: bool)
    ensures ok == LinesOk(lines)
  {
    if lines == [] { return false; }
    var k := 0;
    while k < |lines|
      invariant k <= |lines|
      invariant forall j :: 0 <= j < k ==> LineOk(lines[j])
    {
      var li := lines[k];
      if li.id.None? && li.skuId.None? && li.skuName.None? { return false; }
      if li.id.None? && li.unitPrice.None? { return false; }
      k := k + 1;
    }
    return true;
  }

  // ---- the verify-read

  predicate Observes(r: Reading, invoiceId: int) {
    r.Row? && r.invoice.id == Some(invoiceId)
  }

  /** For writes to an existing invoice: keep reading until the appended rows show. */
  predicate Accepts(inv: Invoice, known: set<int>, appends: nat) {
    inv.items.Items? && |NewRows(inv.items.items, known)| >= appends
  }

  predicate AcceptedReading(r: Reading, invoiceId: int, known: set<int>, appends: nat) {
    Observes(r, invoiceId) && Accepts(r.invoice, known, appends)
  }

  /** Reading k is the one to judge by: the first of the invoice that shows the appended rows or, when
      none does, the last of the invoice. */
  ghost predicate Chosen(readings: seq<Reading>, k: int, invoiceId: int, known: set<int>, appends: nat) {
    && 0 <= k < |readings| && Observes(readings[k], invoiceId)
    && (forall j :: 0 <= j < k ==> !AcceptedReading(readings[j], invoiceId, known, appends))
    && (AcceptedReading(readings[k], invoiceId, known, appends)
        || forall j :: k < j < |readings| ==> !Observes(readings[j], invoiceId))
  }

  lemma ChosenIsUnique(readings: seq<Reading>, j: int, k: int, invoiceId: int, known: set<int>, appends: nat)
    requires Chosen(readings, j, invoiceId, known, appends) && Chosen(readings, k, invoiceId, known, appends)
    ensures j == k
  {
  }

  /** Reads at most once more than there are delays, and not past the first reading that shows the
      appended rows; finds nothing only when the invoice was never observed. */
  method ReRead(readings: seq<Reading>, delays: nat, invoiceId: int, known: set<int>, appends: nat)
    returns (seen: Option<Invoice>, attempts: nat)
    requires |readings| == delays + 1
    ensures 1 <= attempts <= delays + 1
    ensures forall k :: 0 <= k < attempts - 1 ==> !AcceptedReading(readings[k], invoiceId, known, appends)
    ensures seen.None? ==> forall k :: 0 <= k <= delays ==> !Observes(readings[k], invoiceId)
    ensures seen.Some? ==> exists k :: Chosen(readings, k, invoiceId, known, appends) && readings[k] == Row(seen.value)
  {
    var attempt := 0;
    ghost var last := -1;
    seen := None;
    while true
      invariant attempt <= delays && -1 <= last < attempt
      invariant forall k :: 0 <= k < attempt ==> !AcceptedReading(readings[k], invoiceId, known, appends)
      invariant forall k :: last < k < attempt ==> !Observes(readings[k], invoiceId)
      invariant if last < 0 then seen.None?
                else Observes(readings[last], invoiceId) && seen == Some(readings[last].invoice)
      decreases delays - attempt
    {
      var r := readings[attempt];
      if r.Row? && r.invoice.id == Some(invoiceId) {
        if Accepts(r.invoice, known, appends) {
          assert Chosen(readings, attempt, invoiceId, known, appends);
          return Some(r.invoice), attempt + 1;
        }
        seen, last := Some(r.invoice), attempt;
      }
      if attempt >= delays {
        assert last >= 0 ==> Chosen(readings, last, invoiceId, known, appends);
        return seen, attempt + 1;
      }
      attempt := attempt + 1;
    }
  }

  // ---- the verdict on what was observed

  /** The first update that did not land, if any, and how it failed. */
  function JudgeUpdates(updates: seq<Line>, baseline: map<int, Item>, post: map<int, Item>): Option<Outcome>
    requires forall k :: 0 <= k < |updates| ==> updates[k].id.Some?
  {
    if updates == [] then None
    else if updates[0].id.value !in post then Some(SilentNoop)
    else if !UpdateLanded(updates[0], baseline, post) then Some(AmountMismatch)
    else JudgeUpdates(updates[1..], baseline, post)
  }

  function UpdateIds(updates: seq<Line>): seq<int>
    requires forall k :: 0 <= k < |updates| ==> updates[k].id.Some?
  {
    if updates == [] then [] else [updates[0].id.value] + UpdateIds(updates[1..])
  }

  lemma {:induction false} UpdatesHaveIds(lines: seq<Line>)
    ensures forall k :: 0 <= k < |Updates(lines)| ==> Updates(lines)[k].id.Some?
  {
    if lines != [] {
      UpdatesHaveIds(lines[1..]);
    }
  }

  lemma {:induction false} NewRowsHaveIds(items: seq<Item>, known: set<int>)
    ensures forall k :: 0 <= k < |NewRows(items, known)| ==>
              NewRows(items, known)[k].id.Some? && NewRows(items, known)[k].id.value !in known
  {
    if items != [] {
      NewRowsHaveIds(items[1..], known);
    }
  }

  method AdjudicateUpdates(updates: seq<Line>, baseline: map<int, Item>, post: map<int, Item>)
    returns (failure: Option<Outcome>, ids: seq<int>)
    requires forall k :: 0 <= k < |updates| ==> updates[k].id.Some?
    ensures failure == JudgeUpdates(updates, baseline, post)
    ensures failure.None? ==> ids == UpdateIds(updates)
  {
    ids := [];
    var k := 0;
    while k < |updates|
      invariant k <= |updates|
      invariant JudgeUpdates(updates[k..], baseline, post) == JudgeUpdates(updates, baseline, post)
      invariant ids + UpdateIds(updates[k..]) == UpdateIds(updates)
    {
      var li := updates[k];
      var id := li.id.value;
      if id !in post { return Some(SilentNoop), ids; }
      var after := post[id];
      ids := ids + [id];
      if li.unitPrice.Some? {
        var actual := ItemPrice(after);
        if actual.None? || !MoneyEquals(actual.value, li.unitPrice.value) { return Some(AmountMismatch), ids; }
      } else if id in baseline {
        var beforePrice, afterPrice := ItemPrice(baseline[id]), ItemPrice(after);
        if beforePrice.Some? && (afterPrice.None? || !MoneyEquals(beforePrice.value, afterPrice.value)) {
          return Some(AmountMismatch), ids;
        }
      }
      if li.cost.None? && id in baseline {
        var beforeCost, afterCost := ToMoney(baseline[id].cost), ToMoney(after.cost);
        if beforeCost.Some? && (afterCost.None? || !MoneyEquals(beforeCost.value, afterCost.value)) {
          return Some(AmountMismatch), ids;
        }
      }
      k := k + 1;
    }
    return None, ids;
  }

  function Judge(lines: seq<Line>, base: seq<Item>, post: Invoice): Outcome {
    var baseline, appends, updates := Index(base), Appends(lines), Updates(lines);
    match post.items
    case Absent => VerifyUnavailable
    case NullItems => SilentNoop
    case Items(items) =>
      var newRows := NewRows(items, baseline.Keys);
      NewRowsHaveIds(items, baseline.Keys);
      UpdatesHaveIds(lines);
      if |newRows| != |appends| then SilentNoop
      else if !MoneyEquals(IntendedTotal(appends), AmountTotal(newRows)) then AmountMismatch
      else
        var failure := JudgeUpdates(updates, baseline, Index(items));
        if failure.Some? then failure.value
        else Verified(IdsOf(newRows), UpdateIds(updates), IntendedTotal(appends), AmountTotal(newRows))
  }

  method Adjudicate(lines: seq<Line>, base: seq<Item>, post: Invoice) returns (o: Outcome)
    ensures o == Judge(lines, base, post)
  {
    if post.items.Absent? { return VerifyUnavailable; }
    if post.items.NullItems? { return SilentNoop; }
    var items := post.items.items;
    var baseline := IndexItems(base);
    var postIndex := IndexItems(items);
    var appends, updates := Appends(lines), Updates(lines);
    var newRows := NewRows(items, baseline.Keys);
    NewRowsHaveIds(items, baseline.Keys);
    UpdatesHaveIds(lines);
    if |appends| > 0 && |newRows| == 0 { return SilentNoop; }
    if |newRows| != |appends| { return SilentNoop; }
    var expected, actual := IntendedTotal(appends), AmountTotal(newRows);
    if !MoneyEquals(expected, actual) { return AmountMismatch; }
    var failure, ids := AdjudicateUpdates(updates, baseline, postIndex);
    if failure.Some? { return failure.value; }
    return Verified(IdsOf(newRows), ids, expected, actual);
  }

  // ---- what a verified write means

  /** The effect asked for, seen in a reading of the invoice: one new row for each append and the money
      of the appends on them to half a cent; every updated id present, its price the one sent or, if
      none was sent, the one before, and its cost untouched if none was sent. */
  ghost predicate EffectSeen(lines: seq<Line>, base: seq<Item>, items: seq<Item>) {
    var baseline, post := Index(base), Index(items);
    && |NewRows(items, baseline.Keys)| == |Appends(lines)|
    && MoneyEquals(IntendedTotal(Appends(lines)), AmountTotal(NewRows(items, baseline.Keys)))
    && forall k :: 0 <= k < |lines| && lines[k].id.Some? ==> UpdateLanded(lines[k], baseline, post)
  }

  lemma {:induction false} UpdatesAreLines(lines: seq<Line>)
    ensures forall li :: li in Updates(lines) <==> li in lines && li.id.Some?
  {
    if lines != [] {
      UpdatesAreLines(lines[1..]);
      assert lines == [lines[0]] + lines[1..];
    }
  }

  lemma {:induction false} JudgedUpdates(updates: seq<Line>, baseline: map<int, Item>, post: map<int, Item>)
    requires forall k :: 0 <= k < |updates| ==> updates[k].id.Some?
    ensures JudgeUpdates(updates, baseline, post).None? <==>
              forall k :: 0 <= k < |updates| ==> UpdateLanded(updates[k], baseline, post)
    ensures JudgeUpdates(updates, baseline, post).Some? ==>
              var o := JudgeUpdates(updates, baseline, post).value; o.SilentNoop? || o.AmountMismatch?
  {
    if updates != [] {
      JudgedUpdates(updates[1..], baseline, post);
      assert forall k :: 0 < k < |updates| ==> updates[k] == updates[1..][k - 1];
    }
  }

  lemma LandedUpdatesAreLines(lines: seq<Line>, baseline: map<int, Item>, post: map<int, Item>)
    ensures (forall k :: 0 <= k < |Updates(lines)| ==>
               Updates(lines)[k].id.Some? && UpdateLanded(Updates(lines)[k], baseline, post))
            <==> forall k :: 0 <= k < |lines| && lines[k].id.Some? ==> UpdateLanded(lines[k], baseline, post)
  {
    UpdatesHaveIds(lines);
    UpdatesAreLines(lines);
    if forall k :: 0 <= k < |Updates(lines)| ==> UpdateLanded(Updates(lines)[k], baseline, post) {
      forall k | 0 <= k < |lines| && lines[k].id.Some? ensures UpdateLanded(lines[k], baseline, post) {
        assert lines[k] in Updates(lines);
      }
    }
    if forall k :: 0 <= k < |lines| && lines[k].id.Some? ==> UpdateLanded(lines[k], baseline, post) {
      forall k | 0 <= k < |Updates(lines)| ensures UpdateLanded(Updates(lines)[k], baseline, post) {
        assert Updates(lines)[k] in lines;
      }
    }
  }

  /** The verdict is verified exactly when the effect is seen, unavailable exactly when the reading
      carried no line items at all, and otherwise names the write ineffective or the money wrong. */
  lemma VerifiedExactly(lines: seq<Line>, base: seq<Item>, post: Invoice)
    ensures var o := Judge(lines, base, post);
            && (o.Verified? <==> post.items.Items? && EffectSeen(lines, base, post.items.items))
            && (o.VerifyUnavailable? <==> post.items.Absent?)
            && (o.Verified? || o.VerifyUnavailable? || o.SilentNoop? || o.AmountMismatch?)
  {
    if post.items.Items? {
      var baseline, index := Index(base), Index(post.items.items);
      UpdatesHaveIds(lines);
      JudgedUpdates(Updates(lines), baseline, index);
      LandedUpdatesAreLines(lines, baseline, index);
      assert JudgeUpdates(Updates(lines), baseline, index).None? <==>
             forall k :: 0 <= k < |lines| && lines[k].id.Some? ==> UpdateLanded(lines[k], baseline, index);
    }
  }

  /** What a verified write reports: the ids of the new rows in order, the ids updated, and two totals of
      the appends that agree to half a cent. */
  lemma VerifiedReports(lines: seq<Line>, base: seq<Item>, items: seq<Item>, o: Outcome)
    requires o == Judge(lines, base, Invoice(None, Items(items))) && o.Verified?
    ensures var newRows, updates := NewRows(items, Index(base).Keys), Updates(lines);
            && |o.appendedIds| == |newRows| == |Appends(lines)|
            && (forall k :: 0 <= k < |newRows| ==> newRows[k].id == Some(o.appendedIds[k]))
            && |o.updatedIds| == |updates| && (forall k :: 0 <= k < |updates| ==> updates[k].id == Some(o.updatedIds[k]))
            && o.expected == IntendedTotal(Appends(lines)) && o.actual == AmountTotal(newRows)
            && -0.005 <= o.expected - o.actual <= 0.005
  {
    NewRowsHaveIds(items, Index(base).Keys);
    UpdatesHaveIds(lines);
    JudgedUpdates(Updates(lines), Index(base), Index(items));
    IdsInOrder(NewRows(items, Index(base).Keys));
    UpdateIdsInOrder(Updates(lines));
  }

  lemma {:induction false} IdsInOrder(items: seq<Item>)
    requires forall k :: 0 <= k < |items| ==> items[k].id.Some?
    ensures |IdsOf(items)| == |items| && forall k :: 0 <= k < |items| ==> items[k].id == Some(IdsOf(items)[k])
  {
    if items != [] {
      IdsInOrder(items[1..]);
    }
  }

  lemma {:induction false} UpdateIdsInOrder(updates: seq<Line>)
    requires forall k :: 0 <= k < |updates| ==> updates[k].id.Some?
    ensures |UpdateIds(updates)| == |updates| && forall k :: 0 <= k < |updates| ==> updates[k].id == Some(UpdateIds(updates)[k])
  {
    if updates != [] {
      UpdateIdsInOrder(updates[1..]);
    }
  }

  /** The index holds the ids that are there, each with its last row. */
  lemma {:induction false} IndexExactly(items: seq<Item>, id: int)
    ensures id in Index(items) <==> exists k :: 0 <= k < |items| && items[k].id == Some(id)
    ensures forall k :: 0 <= k < |items| && items[k].id == Some(id) && (forall j :: k < j < |items| ==> items[j].id != Some(id)) ==>
              id in Index(items) && Index(items)[id] == items[k]
  {
    if items != [] {
      var init, last := items[..|items| - 1], items[|items| - 1];
      IndexExactly(init, id);
      assert forall k :: 0 <= k < |init| ==> init[k] == items[k];
      if last.id == Some(id) {
        assert items[|items| - 1].id == Some(id);
      }
    }
  }

  // ---- the money in plain numbers

  /** The field reads as the number: as a number or as a text that spells it. */
  predicate Reads(v: Raw, x: Option<real>) {
    match x
    case Some(n) => v == Finite(n) || v == Text(Some(n))
    case None => v == Missing || v == NotFinite || v == Text(None) || v == Other
  }

  /** The row's price: its `price`, or its `unitPrice` where that cannot be read. */
  predicate HasPrice(it: Item, x: Option<real>) {
    (x.Some? && Reads(it.price, x)) || (Reads(it.price, None) && Reads(it.unitPrice, x))
  }

  lemma {:induction false} IntendedTotalIs(lines: seq<Line>, prices: seq<real>, quantities: seq<real>)
    requires |lines| == |prices| == |quantities|
    requires forall k :: 0 <= k < |lines| ==> lines[k].unitPrice == Some(prices[k]) && lines[k].quantity == quantities[k]
    ensures IntendedTotal(lines) == SumOfProducts(prices, quantities)
  {
    if lines != [] {
      IntendedTotalIs(lines[1..], prices[1..], quantities[1..]);
    }
  }

  lemma {:induction false} AmountTotalIs(items: seq<Item>, prices: seq<real>, quantities: seq<real>)
    requires |items| == |prices| == |quantities|
    requires forall k :: 0 <= k < |items| ==> HasPrice(items[k], Some(prices[k])) && Reads(items[k].quantity, Some(quantities[k]))
    ensures AmountTotal(items) == SumOfProducts(prices, quantities)
  {
    if items != [] {
      AmountTotalIs(items[1..], prices[1..], quantities[1..]);
    }
  }

  lemma {:induction false} OnlyAppends(lines: seq<Line>)
    requires forall k :: 0 <= k < |lines| ==> lines[k].id.None?
    ensures Appends(lines) == lines && Updates(lines) == []
  {
    if lines != [] {
      OnlyAppends(lines[1..]);
    }
  }

  lemma {:induction false} NewRowsAre(items: seq<Item>, known: set<int>)
    ensures (forall k :: 0 <= k < |items| ==> items[k].id.Some? && items[k].id.value !in known) ==> NewRows(items, known) == items
    ensures (forall k :: 0 <= k < |items| ==> items[k].id.None? || items[k].id.value in known) ==> NewRows(items, known) == []
  {
    if items != [] {
      NewRowsAre(items[1..], known);
      assert forall k :: 0 < k < |items| ==> items[k] == items[1..][k - 1];
    }
  }

  /** Appends, read back as new rows: verified exactly when there are as many rows as lines and the price times
      quantity sent and the price times quantity read add up to the same within 0.005. */
  lemma AppendsVerifiedExactly(lines: seq<Line>, prices: seq<real>, quantities: seq<real>, base: seq<Item>,
                               items: seq<Item>, pricesRead: seq<real>, quantitiesRead: seq<real>)
    requires |lines| == |prices| == |quantities| && |items| == |pricesRead| == |quantitiesRead|
    requires forall k :: 0 <= k < |lines| ==>
               lines[k].id.None? && lines[k].unitPrice == Some(prices[k]) && lines[k].quantity == quantities[k]
    requires forall k :: 0 <= k < |items| ==>
               && items[k].id.Some? && items[k].id.value !in Index(base)
               && HasPrice(items[k], Some(pricesRead[k])) && Reads(items[k].quantity, Some(quantitiesRead[k]))
    ensures var o := Judge(lines, base, Invoice(None, Items(items)));
            var gap := SumOfProducts(prices, quantities) - SumOfProducts(pricesRead, quantitiesRead);
            && (o.Verified? <==> |items| == |lines| && -0.005 <= gap <= 0.005)
            && (o.AmountMismatch? <==> |items| == |lines| && !(-0.005 <= gap <= 0.005))
            && (o.SilentNoop? <==> |items| != |lines|)
  {
    OnlyAppends(lines);
    NewRowsAre(items, Index(base).Keys);
    IntendedTotalIs(lines, prices, quantities);
    AmountTotalIs(items, pricesRead, quantitiesRead);
  }

  /** One append and one new row: price times quantity on both sides. */
  lemma OneAppendExactly(li: Line, it: Item, base: seq<Item>, price: real, priceRead: real, quantityRead: real)
    requires li.id.None? && li.unitPrice == Some(price) && it.id.Some? && it.id.value !in Index(base)
    requires HasPrice(it, Some(priceRead)) && Reads(it.quantity, Some(quantityRead))
    ensures Judge([li], base, Invoice(None, Items([it]))).Verified? <==>
              -0.005 <= price * li.quantity - priceRead * quantityRead <= 0.005
  {
    AppendsVerifiedExactly([li], [price], [li.quantity], base, [it], [priceRead], [quantityRead]);
    assert SumOfProducts([price], [li.quantity]) == price * li.quantity;
    assert SumOfProducts([priceRead], [quantityRead]) == priceRead * quantityRead;
  }

  lemma OneLine(li: Line)
    ensures Appends([li]) == (if li.id.None? then [li] else []) && Updates([li]) == if li.id.None? then [] else [li]
  {
    assert [li][1..] == [];
  }

  /** One update of a line that was there and is: the price sent is read back or, none sent, the price that could
      be read before is; and a cost not sent, if it could be read before, likewise. */
  lemma OneUpdateExactly(li: Line, x: int, before: Item, after: Item, priceBefore: Option<real>, price: Option<real>,
                         costBefore: Option<real>, cost: Option<real>)
    requires li.id == before.id == after.id == Some(x)
    requires HasPrice(before, priceBefore) && HasPrice(after, price)
    requires Reads(before.cost, costBefore) && Reads(after.cost, cost)
    ensures var expected := if li.unitPrice.Some? then li.unitPrice else priceBefore;
            var o := Judge([li], [before], Invoice(None, Items([after])));
            && (o.Verified? <==>
                  && (expected.Some? ==> price.Some? && -0.005 <= price.value - expected.value <= 0.005)
                  && (li.cost.None? && costBefore.Some? ==> cost.Some? && -0.005 <= cost.value - costBefore.value <= 0.005))
            && (o.Verified? || o.AmountMismatch?)
  {
    var baseline, post := Index([before]), Index([after]);
    assert Index([before][..0]) == map[] && Index([after][..0]) == map[];
    assert baseline == map[x := before] && post == map[x := after];
    NewRowsAre([after], baseline.Keys);
    OneLine(li);
    JudgedUpdates([li], baseline, post);
  }

  function RowsBefore(first: Reading): seq<Item> {
    if first.Row? then RowsOf(first.invoice.items) else []
  }

  /** A reading of the invoice that shows the effect of the lines on what was there before. */
  ghost predicate ShowsEffect(r: Reading, lines: seq<Line>, before: seq<Item>) {
    r.Row? && r.invoice.items.Items? && EffectSeen(lines, before, r.invoice.items.items)
  }

  /** The outcome is the verdict on the reading chosen. */
  ghost predicate Judged(o: Outcome, lines: seq<Line>, before: seq<Item>, readings: seq<Reading>, invoiceId: int) {
    exists k :: Chosen(readings, k, invoiceId, Index(before).Keys, |Appends(lines)|)
                && readings[k].Row? && o == Judge(lines, before, readings[k].invoice)
  }

  predicate AllAnswered(patches: seq<Patch>) {
    forall k :: 0 <= k < |patches| ==> patches[k].Answered?
  }

  function WrittenIds(patches: seq<Patch>): seq<int> {
    if patches == [] then []
    else
      var last := patches[|patches| - 1];
      WrittenIds(patches[..|patches| - 1]) + if last.Answered? && last.id.Some? then [last.id.value] else []
  }

  /** The live call.  `first` is the reading taken before the writes, `patches` how each write would
      end, `readings` what the verify-read would observe. */
  method AddLines(invoiceId: int, lines: seq<Line>, first: Reading, tokenOk: bool, patches: seq<Patch>,
                  readings: seq<Reading>, delays: nat) returns (o: Outcome, sent: nat)
    requires |patches| == |lines| && |readings| == delays + 1
    ensures sent > 0 ==> LinesOk(lines) && Observes(first, invoiceId) && tokenOk
    ensures sent <= |lines| && forall k :: 0 <= k < sent - 1 ==> patches[k].Answered?
    ensures o.Verified? <==>
              && LinesOk(lines) && Observes(first, invoiceId) && tokenOk && AllAnswered(patches)
              && exists k :: Chosen(readings, k, invoiceId, Index(RowsBefore(first)).Keys, |Appends(lines)|)
                             && ShowsEffect(readings[k], lines, RowsBefore(first))
    ensures LinesOk(lines) && Observes(first, invoiceId) && tokenOk && !AllAnswered(patches) ==>
              && sent > 0 && !patches[sent - 1].Answered?
              && o == if patches[sent - 1].Threw? then WriteThrew(sent) else PartialWrite(sent, WrittenIds(patches[..sent - 1]))
    ensures LinesOk(lines) && Observes(first, invoiceId) && tokenOk && AllAnswered(patches) ==>
              && sent == |lines|
              && (o.VerifyUnavailable? || Judged(o, lines, RowsBefore(first), readings, invoiceId))
    ensures o.VerifyUnavailable? || o.SilentNoop? || o.AmountMismatch? ==> sent == |lines| && AllAnswered(patches)
    ensures o.VerifyUnavailable? ==> forall k :: 0 <= k < |readings| ==>
              !AcceptedReading(readings[k], invoiceId, Index(RowsBefore(first)).Keys, |Appends(lines)|)
  {
    sent := 0;
    var valid := ValidateLines(lines);
    if !valid { return ValidationError, 0; }
    if !first.Row? { return InvoiceNotFound, 0; }
    if first.invoice.id != Some(invoiceId) { return IdsNotHonored, 0; }
    if !tokenOk { return TokenRefused, 0; }
    var base := RowsOf(first.invoice.items);
    var baseline := IndexItems(base);
    var writtenItemIds := [];
    while sent < |lines|
      invariant sent <= |lines|
      invariant forall k :: 0 <= k < sent ==> patches[k].Answered?
      invariant writtenItemIds == WrittenIds(patches[..sent])
    {
      var p := patches[sent];
      sent := sent + 1;
      if p.Threw? { return WriteThrew(sent), sent; }
      if p.Failed? { return PartialWrite(sent, writtenItemIds), sent; }
      assert patches[..sent][..sent - 1] == patches[..sent - 1];
      if p.id.Some? {
        writtenItemIds := writtenItemIds + [p.id.value];
      }
    }
    var seen, _ := ReRead(readings, delays, invoiceId, baseline.Keys, |Appends(lines)|);
    if seen.None? { return VerifyUnavailable, sent; }
    o := Adjudicate(lines, base, seen.value);
    VerifiedExactly(lines, base, seen.value);
    ghost var known, n := baseline.Keys, |Appends(lines)|;
    ghost var k :| Chosen(readings, k, invoiceId, known, n) && readings[k] == Row(seen.value);
    forall j | Chosen(readings, j, invoiceId, known, n) ensures j == k {
      ChosenIsUnique(readings, j, k, invoiceId, known, n);
    }
    assert o.Verified? <==> ShowsEffect(readings[k], lines, RowsBefore(first));
    assert o == Judge(lines, RowsBefore(first), readings[k].invoice);
  }

  // ---- rows are not ids

  ghost function NewIds(items: seq<Item>, known: set<int>): set<int> {
    set k | 0 <= k < |items| && items[k].id.Some? && items[k].id.value !in known :: items[k].id.value
  }

  ghost predicate DistinctIds(rows: seq<Item>) {
    forall j, k :: 0 <= j < k < |rows| ==> rows[j].id != rows[k].id
  }

  lemma {:induction false} NewIdsAreNewRows(items: seq<Item>, known: set<int>)
    ensures forall x :: x in NewIds(items, known) <==>
              exists k :: 0 <= k < |NewRows(items, known)| && NewRows(items, known)[k].id == Some(x)
  {
    if items != [] {
      NewIdsAreNewRows(items[1..], known);
      var rows, rest := NewRows(items, known), NewRows(items[1..], known);
      var first := if items[0].id.Some? && items[0].id.value !in known then [items[0]] else [];
      assert rows == first + rest;
      assert NewIds(items, known) == NewIds(items[1..], known) + if first == [] then {} else {items[0].id.value} by {
        assert forall k :: 0 < k < |items| ==> items[k] == items[1..][k - 1];
      }
      forall x | x in NewIds(items, known) ensures exists k :: 0 <= k < |rows| && rows[k].id == Some(x) {
        if x in NewIds(items[1..], known) {
          var k :| 0 <= k < |rest| && rest[k].id == Some(x);
          assert rows[|first| + k].id == Some(x);
        } else {
          assert rows[0].id == Some(x);
        }
      }
    }
  }

  lemma {:induction false} IdsCount(rows: seq<Item>, ids: set<int>)
    requires forall k :: 0 <= k < |rows| ==> rows[k].id.Some?
    requires forall x :: x in ids <==> exists k :: 0 <= k < |rows| && rows[k].id == Some(x)
    ensures |ids| <= |rows|
    ensures |ids| == |rows| <==> DistinctIds(rows)
  {
    if rows == [] {
      assert forall x :: x !in ids;
      assert ids == {};
    } else {
      var n := |rows| - 1;
      var last, init := rows[n].id.value, rows[..n];
      if k :| 0 <= k < n && rows[k].id == rows[n].id {
        forall x | x in ids ensures exists j :: 0 <= j < |init| && init[j].id == Some(x) {
          var j :| 0 <= j < |rows| && rows[j].id == Some(x);
          assert init[if j == n then k else j].id == Some(x);
        }
        IdsCount(init, ids);
      } else {
        forall x | x in ids - {last} ensures exists j :: 0 <= j < |init| && init[j].id == Some(x) {
          var j :| 0 <= j < |rows| && rows[j].id == Some(x);
          assert init[j].id == Some(x);
        }
        assert rows[n].id == Some(last);
        IdsCount(init, ids - {last});
        assert DistinctIds(init) <==> DistinctIds(rows);
      }
    }
  }

  /** A verified write shows as many new ids as appends exactly when no new id repeats in the reading. */
  lemma NewIdsExactly(lines: seq<Line>, base: seq<Item>, items: seq<Item>)
    requires EffectSeen(lines, base, items)
    ensures var known := Index(base).Keys;
            |NewIds(items, known)| == |Appends(lines)| <==> DistinctIds(NewRows(items, known))
  {
    var known := Index(base).Keys;
    NewRowsHaveIds(items, known);
    NewIdsAreNewRows(items, known);
    IdsCount(NewRows(items, known), NewIds(items, known));
  }

  /** Rows are counted, not ids: a reading that lists one new line twice verifies two appends. */
  lemma OneIdCanVerifyTwoAppends() returns (lines: seq<Line>, items: seq<Item>)
    ensures Judge(lines, [], Invoice(Some(1), Items(items))).Verified?
    ensures |Appends(lines)| == 2 && NewIds(items, {}) == {7}
  {
    var li := Line(None, Some(3), None, 1.0, None, Some(5.0));
    var it := Item(Some(7), Finite(1.0), Missing, Finite(5.0), Missing);
    lines, items := [li, li], [it, it];
    assert Index([]).Keys == {};
    assert lines[1..] == [li] && items[1..] == [it];
    OneLine(li);
    assert [it][1..] == [] && NewRows([it], {}) == [it] + NewRows([], {});
    assert Appends(lines) == [li] + [li] && Updates(lines) == [] && NewRows(items, {}) == [it] + [it];
    assert IntendedTotal([li]) == 5.0 && AmountTotal([it]) == 5.0;
    assert IntendedTotal(lines) == 10.0 && AmountTotal(items) == 10.0;
  }
}
