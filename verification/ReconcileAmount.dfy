/** Whether a bill's lines reconcile to its header total, and on which reading of the bill. */
module ReconcileAmount {
  import opened Wrappers
  import opened Money

  const TOLERANCE_CENTS := 5

  /** A field as it arrives: absent, a number, text (with the number it spells once stripped of '$',
      ',' and blanks), or a wrapper holding a value and a text. */
  datatype Field =
    | Missing
    | Number(n: real)
    | NotFinite
    | Text(number: Option<real>)
    | Wrapped(value: Field, text: Field)
    | Other

  /** `freight` is whether the description names freight, shipping or delivery. */
  datatype Line = Line(freight: bool, quantity: Field, unitCost: Field)

  datatype Bill = Bill(header: Field, tax: Field, shipping: Field, lines: seq<Line>)

  datatype Mode =
    | Unit | Extended | UnitFreightInLines | ExtendedFreightInLines | TaxInclusive | ExtendedTaxInclusive

  datatype Reason =
    | NoLines | NoHeader | UnreadableLine | UnreadableTax | UnreadableShipping
    | NonPositiveQuantity | TaxAtOrAboveTotal | Ambiguous | NoModeMatches

  /** Money is reported rounded to cents.  `held` is None exactly when the bill reconciles. */
  datatype Result = Result(
    mode: Option<Mode>, headerTotal: real, computedTotal: real, difference: real,
    tax: real, shipping: real, freight: bool, sumUnit: real, sumExtended: real,
    alsoMatched: seq<Mode>, held: Option<Reason>)

  // ---- reading fields

  datatype Parsed = Parsed(value: real, ok: bool)

  const BAD := Parsed(0.0, false)

  function ParseNum(v: Field): Parsed {
    match v
    case Number(n) => Parsed(n, true)
    case Text(number) => if number.Some? then Parsed(number.value, true) else BAD
    case Wrapped(value, text) =>
      if !value.Missing? then ParseNum(value)
      else if !text.Missing? then ParseNum(text)
      else BAD
    case _ => BAD
  }

  function ParseMoneyOrZero(v: Field): Parsed {
    if v.Missing? then Parsed(0.0, true) else ParseNum(v)
  }

  // ---- cents

  function Round2(n: real): real {
    Cents(n) as real / 100.0
  }

  function AbsInt(n: int): int {
    if n < 0 then -n else n
  }

  function Abs(x: real): real {
    if x < 0.0 then -x else x
  }

  predicate Within(a: real, b: real) {
    AbsInt(Cents(a) - Cents(b)) < TOLERANCE_CENTS
  }

  // ---- lines

  function Quantity(l: Line): real {
    ParseNum(l.quantity).value
  }

  function Cost(l: Line): real {
    ParseNum(l.unitCost).value
  }

  predicate Readable(l: Line) {
    ParseNum(l.quantity).ok && ParseNum(l.unitCost).ok
  }

  predicate IsExtended(m: Mode) {
    m.Extended? || m.ExtendedFreightInLines? || m.ExtendedTaxInclusive?
  }

  /** What a mode takes one line to cost. */
  function LineAmount(m: Mode, l: Line): real {
    if IsExtended(m) then Cost(l) else Cost(l) * Quantity(l)
  }

  function Sum(m: Mode, lines: seq<Line>): real {
    if lines == [] then 0.0 else LineAmount(m, lines[0]) + Sum(m, lines[1..])
  }

  function Allocations(m: Mode, lines: seq<Line>): seq<int> {
    if lines == [] then [] else [Cents(LineAmount(m, lines[0]))] + Allocations(m, lines[1..])
  }

  // ---- candidates

  datatype Candidate = Candidate(mode: Mode, total: real, tax: real, shipping: real, eligible: bool)

  function Candidates(sumUnit: real, sumExtended: real, tax: real, shipping: real, freight: bool): seq<Candidate> {
    [ Candidate(Unit, sumUnit + tax + shipping, tax, shipping, true),
      Candidate(Extended, sumExtended + tax + shipping, tax, shipping, true),
      Candidate(UnitFreightInLines, sumUnit + tax, tax, 0.0, freight && shipping > 0.0),
      Candidate(ExtendedFreightInLines, sumExtended + tax, tax, 0.0, freight && shipping > 0.0),
      Candidate(TaxInclusive, sumUnit + shipping, 0.0, shipping, tax > 0.0),
      Candidate(ExtendedTaxInclusive, sumExtended + shipping, 0.0, shipping, tax > 0.0) ]
  }

  predicate FitsHeader(c: Candidate, header: real) {
    c.eligible && Within(c.total, header)
  }

  function Matches(cs: seq<Candidate>, header: real): seq<Candidate> {
    if cs == [] then []
    else (if FitsHeader(cs[0], header) then [cs[0]] else []) + Matches(cs[1..], header)
  }

  /** The matching modes that split the bill differently from the winner. */
  function Rivals(ms: seq<Candidate>, winner: seq<int>, lines: seq<Line>): seq<Mode> {
    if ms == [] then []
    else (if Allocations(ms[0].mode, lines) != winner then [ms[0].mode] else []) + Rivals(ms[1..], winner, lines)
  }

  function Eligible(cs: seq<Candidate>): seq<Candidate> {
    if cs == [] then [] else (if cs[0].eligible then [cs[0]] else []) + Eligible(cs[1..])
  }

  function Closest(best: Candidate, cs: seq<Candidate>, header: real): Candidate
    decreases cs
  {
    if cs == [] then best
    else Closest(if Abs(cs[0].total - header) < Abs(best.total - header) then cs[0] else best, cs[1..], header)
  }

  /** The eligible candidate nearest to the header; the first, unit, always is one. */
  function Nearest(cs: seq<Candidate>, header: real): Candidate
    requires cs != [] && cs[0].eligible
  {
    Closest(cs[0], Eligible(cs)[1..], header)
  }

  // ---- the decision

  /** Why a bill is held before any mode is tried. */
  function Refusal(b: Bill): Option<Reason> {
    var header, tax, shipping := ParseNum(b.header), ParseMoneyOrZero(b.tax), ParseMoneyOrZero(b.shipping);
    if b.lines == [] then Some(NoLines)
    else if !header.ok || header.value == 0.0 then Some(NoHeader)
    else if exists l :: l in b.lines && !Readable(l) then Some(UnreadableLine)
    else if !tax.ok then Some(UnreadableTax)
    else if !shipping.ok then Some(UnreadableShipping)
    else if exists l :: l in b.lines && Quantity(l) <= 0.0 then Some(NonPositiveQuantity)
    else if header.value > 0.0 && tax.value >= header.value then Some(TaxAtOrAboveTotal)
    else None
  }

  function HasFreight(lines: seq<Line>): bool {
    exists l :: l in lines && l.freight
  }

  function CandidatesOf(b: Bill): seq<Candidate> {
    Candidates(Sum(Unit, b.lines), Sum(Extended, b.lines), ParseMoneyOrZero(b.tax).value,
               ParseMoneyOrZero(b.shipping).value, HasFreight(b.lines))
  }

  function Report(b: Bill, mode: Option<Mode>, total: real, tax: real, shipping: real,
                  alsoMatched: seq<Mode>, held: Option<Reason>): Result {
    var header := ParseNum(b.header).value;
    Result(mode, Round2(header), Round2(total), Round2(header - total), Round2(tax), Round2(shipping),
           HasFreight(b.lines), Round2(Sum(Unit, b.lines)), Round2(Sum(Extended, b.lines)), alsoMatched, held)
  }

  /** A bill that is tried: the first mode that fits, unless another that fits splits the lines differently. */
  function Decide(b: Bill, cs: seq<Candidate>, tax: real, shipping: real): Result
    requires cs != [] && cs[0].eligible
  {
    var header := ParseNum(b.header).value;
    var ms := Matches(cs, header);
    if ms != [] then
      var winner := ms[0];
      var rivals := Rivals(ms[1..], Allocations(winner.mode, b.lines), b.lines);
      if rivals != [] then Report(b, None, winner.total, tax, shipping, rivals, Some(Ambiguous))
      else Report(b, Some(winner.mode), winner.total, winner.tax, winner.shipping, [], None)
    else
      var closest := Nearest(cs, header);
      Report(b, None, closest.total, tax, shipping, [], Some(NoModeMatches))
  }

  function Reconcile(b: Bill): Result {
    var tax, shipping := ParseMoneyOrZero(b.tax).value, ParseMoneyOrZero(b.shipping).value;
    var refusal := Refusal(b);
    if refusal.Some? then Report(b, None, Sum(Unit, b.lines) + tax + shipping, tax, shipping, [], refusal)
    else Decide(b, CandidatesOf(b), tax, shipping)
  }

  // ---- soundness: when a bill reconciles, and what that fixes

  function Rank(m: Mode): (k: nat)
    ensures k < 6
  {
    match m
    case Unit => 0
    case Extended => 1
    case UnitFreightInLines => 2
    case ExtendedFreightInLines => 3
    case TaxInclusive => 4
    case ExtendedTaxInclusive => 5
  }

  /** One candidate for each mode, in the fixed order. */
  ghost predicate OnePerMode(cs: seq<Candidate>) {
    |cs| == 6 && forall k :: 0 <= k < 6 ==> Rank(cs[k].mode) == k
  }

  /** The candidate for a mode. */
  function For(b: Bill, m: Mode): Candidate {
    CandidatesOf(b)[Rank(m)]
  }

  /** The mode may be used on this bill and its total is the header's, to the tolerance. */
  predicate Fits(b: Bill, m: Mode) {
    FitsHeader(For(b, m), ParseNum(b.header).value)
  }

  lemma ForIsOf(b: Bill)
    ensures OnePerMode(CandidatesOf(b))
    ensures forall m :: For(b, m).mode == m
  {
  }

  lemma {:induction false} MatchesMembers(cs: seq<Candidate>, header: real)
    ensures forall c :: c in Matches(cs, header) <==> c in cs && FitsHeader(c, header)
  {
    if cs != [] {
      MatchesMembers(cs[1..], header);
      assert cs == [cs[0]] + cs[1..];
    }
  }

  lemma {:induction false} FirstMatch(cs: seq<Candidate>, header: real)
    ensures Matches(cs, header) != [] ==>
              exists k :: 0 <= k < |cs| && cs[k] == Matches(cs, header)[0]
                          && forall j :: 0 <= j < k ==> !FitsHeader(cs[j], header)
  {
    if cs != [] && !FitsHeader(cs[0], header) {
      FirstMatch(cs[1..], header);
      if Matches(cs, header) != [] {
        var k :| 0 <= k < |cs[1..]| && cs[1..][k] == Matches(cs[1..], header)[0]
                 && forall j :: 0 <= j < k ==> !FitsHeader(cs[1..][j], header);
        assert cs[k + 1] == Matches(cs, header)[0];
        forall j | 0 <= j < k + 1 ensures !FitsHeader(cs[j], header) {
          if j > 0 {
            assert cs[1..][j - 1] == cs[j];
          }
        }
      }
    }
  }

  lemma {:induction false} NoRivals(ms: seq<Candidate>, winner: seq<int>, lines: seq<Line>)
    ensures Rivals(ms, winner, lines) == [] <==> forall c :: c in ms ==> Allocations(c.mode, lines) == winner
  {
    if ms != [] {
      NoRivals(ms[1..], winner, lines);
      assert ms == [ms[0]] + ms[1..];
    }
  }

  /** The winner is the first mode that fits, in the fixed order; the matches are the modes that fit. */
  lemma MatchesExactly(b: Bill)
    ensures var ms := Matches(CandidatesOf(b), ParseNum(b.header).value);
            && (forall m :: Fits(b, m) ==> For(b, m) in ms)
            && (forall c :: c in ms ==> c == For(b, c.mode) && Fits(b, c.mode))
            && (ms != [] ==> forall m :: Rank(m) < Rank(ms[0].mode) ==> !Fits(b, m))
  {
    var cs, header := CandidatesOf(b), ParseNum(b.header).value;
    var ms := Matches(cs, header);
    ForIsOf(b);
    MatchesMembers(cs, header);
    FirstMatch(cs, header);
    forall c | c in ms ensures c == For(b, c.mode) && Fits(b, c.mode) {
    }
    if ms != [] {
      var k :| 0 <= k < |cs| && cs[k] == ms[0] && forall j :: 0 <= j < k ==> !FitsHeader(cs[j], header);
      assert Rank(ms[0].mode) == k;
    }
  }

  /** All the modes that fit split the bill alike. */
  ghost predicate OneSplit(b: Bill) {
    forall m, m' :: Fits(b, m) && Fits(b, m') ==> Allocations(m, b.lines) == Allocations(m', b.lines)
  }

  lemma NoRivalsIsOneSplit(b: Bill)
    ensures var ms := Matches(CandidatesOf(b), ParseNum(b.header).value);
            ms != [] ==>
              (Rivals(ms[1..], Allocations(ms[0].mode, b.lines), b.lines) == [] <==> OneSplit(b))
  {
    MatchesExactly(b);
    var ms := Matches(CandidatesOf(b), ParseNum(b.header).value);
    if ms != [] {
      var winner := Allocations(ms[0].mode, b.lines);
      NoRivals(ms[1..], winner, b.lines);
      assert ms == [ms[0]] + ms[1..];
      if Rivals(ms[1..], winner, b.lines) == [] {
        forall m | Fits(b, m) ensures Allocations(m, b.lines) == winner {
          assert For(b, m) in ms;
          ForIsOf(b);
        }
      } else {
        var c :| c in ms[1..] && Allocations(c.mode, b.lines) != winner;
        assert c in ms && Fits(b, c.mode) && Fits(b, ms[0].mode);
      }
    }
  }

  /** A bill reconciles exactly when nothing in it is unreadable or refused, some mode fits, and all
      the modes that fit give the same cents on every line; the mode is then the first that fits, and
      the answer carries its total, tax and shipping. */
  lemma ReconcilesExactly(b: Bill)
    ensures var r := Reconcile(b);
            && (r.held.None? <==> Refusal(b).None? && (exists m :: Fits(b, m)) && OneSplit(b))
            && (r.held.None? <==> r.mode.Some?)
            && (r.held.None? ==>
                  var m := r.mode.value;
                  && Fits(b, m)
                  && (forall m' :: Rank(m') < Rank(m) ==> !Fits(b, m'))
                  && r == Report(b, Some(m), For(b, m).total, For(b, m).tax, For(b, m).shipping, [], None))
  {
    MatchesExactly(b);
    NoRivalsIsOneSplit(b);
    var ms := Matches(CandidatesOf(b), ParseNum(b.header).value);
    if ms != [] {
      assert ms[0] in ms;
    }
  }

  /** A reconciled total is within four cents of the header. */
  lemma ReconciledTotalNearHeader(b: Bill)
    requires Reconcile(b).held.None?
    ensures AbsInt(Cents(Reconcile(b).computedTotal) - Cents(Reconcile(b).headerTotal)) <= 4
  {
    ReconcilesExactly(b);
    CentsOfRounded(For(b, Reconcile(b).mode.value).total);
    CentsOfRounded(ParseNum(b.header).value);
  }

  predicate TaxInLines(m: Mode) {
    m.TaxInclusive? || m.ExtendedTaxInclusive?
  }

  predicate FreightInLines(m: Mode) {
    m.UnitFreightInLines? || m.ExtendedFreightInLines?
  }

  /** What is sent for filing: the bill's own tax and shipping, each zeroed exactly when the mode says the
      lines already hold it, and then only if there is some to zero.  And a bill that reconciles was
      readable throughout. */
  lemma FiledTaxAndShipping(b: Bill)
    requires Reconcile(b).held.None?
    ensures var r, tax, shipping := Reconcile(b), ParseMoneyOrZero(b.tax), ParseMoneyOrZero(b.shipping);
            && r.tax == (if TaxInLines(r.mode.value) then 0.0 else Round2(tax.value))
            && r.shipping == (if FreightInLines(r.mode.value) then 0.0 else Round2(shipping.value))
            && (TaxInLines(r.mode.value) ==> tax.value > 0.0)
            && (FreightInLines(r.mode.value) ==> shipping.value > 0.0 && exists l :: l in b.lines && l.freight)
            && tax.ok && shipping.ok && b.lines != []
            && forall l :: l in b.lines ==> Readable(l) && Quantity(l) > 0.0
    ensures var header := ParseNum(b.header);
            && header.ok && header.value != 0.0 && (header.value > 0.0 ==> ParseMoneyOrZero(b.tax).value < header.value)
            && Reconcile(b).headerTotal == Round2(header.value)
            && Reconcile(b).difference == Round2(header.value - For(b, Reconcile(b).mode.value).total)
  {
    ReconcilesExactly(b);
  }

  lemma {:induction false} ClosestIsNearest(best: Candidate, cs: seq<Candidate>, header: real)
    ensures var c := Closest(best, cs, header);
            && (c == best || c in cs)
            && Abs(c.total - header) <= Abs(best.total - header)
            && forall d :: d in cs ==> Abs(c.total - header) <= Abs(d.total - header)
    decreases cs
  {
    if cs != [] {
      ClosestIsNearest(if Abs(cs[0].total - header) < Abs(best.total - header) then cs[0] else best, cs[1..], header);
      assert cs == [cs[0]] + cs[1..];
    }
  }

  lemma {:induction false} EligibleMembers(cs: seq<Candidate>)
    ensures forall c :: c in Eligible(cs) <==> c in cs && c.eligible
  {
    if cs != [] {
      EligibleMembers(cs[1..]);
      assert cs == [cs[0]] + cs[1..];
    }
  }

  lemma NearestExactly(cs: seq<Candidate>, header: real)
    requires cs != [] && cs[0].eligible
    ensures Nearest(cs, header) in cs && Nearest(cs, header).eligible
    ensures forall c :: c in cs && c.eligible ==> Abs(Nearest(cs, header).total - header) <= Abs(c.total - header)
  {
    var eligible := Eligible(cs);
    EligibleMembers(cs);
    ClosestIsNearest(cs[0], eligible[1..], header);
    assert eligible == [cs[0]] + eligible[1..];
  }

  lemma NearestIn(cs: seq<Candidate>, header: real) returns (m: Mode)
    requires OnePerMode(cs) && cs[0].eligible
    ensures cs[Rank(m)] == Nearest(cs, header) && cs[Rank(m)].eligible
    ensures forall m' :: cs[Rank(m')].eligible ==> Abs(cs[Rank(m)].total - header) <= Abs(cs[Rank(m')].total - header)
  {
    NearestExactly(cs, header);
    m := Nearest(cs, header).mode;
    forall m' | cs[Rank(m')].eligible ensures Abs(cs[Rank(m)].total - header) <= Abs(cs[Rank(m')].total - header) {
      assert cs[Rank(m')] in cs;
    }
  }

  lemma HeldWithoutMode(b: Bill)
    ensures Reconcile(b).held == Some(NoModeMatches) <==> Refusal(b).None? && forall m :: !Fits(b, m)
    ensures CandidatesOf(b)[0].eligible
    ensures var total, header := Nearest(CandidatesOf(b), ParseNum(b.header).value).total, ParseNum(b.header).value;
            Reconcile(b).held == Some(NoModeMatches) ==>
              Reconcile(b).computedTotal == Round2(total) && Reconcile(b).difference == Round2(header - total)
  {
    MatchesExactly(b);
  }

  /** Held for want of a mode exactly when the bill is tried and no mode fits; and then the answer reports the
      total of an eligible mode nearest to the header. */
  lemma HeldReportsNearest(b: Bill) returns (m: Mode)
    ensures Reconcile(b).held == Some(NoModeMatches) <==> Refusal(b).None? && forall m' :: !Fits(b, m')
    ensures var r, header := Reconcile(b), ParseNum(b.header).value;
            && For(b, m).eligible
            && (r.held == Some(NoModeMatches) ==>
                  r.computedTotal == Round2(For(b, m).total) && r.difference == Round2(header - For(b, m).total))
            && forall m' :: For(b, m').eligible ==> Abs(For(b, m).total - header) <= Abs(For(b, m').total - header)
  {
    HeldWithoutMode(b);
    ForIsOf(b);
    m := NearestIn(CandidatesOf(b), ParseNum(b.header).value);
  }

  /** Held as ambiguous: two modes fit and some line's cents depend on which is meant. */
  lemma AmbiguousExactly(b: Bill)
    ensures Reconcile(b).held == Some(Ambiguous) <==>
              Refusal(b).None? && (exists m :: Fits(b, m)) && !OneSplit(b)
  {
    MatchesExactly(b);
    NoRivalsIsOneSplit(b);
    var ms := Matches(CandidatesOf(b), ParseNum(b.header).value);
    if ms != [] {
      assert ms[0] in ms;
    }
  }

  // ---- the totals in plain numbers

  /** The field reads as the number: itself, the text that spells it, or, wrapped, the value, or the text where
      there is no value. */
  predicate NumberOf(v: Field, x: real) {
    match v
    case Number(n) => n == x
    case Text(number) => number == Some(x)
    case Wrapped(value, text) => if value.Missing? then NumberOf(text, x) else NumberOf(value, x)
    case _ => false
  }

  lemma {:induction false} ParseNumExactly(v: Field, x: real)
    ensures NumberOf(v, x) <==> ParseNum(v) == Parsed(x, true)
    ensures !ParseNum(v).ok ==> ParseNum(v).value == 0.0
  {
    match v
    case Wrapped(value, text) =>
      ParseNumExactly(value, x);
      ParseNumExactly(text, x);
    case _ =>
  }

  /** A charge reads as the number, or is absent and zero. */
  predicate ChargeOf(v: Field, x: real) {
    if v.Missing? then x == 0.0 else NumberOf(v, x)
  }

  /** The lines cost and number these. */
  ghost predicate LinesRead(lines: seq<Line>, costs: seq<real>, quantities: seq<real>) {
    && |lines| == |costs| == |quantities|
    && forall k :: 0 <= k < |lines| ==> NumberOf(lines[k].unitCost, costs[k]) && NumberOf(lines[k].quantity, quantities[k])
  }

  lemma {:induction false} SumsAre(lines: seq<Line>, costs: seq<real>, quantities: seq<real>)
    requires LinesRead(lines, costs, quantities)
    ensures Sum(Unit, lines) == SumOfProducts(costs, quantities) && Sum(Extended, lines) == SumOf(costs)
  {
    if lines != [] {
      ParseNumExactly(lines[0].unitCost, costs[0]);
      ParseNumExactly(lines[0].quantity, quantities[0]);
      SumsAre(lines[1..], costs[1..], quantities[1..]);
    }
  }

  lemma {:induction false} AllocationAt(m: Mode, lines: seq<Line>, k: nat)
    requires k < |lines|
    ensures |Allocations(m, lines)| == |lines| && Allocations(m, lines)[k] == Cents(LineAmount(m, lines[k]))
  {
    if |lines| > 1 {
      AllocationAt(m, lines[1..], if k > 0 then k - 1 else 0);
    }
  }

  lemma LineAmountIs(m: Mode, l: Line, cost: real, quantity: real)
    requires NumberOf(l.unitCost, cost) && NumberOf(l.quantity, quantity)
    ensures LineAmount(m, l) == if m.Unit? || m.UnitFreightInLines? || m.TaxInclusive? then cost * quantity else cost
  {
    ParseNumExactly(l.unitCost, cost);
    ParseNumExactly(l.quantity, quantity);
  }

  /** What is filed on a line: cost times quantity, or in the extended modes the cost, in cents. */
  lemma AllocationsAre(m: Mode, lines: seq<Line>, k: nat, cost: real, quantity: real)
    requires k < |lines| && NumberOf(lines[k].unitCost, cost) && NumberOf(lines[k].quantity, quantity)
    ensures |Allocations(m, lines)| == |lines|
    ensures Allocations(m, lines)[k] ==
            match m
            case Unit => Cents(cost * quantity)
            case UnitFreightInLines => Cents(cost * quantity)
            case TaxInclusive => Cents(cost * quantity)
            case _ => Cents(cost)
  {
    AllocationAt(m, lines, k);
    LineAmountIs(m, lines[k], cost, quantity);
  }

  /** At most four cents apart, each rounded first. */
  predicate Near(a: real, b: real) {
    -4 <= Cents(a) - Cents(b) <= 4
  }

  lemma FitsByTotal(b: Bill, m: Mode, total: real, allowed: bool)
    requires For(b, m).total == total && For(b, m).eligible == allowed && ParseNum(b.header).ok
    ensures Fits(b, m) <==> allowed && Near(total, ParseNum(b.header).value)
  {
  }

  /** When each mode fits a bill that reads, in terms of its numbers. */
  lemma FitsExactly(b: Bill, header: real, tax: real, shipping: real, costs: seq<real>, quantities: seq<real>)
    requires NumberOf(b.header, header) && ChargeOf(b.tax, tax) && ChargeOf(b.shipping, shipping)
    requires LinesRead(b.lines, costs, quantities)
    ensures var each, whole := SumOfProducts(costs, quantities), SumOf(costs);
            var freight := shipping > 0.0 && exists l :: l in b.lines && l.freight;
            && (Fits(b, Unit) <==> Near(each + tax + shipping, header))
            && (Fits(b, Extended) <==> Near(whole + tax + shipping, header))
            && (Fits(b, UnitFreightInLines) <==> freight && Near(each + tax, header))
            && (Fits(b, ExtendedFreightInLines) <==> freight && Near(whole + tax, header))
            && (Fits(b, TaxInclusive) <==> tax > 0.0 && Near(each + shipping, header))
            && (Fits(b, ExtendedTaxInclusive) <==> tax > 0.0 && Near(whole + shipping, header))
  {
    ParseNumExactly(b.header, header);
    ParseNumExactly(b.tax, tax);
    ParseNumExactly(b.shipping, shipping);
    SumsAre(b.lines, costs, quantities);
    var each, whole, freight := SumOfProducts(costs, quantities), SumOf(costs), HasFreight(b.lines) && shipping > 0.0;
    FitsByTotal(b, Unit, each + tax + shipping, true);
    FitsByTotal(b, Extended, whole + tax + shipping, true);
    FitsByTotal(b, UnitFreightInLines, each + tax, freight);
    FitsByTotal(b, ExtendedFreightInLines, whole + tax, freight);
    FitsByTotal(b, TaxInclusive, each + shipping, tax > 0.0);
    FitsByTotal(b, ExtendedTaxInclusive, whole + shipping, tax > 0.0);
  }

  ghost predicate Legible(v: Field) {
    exists x :: NumberOf(v, x)
  }

  lemma LegibleExactly(v: Field)
    ensures Legible(v) <==> ParseNum(v).ok
    ensures forall x :: NumberOf(v, x) ==> ParseNum(v) == Parsed(x, true)
    ensures ParseNum(v).ok ==> NumberOf(v, ParseNum(v).value)
  {
    ParseNumExactly(v, ParseNum(v).value);
    forall x | NumberOf(v, x) ensures ParseNum(v) == Parsed(x, true) {
      ParseNumExactly(v, x);
    }
  }

  ghost predicate Unpositive(l: Line) {
    exists q :: NumberOf(l.quantity, q) && q <= 0.0
  }

  lemma UnpositiveExactly(l: Line)
    ensures Unpositive(l) <==> ParseNum(l.quantity).ok && Quantity(l) <= 0.0
  {
    LegibleExactly(l.quantity);
    if ParseNum(l.quantity).ok && Quantity(l) <= 0.0 {
      assert NumberOf(l.quantity, Quantity(l));
    }
  }

  /** The tax is at or above a positive header. */
  ghost predicate Overtaxed(b: Bill) {
    exists header, tax :: NumberOf(b.header, header) && ChargeOf(b.tax, tax) && 0.0 < header <= tax
  }

  lemma OvertaxedExactly(b: Bill)
    requires ParseNum(b.header).ok && ParseMoneyOrZero(b.tax).ok
    ensures Overtaxed(b) <==> 0.0 < ParseNum(b.header).value <= ParseMoneyOrZero(b.tax).value
  {
    var header, tax := ParseNum(b.header).value, ParseMoneyOrZero(b.tax).value;
    LegibleExactly(b.header);
    LegibleExactly(b.tax);
    assert NumberOf(b.header, header) && ChargeOf(b.tax, tax);
  }

  /** A bill is tried at all exactly when it has lines, a header that reads as a number other than zero, lines
      whose cost and quantity can be read, charges that are absent or can be read, no quantity of zero or less,
      and no tax at or above a positive header.  A reason given for not trying it is one that holds. */
  lemma RefusedExactly(b: Bill)
    ensures var headless := !Legible(b.header) || NumberOf(b.header, 0.0);
            var unreadable := exists l :: l in b.lines && !(Legible(l.unitCost) && Legible(l.quantity));
            var untaxed, unshipped := !b.tax.Missing? && !Legible(b.tax), !b.shipping.Missing? && !Legible(b.shipping);
            var unpositive := exists l :: l in b.lines && Unpositive(l);
            && (Refusal(b).None? <==>
                  b.lines != [] && !headless && !unreadable && !untaxed && !unshipped && !unpositive && !Overtaxed(b))
            && match Refusal(b)
               case Some(NoLines) => b.lines == []
               case Some(NoHeader) => headless
               case Some(UnreadableLine) => unreadable
               case Some(UnreadableTax) => untaxed
               case Some(UnreadableShipping) => unshipped
               case Some(NonPositiveQuantity) => unpositive
               case Some(TaxAtOrAboveTotal) => Overtaxed(b)
               case Some(_) => false
               case None => true
  {
    LegibleExactly(b.header);
    LegibleExactly(b.tax);
    LegibleExactly(b.shipping);
    forall l ensures Readable(l) <==> Legible(l.unitCost) && Legible(l.quantity) {
      LegibleExactly(l.unitCost);
      LegibleExactly(l.quantity);
    }
    forall l ensures Unpositive(l) <==> ParseNum(l.quantity).ok && Quantity(l) <= 0.0 {
      UnpositiveExactly(l);
    }
    if ParseNum(b.header).ok && ParseMoneyOrZero(b.tax).ok {
      OvertaxedExactly(b);
    }
  }

  /** Three at a hundred each, for 300, reconcile by unit cost. */
  lemma ThreeAtAHundred(b: Bill)
    requires b == Bill(Number(300.0), Missing, Missing, [Line(false, Number(3.0), Number(100.0))])
    ensures Reconcile(b).mode == Some(Unit) && Reconcile(b).computedTotal == 300.0
  {
    var l := b.lines[0];
    assert forall x :: x in b.lines <==> x == l;
    assert SumOfProducts([100.0], [3.0]) == 300.0 && SumOf([100.0]) == 100.0;
    FitsExactly(b, 300.0, 0.0, 0.0, [100.0], [3.0]);
    assert forall m :: Fits(b, m) <==> m == Unit;
    ReconcilesExactly(b);
    SumsAre(b.lines, [100.0], [3.0]);
  }

  // ---- a bill with quantities of one

  lemma {:induction false} SameSplit(lines: seq<Line>)
    requires forall l :: l in lines ==> Quantity(l) == 1.0
    ensures forall m, m' :: Allocations(m, lines) == Allocations(m', lines)
  {
    if lines != [] {
      SameSplit(lines[1..]);
      assert Quantity(lines[0]) == 1.0;
    }
  }

  lemma QuantitiesOfOneNeverAmbiguous(b: Bill)
    requires forall l :: l in b.lines ==> Quantity(l) == 1.0
    ensures Reconcile(b).held != Some(Ambiguous)
  {
    SameSplit(b.lines);
    AmbiguousExactly(b);
  }

  // ---- what is filed adds up

  function TotalCents(allocations: seq<int>): int {
    if allocations == [] then 0 else allocations[0] + TotalCents(allocations[1..])
  }

  lemma CentsOfRounded(x: real)
    ensures Cents(Round2(x)) == Cents(x)
  {
  }

  lemma {:induction false} AllocationError(m: Mode, lines: seq<Line>)
    ensures var e := TotalCents(Allocations(m, lines)) as real - 100.0 * Sum(m, lines);
            -(|lines| as real) <= 2.0 * e <= |lines| as real
  {
    if lines != [] {
      AllocationError(m, lines[1..]);
      var a := Allocations(m, lines);
      assert a[0] == Cents(LineAmount(m, lines[0])) && a[1..] == Allocations(m, lines[1..]);
    }
  }

  lemma TotalOfMode(b: Bill, m: Mode)
    ensures var c := For(b, m); c.total == Sum(m, b.lines) + c.tax + c.shipping
  {
    SumByBasis(m, b.lines);
  }

  lemma {:induction false} SumByBasis(m: Mode, lines: seq<Line>)
    ensures Sum(m, lines) == if IsExtended(m) then Sum(Extended, lines) else Sum(Unit, lines)
  {
    if lines != [] {
      SumByBasis(m, lines[1..]);
    }
  }

  /** The cents filed line by line, with the tax and shipping to apply, differ from the header's cents
      by at most 4 + (n + 3) / 2 for n lines. */
  lemma FiledCentsNearHeader(b: Bill)
    requires Reconcile(b).held.None?
    ensures var r := Reconcile(b);
            var filed := TotalCents(Allocations(r.mode.value, b.lines)) + Cents(r.tax) + Cents(r.shipping);
            2 * AbsInt(filed - Cents(ParseNum(b.header).value)) <= 8 + |b.lines| + 3
  {
    ReconcilesExactly(b);
    var r := Reconcile(b);
    var c := For(b, r.mode.value);
    AllocationError(r.mode.value, b.lines);
    TotalOfMode(b, r.mode.value);
    CentsOfRounded(c.tax);
    CentsOfRounded(c.shipping);
    FiledArithmetic(|b.lines|, TotalCents(Allocations(r.mode.value, b.lines)), Sum(r.mode.value, b.lines),
                    Cents(c.tax), c.tax, Cents(c.shipping), c.shipping, Cents(c.total), Cents(ParseNum(b.header).value));
  }

  lemma FiledArithmetic(n: nat, lines: int, sum: real, taxCents: int, tax: real, shipCents: int, ship: real,
                        totalCents: int, header: int)
    requires -(n as real) <= 2.0 * (lines as real - 100.0 * sum) <= n as real
    requires -0.5 < taxCents as real - 100.0 * tax <= 0.5
    requires -0.5 < shipCents as real - 100.0 * ship <= 0.5
    requires -0.5 < totalCents as real - 100.0 * (sum + tax + ship) <= 0.5
    requires AbsInt(totalCents - header) < TOLERANCE_CENTS
    ensures 2 * AbsInt(lines + taxCents + shipCents - header) <= 8 + n + 3
  {
  }

  // ---- the order of lines does not matter

  lemma MemberAt(xs: seq<Line>, ys: seq<Line>) returns (k: nat)
    requires xs != [] && multiset(xs) == multiset(ys)
    ensures k < |ys| && ys[k] == xs[0] && multiset(xs[1..]) == multiset(ys[..k] + ys[k + 1..])
  {
    assert xs[0] in multiset(xs);
    k :| 0 <= k < |ys| && ys[k] == xs[0];
    RemoveOne(ys, k);
    assert xs == [xs[0]] + xs[1..];
  }

  lemma {:induction false} SumPermutes(m: Mode, xs: seq<Line>, ys: seq<Line>)
    requires multiset(xs) == multiset(ys)
    ensures Sum(m, xs) == Sum(m, ys)
    decreases |xs|
  {
    if xs == [] {
      assert |ys| == |multiset(ys)| == 0;
    } else {
      var k := MemberAt(xs, ys);
      SumWithout(m, ys, k);
      SumPermutes(m, xs[1..], ys[..k] + ys[k + 1..]);
    }
  }

  lemma RemoveOne(ys: seq<Line>, k: nat)
    requires k < |ys|
    ensures multiset(ys[..k] + ys[k + 1..]) == multiset(ys) - multiset{ys[k]}
  {
    assert ys == ys[..k] + [ys[k]] + ys[k + 1..];
  }

  lemma {:induction false} SumWithout(m: Mode, ys: seq<Line>, k: nat)
    requires k < |ys|
    ensures Sum(m, ys) == LineAmount(m, ys[k]) + Sum(m, ys[..k] + ys[k + 1..])
  {
    if k == 0 {
      assert ys[..0] + ys[1..] == ys[1..];
    } else {
      SumWithout(m, ys[1..], k - 1);
      var rest := ys[..k] + ys[k + 1..];
      assert rest[0] == ys[0] && rest[1..] == ys[1..][..k - 1] + ys[1..][k..];
    }
  }

  lemma SameMembers(xs: seq<Line>, ys: seq<Line>)
    requires multiset(xs) == multiset(ys)
    ensures forall l :: l in xs <==> l in ys
    ensures xs == [] <==> ys == []
  {
    assert forall l :: l in xs <==> l in multiset(xs);
    assert |xs| == |multiset(xs)| == |multiset(ys)| == |ys|;
  }

  lemma {:induction false} SplitsAgree(m: Mode, m': Mode, lines: seq<Line>)
    ensures Allocations(m, lines) == Allocations(m', lines)
            <==> forall l :: l in lines ==> Cents(LineAmount(m, l)) == Cents(LineAmount(m', l))
  {
    if lines != [] {
      SplitsAgree(m, m', lines[1..]);
      assert lines == [lines[0]] + lines[1..];
      var a, a' := Allocations(m, lines), Allocations(m', lines);
      assert a[1..] == Allocations(m, lines[1..]) && a'[1..] == Allocations(m', lines[1..]);
      assert a == a' <==> a[0] == a'[0] && a[1..] == a'[1..];
    }
  }

  lemma {:induction false} RivalsPermute(ms: seq<Candidate>, w: Mode, xs: seq<Line>, ys: seq<Line>)
    requires multiset(xs) == multiset(ys)
    ensures Rivals(ms, Allocations(w, xs), xs) == Rivals(ms, Allocations(w, ys), ys)
  {
    if ms != [] {
      SameMembers(xs, ys);
      SplitsAgree(ms[0].mode, w, xs);
      SplitsAgree(ms[0].mode, w, ys);
      RivalsPermute(ms[1..], w, xs, ys);
    }
  }

  lemma RefusalPermutes(b: Bill, lines: seq<Line>)
    requires multiset(b.lines) == multiset(lines)
    ensures Refusal(b.(lines := lines)) == Refusal(b)
    ensures HasFreight(lines) == HasFreight(b.lines)
  {
    SameMembers(b.lines, lines);
  }

  lemma CandidatesPermute(b: Bill, lines: seq<Line>)
    requires multiset(b.lines) == multiset(lines)
    ensures CandidatesOf(b.(lines := lines)) == CandidatesOf(b)
    ensures Sum(Unit, lines) == Sum(Unit, b.lines) && Sum(Extended, lines) == Sum(Extended, b.lines)
  {
    RefusalPermutes(b, lines);
    SumPermutes(Unit, b.lines, lines);
    SumPermutes(Extended, b.lines, lines);
  }

  lemma ReportPermutes(b: Bill, lines: seq<Line>, mode: Option<Mode>, total: real, tax: real, shipping: real,
                       alsoMatched: seq<Mode>, held: Option<Reason>)
    requires multiset(b.lines) == multiset(lines)
    ensures Report(b.(lines := lines), mode, total, tax, shipping, alsoMatched, held)
            == Report(b, mode, total, tax, shipping, alsoMatched, held)
  {
    RefusalPermutes(b, lines);
    CandidatesPermute(b, lines);
  }

  /** The rivals to the winner among these candidates. */
  function RivalsIn(b: Bill, cs: seq<Candidate>): seq<Mode> {
    var ms := Matches(cs, ParseNum(b.header).value);
    if ms == [] then [] else Rivals(ms[1..], Allocations(ms[0].mode, b.lines), b.lines)
  }

  lemma RivalsInPermutes(b: Bill, cs: seq<Candidate>, lines: seq<Line>)
    requires multiset(b.lines) == multiset(lines)
    ensures RivalsIn(b.(lines := lines), cs) == RivalsIn(b, cs)
  {
    var ms := Matches(cs, ParseNum(b.header).value);
    if ms != [] {
      RivalsPermute(ms[1..], ms[0].mode, b.lines, lines);
    }
  }

  lemma DecidePermutes(b: Bill, cs: seq<Candidate>, tax: real, shipping: real, lines: seq<Line>)
    requires cs != [] && cs[0].eligible && multiset(b.lines) == multiset(lines)
    ensures Decide(b.(lines := lines), cs, tax, shipping) == Decide(b, cs, tax, shipping)
  {
    RivalsInPermutes(b, cs, lines);
    var header, rivals := ParseNum(b.header).value, RivalsIn(b, cs);
    var ms := Matches(cs, header);
    if ms == [] {
      ReportPermutes(b, lines, None, Nearest(cs, header).total, tax, shipping, [], Some(NoModeMatches));
    } else if rivals != [] {
      ReportPermutes(b, lines, None, ms[0].total, tax, shipping, rivals, Some(Ambiguous));
    } else {
      ReportPermutes(b, lines, Some(ms[0].mode), ms[0].total, ms[0].tax, ms[0].shipping, [], None);
    }
  }

  /** Permuting the lines changes nothing in the answer. */
  lemma LineOrderIrrelevant(b: Bill, lines: seq<Line>)
    requires multiset(b.lines) == multiset(lines)
    ensures Reconcile(b.(lines := lines)) == Reconcile(b)
  {
    var tax, shipping := ParseMoneyOrZero(b.tax).value, ParseMoneyOrZero(b.shipping).value;
    RefusalPermutes(b, lines);
    CandidatesPermute(b, lines);
    DecidePermutes(b, CandidatesOf(b), tax, shipping, lines);
    ReportPermutes(b, lines, None, Sum(Unit, b.lines) + tax + shipping, tax, shipping, [], Refusal(b));
  }
}
