/** How old the data behind an answer from the warehouse is: as old as its oldest source. */
module GoldWatermark {
  import opened Wrappers
  import opened Hours

  const GOLD_STALE_THRESHOLD_HOURS := 26
  const FUTURE_SKEW_TOLERANCE_HOURS := 1

  /** A source: its name, the build time it reported if any, and what that parses to. */
  datatype Part = Part(name: string, builtAt: Option<string>, parsed: Option<int>)

  datatype Freshness = Unknown | Stale | Fresh

  datatype Stamp = Stamp(asOf: Option<string>, ageTenths: Option<nat>, freshness: Freshness, source: string)

  predicate Provable(p: Part, now: int) {
    p.builtAt.Some? && p.parsed.Some? && now - p.parsed.value >= -FUTURE_SKEW_TOLERANCE_HOURS * MS_PER_HOUR
  }

  function Labels(parts: seq<Part>): string {
    if parts == [] then "" else if |parts| == 1 then parts[0].name else parts[0].name + " + " + Labels(parts[1..])
  }

  /** The labels of all the parts, in order, joined. */
  lemma {:induction false} LabelsJoin(parts: seq<Part>, more: seq<Part>)
    requires parts != [] && more != []
    ensures Labels(parts + more) == Labels(parts) + " + " + Labels(more)
    ensures |more| == 1 ==> Labels(more) == more[0].name
  {
    if |parts| == 1 {
      assert (parts + more)[1..] == more;
    } else {
      assert (parts + more)[1..] == parts[1..] + more;
      LabelsJoin(parts[1..], more);
      var first, rest := parts[0].name + " + ", Labels(parts[1..]);
      assert first + (rest + " + " + Labels(more)) == (first + rest) + " + " + Labels(more);
    }
  }

  ghost predicate AllProvable(parts: seq<Part>, now: int) {
    forall p {:trigger Provable(p, now)} :: p in parts ==> Provable(p, now)
  }

  /** Part k is the first of the oldest. */
  ghost predicate IsOldest(parts: seq<Part>, now: int, k: nat) {
    && k < |parts| && AllProvable(parts, now)
    && (forall j {:trigger parts[j]} :: 0 <= j < |parts| && Provable(parts[j], now) && Provable(parts[k], now) ==>
          if j < k then parts[k].parsed.value < parts[j].parsed.value else parts[k].parsed.value <= parts[j].parsed.value)
  }

  function VerdictAt(age: nat): Freshness {
    if age <= 10 * GOLD_STALE_THRESHOLD_HOURS then Fresh else Stale
  }

  /** The stamp the parts deserve. */
  ghost predicate IsStamp(parts: seq<Part>, now: int, s: Stamp) {
    if parts == [] || !AllProvable(parts, now) then
      s == Stamp(None, None, Unknown, if parts == [] then "none" else Labels(parts))
    else
      exists k: nat {:trigger IsOldest(parts, now, k)} ::
        && IsOldest(parts, now, k) && Provable(parts[k], now)
        && var age := AgeTenths(now, parts[k].parsed.value);
           s == Stamp(parts[k].builtAt, Some(age), VerdictAt(age), parts[k].name)
  }

  method BuildGoldStamp(parts: seq<Part>, now: int) returns (s: Stamp)
    ensures IsStamp(parts, now, s)
  {
    var unprovable := 0;
    var oldest: Option<Part> := None;
    ghost var k: nat := 0;
    var i := 0;
    while i < |parts|
      invariant i <= |parts|
      invariant unprovable == 0 <==> AllProvable(parts[..i], now)
      invariant unprovable == 0 ==> (oldest.None? <==> i == 0)
      invariant unprovable == 0 && i > 0 ==> IsOldest(parts[..i], now, k) && oldest == Some(parts[k])
      invariant oldest.Some? ==> Provable(oldest.value, now)
    {
      var p := parts[i];
      OnePartMore(parts, now, i, k);
      i := i + 1;
      if p.builtAt.None? || p.parsed.None? {
        unprovable := unprovable + 1;
        continue;
      }
      if now - p.parsed.value < -FUTURE_SKEW_TOLERANCE_HOURS * MS_PER_HOUR {
        unprovable := unprovable + 1;
        continue;
      }
      if oldest.None? || p.parsed.value < oldest.value.parsed.value {
        oldest, k := Some(p), i - 1;
      }
    }
    assert parts[..i] == parts;
    var labels := Labels(parts);
    if unprovable > 0 { return Stamp(None, None, Unknown, labels); }
    if oldest.None? { return Stamp(None, None, Unknown, if labels == "" then "none" else labels); }
    var rounded := Tenths(now - oldest.value.parsed.value);
    var age: nat := if rounded > 0 then rounded else 0;
    assert IsOldest(parts, now, k);
    s := Stamp(oldest.value.builtAt, Some(age), if age <= 10 * GOLD_STALE_THRESHOLD_HOURS then Fresh else Stale,
               oldest.value.name);
  }

  lemma OnePartMore(parts: seq<Part>, now: int, i: nat, k: nat)
    requires i < |parts|
    ensures AllProvable(parts[..i + 1], now) <==> AllProvable(parts[..i], now) && Provable(parts[i], now)
    ensures Provable(parts[i], now) && IsOldest(parts[..i], now, k) ==>
              && Provable(parts[k], now)
              && IsOldest(parts[..i + 1], now, if parts[i].parsed.value < parts[k].parsed.value then i else k)
    ensures i == 0 && Provable(parts[0], now) ==> IsOldest(parts[..1], now, 0)
  {
  }

  // ---- the oldest source decides

  /** The same sources in any order and number. */
  ghost predicate SameParts(parts: seq<Part>, parts': seq<Part>) {
    forall p :: p in parts <==> p in parts'
  }

  /** The age and the verdict in terms of the parts alone: the age is the greatest of theirs. */
  lemma StampIsOfOldest(parts: seq<Part>, now: int, s: Stamp)
    requires IsStamp(parts, now, s)
    ensures s.freshness != Unknown <==> parts != [] && AllProvable(parts, now)
    ensures s.freshness != Unknown ==>
              && s.ageTenths.Some? && s.freshness == VerdictAt(s.ageTenths.value)
              && (exists p :: p in parts && Provable(p, now) && s.ageTenths == Some(AgeTenths(now, p.parsed.value))
                              && s.asOf == p.builtAt && s.source == p.name)
              && (forall p :: p in parts && Provable(p, now) ==> AgeTenths(now, p.parsed.value) <= s.ageTenths.value)
    ensures s.freshness == Unknown ==> s.asOf.None? && s.ageTenths.None?
  {
    if parts != [] && AllProvable(parts, now) {
      var k: nat :| IsOldest(parts, now, k) && Provable(parts[k], now)
                    && s == Stamp(parts[k].builtAt, Some(AgeTenths(now, parts[k].parsed.value)),
                                  VerdictAt(AgeTenths(now, parts[k].parsed.value)), parts[k].name);
      assert parts[k] in parts;
      forall p | p in parts && Provable(p, now) ensures AgeTenths(now, p.parsed.value) <= s.ageTenths.value {
        var j :| 0 <= j < |parts| && parts[j] == p;
        AgeExactly(now, parts[k].parsed.value, p.parsed.value, 0);
      }
    }
  }

  /** Order does not matter to the age or the verdict. */
  lemma OrderIrrelevant(parts: seq<Part>, parts': seq<Part>, now: int, s: Stamp, s': Stamp)
    requires SameParts(parts, parts') && IsStamp(parts, now, s) && IsStamp(parts', now, s')
    ensures s.freshness == s'.freshness && s.ageTenths == s'.ageTenths
  {
    StampIsOfOldest(parts, now, s);
    StampIsOfOldest(parts', now, s');
    assert parts == [] <==> parts' == [] by {
      if parts != [] { assert parts[0] in parts; }
      if parts' != [] { assert parts'[0] in parts'; }
    }
  }

  function Rank(f: Freshness): nat {
    match f case Unknown => 0 case Stale => 1 case Fresh => 2
  }

  /** More sources never improve the verdict of some. */
  lemma MoreSourcesNeverImprove(parts: seq<Part>, parts': seq<Part>, now: int, s: Stamp, s': Stamp)
    requires parts != [] && (forall p :: p in parts ==> p in parts')
    requires IsStamp(parts, now, s) && IsStamp(parts', now, s')
    ensures Rank(s'.freshness) <= Rank(s.freshness)
    ensures s'.freshness != Unknown ==> s.ageTenths.Some? && s.ageTenths.value <= s'.ageTenths.value
  {
    StampIsOfOldest(parts, now, s);
    StampIsOfOldest(parts', now, s');
  }

  /** Stale: exactly when every source is provable and one is older than the threshold by three minutes
      or more, half the tenth that ages are rounded to. */
  lemma StaleExactly(parts: seq<Part>, now: int, s: Stamp)
    requires IsStamp(parts, now, s)
    ensures s.freshness == Stale <==>
              && AllProvable(parts, now)
              && exists p :: p in parts && Provable(p, now)
                             && now - p.parsed.value >= 93_780_000
  {
  }

  /** Fresh: exactly when there are sources and each was built between 26 hours and three minutes ago and
      an hour from now, both ends as rounded and as tolerated. */
  lemma FreshExactly(parts: seq<Part>, now: int, s: Stamp)
    requires IsStamp(parts, now, s)
    ensures s.freshness == Fresh <==>
              && parts != []
              && forall p :: p in parts ==>
                   && p.builtAt.Some? && p.parsed.Some?
                   && -3_600_000 <= now - p.parsed.value < 93_780_000
  {
    StampIsOfOldest(parts, now, s);
    StaleExactly(parts, now, s);
    if s.freshness == Fresh {
      forall p | p in parts ensures p.builtAt.Some? && p.parsed.Some? && now - p.parsed.value >= -MS_PER_HOUR {
        assert Provable(p, now);
      }
    } else if parts != [] && !AllProvable(parts, now) {
      var p :| p in parts && !Provable(p, now);
    }
  }

  /** What is stale stays stale as time passes, and what is fresh never becomes unknown. */
  lemma StaleStaysStale(parts: seq<Part>, now: int, now': int, s: Stamp, s': Stamp)
    requires IsStamp(parts, now, s) && IsStamp(parts, now', s') && now <= now'
    ensures s.freshness == Stale ==> s'.freshness == Stale
    ensures s.freshness == Fresh ==> s'.freshness != Unknown
  {
  }

  // ---- the label does depend on order

  ghost predicate OldestAre(parts: seq<Part>, now: int, p: Part) {
    p in parts && Provable(p, now)
    && forall q :: q in parts && Provable(q, now) ==> p.parsed.value <= q.parsed.value
  }

  /** Bringing an oldest part to the front makes the stamp name it. */
  lemma FrontIsNamed(parts: seq<Part>, now: int, j: nat, s': Stamp)
    requires j < |parts| && AllProvable(parts, now) && OldestAre(parts, now, parts[j])
    requires IsStamp([parts[j]] + parts[..j] + parts[j + 1..], now, s')
    ensures multiset([parts[j]] + parts[..j] + parts[j + 1..]) == multiset(parts)
    ensures s'.source == parts[j].name
  {
    var parts' := [parts[j]] + parts[..j] + parts[j + 1..];
    assert parts == parts[..j] + [parts[j]] + parts[j + 1..];
    assert multiset(parts') == multiset(parts);
    forall q | q in parts' ensures q in parts && Provable(q, now) {
      assert q in multiset(parts');
      assert q in multiset(parts);
    }
    assert AllProvable(parts', now);
    assert parts'[0] == parts[j];
    var k: nat :| IsOldest(parts', now, k) && Provable(parts'[k], now) && s'.source == parts'[k].name;
    assert parts'[k] in parts';
    assert k == 0;
  }

  ghost predicate OldestAgree(parts: seq<Part>, now: int) {
    forall p, q {:trigger OldestAre(parts, now, p), OldestAre(parts, now, q)} ::
      OldestAre(parts, now, p) && OldestAre(parts, now, q) ==> p.name == q.name
  }

  /** Two orders of the parts, and their stamps. */
  ghost predicate Orders(parts: seq<Part>, parts': seq<Part>, now: int, s: Stamp, s': Stamp) {
    multiset(parts') == multiset(parts) && IsStamp(parts, now, s) && IsStamp(parts', now, s')
  }

  /** Every order of the sources names the same one exactly when the oldest of them share a name. */
  lemma LabelFixedExactly(parts: seq<Part>, now: int)
    requires parts != [] && AllProvable(parts, now)
    ensures OldestAgree(parts, now) <==>
              forall parts', s, s' {:trigger Orders(parts, parts', now, s, s')} ::
                Orders(parts, parts', now, s, s') ==> s.source == s'.source
  {
    if OldestAgree(parts, now) {
      forall parts', s, s' | Orders(parts, parts', now, s, s') ensures s.source == s'.source {
        NamedIsOldest(parts, parts, now, s);
        NamedIsOldest(parts, parts', now, s');
      }
    } else {
      var p, q :| OldestAre(parts, now, p) && OldestAre(parts, now, q) && p.name != q.name;
      var s := TheStamp(parts, now);
      var parts1, s1 := Reordered(parts, now, p);
      var parts2, s2 := Reordered(parts, now, q);
      assert Orders(parts, parts1, now, s, s1) && Orders(parts, parts2, now, s, s2);
    }
  }

  lemma Reordered(parts: seq<Part>, now: int, p: Part) returns (parts': seq<Part>, s': Stamp)
    requires AllProvable(parts, now) && OldestAre(parts, now, p)
    ensures multiset(parts') == multiset(parts) && IsStamp(parts', now, s') && s'.source == p.name
  {
    var i :| 0 <= i < |parts| && parts[i] == p;
    parts' := [parts[i]] + parts[..i] + parts[i + 1..];
    s' := TheStamp(parts', now);
    FrontIsNamed(parts, now, i, s');
  }

  lemma NamedIsOldest(parts: seq<Part>, parts': seq<Part>, now: int, s: Stamp)
    requires parts != [] && AllProvable(parts, now) && multiset(parts') == multiset(parts) && IsStamp(parts', now, s)
    ensures exists p :: OldestAre(parts, now, p) && s.source == p.name
  {
    forall p ensures p in parts <==> p in parts' {
      assert p in parts <==> p in multiset(parts);
      assert p in parts' <==> p in multiset(parts');
    }
    assert parts[0] in parts';
    assert AllProvable(parts', now);
    var k: nat :| IsOldest(parts', now, k) && Provable(parts'[k], now) && s.source == parts'[k].name;
    assert parts'[k] in parts';
    forall q | q in parts && Provable(q, now) ensures parts'[k].parsed.value <= q.parsed.value {
      var j :| 0 <= j < |parts'| && parts'[j] == q;
    }
    assert OldestAre(parts, now, parts'[k]);
  }

  /** There is a stamp for every list. */
  lemma {:induction false} OldestExists(parts: seq<Part>, now: int, i: nat) returns (k: nat)
    requires 0 < i <= |parts| && AllProvable(parts, now)
    ensures IsOldest(parts[..i], now, k)
  {
    assert parts[i - 1] in parts;
    if i == 1 {
      OnePartMore(parts, now, 0, 0);
      k := 0;
    } else {
      k := OldestExists(parts, now, i - 1);
      OnePartMore(parts, now, i - 1, k);
      k := if parts[i - 1].parsed.value < parts[k].parsed.value then i - 1 else k;
    }
  }

  lemma TheStamp(parts: seq<Part>, now: int) returns (s: Stamp)
    ensures IsStamp(parts, now, s)
  {
    if parts == [] || !AllProvable(parts, now) {
      s := Stamp(None, None, Unknown, if parts == [] then "none" else Labels(parts));
    } else {
      var k := OldestExists(parts, now, |parts|);
      assert parts[..|parts|] == parts;
      assert parts[k] in parts;
      var age := AgeTenths(now, parts[k].parsed.value);
      s := Stamp(parts[k].builtAt, Some(age), VerdictAt(age), parts[k].name);
    }
  }
}
