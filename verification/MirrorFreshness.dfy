/** What can be said of the freshness of rows read from the mirror: fresh or unknown, never stale. */
module MirrorFreshness {
  import opened Wrappers
  import opened Hours

  const STALE_THRESHOLD_HOURS := 48

  datatype Freshness = Fresh | Stale | Unknown

  datatype TableFreshness = TableFreshness(staleTenths: Option<nat>, freshness: Freshness)

  /** A mirror table and the newest sync time it reports, if that can be parsed. */
  datatype TableMax = TableMax(table: string, syncedAt: Option<int>)

  datatype Stamp = Stamp(empty: bool, staleTenths: Option<nat>, rowsTenths: Option<nat>, freshness: Freshness,
                         tables: map<string, TableFreshness>)

  /** Recent: less than 48 hours and three minutes ago, which rounds to at most 48.0 hours; a time in the
      future counts. */
  predicate Recent(t: Option<int>, now: int) {
    t.Some? && now - t.value < STALE_THRESHOLD_HOURS * MS_PER_HOUR + MS_PER_TENTH / 2
  }

  /** The newest time, if any row has one. */
  ghost predicate IsNewest(rows: seq<Option<int>>, newest: Option<int>) {
    && (newest.None? ==> forall k :: 0 <= k < |rows| ==> rows[k].None?)
    && (newest.Some? ==> newest in rows && forall k :: 0 <= k < |rows| && rows[k].Some? ==> rows[k].value <= newest.value)
  }

  function ListOf(rows: Option<seq<Option<int>>>): seq<Option<int>> {
    if rows.Some? then rows.value else []
  }

  ghost predicate NewestAge(rows: seq<Option<int>>, now: int, age: Option<nat>) {
    exists newest :: IsNewest(rows, newest) && age == AgeOf(newest, now)
  }

  lemma NewestIsRecent(rows: seq<Option<int>>, newest: Option<int>, now: int)
    requires IsNewest(rows, newest)
    ensures Recent(newest, now) <==> exists t :: t in rows && Recent(t, now)
  {
  }

  method NewestRowTs(rows: seq<Option<int>>) returns (newest: Option<int>)
    ensures IsNewest(rows, newest)
  {
    newest := None;
    var k := 0;
    while k < |rows|
      invariant k <= |rows|
      invariant IsNewest(rows[..k], newest)
    {
      var t := rows[k];
      assert rows[..k + 1] == rows[..k] + [t];
      k := k + 1;
      if t.Some? && (newest.None? || t.value > newest.value) { newest := t; }
    }
    assert rows[..k] == rows;
  }

  function AgeOf(t: Option<int>, now: int): Option<nat> {
    if t.None? then None else Some(AgeTenths(now, t.value))
  }

  /** A table's own verdict. */
  function TableVerdict(t: Option<int>, now: int): TableFreshness {
    TableFreshness(AgeOf(t, now), if Recent(t, now) then Fresh else Unknown)
  }

  /** A table is fresh when its newest sync is less than 48 h 3 min old, and otherwise, or if there is none to
      read, unknown; the age shown is that of the sync. */
  lemma TableVerdictExactly(t: Option<int>, now: int)
    ensures TableVerdict(t, now).freshness == match t
                                              case None => Unknown
                                              case Some(at) => if now - at < 172_980_000 then Fresh else Unknown
    ensures TableVerdict(t, now).staleTenths == match t case None => None case Some(at) => Some(AgeTenths(now, at))
  {
  }

  /** The greatest age of the tables, if any can be parsed. */
  ghost predicate IsWorst(tables: seq<TableMax>, now: int, worst: Option<nat>) {
    && (worst.None? ==> forall k :: 0 <= k < |tables| ==> tables[k].syncedAt.None?)
    && (worst.Some? ==>
          && (exists k :: 0 <= k < |tables| && AgeOf(tables[k].syncedAt, now) == worst)
          && forall k :: 0 <= k < |tables| && tables[k].syncedAt.Some? ==>
               AgeTenths(now, tables[k].syncedAt.value) <= worst.value)
  }

  ghost predicate DistinctTables(tables: seq<TableMax>) {
    forall j, k :: 0 <= j < k < |tables| ==> tables[j].table != tables[k].table
  }

  /** Each table has its own verdict, and nothing else has one. */
  ghost predicate VerdictsOf(tables: seq<TableMax>, now: int, verdicts: map<string, TableFreshness>) {
    && (forall name {:trigger name in verdicts} :: name in verdicts ==> Names(tables, name))
    && forall k {:trigger tables[k]} :: 0 <= k < |tables| ==> HasVerdict(verdicts, tables[k], now)
  }

  ghost predicate Names(tables: seq<TableMax>, name: string) {
    exists k :: 0 <= k < |tables| && tables[k].table == name
  }

  ghost predicate HasVerdict(verdicts: map<string, TableFreshness>, t: TableMax, now: int) {
    t.table in verdicts && verdicts[t.table] == TableVerdict(t.syncedAt, now)
  }

  lemma VerdictsMore(tables: seq<TableMax>, now: int, verdicts: map<string, TableFreshness>, i: nat)
    requires DistinctTables(tables) && i < |tables| && VerdictsOf(tables[..i], now, verdicts)
    ensures VerdictsOf(tables[..i + 1], now, verdicts[tables[i].table := TableVerdict(tables[i].syncedAt, now)])
  {
  }

  lemma WorstMore(tables: seq<TableMax>, now: int, worst: Option<nat>, i: nat)
    requires i < |tables| && IsWorst(tables[..i], now, worst)
    ensures var age := AgeOf(tables[i].syncedAt, now);
            IsWorst(tables[..i + 1], now,
                    if age.Some? && (worst.None? || age.value > worst.value) then age else worst)
  {
  }

  ghost predicate AllRecent(tables: seq<TableMax>, now: int) {
    forall t :: t in tables ==> t.syncedAt.Some? && now - t.syncedAt.value < 172_980_000
  }

  lemma RecentMore(tables: seq<TableMax>, now: int, i: nat)
    requires i < |tables|
    ensures AllRecent(tables[..i + 1], now) <==> AllRecent(tables[..i], now) && Recent(tables[i].syncedAt, now)
  {
  }

  method JudgeTables(tables: seq<TableMax>, now: int)
    returns (verdicts: map<string, TableFreshness>, worst: Option<nat>, headline: Freshness)
    requires DistinctTables(tables)
    ensures VerdictsOf(tables, now, verdicts) && IsWorst(tables, now, worst)
    ensures headline == if AllRecent(tables, now) then Fresh else Unknown
  {
    var quietTables, emptyTables := 0, 0;
    verdicts, worst := map[], None;
    var i := 0;
    while i < |tables|
      invariant i <= |tables|
      invariant VerdictsOf(tables[..i], now, verdicts)
      invariant IsWorst(tables[..i], now, worst)
      invariant quietTables + emptyTables == 0 <==> AllRecent(tables[..i], now)
    {
      var t, parsed := tables[i].table, tables[i].syncedAt;
      VerdictsMore(tables, now, verdicts, i);
      WorstMore(tables, now, worst, i);
      RecentMore(tables, now, i);
      i := i + 1;
      if parsed.None? {
        verdicts := verdicts[t := TableFreshness(None, Unknown)];
        emptyTables := emptyTables + 1;
        continue;
      }
      var age: nat := if Tenths(now - parsed.value) > 0 then Tenths(now - parsed.value) else 0;
      AgeExactly(now, parsed.value, parsed.value, STALE_THRESHOLD_HOURS);
      var f := if age > 10 * STALE_THRESHOLD_HOURS then Unknown else Fresh;
      assert TableFreshness(Some(age), f) == TableVerdict(parsed, now);
      verdicts := verdicts[t := TableFreshness(Some(age), f)];
      if f.Unknown? { quietTables := quietTables + 1; }
      if worst.None? || age > worst.value { worst := Some(age); }
    }
    assert tables[..i] == tables;
    headline := if quietTables == 0 && emptyTables == 0 then Fresh else Unknown;
  }

  /** What is said of the rows and the table maxima.  No table maxima, or none in it, is the degraded mode:
      the rows are all there is. */
  ghost predicate IsStamp(rows: Option<seq<Option<int>>>, tableMax: Option<seq<TableMax>>, now: int, s: Stamp) {
    var list := match rows case Some(l) => l case None => [];
    && s.empty == (list == [])
    && NewestAge(list, now, s.rowsTenths)
    && if HasTables(tableMax) then
         && VerdictsOf(tableMax.value, now, s.tables)
         && IsWorst(tableMax.value, now, s.staleTenths)
         && s.freshness == (if AllRecent(tableMax.value, now) then Fresh else Unknown)
       else
         && s.tables == map[] && s.staleTenths == s.rowsTenths
         && s.freshness == (if exists t :: t in list && Recent(t, now) then Fresh else Unknown)
  }

  predicate HasTables(tableMax: Option<seq<TableMax>>) {
    tableMax.Some? && tableMax.value != []
  }

  method StampMirrorFreshness(rows: Option<seq<Option<int>>>, tableMax: Option<seq<TableMax>>, now: int) returns (s: Stamp)
    requires tableMax.Some? ==> DistinctTables(tableMax.value)
    ensures IsStamp(rows, tableMax, now, s)
  {
    var list := ListOf(rows);
    if tableMax.Some? && tableMax.value != [] {
      var verdicts, worst, headline := JudgeTables(tableMax.value, now);
      var pageTs := NewestRowTs(list);
      return Stamp(list == [], worst, AgeOf(pageTs, now), headline, verdicts);
    }
    if list == [] {
      assert IsNewest(list, None);
      return Stamp(true, None, None, Unknown, map[]);
    }
    var newest := NewestRowTs(list);
    NewestIsRecent(list, newest, now);
    if newest.None? { return Stamp(false, None, None, Unknown, map[]); }
    var rounded: nat := if Tenths(now - newest.value) > 0 then Tenths(now - newest.value) else 0;
    AgeExactly(now, newest.value, newest.value, STALE_THRESHOLD_HOURS);
    s := Stamp(false, Some(rounded), Some(rounded), if rounded <= 10 * STALE_THRESHOLD_HOURS then Fresh else Unknown, map[]);
  }

  /** The headline in terms of the published ages: fresh exactly when every table has an age and the worst
      is at most 48.0 hours.  Adding a table never improves it. */
  lemma HeadlineIsWorst(tables: seq<TableMax>, more: seq<TableMax>, now: int, worst: Option<nat>)
    requires tables != [] && IsWorst(tables, now, worst)
    ensures AllRecent(tables, now) <==>
              (forall t :: t in tables ==> t.syncedAt.Some?) && worst.Some? && worst.value <= 480
    ensures AllRecent(tables + more, now) ==> AllRecent(tables, now)
  {
    forall t | t in tables && t.syncedAt.Some?
      ensures Recent(t.syncedAt, now) <==> AgeTenths(now, t.syncedAt.value) <= 10 * STALE_THRESHOLD_HOURS
    {
      AgeExactly(now, t.syncedAt.value, t.syncedAt.value, STALE_THRESHOLD_HOURS);
    }
    assert tables[0] in tables;
    forall t | t in tables ensures t in tables + more {
    }
  }

  /** The table age is missing exactly when no table could be parsed, whatever the headline. */
  lemma StaleHoursExactly(rows: Option<seq<Option<int>>>, tableMax: Option<seq<TableMax>>, now: int, s: Stamp)
    requires HasTables(tableMax) && IsStamp(rows, tableMax, now, s)
    ensures s.staleTenths.None? <==> forall t :: t in tableMax.value ==> t.syncedAt.None?
    ensures s.staleTenths.Some? ==>
              && (exists t :: t in tableMax.value && AgeOf(t.syncedAt, now) == s.staleTenths)
              && forall t :: t in tableMax.value && t.syncedAt.Some? ==> AgeTenths(now, t.syncedAt.value) <= s.staleTenths.value
  {
  }

  /** So an unknown headline can carry an age: 50.0 hours for one table synced 50 hours ago. */
  lemma AgeUnderUnknown(rows: Option<seq<Option<int>>>, s: Stamp)
    requires IsStamp(rows, Some([TableMax("jobs", Some(0))]), 50 * MS_PER_HOUR, s)
    ensures s.freshness == Unknown && s.staleTenths == Some(500)
  {
    var t := TableMax("jobs", Some(0));
    assert t in [t];
    StaleHoursExactly(rows, Some([t]), 50 * MS_PER_HOUR, s);
  }

  /** A sync time in the future, however far, is never held against a table: with only such tables the
      stamp is fresh and the age 0. */
  lemma FutureIsFresh(rows: Option<seq<Option<int>>>, tableMax: Option<seq<TableMax>>, now: int, s: Stamp)
    requires HasTables(tableMax) && IsStamp(rows, tableMax, now, s)
    requires forall t :: t in tableMax.value ==> t.syncedAt.Some? && t.syncedAt.value >= now
    ensures s.freshness == Fresh && s.staleTenths == Some(0)
  {
    assert tableMax.value[0] in tableMax.value;
    StaleHoursExactly(rows, tableMax, now, s);
    forall t | t in tableMax.value ensures AgeOf(t.syncedAt, now) == Some(0) {
      AgeExactly(now, t.syncedAt.value, t.syncedAt.value, 0);
    }
  }
}
