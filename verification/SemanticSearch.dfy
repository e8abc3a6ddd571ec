/** The post-retrieval layer of the semantic search: collapsing duplicates and sharing the slots. */
module SemanticSearch {
  import opened Wrappers

  const MAX_SOURCE_KEYS := 5

  datatype MatchRow = MatchRow(entity: string, source: string, content: string, similarity: real)

  datatype Match = Match(entity: string, source: string, content: string, similarity: real,
                         occurrences: nat, sources: seq<string>)

  // ---- collapsing rows that share their content

  function Find(groups: seq<Match>, content: string): (k: nat)
    ensures k <= |groups|
    ensures k < |groups| ==> groups[k].content == content
    ensures forall j :: 0 <= j < k ==> groups[j].content != content
  {
    if groups == [] || groups[0].content == content then 0 else 1 + Find(groups[1..], content)
  }

  function Joined(g: Match, row: MatchRow): Match {
    g.(occurrences := g.occurrences + 1,
       sources := if |g.sources| < MAX_SOURCE_KEYS then g.sources + [row.source] else g.sources,
       similarity := if row.similarity > g.similarity then row.similarity else g.similarity)
  }

  function Alone(row: MatchRow): Match {
    Match(row.entity, row.source, row.content, row.similarity, 1, [row.source])
  }

  function AddRow(groups: seq<Match>, row: MatchRow): seq<Match> {
    var k := Find(groups, row.content);
    if k < |groups| then groups[k := Joined(groups[k], row)] else groups + [Alone(row)]
  }

  /** The groups in the order of their first rows. */
  function Groups(rows: seq<MatchRow>): seq<Match> {
    if rows == [] then [] else AddRow(Groups(rows[..|rows| - 1]), rows[|rows| - 1])
  }

  /** The library's stable sort, most similar first. */
  function Insert(g: Match, sorted: seq<Match>): seq<Match> {
    if sorted == [] || sorted[0].similarity <= g.similarity then [g] + sorted
    else [sorted[0]] + Insert(g, sorted[1..])
  }

  function SortBySimilarity(groups: seq<Match>): seq<Match> {
    if groups == [] then [] else Insert(groups[0], SortBySimilarity(groups[1..]))
  }

  method CollapseRow(groups: seq<Match>, row: MatchRow) returns (r: seq<Match>)
    ensures r == AddRow(groups, row)
  {
    var at := Find(groups, row.content);
    if at < |groups| {
      var existing := groups[at];
      existing := existing.(occurrences := existing.occurrences + 1);
      if |existing.sources| < MAX_SOURCE_KEYS {
        existing := existing.(sources := existing.sources + [row.source]);
      }
      if row.similarity > existing.similarity {
        existing := existing.(similarity := row.similarity);
      }
      return groups[at := existing];
    }
    return groups + [Match(row.entity, row.source, row.content, row.similarity, 1, [row.source])];
  }

  method DedupeByContent(rows: seq<MatchRow>) returns (r: seq<Match>)
    ensures r == SortBySimilarity(Groups(rows))
  {
    var groups: seq<Match> := [];
    var k := 0;
    while k < |rows|
      invariant k <= |rows|
      invariant groups == Groups(rows[..k])
    {
      groups := CollapseRow(groups, rows[k]);
      k := k + 1;
      assert rows[..k][..k - 1] == rows[..k - 1];
    }
    assert rows[..k] == rows;
    return SortBySimilarity(groups);
  }

  // ---- what a group is

  function RowsWith(rows: seq<MatchRow>, content: string): seq<MatchRow> {
    if rows == [] then []
    else
      RowsWith(rows[..|rows| - 1], content)
      + if rows[|rows| - 1].content == content then [rows[|rows| - 1]] else []
  }

  function Best(rows: seq<MatchRow>): real
    requires rows != []
  {
    if |rows| == 1 then rows[0].similarity
    else
      var before := Best(rows[..|rows| - 1]);
      if rows[|rows| - 1].similarity > before then rows[|rows| - 1].similarity else before
  }

  function Sources(rows: seq<MatchRow>): (keys: seq<string>)
    ensures |keys| == |rows| && forall k :: 0 <= k < |rows| ==> keys[k] == rows[k].source
  {
    if rows == [] then [] else Sources(rows[..|rows| - 1]) + [rows[|rows| - 1].source]
  }

  function AtMost<T>(n: nat, s: seq<T>): seq<T> {
    if |s| <= n then s else s[..n]
  }

  /** A group stands for all the rows of one content: it counts them, samples their sources, carries
      their best similarity, and takes its other fields from the first of them. */
  ghost predicate StandsFor(g: Match, rows: seq<MatchRow>) {
    && rows != []
    && g.entity == rows[0].entity && g.source == rows[0].source && g.content == rows[0].content
    && g.occurrences == |rows|
    && g.sources == AtMost(5, Sources(rows))
    && g.similarity == Best(rows)
  }

  ghost predicate DistinctContents(groups: seq<Match>) {
    forall j, k :: 0 <= j < k < |groups| ==> groups[j].content != groups[k].content
  }

  function TotalOccurrences(groups: seq<Match>): nat {
    if groups == [] then 0 else groups[0].occurrences + TotalOccurrences(groups[1..])
  }

  lemma JoinedTotal(groups: seq<Match>, k: nat, g: Match)
    requires k < |groups|
    ensures TotalOccurrences(groups[k := g]) == TotalOccurrences(groups) - groups[k].occurrences + g.occurrences
  {
    var updated := groups[k := g];
    if k > 0 {
      assert updated[1..] == groups[1..][k - 1 := g];
      JoinedTotal(groups[1..], k - 1, g);
    } else {
      assert updated[1..] == groups[1..];
    }
  }

  lemma {:induction false} AppendedTotal(groups: seq<Match>, g: Match)
    ensures TotalOccurrences(groups + [g]) == TotalOccurrences(groups) + g.occurrences
  {
    if groups == [] {
      assert (groups + [g])[1..] == [];
    } else {
      assert (groups + [g])[1..] == groups[1..] + [g];
      AppendedTotal(groups[1..], g);
    }
  }

  ghost predicate AllStand(groups: seq<Match>, rows: seq<MatchRow>) {
    forall k :: 0 <= k < |groups| ==> StandsFor(groups[k], RowsWith(rows, groups[k].content))
  }

  ghost predicate Covered(groups: seq<Match>, content: string) {
    exists k :: 0 <= k < |groups| && groups[k].content == content
  }

  ghost predicate AllCovered(groups: seq<Match>, rows: seq<MatchRow>) {
    forall r :: r in rows ==> Covered(groups, r.content)
  }

  lemma JoinKeepsGroups(groups: seq<Match>, rows: seq<MatchRow>, row: MatchRow, at: nat)
    requires DistinctContents(groups) && AllStand(groups, rows) && at < |groups| && groups[at].content == row.content
    ensures var groups' := groups[at := Joined(groups[at], row)];
            DistinctContents(groups') && AllStand(groups', rows + [row])
  {
    var groups' := groups[at := Joined(groups[at], row)];
    forall k | 0 <= k < |groups'| ensures StandsFor(groups'[k], RowsWith(rows + [row], groups'[k].content)) {
      assert StandsFor(groups[k], RowsWith(rows, groups[k].content));
      if k == at {
      } else {
        assert groups[k].content != groups[at].content;
        assert RowsWith(rows, groups[k].content) + [] == RowsWith(rows, groups[k].content);
      }
    }
  }

  lemma AloneStands(rows: seq<MatchRow>, groups: seq<Match>, row: MatchRow)
    requires AllCovered(groups, rows) && !Covered(groups, row.content)
    ensures StandsFor(Alone(row), RowsWith(rows + [row], row.content))
  {
    forall r | r in rows ensures r.content != row.content {
      assert Covered(groups, r.content);
    }
    RowsWithNone(rows, row.content);
    assert RowsWith(rows + [row], row.content) == [row];
  }

  lemma AppendKeepsGroups(groups: seq<Match>, rows: seq<MatchRow>, row: MatchRow)
    requires DistinctContents(groups) && AllStand(groups, rows) && AllCovered(groups, rows)
    requires forall k :: 0 <= k < |groups| ==> groups[k].content != row.content
    ensures DistinctContents(groups + [Alone(row)]) && AllStand(groups + [Alone(row)], rows + [row])
  {
    AloneStands(rows, groups, row);
    forall k | 0 <= k < |groups| ensures StandsFor(groups[k], RowsWith(rows + [row], groups[k].content)) {
      assert RowsWith(rows, groups[k].content) + [] == RowsWith(rows, groups[k].content);
    }
  }

  lemma AddRowCovers(groups: seq<Match>, rows: seq<MatchRow>, row: MatchRow)
    requires AllCovered(groups, rows)
    ensures AllCovered(AddRow(groups, row), rows + [row])
  {
    var groups', at := AddRow(groups, row), Find(groups, row.content);
    forall r | r in rows + [row] ensures Covered(groups', r.content) {
      if r in rows {
        assert Covered(groups, r.content);
        var k :| 0 <= k < |groups| && groups[k].content == r.content;
        assert groups'[k].content == r.content;
      } else {
        assert groups'[at].content == r.content;
      }
    }
  }

  /** One group for each content, standing for its rows; the occurrences add up to the rows. */
  lemma {:induction false} GroupsExactly(rows: seq<MatchRow>)
    ensures DistinctContents(Groups(rows)) && AllStand(Groups(rows), rows) && AllCovered(Groups(rows), rows)
    ensures TotalOccurrences(Groups(rows)) == |rows|
  {
    if rows != [] {
      var init, row := rows[..|rows| - 1], rows[|rows| - 1];
      assert rows == init + [row];
      GroupsExactly(init);
      var before := Groups(init);
      var at := Find(before, row.content);
      AddRowCovers(before, init, row);
      if at < |before| {
        JoinKeepsGroups(before, init, row, at);
        JoinedTotal(before, at, Joined(before[at], row));
      } else {
        AppendKeepsGroups(before, init, row);
        AppendedTotal(before, Alone(row));
      }
    }
  }

  lemma {:induction false} RowsWithNone(rows: seq<MatchRow>, content: string)
    requires forall r :: r in rows ==> r.content != content
    ensures RowsWith(rows, content) == []
  {
    if rows != [] {
      RowsWithNone(rows[..|rows| - 1], content);
    }
  }

  lemma {:induction false} BestIsGreatest(rows: seq<MatchRow>)
    requires rows != []
    ensures forall k :: 0 <= k < |rows| ==> rows[k].similarity <= Best(rows)
    ensures exists k :: 0 <= k < |rows| && rows[k].similarity == Best(rows)
  {
    if |rows| == 1 {
      assert rows[0].similarity == Best(rows);
    } else {
      var init := rows[..|rows| - 1];
      BestIsGreatest(init);
      assert forall k :: 0 <= k < |init| ==> init[k] == rows[k];
      var k :| 0 <= k < |init| && init[k].similarity == Best(init);
      assert rows[k].similarity == Best(init);
    }
  }

  /** Row i is the first of its content. */
  ghost predicate FirstOf(rows: seq<MatchRow>, i: int) {
    0 <= i < |rows| && forall j :: 0 <= j < i ==> rows[j].content != rows[i].content
  }

  /** A later row of the same content scores higher. */
  ghost predicate Outscored(rows: seq<MatchRow>, i: int)
    requires 0 <= i < |rows|
  {
    exists j :: i < j < |rows| && rows[j].content == rows[i].content && rows[j].similarity > rows[i].similarity
  }

  lemma {:induction false} RowsWithMembers(rows: seq<MatchRow>, content: string)
    ensures forall r :: r in RowsWith(rows, content) <==> r in rows && r.content == content
  {
    if rows != [] {
      var init, last := rows[..|rows| - 1], rows[|rows| - 1];
      RowsWithMembers(init, content);
      assert rows == init + [last];
    }
  }

  lemma {:induction false} RowsWithFirst(rows: seq<MatchRow>, i: int)
    requires FirstOf(rows, i)
    ensures RowsWith(rows, rows[i].content) != [] && RowsWith(rows, rows[i].content)[0] == rows[i]
  {
    var init := rows[..|rows| - 1];
    if i == |rows| - 1 {
      RowsWithNone(init, rows[i].content);
    } else {
      assert forall j :: 0 <= j <= i ==> init[j] == rows[j];
      RowsWithFirst(init, i);
    }
  }

  lemma {:induction false} FirstExists(rows: seq<MatchRow>, k: nat) returns (i: nat)
    requires k < |rows|
    ensures i <= k && FirstOf(rows, i) && rows[i].content == rows[k].content
    decreases k
  {
    if j: nat :| j < k && rows[j].content == rows[k].content {
      i := FirstExists(rows, j);
    } else {
      i := k;
    }
  }

  /** The first row of a content scores the best of its rows exactly when it is not outscored. */
  lemma RowScoresExactly(rows: seq<MatchRow>, content: string) returns (i: nat)
    requires RowsWith(rows, content) != []
    ensures FirstOf(rows, i) && rows[i].content == content && rows[i] == RowsWith(rows, content)[0]
    ensures rows[i].similarity == Best(RowsWith(rows, content)) <==> !Outscored(rows, i)
  {
    var same := RowsWith(rows, content);
    RowsWithMembers(rows, content);
    assert same[0] in same;
    var m: nat :| m < |rows| && rows[m] == same[0];
    i := FirstExists(rows, m);
    RowsWithFirst(rows, i);
    BestIsGreatest(same);
    if rows[i].similarity == Best(same) {
      forall j | i < j < |rows| && rows[j].content == content ensures rows[j].similarity <= Best(same) {
        assert rows[j] in same;
      }
    } else {
      var best :| 0 <= best < |same| && same[best].similarity == Best(same);
      assert same[best] in same && same[best].similarity > rows[i].similarity;
      var b :| 0 <= b < |rows| && rows[b] == same[best];
      assert i < b;
    }
  }

  /** The match names row i: the first of its content, and the source of its fields but the similarity. */
  ghost predicate Names(rows: seq<MatchRow>, g: Match, i: int) {
    FirstOf(rows, i) && rows[i].content == g.content && rows[i].entity == g.entity && rows[i].source == g.source
  }

  /** Every match names one row, which scored the similarity shown exactly when no later row of the same
      content scores higher. */
  lemma NamedRowScoredExactly(rows: seq<MatchRow>, k: nat) returns (i: nat)
    requires k < |Groups(rows)|
    ensures Names(rows, Groups(rows)[k], i)
    ensures forall j :: Names(rows, Groups(rows)[k], j) ==> j == i
    ensures rows[i].similarity == Groups(rows)[k].similarity <==> !Outscored(rows, i)
  {
    var g := Groups(rows)[k];
    GroupsExactly(rows);
    assert StandsFor(g, RowsWith(rows, g.content));
    i := RowScoresExactly(rows, g.content);
  }

  ghost predicate NamedByBest(rows: seq<MatchRow>, g: Match) {
    exists i :: Names(rows, g, i) && rows[i].similarity == g.similarity
  }

  /** Every match is named by a best-scoring row exactly when no first row of a content is outscored ... */
  lemma NamedByBestExactly(rows: seq<MatchRow>)
    ensures (forall k :: 0 <= k < |Groups(rows)| ==> NamedByBest(rows, Groups(rows)[k])) <==>
            (forall i :: FirstOf(rows, i) ==> !Outscored(rows, i))
  {
    var groups := Groups(rows);
    forall k: nat | k < |groups| ensures exists i :: Names(rows, groups[k], i) && (NamedByBest(rows, groups[k]) <==> !Outscored(rows, i)) {
      var i := NamedRowScoredExactly(rows, k);
      assert Names(rows, groups[k], i);
    }
    forall i | FirstOf(rows, i) ensures exists k :: 0 <= k < |groups| && Names(rows, groups[k], i) {
      GroupsExactly(rows);
      assert Covered(groups, rows[i].content);
      var k: nat :| k < |groups| && groups[k].content == rows[i].content;
      var j := NamedRowScoredExactly(rows, k);
      assert j == i;
    }
  }

  /** ... as when the rows come ranked by similarity. */
  lemma RankedRowsNameBest(rows: seq<MatchRow>, k: nat)
    requires forall i, j :: 0 <= i < j < |rows| ==> rows[i].similarity >= rows[j].similarity
    requires k < |Groups(rows)|
    ensures NamedByBest(rows, Groups(rows)[k])
  {
    NamedByBestExactly(rows);
  }

  /** On rows that do not, the row named by a match need not be the one that scored. */
  lemma RepresentativeNeedNotBeBest()
    ensures var rows := [MatchRow("job", "a", "x", 0.8), MatchRow("job", "b", "x", 0.9)];
            |Groups(rows)| == 1 && Groups(rows)[0].source == "a" && Groups(rows)[0].similarity == 0.9
  {
  }

  // ---- ranking

  ghost predicate Ranked(ms: seq<Match>) {
    forall j, k :: 0 <= j < k < |ms| ==> ms[j].similarity >= ms[k].similarity
  }

  lemma {:induction false} InsertAdds(g: Match, sorted: seq<Match>)
    ensures multiset(Insert(g, sorted)) == multiset(sorted) + multiset{g}
  {
    if sorted != [] && !(sorted[0].similarity <= g.similarity) {
      InsertAdds(g, sorted[1..]);
      assert sorted == [sorted[0]] + sorted[1..];
    }
  }

  lemma {:induction false} InsertRanks(g: Match, sorted: seq<Match>)
    requires Ranked(sorted)
    ensures var r := Insert(g, sorted);
            Ranked(r) && r != [] && (r[0] == g || (sorted != [] && r[0] == sorted[0]))
  {
    if sorted != [] && !(sorted[0].similarity <= g.similarity) {
      InsertRanks(g, sorted[1..]);
    }
  }

  /** Deduplication keeps the groups and ranks them. */
  lemma {:induction false} SortRanks(groups: seq<Match>)
    ensures Ranked(SortBySimilarity(groups))
    ensures multiset(SortBySimilarity(groups)) == multiset(groups)
  {
    if groups != [] {
      SortRanks(groups[1..]);
      InsertRanks(groups[0], SortBySimilarity(groups[1..]));
      InsertAdds(groups[0], SortBySimilarity(groups[1..]));
      assert groups == [groups[0]] + groups[1..];
    }
  }

  // ---- the per-entity quota

  function Quota(k: nat): nat {
    var quarter := (k + 3) / 4;
    if quarter < 2 then 2 else quarter
  }

  /** The matches of one entity, in rank order. */
  function OfEntity(ms: seq<Match>, e: string): seq<Match> {
    if ms == [] then []
    else OfEntity(ms[..|ms| - 1], e) + if ms[|ms| - 1].entity == e then [ms[|ms| - 1]] else []
  }

  /** The matches that come while their entity is below its quota, and those that come after. */
  function Within(ms: seq<Match>, quota: nat): seq<Match> {
    if ms == [] then []
    else
      var init, last := ms[..|ms| - 1], ms[|ms| - 1];
      Within(init, quota) + if |OfEntity(init, last.entity)| < quota then [last] else []
  }

  function Beyond(ms: seq<Match>, quota: nat): seq<Match> {
    if ms == [] then []
    else
      var init, last := ms[..|ms| - 1], ms[|ms| - 1];
      Beyond(init, quota) + if |OfEntity(init, last.entity)| < quota then [] else [last]
  }

  function Selected(ms: seq<Match>, k: nat): seq<Match> {
    AtMost(k, Within(ms, Quota(k)) + Beyond(ms, Quota(k)))
  }

  /** Each entity's count so far, up to the quota. */
  ghost predicate CountsOk(counts: map<string, nat>, ms: seq<Match>, quota: nat) {
    forall e :: (if e in counts then counts[e] else 0)
                == if |OfEntity(ms, e)| < quota then |OfEntity(ms, e)| else quota
  }

  lemma OneMoreOfEntity(ms: seq<Match>, m: Match, e: string)
    ensures OfEntity(ms + [m], e) == if m.entity == e then OfEntity(ms, e) + [m] else OfEntity(ms, e)
  {
  }

  lemma OneMoreMatch(ms: seq<Match>, m: Match, quota: nat)
    ensures var below := |OfEntity(ms, m.entity)| < quota;
            && Within(ms + [m], quota) == (if below then Within(ms, quota) + [m] else Within(ms, quota))
            && Beyond(ms + [m], quota) == (if below then Beyond(ms, quota) else Beyond(ms, quota) + [m])
  {
  }

  lemma CountOneMore(counts: map<string, nat>, ms: seq<Match>, m: Match, quota: nat)
    requires CountsOk(counts, ms, quota)
    ensures var seen := if m.entity in counts then counts[m.entity] else 0;
            && (seen < quota <==> |OfEntity(ms, m.entity)| < quota)
            && CountsOk(if seen < quota then counts[m.entity := seen + 1] else counts, ms + [m], quota)
  {
  }

  method SplitByQuota(ms: seq<Match>, quota: nat) returns (kept: seq<Match>, overflow: seq<Match>)
    ensures kept == Within(ms, quota) && overflow == Beyond(ms, quota)
  {
    var counts: map<string, nat> := map[];
    kept, overflow := [], [];
    var i := 0;
    while i < |ms|
      invariant i <= |ms|
      invariant kept == Within(ms[..i], quota) && overflow == Beyond(ms[..i], quota)
      invariant CountsOk(counts, ms[..i], quota)
    {
      var m := ms[i];
      var seen := if m.entity in counts then counts[m.entity] else 0;
      OneMoreMatch(ms[..i], m, quota);
      CountOneMore(counts, ms[..i], m, quota);
      assert ms[..i + 1] == ms[..i] + [m];
      if seen < quota {
        counts := counts[m.entity := seen + 1];
        kept := kept + [m];
      } else {
        overflow := overflow + [m];
      }
      i := i + 1;
    }
    assert ms[..i] == ms;
  }

  lemma {:induction false} SplitCounts(ms: seq<Match>, quota: nat)
    ensures |Within(ms, quota)| + |Beyond(ms, quota)| == |ms|
  {
    if ms != [] {
      SplitCounts(ms[..|ms| - 1], quota);
    }
  }

  method Backfill(within: seq<Match>, overflow: seq<Match>, k: nat) returns (r: seq<Match>)
    ensures r == AtMost(k, within + overflow)
  {
    var kept, i := within, 0;
    while i < |overflow| && |kept| < k
      invariant i <= |overflow|
      invariant kept == within + overflow[..i]
      invariant i > 0 ==> |kept| <= k
    {
      kept := kept + [overflow[i]];
      i := i + 1;
    }
    assert kept == (within + overflow)[..|kept|];
    r := if k < |kept| then kept[..k] else kept;
  }

  method ApplyPerEntityQuota(ms: seq<Match>, k: nat) returns (r: seq<Match>, quotaApplied: bool)
    ensures r == Selected(ms, k)
    ensures quotaApplied <==> Beyond(ms, Quota(k)) != []
  {
    var quarter := (k + 3) / 4;
    var quota := if quarter < 2 then 2 else quarter;
    var within, overflow := SplitByQuota(ms, quota);
    SplitCounts(ms, quota);
    quotaApplied := |overflow| > 0 && |within| < |ms|;
    r := Backfill(within, overflow, k);
  }

  /** How often a match occurs. */
  function CountOf(ms: seq<Match>, m: Match): nat {
    if ms == [] then 0 else CountOf(ms[..|ms| - 1], m) + if ms[|ms| - 1] == m then 1 else 0
  }

  lemma OneMoreCount(ms: seq<Match>, last: Match, m: Match)
    ensures CountOf(ms + [last], m) == CountOf(ms, m) + if last == m then 1 else 0
  {
  }

  lemma {:induction false} CountConcat(a: seq<Match>, b: seq<Match>, m: Match)
    ensures CountOf(a + b, m) == CountOf(a, m) + CountOf(b, m)
  {
    if b == [] {
      assert a + b == a;
    } else {
      var init, last := b[..|b| - 1], b[|b| - 1];
      CountConcat(a, init, m);
      OneMoreCount(a + init, last, m);
      assert (a + init) + [last] == a + b;
    }
  }

  lemma SplitKeepsOne(init: seq<Match>, last: Match, quota: nat, m: Match)
    requires CountOf(Within(init, quota), m) + CountOf(Beyond(init, quota), m) == CountOf(init, m)
    ensures CountOf(Within(init + [last], quota), m) + CountOf(Beyond(init + [last], quota), m)
            == CountOf(init + [last], m)
  {
    OneMoreMatch(init, last, quota);
    OneMoreCount(init, last, m);
    OneMoreCount(Within(init, quota), last, m);
    OneMoreCount(Beyond(init, quota), last, m);
  }

  lemma {:induction false} SplitKeepsAll(ms: seq<Match>, quota: nat, m: Match)
    ensures CountOf(Within(ms, quota), m) + CountOf(Beyond(ms, quota), m) == CountOf(ms, m)
    decreases |ms|
  {
    if ms != [] {
      var init, last := ms[..|ms| - 1], ms[|ms| - 1];
      assert ms == init + [last];
      SplitKeepsAll(init, quota, m);
      SplitKeepsOne(init, last, quota, m);
    }
  }

  lemma {:induction false} OfEntityConcat(a: seq<Match>, b: seq<Match>, e: string)
    ensures OfEntity(a + b, e) == OfEntity(a, e) + OfEntity(b, e)
  {
    if b == [] {
      assert a + b == a;
    } else {
      OfEntityConcat(a, b[..|b| - 1], e);
      assert (a + b)[..|a + b| - 1] == a + b[..|b| - 1];
    }
  }

  /** Of each entity, the first `quota` matches are within and the rest beyond, in order. */
  lemma {:induction false} SplitByEntity(ms: seq<Match>, quota: nat, e: string)
    ensures OfEntity(Within(ms, quota), e) == AtMost(quota, OfEntity(ms, e))
    ensures OfEntity(Within(ms, quota), e) + OfEntity(Beyond(ms, quota), e) == OfEntity(ms, e)
  {
    if ms != [] {
      var init, last := ms[..|ms| - 1], ms[|ms| - 1];
      SplitByEntity(init, quota, e);
      assert ms == init + [last];
      OneMoreMatch(init, last, quota);
      OneMoreOfEntity(init, last, e);
      OneMoreOfEntity(Within(init, quota), last, e);
      OneMoreOfEntity(Beyond(init, quota), last, e);
      SplitStep(OfEntity(init, e), OfEntity(Within(init, quota), e), OfEntity(Beyond(init, quota), e), quota, last);
    }
  }

  lemma SplitStep(all: seq<Match>, within: seq<Match>, beyond: seq<Match>, quota: nat, m: Match)
    requires within == AtMost(quota, all) && within + beyond == all
    ensures if |all| < quota then within + [m] == AtMost(quota, all + [m]) && (within + [m]) + beyond == all + [m]
            else within == AtMost(quota, all + [m]) && within + (beyond + [m]) == all + [m]
  {
  }

  /** The selection has exactly min(k, n) matches, none more often than it was given. */
  lemma SelectedFills(ms: seq<Match>, k: nat)
    ensures |Selected(ms, k)| == if k < |ms| then k else |ms|
    ensures forall m :: CountOf(Selected(ms, k), m) <= CountOf(ms, m)
  {
    var all := Within(ms, Quota(k)) + Beyond(ms, Quota(k));
    SplitCounts(ms, Quota(k));
    forall m ensures CountOf(Selected(ms, k), m) <= CountOf(ms, m) {
      SplitKeepsAll(ms, Quota(k), m);
      CountConcat(Within(ms, Quota(k)), Beyond(ms, Quota(k)), m);
      if k < |all| {
        assert all == all[..k] + all[k..];
        CountConcat(all[..k], all[k..], m);
      }
    }
  }

  lemma {:induction false} CountsMembers(ms: seq<Match>, m: Match)
    ensures CountOf(ms, m) > 0 <==> m in ms
  {
    if ms != [] {
      var init, last := ms[..|ms| - 1], ms[|ms| - 1];
      assert ms == init + [last];
      CountsMembers(init, m);
    }
  }

  lemma {:induction false} DistinctCountOnce(ms: seq<Match>, m: Match)
    requires DistinctContents(ms)
    ensures CountOf(ms, m) <= 1
  {
    if ms != [] {
      var init, last := ms[..|ms| - 1], ms[|ms| - 1];
      DistinctCountOnce(init, m);
      if m == last {
        CountsMembers(init, m);
        assert forall k :: 0 <= k < |init| ==> init[k].content != last.content;
        assert m !in init;
      }
    }
  }

  lemma {:induction false} RepeatCountsTwice(r: seq<Match>, j: nat, k: nat)
    requires j < k < |r| && r[j] == r[k]
    ensures CountOf(r, r[j]) >= 2
  {
    var init := r[..|r| - 1];
    if k == |r| - 1 {
      CountsMembers(init, r[j]);
      assert init[j] == r[j];
    } else {
      RepeatCountsTwice(init, j, k);
    }
  }

  /** Deduplicated matches stay distinct. */
  lemma SelectedAreDistinct(ms: seq<Match>, k: nat)
    requires DistinctContents(ms)
    ensures DistinctContents(Selected(ms, k))
  {
    var r := Selected(ms, k);
    SelectedFills(ms, k);
    forall i, j | 0 <= i < j < |r| ensures r[i].content != r[j].content {
      CountsMembers(r, r[i]);
      CountsMembers(r, r[j]);
      CountsMembers(ms, r[i]);
      CountsMembers(ms, r[j]);
      DistinctCountOnce(ms, r[i]);
      if r[i] == r[j] {
        RepeatCountsTwice(r, i, j);
      }
    }
  }

  /** Of each entity the selection takes a prefix of that entity's ranking. */
  lemma SelectedIsPrefixOfRanking(ms: seq<Match>, k: nat, e: string)
    ensures OfEntity(Selected(ms, k), e) <= OfEntity(ms, e)
  {
    var all := Within(ms, Quota(k)) + Beyond(ms, Quota(k));
    SplitByEntity(ms, Quota(k), e);
    OfEntityConcat(Within(ms, Quota(k)), Beyond(ms, Quota(k)), e);
    if k < |all| {
      assert all == all[..k] + all[k..];
      OfEntityConcat(all[..k], all[k..], e);
    }
  }

  /** An entity has more than its quota of slots only when every match within a quota is also returned. */
  lemma OverQuotaOnlyInBackfill(ms: seq<Match>, k: nat, e: string)
    requires |OfEntity(Selected(ms, k), e)| > Quota(k)
    ensures Within(ms, Quota(k)) <= Selected(ms, k)
  {
    var within := Within(ms, Quota(k));
    SplitByEntity(ms, Quota(k), e);
    if k < |within| {
      assert Selected(ms, k) == within[..k];
      assert within == within[..k] + within[k..];
      OfEntityConcat(within[..k], within[k..], e);
    } else {
      assert Selected(ms, k) == within + Selected(ms, k)[|within|..];
    }
  }
}
