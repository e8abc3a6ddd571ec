/** Every interleaving of any number of callers at the database steps of the gate. */
module GateProtocol {
  import opened Wrappers
  import opened Sets
  import opened Canonical
  import opened TokenEnvelope
  import opened WriteGate

  datatype Issued = Issued(tool: string, args: Value, actor: string, issuedAt: nat, expiresAt: int, token: string)

  /** A live call that has passed its checks: when, and how many tokens had been issued by then. */
  datatype Claim = Claim(call: nat, tool: string, args: Value, actor: string, token: string, checkedAt: int, issuedBefore: nat)

  /** One atomic step of some caller. */
  datatype Step =
    | Issue(tool: string, args: Value, actor: string, ttl: Option<int>, issuedAt: nat)
    | Select(call: nat, tool: string, args: Value, actor: string, token: string, early: int, now: int)
    | Update(call: nat, now: int)
    | Post(call: nat)

  datatype Gate = Gate(
    table: Table,
    calls: set<nat>,          // live calls begun
    pending: map<nat, Claim>, // past their SELECT, not yet at their UPDATE
    issues: seq<Issued>,
    accepted: seq<Claim>,     // calls that consumed their token
    posted: seq<nat>)         // calls that wrote upstream

  function Start(): Gate {
    Gate(map[], {}, map[], [], [], [])
  }

  predicate HasCall(claims: seq<Claim>, call: nat) {
    exists k :: 0 <= k < |claims| && claims[k].call == call
  }

  function DoIssue(c: Crypto, g: Gate, tool: string, args: Value, actor: string, ttl: Option<int>, issuedAt: nat): Gate {
    var token := IssueToken(c, tool, args, actor, issuedAt);
    g.(table := InsertRow(g.table, TokenKey(c, token), NewRow(c, tool, args, actor, ttl, issuedAt)),
       issues := g.issues + [Issued(tool, args, actor, issuedAt, issuedAt + TtlMs(ttl), token)])
  }

  predicate PassesChecks(c: Crypto, t: Table, tool: string, args: Value, actor: string, token: string, early: int, now: int) {
    PreCheck(c, tool, args, actor, token, early) == None && RowCheck(t, TokenKey(c, token), tool, now) == None
  }

  function DoSelect(g: Gate, cl: Claim, passes: bool): Gate {
    if cl.call in g.calls then g
    else g.(calls := g.calls + {cl.call}, pending := if passes then g.pending[cl.call := cl] else g.pending)
  }

  function DoUpdate(c: Crypto, g: Gate, call: nat, now: int): Gate {
    if call !in g.pending then g
    else
      var claim := g.pending[call];
      var (table, won) := Consume(g.table, TokenKey(c, claim.token), now);
      g.(table := table, pending := g.pending - {call}, accepted := g.accepted + if won then [claim] else [])
  }

  function DoPost(g: Gate, call: nat): Gate {
    if HasCall(g.accepted, call) && call !in g.posted then g.(posted := g.posted + [call]) else g
  }

  function Next(c: Crypto, g: Gate, s: Step): Gate {
    match s
    case Issue(tool, args, actor, ttl, issuedAt) => DoIssue(c, g, tool, args, actor, ttl, issuedAt)
    case Select(call, tool, args, actor, token, early, now) =>
      DoSelect(g, Claim(call, tool, args, actor, token, now, |g.issues|),
               PassesChecks(c, g.table, tool, args, actor, token, early, now))
    case Update(call, now) => DoUpdate(c, g, call, now)
    case Post(call) => DoPost(g, call)
  }

  function Run(c: Crypto, steps: seq<Step>): Gate {
    if steps == [] then Start() else Next(c, Run(c, steps[..|steps| - 1]), steps[|steps| - 1])
  }

  /** Steps are taken one after another. */
  lemma RunMore(c: Crypto, steps: seq<Step>, s: Step)
    ensures Run(c, []) == Start() && Run(c, steps + [s]) == Next(c, Run(c, steps), s)
  {
    assert (steps + [s])[..|steps|] == steps;
  }

  /** Tool names hold no '|'; argument values are well formed. */
  ghost predicate StepOk(s: Step) {
    match s
    case Issue(tool, args, _, _, _) => NoPipe(tool) && WellFormed(args)
    case Select(_, _, args, _, _, _, _) => WellFormed(args)
    case _ => true
  }

  ghost predicate StepsOk(steps: seq<Step>) {
    forall k :: 0 <= k < |steps| ==> StepOk(steps[k])
  }

  // ---- tokens are their issues

  lemma TokenKeyInjective(c: Crypto, a: string, b: string)
    requires Sound(c) && TokenKey(c, a) == TokenKey(c, b)
    ensures a == b
  {
    var x, y := Obj([Field("token", Str(a))]), Obj([Field("token", Str(b))]);
    HashExactly(c.digest, x, y);
    assert FillHoles(x) == x && FillHoles(y) == y;
    EntryAt(x.fields, 0);
    EntryAt(y.fields, 0);
    assert Entries(x.fields)["token"] == TStr(a) && Entries(y.fields)["token"] == TStr(b);
  }

  /** What a passed pre-check says about a token that was issued. */
  lemma PassedTokenMatches(c: Crypto, it: Issued, tool: string, args: Value, actor: string, early: int)
    requires Sound(c) && IssueOk(c, it)
    requires PreCheck(c, tool, args, actor, it.token, early) == None
    ensures it.tool == tool && HashArgs(c.digest, it.args) == HashArgs(c.digest, args)
    ensures EscapeActor(it.actor) == EscapeActor(actor)
  {
    var hash := HashArgs(c.digest, it.args);
    var message := TokenMessage(it.tool, hash, it.actor, it.issuedAt);
    SplitIssued(it.tool, hash, it.actor, it.issuedAt, c.mac(message));
  }

  // ---- the invariant

  ghost predicate IssueOk(c: Crypto, it: Issued) {
    && NoPipe(it.tool) && WellFormed(it.args)
    && it.token == IssueToken(c, it.tool, it.args, it.actor, it.issuedAt)
    && it.expiresAt <= it.issuedAt + MAX_TOKEN_TTL_MS
  }

  /** The i-th token issued is the one this row was inserted for. */
  ghost predicate RowOf(c: Crypto, t: Table, issues: seq<Issued>, key: string, i: nat) {
    && i < |issues| && key in t
    && key == TokenKey(c, issues[i].token) && t[key].expiresAt == issues[i].expiresAt
  }

  /** The claim answers the i-th token issued, and was checked in time. */
  ghost predicate Answers(c: Crypto, issues: seq<Issued>, cl: Claim, i: nat) {
    && i < cl.issuedBefore <= |issues|
    && cl.token == issues[i].token && cl.tool == issues[i].tool
    && HashArgs(c.digest, cl.args) == HashArgs(c.digest, issues[i].args)
    && EscapeActor(cl.actor) == EscapeActor(issues[i].actor)
    && cl.checkedAt <= issues[i].expiresAt
  }

  ghost predicate ClaimOk(c: Crypto, issues: seq<Issued>, cl: Claim) {
    WellFormed(cl.args) && exists i :: Answers(c, issues, cl, i)
  }

  ghost predicate HasIssue(c: Crypto, t: Table, issues: seq<Issued>, key: string) {
    exists i :: RowOf(c, t, issues, key, i)
  }

  ghost predicate IssuesOk(c: Crypto, t: Table, issues: seq<Issued>) {
    && (forall i :: 0 <= i < |issues| ==> IssueOk(c, issues[i]))
    && (forall key {:trigger HasIssue(c, t, issues, key)} :: key in t ==> HasIssue(c, t, issues, key))
  }

  ghost predicate PendingOk(c: Crypto, issues: seq<Issued>, calls: set<nat>, pending: map<nat, Claim>) {
    forall call :: call in pending ==>
      pending[call].call == call && call in calls && ClaimOk(c, issues, pending[call])
  }

  ghost predicate ClaimsOk(c: Crypto, issues: seq<Issued>, claims: seq<Claim>) {
    forall k :: 0 <= k < |claims| ==> ClaimOk(c, issues, claims[k])
  }

  /** What rests on the tokens themselves. */
  ghost predicate Inv(c: Crypto, g: Gate) {
    && IssuesOk(c, g.table, g.issues)
    && PendingOk(c, g.issues, g.calls, g.pending)
    && ClaimsOk(c, g.issues, g.accepted)
  }

  lemma MoreIssues(c: Crypto, issues: seq<Issued>, more: seq<Issued>, cl: Claim)
    requires ClaimOk(c, issues, cl)
    ensures ClaimOk(c, issues + more, cl)
  {
    var i: nat :| Answers(c, issues, cl, i);
    assert Answers(c, issues + more, cl, i);
  }

  lemma IssueKeepsIssues(c: Crypto, t: Table, issues: seq<Issued>, it: Issued, row: Row)
    requires IssuesOk(c, t, issues) && IssueOk(c, it) && row.expiresAt == it.expiresAt
    ensures IssuesOk(c, InsertRow(t, TokenKey(c, it.token), row), issues + [it])
  {
    var t', issues' := InsertRow(t, TokenKey(c, it.token), row), issues + [it];
    forall key | key in t' ensures HasIssue(c, t', issues', key) {
      if key in t {
        assert HasIssue(c, t, issues, key);
        var i: nat :| RowOf(c, t, issues, key, i);
        assert RowOf(c, t', issues', key, i);
      } else {
        assert RowOf(c, t', issues', key, |issues|);
      }
    }
  }

  lemma MoreIssuesKeepClaims(c: Crypto, issues: seq<Issued>, it: Issued, claims: seq<Claim>, calls: set<nat>, pending: map<nat, Claim>)
    requires ClaimsOk(c, issues, claims) && PendingOk(c, issues, calls, pending)
    ensures ClaimsOk(c, issues + [it], claims) && PendingOk(c, issues + [it], calls, pending)
  {
    forall call | call in pending ensures ClaimOk(c, issues + [it], pending[call]) {
      MoreIssues(c, issues, [it], pending[call]);
    }
    forall k | 0 <= k < |claims| ensures ClaimOk(c, issues + [it], claims[k]) {
      MoreIssues(c, issues, [it], claims[k]);
    }
  }

  lemma IssueKeepsInv(c: Crypto, g: Gate, tool: string, args: Value, actor: string, ttl: Option<int>, issuedAt: nat)
    requires Inv(c, g) && NoPipe(tool) && WellFormed(args)
    ensures Inv(c, DoIssue(c, g, tool, args, actor, ttl, issuedAt))
  {
    var token := IssueToken(c, tool, args, actor, issuedAt);
    var it := Issued(tool, args, actor, issuedAt, issuedAt + TtlMs(ttl), token);
    var row := NewRow(c, tool, args, actor, ttl, issuedAt);
    IssueKeepsIssues(c, g.table, g.issues, it, row);
    MoreIssuesKeepClaims(c, g.issues, it, g.accepted, g.calls, g.pending);
  }

  /** The row a SELECT found belongs to an issue of the very same token. */
  lemma RowIssue(c: Crypto, t: Table, issues: seq<Issued>, token: string, tool: string, now: int) returns (i: nat)
    requires Sound(c) && IssuesOk(c, t, issues) && RowCheck(t, TokenKey(c, token), tool, now) == None
    ensures i < |issues| && issues[i].token == token && now <= issues[i].expiresAt && IssueOk(c, issues[i])
  {
    var key := TokenKey(c, token);
    assert HasIssue(c, t, issues, key);
    i :| RowOf(c, t, issues, key, i);
    TokenKeyInjective(c, token, issues[i].token);
  }

  lemma PassedClaimIsOk(c: Crypto, t: Table, issues: seq<Issued>, cl: Claim, early: int)
    requires Sound(c) && IssuesOk(c, t, issues) && WellFormed(cl.args) && cl.issuedBefore == |issues|
    requires PassesChecks(c, t, cl.tool, cl.args, cl.actor, cl.token, early, cl.checkedAt)
    ensures ClaimOk(c, issues, cl)
  {
    var i := RowIssue(c, t, issues, cl.token, cl.tool, cl.checkedAt);
    PassedTokenMatches(c, issues[i], cl.tool, cl.args, cl.actor, early);
    assert Answers(c, issues, cl, i);
  }

  lemma SelectKeepsInv(c: Crypto, g: Gate, cl: Claim, passes: bool)
    requires Inv(c, g) && (passes ==> ClaimOk(c, g.issues, cl))
    ensures Inv(c, DoSelect(g, cl, passes))
  {
    var g' := DoSelect(g, cl, passes);
    assert PendingOk(c, g'.issues, g'.calls, g'.pending);
  }

  lemma ConsumeKeepsIssues(c: Crypto, t: Table, issues: seq<Issued>, key: string, now: int)
    requires IssuesOk(c, t, issues)
    ensures IssuesOk(c, Consume(t, key, now).0, issues)
  {
    var t' := Consume(t, key, now).0;
    forall k | k in t' ensures HasIssue(c, t', issues, k) {
      assert HasIssue(c, t, issues, k);
      var i: nat :| RowOf(c, t, issues, k, i);
      assert RowOf(c, t', issues, k, i);
    }
  }

  lemma UpdateKeepsInv(c: Crypto, g: Gate, call: nat, now: int)
    requires Inv(c, g)
    ensures Inv(c, DoUpdate(c, g, call, now))
  {
    if call in g.pending {
      var cl := g.pending[call];
      var (t', won) := Consume(g.table, TokenKey(c, cl.token), now);
      var more := if won then [cl] else [];
      ConsumeKeepsIssues(c, g.table, g.issues, TokenKey(c, cl.token), now);
      assert ClaimsOk(c, g.issues, g.accepted + more);
      assert PendingOk(c, g.issues, g.calls, g.pending - {call});
    }
  }

  lemma StepKeepsInv(c: Crypto, g: Gate, s: Step)
    requires Sound(c) && Inv(c, g) && StepOk(s)
    ensures Inv(c, Next(c, g, s))
  {
    match s
    case Issue(tool, args, actor, ttl, issuedAt) => IssueKeepsInv(c, g, tool, args, actor, ttl, issuedAt);
    case Select(call, tool, args, actor, token, early, now) =>
      var cl := Claim(call, tool, args, actor, token, now, |g.issues|);
      var passes := PassesChecks(c, g.table, tool, args, actor, token, early, now);
      if passes {
        PassedClaimIsOk(c, g.table, g.issues, cl, early);
      }
      SelectKeepsInv(c, g, cl, passes);
    case Update(call, now) => UpdateKeepsInv(c, g, call, now);
    case Post(_) =>
  }

  lemma {:induction false} RunKeepsInv(c: Crypto, steps: seq<Step>)
    requires Sound(c) && StepsOk(steps)
    ensures Inv(c, Run(c, steps))
  {
    if steps != [] {
      RunKeepsInv(c, steps[..|steps| - 1]);
      StepKeepsInv(c, Run(c, steps[..|steps| - 1]), steps[|steps| - 1]);
    }
  }

  // ---- one row, one use

  /** These rows are used, each by one. */
  ghost predicate UsedUp(t: Table, keys: seq<string>) {
    && (forall k :: 0 <= k < |keys| ==> keys[k] in t && t[keys[k]].consumedAt.Some?)
    && (forall j, k :: 0 <= j < k < |keys| ==> keys[j] != keys[k])
  }

  ghost function KeysUsed(c: Crypto, claims: seq<Claim>): (keys: seq<string>)
    ensures |keys| == |claims|
  {
    seq(|claims|, k requires 0 <= k < |claims| => TokenKey(c, claims[k].token))
  }

  ghost function Calls(claims: seq<Claim>): seq<nat> {
    seq(|claims|, k requires 0 <= k < |claims| => claims[k].call)
  }

  ghost function TokensIssued(issues: seq<Issued>): set<string> {
    set i | 0 <= i < |issues| :: issues[i].token
  }

  ghost function KeysIssued(c: Crypto, tokens: set<string>): set<string> {
    set token | token in tokens :: TokenKey(c, token)
  }

  ghost predicate PostedOk(calls: seq<nat>, posted: seq<nat>) {
    && (forall j, k :: 0 <= j < k < |posted| ==> posted[j] != posted[k])
    && (forall call :: call in posted ==> call in calls)
  }

  /** What holds whatever the digest and the MAC, and whatever the steps: each accepted call used up a row
      of its own, the rows are those of issued tokens, and writes are those of accepted calls. */
  ghost predicate UseInv(c: Crypto, g: Gate) {
    && g.table.Keys <= KeysIssued(c, TokensIssued(g.issues))
    && UsedUp(g.table, KeysUsed(c, g.accepted))
    && PostedOk(Calls(g.accepted), g.posted)
  }

  lemma ConsumeKeepsUsed(t: Table, key: string, now: int, keys: seq<string>)
    requires UsedUp(t, keys)
    ensures var (t', won) := Consume(t, key, now);
            t'.Keys == t.Keys && UsedUp(t', keys + if won then [key] else [])
  {
  }

  lemma KeysIssuedMore(c: Crypto, issues: seq<Issued>, it: Issued, keys: set<string>)
    requires keys <= KeysIssued(c, TokensIssued(issues))
    ensures keys + {TokenKey(c, it.token)} <= KeysIssued(c, TokensIssued(issues + [it]))
  {
    var issues' := issues + [it];
    assert issues'[|issues|] == it;
    assert forall i :: 0 <= i < |issues| ==> issues'[i] == issues[i];
    assert it.token in TokensIssued(issues') && TokensIssued(issues) <= TokensIssued(issues');
  }

  lemma IssueKeepsUse(c: Crypto, g: Gate, tool: string, args: Value, actor: string, ttl: Option<int>, issuedAt: nat)
    requires UseInv(c, g)
    ensures UseInv(c, DoIssue(c, g, tool, args, actor, ttl, issuedAt))
  {
    var token := IssueToken(c, tool, args, actor, issuedAt);
    var it := Issued(tool, args, actor, issuedAt, issuedAt + TtlMs(ttl), token);
    KeysIssuedMore(c, g.issues, it, g.table.Keys);
  }

  lemma UpdateKeepsUse(c: Crypto, g: Gate, call: nat, now: int)
    requires UseInv(c, g)
    ensures UseInv(c, DoUpdate(c, g, call, now))
  {
    if call in g.pending {
      var cl := g.pending[call];
      var won := Consume(g.table, TokenKey(c, cl.token), now).1;
      ConsumeKeepsUsed(g.table, TokenKey(c, cl.token), now, KeysUsed(c, g.accepted));
      if won {
        assert KeysUsed(c, g.accepted + [cl]) == KeysUsed(c, g.accepted) + [TokenKey(c, cl.token)];
        assert Calls(g.accepted + [cl]) == Calls(g.accepted) + [cl.call];
      } else {
        assert g.accepted + [] == g.accepted;
        assert KeysUsed(c, g.accepted) + [] == KeysUsed(c, g.accepted);
      }
    }
  }

  lemma PostKeepsUse(c: Crypto, g: Gate, call: nat)
    requires UseInv(c, g)
    ensures UseInv(c, DoPost(g, call))
  {
    if HasCall(g.accepted, call) {
      var k :| 0 <= k < |g.accepted| && g.accepted[k].call == call;
      assert Calls(g.accepted)[k] == call;
    }
  }

  lemma {:induction false} RunKeepsUse(c: Crypto, steps: seq<Step>)
    ensures UseInv(c, Run(c, steps))
  {
    if steps != [] {
      var g := Run(c, steps[..|steps| - 1]);
      RunKeepsUse(c, steps[..|steps| - 1]);
      match steps[|steps| - 1]
      case Issue(tool, args, actor, ttl, issuedAt) => IssueKeepsUse(c, g, tool, args, actor, ttl, issuedAt);
      case Select(_, _, _, _, _, _, _) =>
      case Update(call, now) => UpdateKeepsUse(c, g, call, now);
      case Post(call) => PostKeepsUse(c, g, call);
    }
  }

  // ---- what follows for every interleaving

  /** Each token is accepted at most once, whatever the digest. */
  lemma TokenAcceptedOnce(c: Crypto, steps: seq<Step>, j: nat, k: nat)
    requires j < |Run(c, steps).accepted| && k < |Run(c, steps).accepted|
    requires Run(c, steps).accepted[j].token == Run(c, steps).accepted[k].token
    ensures j == k
  {
    var claims := Run(c, steps).accepted;
    RunKeepsUse(c, steps);
    assert KeysUsed(c, claims)[j] == TokenKey(c, claims[j].token) && KeysUsed(c, claims)[k] == TokenKey(c, claims[k].token);
  }

  /** Every accepted call answers a token issued before it was checked: for the same tool, the same
      arguments as JSON, the same escaped actor, and not yet expired, which is at most 15 minutes after
      issue. */
  lemma AcceptedWasIssued(c: Crypto, steps: seq<Step>, k: nat) returns (i: nat)
    requires Sound(c) && StepsOk(steps) && k < |Run(c, steps).accepted|
    ensures var (issues, cl) := (Run(c, steps).issues, Run(c, steps).accepted[k]);
            && i < cl.issuedBefore <= |issues|
            && issues[i].token == cl.token && issues[i].tool == cl.tool
            && Meaning(FillHoles(issues[i].args)) == Meaning(FillHoles(cl.args))
            && EscapeActor(issues[i].actor) == EscapeActor(cl.actor)
            && (NoPipe(issues[i].actor) && NoPipe(cl.actor) ==> issues[i].actor == cl.actor)
            && cl.checkedAt <= issues[i].expiresAt <= issues[i].issuedAt + 15 * 60 * 1000
  {
    RunKeepsInv(c, steps);
    var g := Run(c, steps);
    var cl := g.accepted[k];
    assert ClaimOk(c, g.issues, cl);
    i :| Answers(c, g.issues, cl, i);
    assert IssueOk(c, g.issues[i]);
    HashExactly(c.digest, cl.args, g.issues[i].args);
    if NoPipe(g.issues[i].actor) && NoPipe(cl.actor) {
      EscapeKeepsPipeFree(g.issues[i].actor);
      EscapeKeepsPipeFree(cl.actor);
    }
  }

  lemma {:induction false} KeysIssuedSize(c: Crypto, tokens: set<string>)
    ensures |KeysIssued(c, tokens)| <= |tokens|
    decreases |tokens|
  {
    if tokens == {} {
      assert KeysIssued(c, tokens) == {};
    } else {
      var token :| token in tokens;
      KeysIssuedSize(c, tokens - {token});
      assert KeysIssued(c, tokens) == KeysIssued(c, tokens - {token}) + {TokenKey(c, token)};
    }
  }

  lemma UseBoundsPosts(c: Crypto, g: Gate)
    requires UseInv(c, g)
    ensures |g.posted| <= |TokensIssued(g.issues)|
  {
    var tokens, keys := TokensIssued(g.issues), KeysUsed(c, g.accepted);
    ElementsSize(g.posted);
    SubsetIsSmaller(Elements(g.posted), Elements(Calls(g.accepted)));
    ElementsSize(Calls(g.accepted));
    ElementsSize(keys);
    SubsetIsSmaller(Elements(keys), KeysIssued(c, tokens));
    KeysIssuedSize(c, tokens);
  }

  /** Upstream writes never outnumber the distinct tokens issued, whatever the digest. */
  lemma WritesNeedTokens(c: Crypto, steps: seq<Step>)
    ensures |Run(c, steps).posted| <= |TokensIssued(Run(c, steps).issues)|
  {
    RunKeepsUse(c, steps);
    UseBoundsPosts(c, Run(c, steps));
  }

  lemma FreshTokenPasses(c: Crypto, tool: string, args: Value, actor: string, issuedAt: nat, early: int)
    requires PipeFree(c) && NoPipe(tool) && early - issuedAt <= MAX_TOKEN_TTL_MS
    ensures PreCheck(c, tool, args, actor, IssueToken(c, tool, args, actor, issuedAt), early) == None
  {
    var hash := HashArgs(c.digest, args);
    SplitIssued(tool, hash, actor, issuedAt, c.mac(TokenMessage(tool, hash, actor, issuedAt)));
    MessageIsJoin(tool, hash, actor, issuedAt);
    DecimalRoundTrip(issuedAt);
  }

  /** What the checks before the table say of an issued token, whoever presents it with whatever: the first
      thing that differs from its issue. */
  lemma IssuedTokenVerdict(c: Crypto, it: Issued, tool: string, args: Value, actor: string, early: int)
    requires Sound(c) && IssueOk(c, it) && WellFormed(args)
    ensures PreCheck(c, tool, args, actor, it.token, early) ==
              if tool != it.tool then Some(WrongTool)
              else if EscapeActor(actor) != EscapeActor(it.actor) then Some(WrongActor)
              else if early - it.issuedAt > 900_000 then Some(Expired)
              else if Meaning(FillHoles(args)) != Meaning(FillHoles(it.args)) then Some(ArgsChanged)
              else None
    ensures NoPipe(actor) && NoPipe(it.actor) ==> (EscapeActor(actor) == EscapeActor(it.actor) <==> actor == it.actor)
  {
    var hash := HashArgs(c.digest, it.args);
    SplitIssued(it.tool, hash, it.actor, it.issuedAt, c.mac(TokenMessage(it.tool, hash, it.actor, it.issuedAt)));
    MessageIsJoin(it.tool, hash, it.actor, it.issuedAt);
    DecimalRoundTrip(it.issuedAt);
    HashExactly(c.digest, args, it.args);
    if NoPipe(actor) && NoPipe(it.actor) {
      EscapeKeepsPipeFree(actor);
      EscapeKeepsPipeFree(it.actor);
    }
  }

  /** A token whose last part is not the MAC of the rest is refused for its signature. */
  lemma WrongTagIsRefused(c: Crypto, tool: string, args: Value, actor: string, issuedAt: nat, tag: string, early: int)
    requires PipeFree(c) && NoPipe(tool) && NoPipe(tag) && early - issuedAt <= 900_000
    requires tag != c.mac(TokenMessage(tool, HashArgs(c.digest, args), actor, issuedAt))
    ensures PreCheck(c, tool, args, actor, Envelope(TokenMessage(tool, HashArgs(c.digest, args), actor, issuedAt), tag), early)
            == Some(BadSignature)
  {
    var hash := HashArgs(c.digest, args);
    SplitIssued(tool, hash, actor, issuedAt, tag);
    MessageIsJoin(tool, hash, actor, issuedAt);
    DecimalRoundTrip(issuedAt);
  }

  // ---- the row of every issued token

  ghost predicate KeyUsed(c: Crypto, claims: seq<Claim>, key: string) {
    exists k :: 0 <= k < |claims| && TokenKey(c, claims[k].token) == key
  }

  ghost predicate FirstOfKey(c: Crypto, issues: seq<Issued>, i: nat) {
    i < |issues| && forall j :: 0 <= j < i ==> TokenKey(c, issues[j].token) != TokenKey(c, issues[i].token)
  }

  /** The row under this key is used exactly when a call was accepted with it. */
  ghost predicate UsedAsAccepted(c: Crypto, t: Table, claims: seq<Claim>, key: string) {
    key in t && t[key].consumedAt != Some(0) && (t[key].consumedAt.Some? <==> KeyUsed(c, claims, key))
  }

  /** The i-th token issued has a row, and the first of a key made it. */
  ghost predicate Rowed(c: Crypto, t: Table, issues: seq<Issued>, i: nat) {
    && i < |issues|
    && var key := TokenKey(c, issues[i].token);
       && key in t
       && (FirstOfKey(c, issues, i) ==> t[key].tool == issues[i].tool && t[key].expiresAt == issues[i].expiresAt)
  }

  ghost predicate RowsInv(c: Crypto, g: Gate) {
    && UseInv(c, g)
    && (forall key {:trigger UsedAsAccepted(c, g.table, g.accepted, key)} :: key in g.table ==> UsedAsAccepted(c, g.table, g.accepted, key))
    && (forall i: nat {:trigger Rowed(c, g.table, g.issues, i)} :: i < |g.issues| ==> Rowed(c, g.table, g.issues, i))
  }

  lemma KeyIssued(c: Crypto, issues: seq<Issued>, key: string)
    requires key in KeysIssued(c, TokensIssued(issues))
    ensures exists j :: 0 <= j < |issues| && TokenKey(c, issues[j].token) == key
  {
    var token :| token in TokensIssued(issues) && TokenKey(c, token) == key;
    var j :| 0 <= j < |issues| && issues[j].token == token;
  }

  lemma UsedKeyHasRow(c: Crypto, t: Table, claims: seq<Claim>, key: string)
    requires UsedUp(t, KeysUsed(c, claims)) && KeyUsed(c, claims, key)
    ensures key in t
  {
    var k :| 0 <= k < |claims| && TokenKey(c, claims[k].token) == key;
    assert KeysUsed(c, claims)[k] == key;
  }

  lemma InsertKeepsAccepted(c: Crypto, t: Table, claims: seq<Claim>, key: string, row: Row, k: string)
    requires UsedUp(t, KeysUsed(c, claims)) && row.consumedAt.None?
    requires if k in t then UsedAsAccepted(c, t, claims, k) else k == key
    ensures UsedAsAccepted(c, InsertRow(t, key, row), claims, k)
  {
    if k !in t && KeyUsed(c, claims, k) { UsedKeyHasRow(c, t, claims, k); }
  }

  /** A later issue of the same key is not the first, and leaves the row of the first. */
  lemma IssueKeepsRowed(c: Crypto, t: Table, issues: seq<Issued>, it: Issued, row: Row, i: nat)
    requires t.Keys <= KeysIssued(c, TokensIssued(issues)) && (i < |issues| ==> Rowed(c, t, issues, i)) && i <= |issues|
    requires row.tool == it.tool && row.expiresAt == it.expiresAt
    ensures Rowed(c, InsertRow(t, TokenKey(c, it.token), row), issues + [it], i)
  {
    var issues' := issues + [it];
    if i < |issues| {
      assert FirstOfKey(c, issues', i) ==> FirstOfKey(c, issues, i) by {
        assert forall j :: 0 <= j <= i ==> issues'[j] == issues[j];
      }
    } else if TokenKey(c, it.token) in t {
      KeyIssued(c, issues, TokenKey(c, it.token));
      var j :| 0 <= j < |issues| && TokenKey(c, issues[j].token) == TokenKey(c, it.token);
      assert issues'[j] == issues[j];
    }
  }

  lemma IssueKeepsRows(c: Crypto, g: Gate, tool: string, args: Value, actor: string, ttl: Option<int>, issuedAt: nat)
    requires RowsInv(c, g)
    ensures RowsInv(c, DoIssue(c, g, tool, args, actor, ttl, issuedAt))
  {
    IssueKeepsUse(c, g, tool, args, actor, ttl, issuedAt);
    var token, row := IssueToken(c, tool, args, actor, issuedAt), NewRow(c, tool, args, actor, ttl, issuedAt);
    var it := Issued(tool, args, actor, issuedAt, issuedAt + TtlMs(ttl), token);
    var key, g' := TokenKey(c, token), DoIssue(c, g, tool, args, actor, ttl, issuedAt);
    forall k | k in g'.table ensures UsedAsAccepted(c, g'.table, g'.accepted, k) {
      assert k in g.table ==> UsedAsAccepted(c, g.table, g.accepted, k);
      InsertKeepsAccepted(c, g.table, g.accepted, key, row, k);
    }
    forall i: nat | i < |g'.issues| ensures Rowed(c, g'.table, g'.issues, i) {
      IssueKeepsRowed(c, g.table, g.issues, it, row, i);
    }
  }

  lemma KeyUsedMore(c: Crypto, claims: seq<Claim>, cl: Claim, key: string)
    ensures KeyUsed(c, claims + [cl], key) <==> KeyUsed(c, claims, key) || TokenKey(c, cl.token) == key
  {
    var claims' := claims + [cl];
    if KeyUsed(c, claims, key) {
      var k :| 0 <= k < |claims| && TokenKey(c, claims[k].token) == key;
      assert claims'[k] == claims[k];
    }
    assert claims'[|claims|] == cl;
  }

  lemma ConsumeKeepsAccepted(c: Crypto, t: Table, claims: seq<Claim>, cl: Claim, now: int, key: string)
    requires UsedAsAccepted(c, t, claims, key) && now != 0
    ensures var (t', won) := Consume(t, TokenKey(c, cl.token), now);
            UsedAsAccepted(c, t', if won then claims + [cl] else claims, key)
  {
    KeyUsedMore(c, claims, cl, key);
  }

  lemma UpdateKeepsRows(c: Crypto, g: Gate, call: nat, now: int)
    requires RowsInv(c, g) && now != 0
    ensures RowsInv(c, DoUpdate(c, g, call, now))
  {
    UpdateKeepsUse(c, g, call, now);
    if call in g.pending {
      var cl, g' := g.pending[call], DoUpdate(c, g, call, now);
      var (t', won) := Consume(g.table, TokenKey(c, cl.token), now);
      assert g'.accepted == if won then g.accepted + [cl] else g.accepted;
      forall k | k in g'.table ensures UsedAsAccepted(c, g'.table, g'.accepted, k) {
        assert UsedAsAccepted(c, g.table, g.accepted, k);
        ConsumeKeepsAccepted(c, g.table, g.accepted, cl, now, k);
      }
      forall i: nat | i < |g'.issues| ensures Rowed(c, g'.table, g'.issues, i) {
        assert Rowed(c, g.table, g.issues, i);
      }
    }
  }

  /** No call consumes its token at time zero, which would read as unused. */
  ghost predicate UpdatesTimed(steps: seq<Step>) {
    forall k :: 0 <= k < |steps| && steps[k].Update? ==> steps[k].now != 0
  }

  lemma {:induction false} RunKeepsRows(c: Crypto, steps: seq<Step>)
    requires UpdatesTimed(steps)
    ensures RowsInv(c, Run(c, steps))
  {
    RunKeepsUse(c, steps);
    if steps != [] {
      var g := Run(c, steps[..|steps| - 1]);
      RunKeepsRows(c, steps[..|steps| - 1]);
      match steps[|steps| - 1]
      case Issue(tool, args, actor, ttl, issuedAt) => IssueKeepsRows(c, g, tool, args, actor, ttl, issuedAt);
      case Select(_, _, _, _, _, _, _) =>
      case Update(call, now) => UpdateKeepsRows(c, g, call, now);
      case Post(_) =>
    }
  }

  ghost predicate AcceptedWith(claims: seq<Claim>, token: string) {
    exists k :: 0 <= k < |claims| && claims[k].token == token
  }

  ghost predicate FirstIssue(issues: seq<Issued>, i: nat) {
    i < |issues| && forall j :: 0 <= j < i ==> issues[j].token != issues[i].token
  }

  lemma UsedByToken(c: Crypto, claims: seq<Claim>, token: string)
    requires Sound(c)
    ensures KeyUsed(c, claims, TokenKey(c, token)) <==> AcceptedWith(claims, token)
  {
    if KeyUsed(c, claims, TokenKey(c, token)) {
      var k :| 0 <= k < |claims| && TokenKey(c, claims[k].token) == TokenKey(c, token);
      TokenKeyInjective(c, claims[k].token, token);
    }
  }

  lemma FirstIssueIsFirstOfKey(c: Crypto, issues: seq<Issued>, i: nat)
    requires Sound(c) && FirstIssue(issues, i)
    ensures FirstOfKey(c, issues, i)
  {
    forall j | 0 <= j < i ensures TokenKey(c, issues[j].token) != TokenKey(c, issues[i].token) {
      if TokenKey(c, issues[j].token) == TokenKey(c, issues[i].token) {
        TokenKeyInjective(c, issues[j].token, issues[i].token);
      }
    }
  }

  /** What the row says of an issued token, over every interleaving: used exactly once a call has been accepted
      with it, expired exactly after the time its first issue was given, and never missing. */
  lemma RowVerdict(c: Crypto, steps: seq<Step>, i: nat, now: int)
    requires Sound(c) && UpdatesTimed(steps) && FirstIssue(Run(c, steps).issues, i)
    ensures var (g, it) := (Run(c, steps), Run(c, steps).issues[i]);
            RowCheck(g.table, TokenKey(c, it.token), it.tool, now) ==
              if AcceptedWith(g.accepted, it.token) then Some(AlreadyUsed)
              else if now > it.expiresAt then Some(ExpiredTtl)
              else None
  {
    var g, it := Run(c, steps), Run(c, steps).issues[i];
    RunKeepsRows(c, steps);
    FirstIssueIsFirstOfKey(c, g.issues, i);
    UsedByToken(c, g.accepted, it.token);
    assert Rowed(c, g.table, g.issues, i);
    assert UsedAsAccepted(c, g.table, g.accepted, TokenKey(c, it.token));
  }

  /** Over every interleaving, and whoever presents an issued token with whatever: the call passes its checks
      exactly when tool, actor and arguments are those of the issue, neither the 15 minutes nor the time the
      issue was given are over, and no call has been accepted with the token so far. */
  lemma PassesExactly(c: Crypto, steps: seq<Step>, i: nat, tool: string, args: Value, actor: string, early: int, now: int)
    requires Sound(c) && StepsOk(steps) && UpdatesTimed(steps) && WellFormed(args) && FirstIssue(Run(c, steps).issues, i)
    ensures var (g, it) := (Run(c, steps), Run(c, steps).issues[i]);
            PassesChecks(c, g.table, tool, args, actor, it.token, early, now) <==>
            && tool == it.tool && EscapeActor(actor) == EscapeActor(it.actor)
            && Meaning(FillHoles(args)) == Meaning(FillHoles(it.args))
            && early - it.issuedAt <= 900_000 && now <= it.expiresAt
            && !AcceptedWith(g.accepted, it.token)
  {
    RunKeepsInv(c, steps);
    IssuedTokenVerdict(c, Run(c, steps).issues[i], tool, args, actor, early);
    RowVerdict(c, steps, i, now);
  }

  /** And a token does its work: issued afresh and presented unchanged within its time, it is accepted, and
      its call writes. */
  lemma FreshTokenIsAccepted(c: Crypto, g: Gate, tool: string, args: Value, actor: string, ttl: Option<int>, issuedAt: nat,
                             call: nat, early: int, now: int, at: int)
    requires PipeFree(c) && NoPipe(tool) && call !in g.calls && call !in g.posted
    requires TokenKey(c, IssueToken(c, tool, args, actor, issuedAt)) !in g.table
    requires early - issuedAt <= 900_000
    requires now <= issuedAt + if ttl.Some? && ttl.value < 900_000 then ttl.value else 900_000
    ensures var token := IssueToken(c, tool, args, actor, issuedAt);
            var g1 := Next(c, g, Issue(tool, args, actor, ttl, issuedAt));
            var g3 := Next(c, Next(c, g1, Select(call, tool, args, actor, token, early, now)), Update(call, at));
            && g3.accepted == g.accepted + [Claim(call, tool, args, actor, token, now, |g.issues| + 1)]
            && Next(c, g3, Post(call)).posted == g.posted + [call]
  {
    FreshTokenPasses(c, tool, args, actor, issuedAt, early);
    var token := IssueToken(c, tool, args, actor, issuedAt);
    var g1 := DoIssue(c, g, tool, args, actor, ttl, issuedAt);
    assert PassesChecks(c, g1.table, tool, args, actor, token, early, now);
    var claim := Claim(call, tool, args, actor, token, now, |g1.issues|);
    var g3 := DoUpdate(c, DoSelect(g1, claim, true), call, at);
    assert DoSelect(g1, claim, true).pending[call] == claim;
    assert g3.accepted[|g.accepted|] == claim;
  }

  /** So every run can be continued by a dry run and a live call that writes. */
  lemma EveryRunCanWrite(c: Crypto, steps: seq<Step>, tool: string, args: Value, actor: string, issuedAt: nat, call: nat)
    requires PipeFree(c) && NoPipe(tool) && call !in Run(c, steps).calls && call !in Run(c, steps).posted
    requires TokenKey(c, IssueToken(c, tool, args, actor, issuedAt)) !in Run(c, steps).table
    ensures var token := IssueToken(c, tool, args, actor, issuedAt);
            var more := [Issue(tool, args, actor, None, issuedAt),
                         Select(call, tool, args, actor, token, issuedAt, issuedAt), Update(call, issuedAt), Post(call)];
            Run(c, steps + more).posted == Run(c, steps).posted + [call]
  {
    var token := IssueToken(c, tool, args, actor, issuedAt);
    var a, b := Issue(tool, args, actor, None, issuedAt), Select(call, tool, args, actor, token, issuedAt, issuedAt);
    var d, e := Update(call, issuedAt), Post(call);
    FreshTokenIsAccepted(c, Run(c, steps), tool, args, actor, None, issuedAt, call, issuedAt, issuedAt, issuedAt);
    RunMore(c, steps, a);
    RunMore(c, steps + [a], b);
    RunMore(c, steps + [a] + [b], d);
    RunMore(c, steps + [a] + [b] + [d], e);
    assert steps + [a, b, d, e] == steps + [a] + [b] + [d] + [e];
  }
}
