/** The two-phase write gate: a dry run issues a confirmation token, a live call consumes it. */
module WriteGate {
  import opened Wrappers
  import opened Canonical
  import opened TokenEnvelope

  const MAX_TOKEN_TTL_MS := 15 * 60 * 1000
  const DEFAULT_TOKEN_TTL_MS := 15 * 60 * 1000

  /** The digest of a JSON document and the keyed MAC of a message, both as hexadecimal text. */
  datatype Crypto = Crypto(digest: Value -> string, mac: string -> string)

  /** Neither output holds a '|'. */
  ghost predicate PipeFree(c: Crypto) {
    && (forall v {:trigger c.digest(v)} :: NoPipe(c.digest(v)))
    && (forall m {:trigger c.mac(m)} :: NoPipe(c.mac(m)))
  }

  /** And the digest never collides. */
  ghost predicate Sound(c: Crypto) {
    Injective(c.digest) && PipeFree(c)
  }

  datatype Row = Row(tool: string, argsHash: string, actor: string, issuedAt: int, expiresAt: int, consumedAt: Option<int>)

  type Table = map<string, Row>

  datatype Rejection =
    | Malformed | WrongTool | WrongActor | Expired | BadSignature | ArgsChanged
    | NotFound | AlreadyUsed | ExpiredTtl

  function Min(x: int, y: int): int {
    if x < y then x else y
  }

  function TtlMs(ttl: Option<int>): int {
    Min(if ttl.Some? then ttl.value else DEFAULT_TOKEN_TTL_MS, MAX_TOKEN_TTL_MS)
  }

  function TokenKey(c: Crypto, token: string): string {
    HashArgs(c.digest, Obj([Field("token", Str(token))]))
  }

  function IssueToken(c: Crypto, tool: string, args: Value, actor: string, issuedAt: nat): string {
    var message := TokenMessage(tool, HashArgs(c.digest, args), actor, issuedAt);
    Envelope(message, c.mac(message))
  }

  function NewRow(c: Crypto, tool: string, args: Value, actor: string, ttl: Option<int>, now: nat): Row {
    Row(tool, HashArgs(c.digest, args), actor, now, now + TtlMs(ttl), None)
  }

  /** The row of a fresh token: its own tool and arguments, unused, and good for the time the tool asks for but
      never more than 15 minutes. */
  lemma NewRowExactly(c: Crypto, tool: string, args: Value, actor: string, ttl: Option<int>, now: nat)
    ensures var row := NewRow(c, tool, args, actor, ttl, now);
            && row.tool == tool && row.argsHash == HashArgs(c.digest, args) && row.actor == actor
            && row.issuedAt == now && row.consumedAt == None
            && row.expiresAt == now + match ttl case None => 900_000 case Some(ms) => if ms < 900_000 then ms else 900_000
  {
  }

  /** INSERT OR IGNORE. */
  function InsertRow(t: Table, key: string, row: Row): Table {
    if key in t then t else t[key := row]
  }

  /** UPDATE ... WHERE token_hash = key AND consumed_at IS NULL, and whether a row changed. */
  function Consume(t: Table, key: string, now: int): (Table, bool) {
    if key in t && t[key].consumedAt.None? then (t[key := t[key].(consumedAt := Some(now))], true) else (t, false)
  }

  /** Everything a live call checks before it looks at the table; None when all is well. */
  function PreCheck(c: Crypto, tool: string, args: Value, actor: string, token: string, early: int): Option<Rejection> {
    var parts := Split(token);
    if |parts| != 5 then Some(Malformed)
    else
      var issuedAt := ParseInt(parts[3]);
      if parts[0] != tool then Some(WrongTool)
      else if parts[2] != EscapeActor(actor) then Some(WrongActor)
      else if issuedAt.Some? && early - issuedAt.value > MAX_TOKEN_TTL_MS then Some(Expired)
      else if c.mac(JoinParts(parts[0], parts[1], parts[2], parts[3])) != parts[4] then Some(BadSignature)
      else if HashArgs(c.digest, args) != parts[1] then Some(ArgsChanged)
      else None
  }

  /** The checks on the row a SELECT returned.  A consumption time of zero reads as not consumed. */
  function RowCheck(t: Table, key: string, tool: string, now: int): Option<Rejection> {
    if key !in t || t[key].tool != tool then Some(NotFound)
    else if t[key].consumedAt.Some? && t[key].consumedAt.value != 0 then Some(AlreadyUsed)
    else if now > t[key].expiresAt then Some(ExpiredTtl)
    else None
  }

  // ---- the gate in code

  datatype DbAction = Insert(key: string, row: Row) | Use(key: string, now: int)

  function Act(t: Table, a: DbAction): Table {
    match a
    case Insert(key, row) => InsertRow(t, key, row)
    case Use(key, now) => Consume(t, key, now).0
  }

  function ActAll(t: Table, actions: seq<DbAction>): Table {
    if actions == [] then t else Act(ActAll(t, actions[..|actions| - 1]), actions[|actions| - 1])
  }

  class TokenTable {
    var rows: Table

    constructor ()
      ensures rows == map[]
    {
      rows := map[];
    }

    method InsertOrIgnore(key: string, row: Row)
      modifies this
      ensures rows == InsertRow(old(rows), key, row)
    {
      if key !in rows {
        rows := rows[key := row];
      }
    }

    method ConsumeUnused(key: string, now: int) returns (changes: nat)
      modifies this
      ensures (rows, changes == 1) == Consume(old(rows), key, now)
    {
      changes := 0;
      if key in rows && rows[key].consumedAt.None? {
        rows := rows[key := rows[key].(consumedAt := Some(now))];
        changes := 1;
      }
    }

    /** Statements of other callers. */
    method Interleave(others: seq<DbAction>)
      modifies this
      ensures rows == ActAll(old(rows), others)
    {
      var k := 0;
      while k < |others|
        invariant k <= |others|
        invariant rows == ActAll(old(rows), others[..k])
      {
        match others[k] {
          case Insert(key, row) => InsertOrIgnore(key, row);
          case Use(key, now) => var _ := ConsumeUnused(key, now);
        }
        k := k + 1;
        assert others[..k][..k - 1] == others[..k - 1];
      }
      assert others[..k] == others;
    }
  }

  class WriteGate {
    const c: Crypto
    const db: TokenTable

    constructor (c: Crypto, db: TokenTable)
      ensures this.c == c && this.db == db
    {
      this.c, this.db := c, db;
    }

    method DryRun(tool: string, args: Value, actor: string, ttl: Option<int>, now: nat) returns (token: string)
      modifies db
      ensures token == IssueToken(c, tool, args, actor, now)
      ensures db.rows == InsertRow(old(db.rows), TokenKey(c, token), NewRow(c, tool, args, actor, ttl, now))
    {
      var ttlMs := Min(if ttl.Some? then ttl.value else DEFAULT_TOKEN_TTL_MS, MAX_TOKEN_TTL_MS);
      var argsHash := HashArgs(c.digest, args);
      var message := TokenMessage(tool, argsHash, actor, now);
      token := Envelope(message, c.mac(message));
      db.InsertOrIgnore(TokenKey(c, token), Row(tool, argsHash, actor, now, now + ttlMs, None));
    }

    /** `others` are the statements of other callers between this call's SELECT and its UPDATE. */
    method VerifyToken(tool: string, args: Value, actor: string, token: string,
                       early: int, now: int, at: int, others: seq<DbAction>) returns (r: Option<Rejection>)
      modifies db
      ensures var seen := PreCheck(c, tool, args, actor, token, early);
              var key := TokenKey(c, token);
              if seen.Some? then r == seen && db.rows == old(db.rows)
              else if RowCheck(old(db.rows), key, tool, now).Some? then
                r == RowCheck(old(db.rows), key, tool, now) && db.rows == old(db.rows)
              else
                var (rows, won) := Consume(ActAll(old(db.rows), others), key, at);
                db.rows == rows && r == if won then None else Some(AlreadyUsed)
    {
      var parts := Split(token);
      if |parts| != 5 { return Some(Malformed); }
      var issuedAt := ParseInt(parts[3]);
      if parts[0] != tool { return Some(WrongTool); }
      if parts[2] != EscapeActor(actor) { return Some(WrongActor); }
      if issuedAt.Some? && early - issuedAt.value > MAX_TOKEN_TTL_MS { return Some(Expired); }
      if c.mac(JoinParts(parts[0], parts[1], parts[2], parts[3])) != parts[4] { return Some(BadSignature); }
      if HashArgs(c.digest, args) != parts[1] { return Some(ArgsChanged); }
      var key := TokenKey(c, token);
      if key !in db.rows || db.rows[key].tool != tool { return Some(NotFound); }
      var row := db.rows[key];
      if row.consumedAt.Some? && row.consumedAt.value != 0 { return Some(AlreadyUsed); }
      if now > row.expiresAt { return Some(ExpiredTtl); }
      db.Interleave(others);
      var changes := db.ConsumeUnused(key, at);
      return if changes != 1 then Some(AlreadyUsed) else None;
    }
  }

  datatype Reply =
    | Invalid | TokenRequired | Preview(token: string) | Rejected(why: Rejection) | UpstreamError | Written

  /** The handler of a write tool; `writes` counts the requests it sends upstream. */
  method HandleWrite(gate: WriteGate, valid: bool, tool: string, args: Value, actor: string, ttl: Option<int>,
                     dryRun: Option<bool>, token: Option<string>, upstreamOk: bool,
                     early: nat, now: int, at: int, others: seq<DbAction>) returns (reply: Reply, writes: nat)
    modifies gate.db
    ensures !valid ==> reply == Invalid && gate.db.rows == old(gate.db.rows)
    ensures valid && (dryRun.None? || dryRun.value) ==>
              && reply == Preview(IssueToken(gate.c, tool, args, actor, early))
              && gate.db.rows == InsertRow(old(gate.db.rows), TokenKey(gate.c, reply.token),
                                           NewRow(gate.c, tool, args, actor, ttl, early))
    ensures valid && dryRun == Some(false) && (token.None? || token.value == "") ==>
              reply == TokenRequired && gate.db.rows == old(gate.db.rows)
    ensures writes == 1 <==>
              && valid && dryRun == Some(false) && token.Some? && token.value != ""
              && PreCheck(gate.c, tool, args, actor, token.value, early) == None
              && RowCheck(old(gate.db.rows), TokenKey(gate.c, token.value), tool, now) == None
              && Consume(ActAll(old(gate.db.rows), others), TokenKey(gate.c, token.value), at).1
    ensures writes == 1 ==>
              && reply == (if upstreamOk then Written else UpstreamError)
              && gate.db.rows == Consume(ActAll(old(gate.db.rows), others), TokenKey(gate.c, token.value), at).0
    ensures writes <= 1 && (writes == 1 <==> reply == Written || reply == UpstreamError)
  {
    writes := 0;
    if !valid { return Invalid, 0; }
    if dryRun.None? || dryRun.value {
      var issued := gate.DryRun(tool, args, actor, ttl, early);
      return Preview(issued), 0;
    }
    if token.None? || token.value == "" { return TokenRequired, 0; }
    var refusal := gate.VerifyToken(tool, args, actor, token.value, early, now, at, others);
    if refusal.Some? { return Rejected(refusal.value), 0; }
    return if upstreamOk then Written else UpstreamError, 1;
  }
}
