/** The confirmation token as text: five parts joined by '|'. */
module TokenEnvelope {
  import opened Wrappers
  import opened Chars

  predicate NoPipe(s: string) {
    '|' !in s
  }

  /** Every '|' of an actor is written %7C. */
  function EscapeActor(actor: string): (safe: string)
    ensures NoPipe(safe)
  {
    if actor == "" then ""
    else (if actor[0] == '|' then "%7C" else [actor[0]]) + EscapeActor(actor[1..])
  }

  lemma {:induction false} EscapeJoins(a: string, b: string)
    ensures EscapeActor(a + b) == EscapeActor(a) + EscapeActor(b)
  {
    if a == "" {
      assert a + b == b;
    } else {
      assert (a + b)[0] == a[0] && (a + b)[1..] == a[1..] + b;
      EscapeJoins(a[1..], b);
    }
  }

  /** An actor without a pipe is written as it is ... */
  lemma {:induction false} EscapeKeepsPipeFree(actor: string)
    requires NoPipe(actor)
    ensures EscapeActor(actor) == actor
  {
    if actor != "" {
      EscapeKeepsPipeFree(actor[1..]);
    }
  }

  lemma EscapeOfPipe()
    ensures EscapeActor("|") == "%7C" && EscapeActor("%7C") == "%7C"
  {
    EscapeKeepsPipeFree("%7C");
    assert "|"[1..] == "" && EscapeActor("") == "";
  }

  lemma EscapeAround(a: string, m: string, b: string)
    ensures EscapeActor(a + m + b) == EscapeActor(a) + EscapeActor(m) + EscapeActor(b)
  {
    EscapeJoins(a + m, b);
    EscapeJoins(a, m);
  }

  /** ... and each pipe as %7C, between what is written for the parts around it. */
  lemma EscapeReplacesPipe(a: string, b: string)
    ensures EscapeActor(a + "|" + b) == EscapeActor(a) + "%7C" + EscapeActor(b)
    ensures EscapeActor(a + "%7C" + b) == EscapeActor(a) + "%7C" + EscapeActor(b)
  {
    EscapeOfPipe();
    EscapeAround(a, "|", b);
    EscapeAround(a, "%7C", b);
  }

  /** The text holds %7C at position i. */
  predicate EscapeAt(actor: string, i: nat) {
    i + 3 <= |actor| && actor[i] == '%' && actor[i + 1] == '7' && actor[i + 2] == 'C'
  }

  lemma PipeIsShared(actor: string, i: nat) returns (other: string)
    requires i < |actor| && actor[i] == '|'
    ensures other != actor && EscapeActor(other) == EscapeActor(actor)
    ensures exists j: nat :: EscapeAt(EscapeActor(actor), j)
  {
    var a, b := actor[..i], actor[i + 1..];
    assert actor == a + "|" + b;
    other := a + "%7C" + b;
    assert |other| != |actor|;
    EscapeReplacesPipe(a, b);
    assert EscapeAt(EscapeActor(actor), |EscapeActor(a)|);
  }

  lemma EscapeIsShared(actor: string, i: nat) returns (other: string)
    requires EscapeAt(actor, i)
    ensures other != actor && EscapeActor(other) == EscapeActor(actor)
  {
    var a, e, b := actor[..i], actor[i..i + 3], actor[i + 3..];
    assert e == "%7C";
    assert actor == a + e + b;
    other := a + "|" + b;
    assert |other| != |actor|;
    EscapeReplacesPipe(a, b);
  }

  lemma PlainIsUnshared(actor: string, other: string)
    requires NoPipe(actor) && !(exists i: nat :: EscapeAt(actor, i)) && other != actor
    ensures EscapeActor(other) != EscapeActor(actor)
  {
    EscapeKeepsPipeFree(actor);
    if NoPipe(other) {
      EscapeKeepsPipeFree(other);
    } else {
      var i: nat :| i < |other| && other[i] == '|';
      var _ := PipeIsShared(other, i);
    }
  }

  /** Two different actors are written alike exactly when one holds a pipe or a %7C: such an actor shares
      its tokens with another. */
  lemma EscapeSharedExactly(actor: string)
    ensures (exists other :: other != actor && EscapeActor(other) == EscapeActor(actor)) <==>
            !NoPipe(actor) || exists i: nat :: EscapeAt(actor, i)
  {
    if !NoPipe(actor) {
      var i: nat :| i < |actor| && actor[i] == '|';
      var _ := PipeIsShared(actor, i);
    } else if i: nat :| EscapeAt(actor, i) {
      var _ := EscapeIsShared(actor, i);
    } else {
      forall other | other != actor ensures EscapeActor(other) != EscapeActor(actor) {
        PlainIsUnshared(actor, other);
      }
    }
  }

  function Digit(d: nat): (c: char)
    requires d < 10
    ensures c != '|'
  {
    '0' + (d as char)
  }

  function Decimal(n: nat): (s: string)
    ensures NoPipe(s)
  {
    if n < 10 then [Digit(n)] else Decimal(n / 10) + [Digit(n % 10)]
  }

  /** The value of a digit string. */
  function DigitsValue(s: string): nat
    requires forall k :: 0 <= k < |s| ==> IsDigit(s[k])
  {
    if s == "" then 0
    else
      assert IsDigit(s[|s| - 1]);
      10 * DigitsValue(s[..|s| - 1]) + (s[|s| - 1] as int - '0' as int)
  }

  function DigitPrefix(s: string): (n: nat)
    ensures n <= |s| && forall k :: 0 <= k < n ==> IsDigit(s[k])
  {
    if s != "" && IsDigit(s[0]) then 1 + DigitPrefix(s[1..]) else 0
  }

  /** The number at the front of a string; None where parsing yields no number. */
  function ParseInt(s: string): (n: Option<nat>)
    ensures n.None? <==> s == "" || !('0' <= s[0] <= '9')
  {
    var digits := DigitPrefix(s);
    if digits == 0 then None else Some(DigitsValue(s[..digits]))
  }

  lemma {:induction false} AllDigits(s: string)
    requires forall k :: 0 <= k < |s| ==> IsDigit(s[k])
    ensures DigitPrefix(s) == |s|
  {
    if s != "" {
      AllDigits(s[1..]);
    }
  }

  lemma {:induction false} DecimalDigits(n: nat)
    ensures forall k :: 0 <= k < |Decimal(n)| ==> IsDigit(Decimal(n)[k])
    ensures |Decimal(n)| > 0 && DigitsValue(Decimal(n)) == n
  {
    if n >= 10 {
      DecimalDigits(n / 10);
      var s := Decimal(n);
      assert s[..|s| - 1] == Decimal(n / 10);
    }
  }

  /** A printed time reads back as itself. */
  lemma DecimalRoundTrip(n: nat)
    ensures ParseInt(Decimal(n)) == Some(n)
  {
    DecimalDigits(n);
    AllDigits(Decimal(n));
    assert Decimal(n)[..|Decimal(n)|] == Decimal(n);
  }

  function FirstPipe(s: string): (i: nat)
    requires '|' in s
    ensures i < |s| && s[i] == '|' && NoPipe(s[..i])
  {
    if s[0] == '|' then 0 else 1 + FirstPipe(s[1..])
  }

  function Split(s: string): (parts: seq<string>)
    decreases |s|
  {
    if NoPipe(s) then [s] else [s[..FirstPipe(s)]] + Split(s[FirstPipe(s) + 1..])
  }

  lemma SplitCons(part: string, rest: string)
    requires NoPipe(part)
    ensures Split(part + "|" + rest) == [part] + Split(rest)
  {
    var s := part + "|" + rest;
    assert s[|part|] == '|';
    var i := FirstPipe(s);
    assert forall k :: 0 <= k < |part| ==> s[k] == part[k] && part[k] in part;
    assert forall k :: 0 <= k < i ==> s[..i][k] == s[k] && s[..i][k] in s[..i];
    assert s[..i] == part && s[i + 1..] == rest;
  }

  function TokenMessage(tool: string, argsHash: string, actor: string, issuedAt: nat): string {
    tool + "|" + (argsHash + "|" + (EscapeActor(actor) + "|" + Decimal(issuedAt)))
  }

  function Envelope(message: string, mac: string): string {
    message + "|" + mac
  }

  lemma SplitThree(c: string, d: string, e: string)
    requires NoPipe(c) && NoPipe(d) && NoPipe(e)
    ensures Split(c + "|" + (d + "|" + e)) == [c, d, e]
  {
    SplitCons(d, e);
    SplitCons(c, d + "|" + e);
  }

  lemma SplitTwoMore(a: string, b: string, rest: string)
    requires NoPipe(a) && NoPipe(b)
    ensures Split(a + "|" + (b + "|" + rest)) == [a, b] + Split(rest)
  {
    SplitCons(b, rest);
    SplitCons(a, b + "|" + rest);
  }

  function JoinParts(tool: string, argsHash: string, actor: string, issuedAt: string): string {
    tool + "|" + argsHash + "|" + actor + "|" + issuedAt
  }

  lemma JoinFive(a: string, b: string, c: string, d: string, e: string)
    ensures JoinParts(a, b, c, d) + "|" + e == a + "|" + (b + "|" + (c + "|" + (d + "|" + e)))
  {
  }

  /** The signed message is the first four parts joined again. */
  lemma MessageIsJoin(tool: string, argsHash: string, actor: string, issuedAt: nat)
    ensures JoinParts(tool, argsHash, EscapeActor(actor), Decimal(issuedAt))
            == TokenMessage(tool, argsHash, actor, issuedAt)
  {
  }

  lemma SplitFive(a: string, b: string, c: string, d: string, e: string)
    requires NoPipe(a) && NoPipe(b) && NoPipe(c) && NoPipe(d) && NoPipe(e)
    ensures Split(JoinParts(a, b, c, d) + "|" + e) == [a, b, c, d, e]
  {
    JoinFive(a, b, c, d, e);
    SplitThree(c, d, e);
    SplitTwoMore(a, b, c + "|" + (d + "|" + e));
  }

  /** Splitting an issued envelope gives back exactly the five parts it was made of. */
  lemma SplitIssued(tool: string, argsHash: string, actor: string, issuedAt: nat, mac: string)
    requires NoPipe(tool) && NoPipe(argsHash) && NoPipe(mac)
    ensures Split(Envelope(TokenMessage(tool, argsHash, actor, issuedAt), mac))
            == [tool, argsHash, EscapeActor(actor), Decimal(issuedAt), mac]
  {
    var safe, time := EscapeActor(actor), Decimal(issuedAt);
    SplitFive(tool, argsHash, safe, time, mac);
    MessageIsJoin(tool, argsHash, actor, issuedAt);
  }
}
