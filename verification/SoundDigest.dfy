/** A digest that never collides and holds no '|': the hypothesis on the gate's cryptography can be met. */
module SoundDigest {
  import opened Canonical
  import opened TokenEnvelope
  import opened WriteGate

  predicate IsBits(s: string) {
    forall c :: c in s ==> c == '0' || c == '1'
  }

  /** Writing a number, a text, a value in front of what follows. */
  function WriteNat(n: nat, rest: string): (s: string)
    ensures IsBits(rest) ==> IsBits(s)
  {
    if n == 0 then "0" + rest else "1" + WriteNat(n - 1, rest)
  }

  function WriteText(t: string, rest: string): (s: string)
    ensures IsBits(rest) ==> IsBits(s)
  {
    if t == "" then "0" + rest else "1" + WriteNat(t[0] as int, WriteText(t[1..], rest))
  }

  function Write(v: Value, rest: string): (s: string)
    ensures IsBits(rest) ==> IsBits(s)
    decreases v, 0
  {
    match v
    case Undefined => WriteNat(0, rest)
    case Null => WriteNat(1, rest)
    case Bool(b) => WriteNat(if b then 2 else 3, rest)
    case Num(t) => WriteNat(4, WriteText(t, rest))
    case Str(t) => WriteNat(5, WriteText(t, rest))
    case Arr(items) => WriteNat(6, WriteItems(items, rest))
    case Obj(fields) => WriteNat(7, WriteFields(fields, rest))
  }

  function WriteItems(items: seq<Value>, rest: string): (s: string)
    ensures IsBits(rest) ==> IsBits(s)
    decreases items, 1
  {
    if items == [] then "0" + rest else "1" + Write(items[0], WriteItems(items[1..], rest))
  }

  function WriteFields(fields: seq<Field>, rest: string): (s: string)
    ensures IsBits(rest) ==> IsBits(s)
    decreases fields, 1
  {
    if fields == [] then "0" + rest
    else "1" + WriteText(fields[0].key, Write(fields[0].value, WriteFields(fields[1..], rest)))
  }

  lemma HeadCancels(a: char, x: string, b: char, y: string)
    requires [a] + x == [b] + y
    ensures a == b && x == y
  {
    assert ([a] + x)[0] == a && ([b] + y)[0] == b;
    assert ([a] + x)[1..] == x && ([b] + y)[1..] == y;
  }

  lemma {:induction false} NatCancels(m: nat, x: string, n: nat, y: string)
    requires WriteNat(m, x) == WriteNat(n, y)
    ensures m == n && x == y
  {
    HeadCancels(if m == 0 then '0' else '1', if m == 0 then x else WriteNat(m - 1, x),
                if n == 0 then '0' else '1', if n == 0 then y else WriteNat(n - 1, y));
    if m > 0 {
      NatCancels(m - 1, x, n - 1, y);
    }
  }

  lemma {:induction false} TextCancels(t: string, x: string, u: string, y: string)
    requires WriteText(t, x) == WriteText(u, y)
    ensures t == u && x == y
  {
    HeadCancels(if t == "" then '0' else '1', if t == "" then x else WriteNat(t[0] as int, WriteText(t[1..], x)),
                if u == "" then '0' else '1', if u == "" then y else WriteNat(u[0] as int, WriteText(u[1..], y)));
    if t != "" {
      NatCancels(t[0] as int, WriteText(t[1..], x), u[0] as int, WriteText(u[1..], y));
      TextCancels(t[1..], x, u[1..], y);
      assert t == [t[0]] + t[1..] && u == [u[0]] + u[1..];
    }
  }

  function Tag(v: Value): nat {
    match v
    case Undefined => 0
    case Null => 1
    case Bool(b) => if b then 2 else 3
    case Num(_) => 4
    case Str(_) => 5
    case Arr(_) => 6
    case Obj(_) => 7
  }

  function Body(v: Value, rest: string): string {
    match v
    case Num(t) => WriteText(t, rest)
    case Str(t) => WriteText(t, rest)
    case Arr(items) => WriteItems(items, rest)
    case Obj(fields) => WriteFields(fields, rest)
    case _ => rest
  }

  /** What is written can be read back. */
  lemma {:induction false} WriteCancels(a: Value, x: string, b: Value, y: string)
    requires Write(a, x) == Write(b, y)
    ensures a == b && x == y
    decreases a, 0
  {
    NatCancels(Tag(a), Body(a, x), Tag(b), Body(b, y));
    match a
    case Num(t) => TextCancels(t, x, b.text, y);
    case Str(t) => TextCancels(t, x, b.s, y);
    case Arr(items) => ItemsCancel(items, x, b.items, y);
    case Obj(fields) => FieldsCancel(fields, x, b.fields, y);
    case _ =>
  }

  lemma {:induction false} ItemsCancel(vs: seq<Value>, x: string, ws: seq<Value>, y: string)
    requires WriteItems(vs, x) == WriteItems(ws, y)
    ensures vs == ws && x == y
    decreases vs, 1
  {
    HeadCancels(if vs == [] then '0' else '1', if vs == [] then x else Write(vs[0], WriteItems(vs[1..], x)),
                if ws == [] then '0' else '1', if ws == [] then y else Write(ws[0], WriteItems(ws[1..], y)));
    if vs != [] {
      WriteCancels(vs[0], WriteItems(vs[1..], x), ws[0], WriteItems(ws[1..], y));
      ItemsCancel(vs[1..], x, ws[1..], y);
      assert vs == [vs[0]] + vs[1..] && ws == [ws[0]] + ws[1..];
    }
  }

  lemma {:induction false} FieldsCancel(fs: seq<Field>, x: string, gs: seq<Field>, y: string)
    requires WriteFields(fs, x) == WriteFields(gs, y)
    ensures fs == gs && x == y
    decreases fs, 1
  {
    HeadCancels(
      if fs == [] then '0' else '1',
      if fs == [] then x else WriteText(fs[0].key, Write(fs[0].value, WriteFields(fs[1..], x))),
      if gs == [] then '0' else '1',
      if gs == [] then y else WriteText(gs[0].key, Write(gs[0].value, WriteFields(gs[1..], y))));
    if fs != [] {
      var xs, ys := WriteFields(fs[1..], x), WriteFields(gs[1..], y);
      TextCancels(fs[0].key, Write(fs[0].value, xs), gs[0].key, Write(gs[0].value, ys));
      WriteCancels(fs[0].value, xs, gs[0].value, ys);
      FieldsCancel(fs[1..], x, gs[1..], y);
      assert fs == [fs[0]] + fs[1..] && gs == [gs[0]] + gs[1..];
    }
  }

  /** So what is assumed of the gate's cryptography can hold. */
  lemma SoundCryptoExists() returns (c: Crypto)
    ensures Sound(c)
  {
    c := Crypto(v => Write(v, ""), m => "");
    forall a, b | c.digest(a) == c.digest(b) ensures a == b {
      WriteCancels(a, "", b, "");
    }
    forall v ensures NoPipe(c.digest(v)) {
      assert IsBits(Write(v, ""));
    }
  }
}
