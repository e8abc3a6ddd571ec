/** Argument values and the canonical form under which they are hashed. */
module Canonical {

  /** A JavaScript value as tool arguments hold them.  A number is the text JSON writes for it; an object
      is its own fields in insertion order. */
  datatype Value =
    | Undefined
    | Null
    | Bool(b: bool)
    | Num(text: string)
    | Str(s: string)
    | Arr(items: seq<Value>)
    | Obj(fields: seq<Field>)

  datatype Field = Field(key: string, value: Value)

  ghost predicate DistinctKeys(fields: seq<Field>) {
    forall i, j :: 0 <= i < j < |fields| ==> fields[i].key != fields[j].key
  }

  /** No object has one key twice, at any depth. */
  ghost predicate WellFormed(v: Value) {
    match v
    case Arr(items) => forall i :: 0 <= i < |items| ==> WellFormed(items[i])
    case Obj(fields) => DistinctKeys(fields) && forall i :: 0 <= i < |fields| ==> WellFormed(fields[i].value)
    case _ => true
  }

  // ---- sorting keys by code unit

  predicate KeyLess(a: string, b: string) {
    if b == "" then false
    else if a == "" then true
    else if a[0] != b[0] then a[0] < b[0]
    else KeyLess(a[1..], b[1..])
  }

  function InsertKey(k: string, sorted: seq<string>): seq<string> {
    if sorted == [] || KeyLess(k, sorted[0]) then [k] + sorted
    else [sorted[0]] + InsertKey(k, sorted[1..])
  }

  function SortKeys(keys: seq<string>): seq<string> {
    if keys == [] then [] else InsertKey(keys[0], SortKeys(keys[1..]))
  }

  function KeysOf(fields: seq<Field>): (keys: seq<string>)
    ensures |keys| == |fields|
    ensures forall i :: 0 <= i < |fields| ==> keys[i] == fields[i].key
  {
    if fields == [] then [] else [fields[0].key] + KeysOf(fields[1..])
  }

  // ---- the canonical form

  predicate HasKey(fields: seq<Field>, key: string) {
    exists i :: 0 <= i < |fields| && fields[i].key == key
  }

  function IndexOf(fields: seq<Field>, key: string): (i: nat)
    requires HasKey(fields, key)
    ensures i < |fields| && fields[i].key == key
  {
    if fields[0].key == key then 0
    else
      assert HasKey(fields[1..], key) by {
        var i :| 0 <= i < |fields| && fields[i].key == key;
        assert fields[1..][i - 1].key == key;
      }
      1 + IndexOf(fields[1..], key)
  }

  /** Objects are rebuilt in sorted key order without their undefined fields, at every depth. */
  function Canonicalize(v: Value): Value
    decreases v, 0
  {
    match v
    case Arr(items) => Arr(CanonicalizeItems(items))
    case Obj(fields) =>
      SortKeeps(KeysOf(fields));
      Obj(CanonicalizeFields(v, SortKeys(KeysOf(fields))))
    case _ => v
  }

  function CanonicalizeItems(items: seq<Value>): (r: seq<Value>)
    ensures |r| == |items|
    ensures forall i :: 0 <= i < |items| ==> r[i] == Canonicalize(items[i])
    decreases items, 1
  {
    if items == [] then [] else [Canonicalize(items[0])] + CanonicalizeItems(items[1..])
  }

  function CanonicalizeFields(o: Value, keys: seq<string>): seq<Field>
    requires o.Obj? && forall k :: k in keys ==> HasKey(o.fields, k)
    decreases o, 0, |keys|
  {
    if keys == [] then []
    else
      var v := o.fields[IndexOf(o.fields, keys[0])].value;
      if v.Undefined? then CanonicalizeFields(o, keys[1..])
      else [Field(keys[0], Canonicalize(v))] + CanonicalizeFields(o, keys[1..])
  }

  // ---- key order and sorting

  ghost predicate Ascending(keys: seq<string>) {
    forall i, j :: 0 <= i < j < |keys| ==> KeyLess(keys[i], keys[j])
  }

  lemma {:induction false} KeyLessTotal(a: string, b: string)
    ensures a != b ==> (KeyLess(a, b) <==> !KeyLess(b, a))
    ensures a == b ==> !KeyLess(a, b)
  {
    if a != "" && b != "" && a[0] == b[0] {
      KeyLessTotal(a[1..], b[1..]);
      assert a == [a[0]] + a[1..] && b == [b[0]] + b[1..];
    }
  }

  lemma {:induction false} KeyLessTransitive(a: string, b: string, c: string)
    requires KeyLess(a, b) && KeyLess(b, c)
    ensures KeyLess(a, c)
  {
    if a != "" && a[0] == b[0] == c[0] {
      KeyLessTransitive(a[1..], b[1..], c[1..]);
    }
  }

  lemma {:induction false} InsertKeepsKeys(k: string, sorted: seq<string>)
    ensures forall x :: x in InsertKey(k, sorted) <==> x == k || x in sorted
  {
    if sorted != [] && !KeyLess(k, sorted[0]) {
      InsertKeepsKeys(k, sorted[1..]);
      assert sorted == [sorted[0]] + sorted[1..];
    }
  }

  lemma {:induction false} SortKeeps(keys: seq<string>)
    ensures forall x :: x in SortKeys(keys) <==> x in keys
  {
    if keys != [] {
      SortKeeps(keys[1..]);
      InsertKeepsKeys(keys[0], SortKeys(keys[1..]));
      assert keys == [keys[0]] + keys[1..];
    }
  }

  lemma {:induction false} InsertAscends(k: string, sorted: seq<string>)
    requires Ascending(sorted) && k !in sorted
    ensures Ascending(InsertKey(k, sorted))
  {
    if sorted == [] {
    } else if KeyLess(k, sorted[0]) {
      forall j | 0 <= j < |sorted| ensures KeyLess(k, sorted[j]) {
        if j > 0 {
          KeyLessTransitive(k, sorted[0], sorted[j]);
        }
      }
    } else {
      var rest := InsertKey(k, sorted[1..]);
      KeyLessTotal(k, sorted[0]);
      InsertAscends(k, sorted[1..]);
      InsertKeepsKeys(k, sorted[1..]);
      forall j | 0 <= j < |rest| ensures KeyLess(sorted[0], rest[j]) {
        assert rest[j] in rest;
        if rest[j] != k {
          var m :| 0 <= m < |sorted[1..]| && sorted[1..][m] == rest[j];
          assert KeyLess(sorted[0], sorted[m + 1]);
        }
      }
    }
  }

  lemma {:induction false} SortAscends(keys: seq<string>)
    requires forall i, j :: 0 <= i < j < |keys| ==> keys[i] != keys[j]
    ensures Ascending(SortKeys(keys))
  {
    if keys != [] {
      SortAscends(keys[1..]);
      SortKeeps(keys[1..]);
      InsertAscends(keys[0], SortKeys(keys[1..]));
    }
  }

  // ---- what a value means: nested maps and arrays

  datatype Tree =
    | TUndefined
    | TNull
    | TBool(b: bool)
    | TNum(text: string)
    | TStr(s: string)
    | TArr(items: seq<Tree>)
    | TObj(entries: map<string, Tree>)

  ghost function Meaning(v: Value): Tree
    decreases v, 0
  {
    match v
    case Undefined => TUndefined
    case Null => TNull
    case Bool(b) => TBool(b)
    case Num(text) => TNum(text)
    case Str(s) => TStr(s)
    case Arr(items) => TArr(MeaningOfItems(items))
    case Obj(fields) => TObj(Entries(fields))
  }

  ghost function MeaningOfItems(items: seq<Value>): (r: seq<Tree>)
    ensures |r| == |items|
    ensures forall i :: 0 <= i < |items| ==> r[i] == Meaning(items[i])
    decreases items, 1
  {
    if items == [] then [] else [Meaning(items[0])] + MeaningOfItems(items[1..])
  }

  /** The defined fields, whatever their order. */
  ghost function Entries(fields: seq<Field>): map<string, Tree>
    decreases fields, 1
  {
    if fields == [] then map[]
    else
      var rest := Entries(fields[1..]);
      if fields[0].value.Undefined? then rest else rest[fields[0].key := Meaning(fields[0].value)]
  }

  lemma {:induction false} EntryKeys(fields: seq<Field>)
    ensures forall k :: k in Entries(fields) ==>
              exists i :: 0 <= i < |fields| && fields[i].key == k && !fields[i].value.Undefined?
  {
    if fields != [] {
      EntryKeys(fields[1..]);
      forall k | k in Entries(fields)
        ensures exists i :: 0 <= i < |fields| && fields[i].key == k && !fields[i].value.Undefined?
      {
        if fields[0].value.Undefined? || k != fields[0].key {
          assert k in Entries(fields[1..]);
          var i :| 0 <= i < |fields[1..]| && fields[1..][i].key == k && !fields[1..][i].value.Undefined?;
          assert fields[i + 1].key == k;
        }
      }
    }
  }

  lemma {:induction false} EntryAt(fields: seq<Field>, i: nat)
    requires DistinctKeys(fields) && i < |fields|
    ensures fields[i].key in Entries(fields) <==> !fields[i].value.Undefined?
    ensures !fields[i].value.Undefined? ==> Entries(fields)[fields[i].key] == Meaning(fields[i].value)
  {
    EntryKeys(fields[1..]);
    if i > 0 {
      EntryAt(fields[1..], i - 1);
    }
  }

  // ---- the canonical form keeps the meaning

  ghost predicate SortedFields(fields: seq<Field>) {
    forall i, j :: 0 <= i < j < |fields| ==> KeyLess(fields[i].key, fields[j].key)
  }

  /** What canonicalisation produces: sorted keys, no undefined fields, at every depth. */
  ghost predicate IsCanonical(v: Value) {
    match v
    case Arr(items) => forall i :: 0 <= i < |items| ==> IsCanonical(items[i])
    case Obj(fields) =>
      && SortedFields(fields)
      && forall i :: 0 <= i < |fields| ==> !fields[i].value.Undefined? && IsCanonical(fields[i].value)
    case _ => true
  }

  lemma SortedAreDistinct(fields: seq<Field>)
    requires SortedFields(fields)
    ensures DistinctKeys(fields)
  {
    forall i, j | 0 <= i < j < |fields| ensures fields[i].key != fields[j].key {
      KeyLessTotal(fields[i].key, fields[j].key);
    }
  }

  lemma {:induction false} CanonicalIsWellFormed(v: Value)
    requires IsCanonical(v)
    ensures WellFormed(v)
  {
    match v
    case Arr(items) =>
      forall i | 0 <= i < |items| ensures WellFormed(items[i]) { CanonicalIsWellFormed(items[i]); }
    case Obj(fields) =>
      SortedAreDistinct(fields);
      forall i | 0 <= i < |fields| ensures WellFormed(fields[i].value) { CanonicalIsWellFormed(fields[i].value); }
    case _ =>
  }

  /** Nothing is lost and nothing gained: every nested defined field keeps its value. */
  lemma {:induction false} KeepsMeaning(v: Value)
    requires WellFormed(v)
    ensures Meaning(Canonicalize(v)) == Meaning(v)
    ensures IsCanonical(Canonicalize(v))
    ensures Canonicalize(v).Undefined? <==> v.Undefined?
    decreases v, 0
  {
    match v
    case Arr(items) =>
      forall i | 0 <= i < |items|
        ensures Meaning(Canonicalize(items[i])) == Meaning(items[i]) && IsCanonical(Canonicalize(items[i]))
      {
        KeepsMeaning(items[i]);
      }
      assert MeaningOfItems(CanonicalizeItems(items)) == MeaningOfItems(items);
    case Obj(fields) =>
      var keys := SortKeys(KeysOf(fields));
      SortKeeps(KeysOf(fields));
      SortAscends(KeysOf(fields));
      FieldsKeepMeaning(v, keys);
      var r := CanonicalizeFields(v, keys);
      EntryKeys(fields);
      forall k | k in Entries(fields) ensures k in keys {
        var i :| 0 <= i < |fields| && fields[i].key == k;
        assert KeysOf(fields)[i] == k;
      }
      assert Entries(r) == Entries(fields);
    case _ =>
  }

  lemma {:induction false} FieldsKeepMeaning(o: Value, keys: seq<string>)
    requires WellFormed(o) && o.Obj? && Ascending(keys) && forall k :: k in keys ==> HasKey(o.fields, k)
    ensures var r := CanonicalizeFields(o, keys);
            && IsCanonical(Obj(r))
            && (forall i :: 0 <= i < |r| ==> r[i].key in keys)
            && (forall k :: k in Entries(r) <==> k in keys && k in Entries(o.fields))
            && (forall k :: k in Entries(r) ==> Entries(r)[k] == Entries(o.fields)[k])
    decreases o, 0, |keys|
  {
    if keys != [] {
      var key, i, r := keys[0], IndexOf(o.fields, keys[0]), CanonicalizeFields(o, keys);
      var rest := CanonicalizeFields(o, keys[1..]);
      FieldsKeepMeaning(o, keys[1..]);
      EntryAt(o.fields, i);
      assert keys == [key] + keys[1..];
      if !o.fields[i].value.Undefined? {
        KeepsMeaning(o.fields[i].value);
        var first := Field(key, Canonicalize(o.fields[i].value));
        assert r == [first] + rest;
        FirstKeyIsLeast(key, keys, rest);
        CanonicalCons(first, rest);
      }
    }
  }

  lemma CanonicalCons(first: Field, rest: seq<Field>)
    requires IsCanonical(first.value) && !first.value.Undefined? && IsCanonical(Obj(rest))
    requires forall i :: 0 <= i < |rest| ==> KeyLess(first.key, rest[i].key)
    ensures IsCanonical(Obj([first] + rest))
    ensures Entries([first] + rest) == Entries(rest)[first.key := Meaning(first.value)]
  {
    var r := [first] + rest;
    assert r[1..] == rest;
    assert forall i :: 0 < i < |r| ==> r[i] == rest[i - 1];
  }

  lemma FirstKeyIsLeast(key: string, keys: seq<string>, rest: seq<Field>)
    requires keys != [] && keys[0] == key && Ascending(keys)
    requires forall i :: 0 <= i < |rest| ==> rest[i].key in keys[1..]
    ensures forall i :: 0 <= i < |rest| ==> KeyLess(key, rest[i].key)
  {
  }

  // ---- and a meaning has one canonical form

  lemma {:induction false} OneCanonicalForm(a: Value, b: Value)
    requires IsCanonical(a) && IsCanonical(b) && Meaning(a) == Meaning(b)
    ensures a == b
    decreases a, 0
  {
    match a
    case Arr(items) =>
      forall i | 0 <= i < |items| ensures items[i] == b.items[i] {
        assert MeaningOfItems(items)[i] == MeaningOfItems(b.items)[i];
        OneCanonicalForm(items[i], b.items[i]);
      }
      assert items == b.items;
    case Obj(fields) => OneFieldOrder(fields, b.fields);
    case _ =>
  }

  lemma {:induction false} OneFieldOrder(fs: seq<Field>, gs: seq<Field>)
    requires IsCanonical(Obj(fs)) && IsCanonical(Obj(gs)) && Entries(fs) == Entries(gs)
    ensures fs == gs
    decreases fs, 1
  {
    SortedAreDistinct(fs);
    SortedAreDistinct(gs);
    if fs == [] {
      if gs != [] {
        EntryAt(gs, 0);
      }
    } else if gs == [] {
      EntryAt(fs, 0);
    } else {
      SameFirstKey(fs, gs);
      EntryAt(fs, 0);
      EntryAt(gs, 0);
      OneCanonicalForm(fs[0].value, gs[0].value);
      TailEntries(fs);
      TailEntries(gs);
      CanonicalTail(fs);
      CanonicalTail(gs);
      OneFieldOrder(fs[1..], gs[1..]);
      assert fs == [fs[0]] + fs[1..] && gs == [gs[0]] + gs[1..];
    }
  }

  lemma CanonicalTail(fs: seq<Field>)
    requires IsCanonical(Obj(fs)) && fs != []
    ensures IsCanonical(Obj(fs[1..]))
  {
  }

  lemma SameFirstKey(fs: seq<Field>, gs: seq<Field>)
    requires IsCanonical(Obj(fs)) && IsCanonical(Obj(gs)) && Entries(fs) == Entries(gs)
    requires fs != [] && gs != []
    ensures fs[0].key == gs[0].key
  {
    SortedAreDistinct(fs);
    SortedAreDistinct(gs);
    EntryAt(fs, 0);
    EntryAt(gs, 0);
    EntryKeys(fs);
    EntryKeys(gs);
    var i :| 0 <= i < |fs| && fs[i].key == gs[0].key;
    var j :| 0 <= j < |gs| && gs[j].key == fs[0].key;
    if i > 0 && j > 0 {
      KeyLessTotal(fs[0].key, gs[0].key);
    }
  }

  lemma TailEntries(fs: seq<Field>)
    requires fs != [] && DistinctKeys(fs) && !fs[0].value.Undefined?
    ensures Entries(fs[1..]) == Entries(fs) - {fs[0].key}
  {
    EntryKeys(fs[1..]);
    assert fs[0].key !in Entries(fs[1..]);
  }

  /** Two values have the same canonical form exactly when they are equal as nested maps and arrays,
      undefined fields dropped and key order ignored. */
  lemma CanonicalExactly(a: Value, b: Value)
    requires WellFormed(a) && WellFormed(b)
    ensures Canonicalize(a) == Canonicalize(b) <==> Meaning(a) == Meaning(b)
  {
    KeepsMeaning(a);
    KeepsMeaning(b);
    if Meaning(a) == Meaning(b) {
      OneCanonicalForm(Canonicalize(a), Canonicalize(b));
    }
  }

  lemma CanonicalizeIdempotent(v: Value)
    requires WellFormed(v)
    ensures Canonicalize(Canonicalize(v)) == Canonicalize(v)
  {
    KeepsMeaning(v);
    CanonicalIsWellFormed(Canonicalize(v));
    KeepsMeaning(Canonicalize(v));
    OneCanonicalForm(Canonicalize(Canonicalize(v)), Canonicalize(v));
  }

  // ---- what is hashed: the canonical form as JSON text

  /** JSON has no undefined: an undefined array element is written as null. */
  function FillHoles(v: Value): Value
    decreases v, 0
  {
    match v
    case Arr(items) => Arr(FillItems(items))
    case Obj(fields) => Obj(FillFields(fields))
    case _ => v
  }

  function FillItems(items: seq<Value>): (r: seq<Value>)
    ensures |r| == |items|
    ensures forall i :: 0 <= i < |items| ==> r[i] == if items[i].Undefined? then Null else FillHoles(items[i])
    decreases items, 1
  {
    if items == [] then []
    else [if items[0].Undefined? then Null else FillHoles(items[0])] + FillItems(items[1..])
  }

  function FillFields(fields: seq<Field>): (r: seq<Field>)
    ensures |r| == |fields|
    ensures forall i :: 0 <= i < |fields| ==> r[i] == Field(fields[i].key, FillHoles(fields[i].value))
    decreases fields, 1
  {
    if fields == [] then [] else [Field(fields[0].key, FillHoles(fields[0].value))] + FillFields(fields[1..])
  }

  lemma {:induction false} FillKeepsShape(v: Value)
    ensures WellFormed(v) ==> WellFormed(FillHoles(v))
    ensures FillHoles(v).Undefined? <==> v.Undefined?
  {
    match v
    case Arr(items) =>
      forall i | 0 <= i < |items| ensures WellFormed(items[i]) ==> WellFormed(FillHoles(items[i])) {
        FillKeepsShape(items[i]);
      }
    case Obj(fields) =>
      forall i | 0 <= i < |fields| ensures WellFormed(fields[i].value) ==> WellFormed(FillHoles(fields[i].value)) {
        FillKeepsShape(fields[i].value);
      }
    case _ =>
  }

  /** Filling the holes before or after canonicalising makes no difference. */
  lemma {:induction false} FillCommutes(v: Value)
    requires WellFormed(v)
    ensures FillHoles(Canonicalize(v)) == Canonicalize(FillHoles(v))
    decreases v, 0
  {
    match v
    case Arr(items) =>
      forall i | 0 <= i < |items| ensures FillHoles(Canonicalize(items[i])) == Canonicalize(FillHoles(items[i])) {
        FillCommutes(items[i]);
      }
      forall i | 0 <= i < |items| ensures Canonicalize(items[i]).Undefined? <==> items[i].Undefined? {
        KeepsMeaning(items[i]);
      }
      assert FillItems(CanonicalizeItems(items)) == CanonicalizeItems(FillItems(items));
    case Obj(fields) =>
      var keys := SortKeys(KeysOf(fields));
      SortKeeps(KeysOf(fields));
      assert KeysOf(FillFields(fields)) == KeysOf(fields);
      FillCommutesOnFields(v, keys);
    case _ =>
  }

  lemma {:induction false} FillCommutesOnFields(o: Value, keys: seq<string>)
    requires WellFormed(o) && o.Obj? && forall k :: k in keys ==> HasKey(o.fields, k)
    ensures forall k :: k in keys ==> HasKey(FillFields(o.fields), k)
    ensures FillFields(CanonicalizeFields(o, keys)) == CanonicalizeFields(FillHoles(o), keys)
    decreases o, 0, |keys|
  {
    var filled := FillFields(o.fields);
    forall k | k in keys ensures HasKey(filled, k) {
      assert filled[IndexOf(o.fields, k)].key == k;
    }
    if keys != [] {
      var i, j := IndexOf(o.fields, keys[0]), IndexOf(filled, keys[0]);
      assert i == j;
      FillCommutes(o.fields[i].value);
      FillKeepsShape(o.fields[i].value);
      FillCommutesOnFields(o, keys[1..]);
      if !o.fields[i].value.Undefined? {
        var first, rest := Field(keys[0], Canonicalize(o.fields[i].value)), CanonicalizeFields(o, keys[1..]);
        assert FillFields([first] + rest) == [Field(first.key, FillHoles(first.value))] + FillFields(rest);
      }
    }
  }

  ghost predicate Injective(hash: Value -> string) {
    forall a, b {:trigger hash(a), hash(b)} :: hash(a) == hash(b) ==> a == b
  }

  /** The hash of an argument value, given the digest of a JSON document. */
  function HashArgs(digest: Value -> string, args: Value): string {
    digest(FillHoles(Canonicalize(args)))
  }

  /** Two argument values hash alike exactly when they mean the same JSON document. */
  lemma HashExactly(digest: Value -> string, a: Value, b: Value)
    requires Injective(digest) && WellFormed(a) && WellFormed(b)
    ensures HashArgs(digest, a) == HashArgs(digest, b) <==> Meaning(FillHoles(a)) == Meaning(FillHoles(b))
  {
    FillCommutes(a);
    FillCommutes(b);
    FillKeepsShape(a);
    FillKeepsShape(b);
    CanonicalExactly(FillHoles(a), FillHoles(b));
  }

  /** No array holds an undefined element, at any depth. */
  ghost predicate HoleFree(v: Value) {
    match v
    case Arr(items) => forall i :: 0 <= i < |items| ==> !items[i].Undefined? && HoleFree(items[i])
    case Obj(fields) => forall i :: 0 <= i < |fields| ==> HoleFree(fields[i].value)
    case _ => true
  }

  lemma {:induction false} NothingToFill(v: Value)
    ensures FillHoles(v) == v <==> HoleFree(v)
  {
    match v
    case Arr(items) =>
      forall i | 0 <= i < |items| ensures FillHoles(items[i]) == items[i] <==> HoleFree(items[i]) {
        NothingToFill(items[i]);
      }
      assert FillItems(items) == items <==>
        forall i :: 0 <= i < |items| ==> (if items[i].Undefined? then Null else FillHoles(items[i])) == items[i];
    case Obj(fields) =>
      forall i | 0 <= i < |fields| ensures FillHoles(fields[i].value) == fields[i].value <==> HoleFree(fields[i].value) {
        NothingToFill(fields[i].value);
      }
      assert FillFields(fields) == fields <==>
        forall i :: 0 <= i < |fields| ==> FillHoles(fields[i].value) == fields[i].value;
    case _ =>
  }

  /** So the hash tells canonical forms apart among hole-free arguments ... */
  lemma HashIsCanonical(digest: Value -> string, a: Value, b: Value)
    requires Injective(digest) && WellFormed(a) && WellFormed(b) && HoleFree(a) && HoleFree(b)
    ensures HashArgs(digest, a) == HashArgs(digest, b) <==> Canonicalize(a) == Canonicalize(b)
  {
    HashExactly(digest, a, b);
    NothingToFill(a);
    NothingToFill(b);
    CanonicalExactly(a, b);
  }

  /** ... and any value with a hole shares its hash with one that has a null there, though their
      canonical forms differ. */
  lemma HoleHashesAsNull(digest: Value -> string, v: Value, w: Value)
    requires WellFormed(v) && !HoleFree(v) && w == FillHoles(v)
    ensures HashArgs(digest, v) == HashArgs(digest, w)
    ensures Canonicalize(v) != Canonicalize(w)
  {
    SameDocument(v, w);
    FillKeepsShape(v);
    HoleShows(v);
    CanonicalExactly(v, w);
  }

  lemma SameDocument(v: Value, w: Value)
    requires WellFormed(v) && w == FillHoles(v)
    ensures FillHoles(Canonicalize(v)) == FillHoles(Canonicalize(w))
  {
    FillKeepsShape(v);
    FillCommutes(v);
    FillCommutes(w);
    FillTwice(v);
  }

  lemma {:induction false} FillTwice(v: Value)
    ensures FillHoles(FillHoles(v)) == FillHoles(v)
  {
    match v
    case Arr(items) =>
      forall i | 0 <= i < |items| ensures FillHoles(FillHoles(items[i])) == FillHoles(items[i]) {
        FillTwice(items[i]);
        FillKeepsShape(items[i]);
      }
      assert FillItems(FillItems(items)) == FillItems(items);
    case Obj(fields) =>
      forall i | 0 <= i < |fields| ensures FillHoles(FillHoles(fields[i].value)) == FillHoles(fields[i].value) {
        FillTwice(fields[i].value);
      }
      assert FillFields(FillFields(fields)) == FillFields(fields);
    case _ =>
  }

  lemma {:induction false} HoleShows(v: Value)
    requires WellFormed(v) && !HoleFree(v)
    ensures Meaning(v) != Meaning(FillHoles(v))
    decreases v, 1
  {
    match v
    case Arr(items) => HoleShowsInItem(items);
    case Obj(fields) => HoleShowsInField(fields);
  }

  lemma {:induction false} HoleShowsInItem(items: seq<Value>)
    requires WellFormed(Arr(items)) && !HoleFree(Arr(items))
    ensures MeaningOfItems(items) != MeaningOfItems(FillItems(items))
    decreases Arr(items), 0
  {
    var i :| 0 <= i < |items| && (items[i].Undefined? || !HoleFree(items[i]));
    if !items[i].Undefined? {
      HoleShows(items[i]);
    }
    assert MeaningOfItems(items)[i] != MeaningOfItems(FillItems(items))[i];
  }

  lemma {:induction false} HoleShowsInField(fields: seq<Field>)
    requires WellFormed(Obj(fields)) && !HoleFree(Obj(fields))
    ensures Entries(fields) != Entries(FillFields(fields))
    decreases Obj(fields), 0
  {
    var i :| 0 <= i < |fields| && !HoleFree(fields[i].value);
    var filled := FillFields(fields);
    HoleShows(fields[i].value);
    FillKeepsShape(Obj(fields));
    EntryAt(fields, i);
    EntryAt(filled, i);
    FillKeepsShape(fields[i].value);
    assert filled[i] == Field(fields[i].key, FillHoles(fields[i].value));
  }
}
