/** The canonical text of a request (`canonicalize`, src/support/hash/request-hash.ts). */
module Canonical {
  import opened Wrappers
  import opened Unicode
  import opened JsonText
  import opened Texts

  const MAX_CANONICALIZE_DEPTH: nat := 100

  const NULL_TEXT: Text := [0x6E, 0x75, 0x6C, 0x6C]
  const TRUE_TEXT: Text := [0x74, 0x72, 0x75, 0x65]
  const FALSE_TEXT: Text := [0x66, 0x61, 0x6C, 0x73, 0x65]
  const LETTER_N: CodeUnit := 0x6E
  const LBRACKET: CodeUnit := 0x5B
  const RBRACKET: CodeUnit := 0x5D
  const LBRACE: CodeUnit := 0x7B
  const RBRACE: CodeUnit := 0x7D

  /** Integers that a JavaScript number holds exactly. */
  type SafeInt = n: int | -0x20_0000_0000_0000 < n < 0x20_0000_0000_0000

  datatype Field = Field(key: Text, value: Value)

  /** Unserializable: a function, a symbol, a non-finite number, a Map or a Set.
      Jsonable: an object with a `toJSON` method, and what that returns. */
  datatype Value =
    | Undefined | Null | Bool(b: bool) | Num(n: SafeInt) | BigInt(big: int) | Str(s: Text) | Unserializable
    | Arr(items: seq<Value>) | Obj(fields: seq<Field>) | Jsonable(json: Value)

  datatype CanonError = TooDeep | NotSerializable

  // ---------------------------------------------------------------- entries in key order

  /** `a < b` on strings: by code unit. */
  predicate Precedes(a: Text, b: Text) {
    b != [] && (a == [] || a[0] < b[0] || (a[0] == b[0] && Precedes(a[1..], b[1..])))
  }

  /** The fields whose value is not undefined. */
  function Defined(fields: seq<Field>): (r: seq<Field>)
    ensures forall f :: f in r <==> f in fields && !f.value.Undefined?
  {
    if fields == [] then []
    else if fields[0].value.Undefined? then Defined(fields[1..])
    else [fields[0]] + Defined(fields[1..])
  }

  function Insert(f: Field, fields: seq<Field>): (r: seq<Field>)
    ensures forall g :: g in r <==> g == f || g in fields
  {
    if fields == [] || !Precedes(fields[0].key, f.key) then [f] + fields
    else
      assert fields == [fields[0]] + fields[1..];
      [fields[0]] + Insert(f, fields[1..])
  }

  function SortByKey(fields: seq<Field>): (r: seq<Field>)
    ensures forall g :: g in r <==> g in fields
  {
    if fields == [] then []
    else
      assert fields == [fields[0]] + fields[1..];
      Insert(fields[0], SortByKey(fields[1..]))
  }

  // ---------------------------------------------------------------- the printer

  function Canonicalize(v: Value, depth: nat): Result<Text, CanonError>
    decreases v, 1
  {
    if depth > MAX_CANONICALIZE_DEPTH then Failure(TooDeep)
    else match v
      case BigInt(n) => Success(Decimal(n) + [LETTER_N])
      case Unserializable => Failure(NotSerializable)
      case Undefined => Success(NULL_TEXT)
      case Null => Success(NULL_TEXT)
      case Bool(b) => Success(if b then TRUE_TEXT else FALSE_TEXT)
      case Num(n) => Success(Decimal(n))
      case Str(s) => Success(Quote(s))
      case Jsonable(json) => Canonicalize(json, depth + 1)
      case Arr(items) => Enclosed(LBRACKET, CanonicalItems(items, depth + 1), RBRACKET)
      case Obj(fields) => Enclosed(LBRACE, CanonicalFields(v, SortByKey(Defined(fields)), depth + 1), RBRACE)
  }

  function Enclosed(open: CodeUnit, parts: Result<seq<Text>, CanonError>, close: CodeUnit): Result<Text, CanonError> {
    match parts
    case Failure(e) => Failure(e)
    case Success(texts) => Success([open] + (Join(COMMA, texts) + [close]))
  }

  function CanonicalItems(items: seq<Value>, depth: nat): (r: Result<seq<Text>, CanonError>)
    ensures r.Success? ==> |r.value| == |items|
    decreases items
  {
    if items == [] then Success([])
    else match Canonicalize(items[0], depth)
      case Failure(e) => Failure(e)
      case Success(first) =>
        match CanonicalItems(items[1..], depth)
        case Failure(e) => Failure(e)
        case Success(rest) => Success([first] + rest)
  }

  function CanonicalFields(ghost parent: Value, fields: seq<Field>, depth: nat): (r: Result<seq<Text>, CanonError>)
    requires parent.Obj? && forall f | f in fields :: f in parent.fields
    ensures r.Success? ==> |r.value| == |fields|
    decreases parent, 0, |fields|
  {
    if fields == [] then Success([])
    else
      assert fields[0] in fields;
      match Canonicalize(fields[0].value, depth)
      case Failure(e) => Failure(e)
      case Success(text) =>
        match CanonicalFields(parent, fields[1..], depth)
        case Failure(e) => Failure(e)
        case Success(rest) => Success([Quote(fields[0].key) + ([COLON] + text)] + rest)
  }

  // ---------------------------------------------------------------- when it fails

  ghost predicate Serializable(v: Value) {
    match v
    case Unserializable => false
    case Jsonable(json) => Serializable(json)
    case Arr(items) => forall x | x in items :: Serializable(x)
    case Obj(fields) => forall f | f in fields :: Serializable(f.value)
    case _ => true
  }

  /** How far the deepest node lies below the root; undefined fields are not nodes. */
  function Height(v: Value): nat
    decreases v, 1
  {
    match v
    case Jsonable(json) => 1 + Height(json)
    case Arr(items) => HeightOfItems(items)
    case Obj(fields) => HeightOfFields(v, fields)
    case _ => 0
  }

  function HeightOfItems(items: seq<Value>): nat
    decreases items
  {
    if items == [] then 0 else Max(1 + Height(items[0]), HeightOfItems(items[1..]))
  }

  function HeightOfFields(ghost parent: Value, fields: seq<Field>): nat
    requires parent.Obj? && forall f | f in fields :: f in parent.fields
    decreases parent, 0, |fields|
  {
    if fields == [] then 0
    else
      assert fields[0] in fields;
      if fields[0].value.Undefined? then HeightOfFields(parent, fields[1..])
      else Max(1 + Height(fields[0].value), HeightOfFields(parent, fields[1..]))
  }

  function Max(a: nat, b: nat): nat {
    if a < b then b else a
  }

  /** A height is bounded exactly when every node's is. */
  lemma {:induction false} HeightOfItemsBound(items: seq<Value>, k: nat)
    ensures HeightOfItems(items) <= k <==> forall x | x in items :: 1 + Height(x) <= k
  {
    if items != [] {
      HeightOfItemsBound(items[1..], k);
      assert items[0] in items;
      assert items == [items[0]] + items[1..];
    }
  }

  lemma {:induction false} HeightOfFieldsBound(parent: Value, fields: seq<Field>, k: nat)
    requires parent.Obj? && forall f | f in fields :: f in parent.fields
    ensures HeightOfFields(parent, fields) <= k <==>
            forall f | f in fields && !f.value.Undefined? :: 1 + Height(f.value) <= k
    decreases |fields|
  {
    if fields != [] {
      assert fields[0] in fields;
      HeightOfFieldsBound(parent, fields[1..], k);
      assert fields == [fields[0]] + fields[1..];
    }
  }

  lemma {:induction false} ItemsSucceed(items: seq<Value>, depth: nat)
    ensures CanonicalItems(items, depth).Success? <==> forall x | x in items :: Canonicalize(x, depth).Success?
  {
    if items != [] {
      ItemsSucceed(items[1..], depth);
      assert items[0] in items;
      assert items == [items[0]] + items[1..];
    }
  }

  lemma {:induction false} FieldsSucceed(parent: Value, fields: seq<Field>, depth: nat)
    requires parent.Obj? && forall f | f in fields :: f in parent.fields
    ensures CanonicalFields(parent, fields, depth).Success? <==>
              forall f | f in fields :: Canonicalize(f.value, depth).Success?
    decreases |fields|
  {
    if fields != [] {
      assert fields[0] in fields;
      FieldsSucceed(parent, fields[1..], depth);
      assert fields == [fields[0]] + fields[1..];
    }
  }

  /** What `FailsIffTooDeep` says of the parts of a value at depth `depth`. */
  ghost predicate PartDecided(x: Value, depth: nat) {
    Canonicalize(x, depth + 1).Success? <==> Serializable(x) && 1 + Height(x) <= MAX_CANONICALIZE_DEPTH - depth
  }

  lemma ArrFailsIffTooDeep(items: seq<Value>, depth: nat)
    requires depth <= MAX_CANONICALIZE_DEPTH && forall x | x in items :: PartDecided(x, depth)
    ensures CanonicalItems(items, depth + 1).Success? <==>
              Serializable(Arr(items)) && depth + HeightOfItems(items) <= MAX_CANONICALIZE_DEPTH
  {
    ItemsSucceed(items, depth + 1);
    HeightOfItemsBound(items, MAX_CANONICALIZE_DEPTH - depth);
  }

  lemma ObjFailsIffTooDeep(v: Value, depth: nat)
    requires v.Obj? && depth <= MAX_CANONICALIZE_DEPTH && forall f | f in v.fields :: PartDecided(f.value, depth)
    ensures CanonicalFields(v, SortByKey(Defined(v.fields)), depth + 1).Success? <==>
              Serializable(v) && depth + HeightOfFields(v, v.fields) <= MAX_CANONICALIZE_DEPTH
  {
    var printed, k := SortByKey(Defined(v.fields)), MAX_CANONICALIZE_DEPTH - depth;
    FieldsSucceed(v, printed, depth + 1);
    HeightOfFieldsBound(v, v.fields, k);
    if CanonicalFields(v, printed, depth + 1).Success? {
      forall f | f in v.fields
        ensures Serializable(f.value) && (!f.value.Undefined? ==> 1 + Height(f.value) <= k)
      {
        if !f.value.Undefined? {
          assert f in printed;
        }
      }
    } else {
      var f :| f in printed && !Canonicalize(f.value, depth + 1).Success?;
      assert f in v.fields && !f.value.Undefined?;
      assert PartDecided(f.value, depth);
    }
  }

  /** On values of the serializable kinds it fails exactly when some node lies deeper than 100 levels. */
  lemma {:induction false} FailsIffTooDeep(v: Value, depth: nat)
    ensures Canonicalize(v, depth).Success? <==> Serializable(v) && depth + Height(v) <= 100
    decreases v
  {
    if depth <= MAX_CANONICALIZE_DEPTH {
      if v.Arr? {
        forall x | x in v.items
          ensures PartDecided(x, depth)
        {
          FailsIffTooDeep(x, depth + 1);
        }
        ArrFailsIffTooDeep(v.items, depth);
      } else if v.Obj? {
        forall f | f in v.fields
          ensures PartDecided(f.value, depth)
        {
          FailsIffTooDeep(f.value, depth + 1);
        }
        ObjFailsIffTooDeep(v, depth);
      } else if v.Jsonable? {
        FailsIffTooDeep(v.json, depth + 1);
      }
    }
  }
}
