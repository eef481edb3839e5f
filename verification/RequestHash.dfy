/** `hashRequest` (src/support/hash/request-hash.ts): the digest of the UTF-8 bytes of the canonical text. */
module RequestHash {
  import opened Wrappers
  import opened Unicode
  import opened Utf8
  import opened JsonText
  import opened Texts
  import opened Canonical
  import opened CanonicalReader

  type Digest = seq<Byte> -> Text

  ghost predicate Injective(digest: Digest) {
    forall a, b :: digest(a) == digest(b) ==> a == b
  }

  function HashRequest(digest: Digest, request: Value): Result<Text, CanonError> {
    match Canonicalize(request, 0)
    case Failure(e) => Failure(e)
    case Success(text) => Success(digest(TextEncode(text)))
  }

  lemma {:induction false} JoinWellFormed(parts: seq<Text>)
    requires forall p | p in parts :: WellFormed(p)
    ensures WellFormed(Join(COMMA, parts))
  {
    if parts != [] {
      assert parts[0] in parts;
      if |parts| > 1 {
        JoinWellFormed(parts[1..]);
        AsciiWellFormed([COMMA]);
        WellFormedConcat([COMMA], Join(COMMA, parts[1..]));
        WellFormedConcat(parts[0], [COMMA] + Join(COMMA, parts[1..]));
      }
    }
  }

  lemma DecimalWellFormed(n: int)
    ensures WellFormed(Decimal(n)) && WellFormed(Decimal(n) + [LETTER_N])
  {
    AsciiWellFormed(Decimal(n));
    AsciiWellFormed(Decimal(n) + [LETTER_N]);
  }

  lemma EnclosedWellFormed(open: CodeUnit, parts: seq<Text>, close: CodeUnit)
    requires open < 0x80 && close < 0x80 && forall p | p in parts :: WellFormed(p)
    ensures WellFormed([open] + (Join(COMMA, parts) + [close]))
  {
    JoinWellFormed(parts);
    AsciiWellFormed([open]);
    AsciiWellFormed([close]);
    WellFormedConcat(Join(COMMA, parts), [close]);
    WellFormedConcat([open], Join(COMMA, parts) + [close]);
  }

  /** Canonical text holds no lone surrogate, so its UTF-8 encoding loses nothing. */
  lemma {:induction false} CanonicalWellFormed(v: Value, depth: nat)
    requires Canonicalize(v, depth).Success?
    ensures WellFormed(Canonicalize(v, depth).value)
    decreases v, 1
  {
    match v
    case Num(n) => DecimalWellFormed(n);
    case BigInt(n) => DecimalWellFormed(n);
    case Str(s) => QuoteWellFormed(s);
    case Undefined => AsciiWellFormed(NULL_TEXT);
    case Null => AsciiWellFormed(NULL_TEXT);
    case Bool(b) => AsciiWellFormed(if b then TRUE_TEXT else FALSE_TEXT);
    case Unserializable =>
    case Jsonable(json) => CanonicalWellFormed(json, depth + 1);
    case Arr(items) =>
      ItemsWellFormed(items, depth + 1);
      EnclosedWellFormed(LBRACKET, CanonicalItems(items, depth + 1).value, RBRACKET);
    case Obj(fields) =>
      FieldsWellFormed(v, SortByKey(Defined(fields)), depth + 1);
      EnclosedWellFormed(LBRACE, CanonicalFields(v, SortByKey(Defined(fields)), depth + 1).value, RBRACE);
  }

  lemma {:induction false} ItemsWellFormed(items: seq<Value>, depth: nat)
    requires CanonicalItems(items, depth).Success?
    ensures forall p | p in CanonicalItems(items, depth).value :: WellFormed(p)
    decreases items
  {
    if items != [] {
      CanonicalWellFormed(items[0], depth);
      ItemsWellFormed(items[1..], depth);
    }
  }

  lemma {:induction false} FieldsWellFormed(parent: Value, fields: seq<Field>, depth: nat)
    requires CanonicalFields.requires(parent, fields, depth) && CanonicalFields(parent, fields, depth).Success?
    ensures forall p | p in CanonicalFields(parent, fields, depth).value :: WellFormed(p)
    decreases parent, 0, |fields|
  {
    if fields != [] {
      assert fields[0] in fields;
      CanonicalWellFormed(fields[0].value, depth);
      FieldsWellFormed(parent, fields[1..], depth);
      QuoteWellFormed(fields[0].key);
      AsciiWellFormed([COLON]);
      var text := Canonicalize(fields[0].value, depth).value;
      WellFormedConcat([COLON], text);
      WellFormedConcat(Quote(fields[0].key), [COLON] + text);
    }
  }

  /** Under an injective digest two requests hash alike exactly when they mean the same. */
  lemma HashDeterminesMeaning(digest: Digest, v: Value, w: Value)
    requires Injective(digest) && Valid(v) && Valid(w)
    requires HashRequest(digest, v).Success? && HashRequest(digest, w).Success?
    ensures HashRequest(digest, v) == HashRequest(digest, w) <==> MeaningOf(v) == MeaningOf(w)
  {
    var a, b := Canonicalize(v, 0).value, Canonicalize(w, 0).value;
    CanonicalTextIsUnambiguous(v, w);
    CanonicalWellFormed(v, 0);
    CanonicalWellFormed(w, 0);
    if TextEncode(a) == TextEncode(b) {
      TextEncodeInjective(a, b);
    }
  }
}
