/** A reader for canonical text, and the proof that the text determines what was printed. */
module CanonicalReader {
  import opened Wrappers
  import opened Unicode
  import opened JsonText
  import opened Texts
  import opened Canonical

  /** What a value means once key order, undefined fields and undefined-as-null are out of the way. */
  datatype Meaning =
    | NullMeaning | BoolMeaning(b: bool) | NumMeaning(n: int) | BigMeaning(big: int) | StrMeaning(s: Text)
    | ArrMeaning(items: seq<Meaning>) | ObjMeaning(fields: map<Text, Meaning>)

  /** An unserializable value has no meaning of its own; it never prints. */
  function MeaningOf(v: Value): Meaning
    decreases v, 1
  {
    match v
    case Undefined => NullMeaning
    case Null => NullMeaning
    case Unserializable => NullMeaning
    case Bool(b) => BoolMeaning(b)
    case Num(n) => NumMeaning(n)
    case BigInt(n) => BigMeaning(n)
    case Str(s) => StrMeaning(s)
    case Jsonable(json) => MeaningOf(json)
    case Arr(items) => ArrMeaning(MeaningOfItems(items))
    case Obj(fields) => ObjMeaning(MeaningOfFields(v, fields))
  }

  function MeaningOfItems(items: seq<Value>): (r: seq<Meaning>)
    ensures |r| == |items|
    decreases items
  {
    if items == [] then [] else [MeaningOf(items[0])] + MeaningOfItems(items[1..])
  }

  function MeaningOfFields(ghost parent: Value, fields: seq<Field>): map<Text, Meaning>
    requires parent.Obj? && forall f | f in fields :: f in parent.fields
    decreases parent, 0, |fields|
  {
    if fields == [] then map[]
    else
      assert fields[0] in fields;
      var rest := MeaningOfFields(parent, fields[1..]);
      if fields[0].value.Undefined? then rest else rest[fields[0].key := MeaningOf(fields[0].value)]
  }

  // ---------------------------------------------------------------- the reader

  function ReadValue(t: Text): (r: Option<(Meaning, Text)>)
    ensures r.Some? ==> |r.value.1| < |t|
    decreases |t|, 1
  {
    if t == [] then None
    else if t[0] == LETTER_N then if |t| >= 4 then Some((NullMeaning, t[4..])) else None
    else if t[0] == TRUE_TEXT[0] then if |t| >= 4 then Some((BoolMeaning(true), t[4..])) else None
    else if t[0] == FALSE_TEXT[0] then if |t| >= 5 then Some((BoolMeaning(false), t[5..])) else None
    else if t[0] == QUOTE then
      match ReadBody(t[1..])
      case None => None
      case Some((s, rest)) => Some((StrMeaning(s), rest))
    else if t[0] == LBRACKET then
      if |t| >= 2 && t[1] == RBRACKET then Some((ArrMeaning([]), t[2..]))
      else match ReadItems(t[1..])
        case None => None
        case Some((items, rest)) => Some((ArrMeaning(items), rest))
    else if t[0] == LBRACE then
      if |t| >= 2 && t[1] == RBRACE then Some((ObjMeaning(map[]), t[2..]))
      else match ReadFields(t[1..])
        case None => None
        case Some((fields, rest)) => Some((ObjMeaning(fields), rest))
    else ReadNumber(t)
  }

  function ReadNumber(t: Text): (r: Option<(Meaning, Text)>)
    ensures r.Some? ==> |r.value.1| < |t|
  {
    var (n, rest) := ReadInteger(t);
    if |rest| >= |t| then None
    else if rest != [] && rest[0] == LETTER_N then Some((BigMeaning(n), rest[1..]))
    else Some((NumMeaning(n), rest))
  }

  function ReadItems(t: Text): (r: Option<(seq<Meaning>, Text)>)
    ensures r.Some? ==> |r.value.1| < |t|
    decreases |t|, 2
  {
    match ReadValue(t)
    case None => None
    case Some((x, rest)) =>
      if rest == [] then None
      else if rest[0] == RBRACKET then Some(([x], rest[1..]))
      else if rest[0] != COMMA then None
      else match ReadItems(rest[1..])
        case None => None
        case Some((xs, rest')) => Some(([x] + xs, rest'))
  }

  function ReadFields(t: Text): (r: Option<(map<Text, Meaning>, Text)>)
    ensures r.Some? ==> |r.value.1| < |t|
    decreases |t|, 0
  {
    if t == [] || t[0] != QUOTE then None
    else match ReadBody(t[1..])
      case None => None
      case Some((key, rest)) =>
        if rest == [] || rest[0] != COLON then None
        else match ReadValue(rest[1..])
          case None => None
          case Some((x, rest')) =>
            if rest' == [] then None
            else if rest'[0] == RBRACE then Some((map[key := x], rest'[1..]))
            else if rest'[0] != COMMA then None
            else match ReadFields(rest'[1..])
              case None => None
              case Some((m, rest'')) => Some((m[key := x], rest''))
  }

  // ---------------------------------------------------------------- reading undoes printing

  /** What can follow a value inside a canonical text. */
  predicate Delimited(rest: Text) {
    rest == [] || rest[0] == COMMA || rest[0] == RBRACKET || rest[0] == RBRACE
  }

  lemma ReadLiterals(rest: Text)
    ensures ReadValue(NULL_TEXT + rest) == Some((NullMeaning, rest))
    ensures ReadValue(TRUE_TEXT + rest) == Some((BoolMeaning(true), rest))
    ensures ReadValue(FALSE_TEXT + rest) == Some((BoolMeaning(false), rest))
  {
    assert (NULL_TEXT + rest)[4..] == rest && (TRUE_TEXT + rest)[4..] == rest && (FALSE_TEXT + rest)[5..] == rest;
  }

  lemma QuoteTail(s: Text, rest: Text)
    ensures (Quote(s) + rest)[0] == QUOTE
    ensures ReadBody((Quote(s) + rest)[1..]) == Some((s, rest))
  {
    ReadEscaped(s, [QUOTE] + rest);
    ConcatAssociative([QUOTE], Escape(s) + [QUOTE], rest);
    ConcatAssociative(Escape(s), [QUOTE], rest);
    assert ([QUOTE] + rest)[1..] == rest;
    assert ([QUOTE] + (Escape(s) + ([QUOTE] + rest)))[1..] == Escape(s) + ([QUOTE] + rest);
  }

  lemma ReadStr(s: Text, rest: Text)
    ensures ReadValue(Quote(s) + rest) == Some((StrMeaning(s), rest))
  {
    QuoteTail(s, rest);
  }

  lemma ReadNum(n: int, rest: Text)
    requires Delimited(rest)
    ensures ReadValue(Decimal(n) + rest) == Some((NumMeaning(n), rest))
  {
    ReadDecimal(n, rest);
    DecimalStarts(n, rest);
  }

  lemma ReadBig(n: int, rest: Text)
    requires Delimited(rest)
    ensures ReadValue(Decimal(n) + [LETTER_N] + rest) == Some((BigMeaning(n), rest))
  {
    ReadDecimal(n, [LETTER_N] + rest);
    DecimalStarts(n, [LETTER_N] + rest);
    ConcatAssociative(Decimal(n), [LETTER_N], rest);
  }

  lemma DecimalStarts(n: int, rest: Text)
    ensures var t := Decimal(n) + rest; |rest| < |t| && (t[0] == MINUS || IsDigit(t[0]))
  {
  }

  /** Object keys are distinct, at every level. */
  ghost predicate Valid(v: Value) {
    match v
    case Jsonable(json) => Valid(json)
    case Arr(items) => forall x | x in items :: Valid(x)
    case Obj(fields) => DistinctKeys(fields) && forall f | f in fields :: Valid(f.value)
    case _ => true
  }

  ghost predicate DistinctKeys(fields: seq<Field>) {
    forall i, j | 0 <= i < j < |fields| :: fields[i].key != fields[j].key
  }

  /** Every canonical text is read back as the meaning of the value it was printed from. */
  lemma {:induction false} ReadCanonical(v: Value, depth: nat, rest: Text)
    requires Valid(v) && Canonicalize(v, depth).Success? && Delimited(rest)
    ensures ReadValue(Canonicalize(v, depth).value + rest) == Some((MeaningOf(v), rest))
    decreases v, 1
  {
    match v
    case Undefined => ReadLiterals(rest);
    case Null => ReadLiterals(rest);
    case Bool(b) => ReadLiterals(rest);
    case Num(n) => ReadNum(n, rest);
    case BigInt(n) => ReadBig(n, rest);
    case Str(s) => ReadStr(s, rest);
    case Unserializable =>
    case Jsonable(json) => ReadCanonical(json, depth + 1, rest);
    case Arr(items) => ReadArr(items, depth, rest);
    case Obj(fields) => ReadObj(v, depth, rest);
  }

  lemma {:induction false} ReadArr(items: seq<Value>, depth: nat, rest: Text)
    requires (forall x | x in items :: Valid(x)) && CanonicalItems(items, depth + 1).Success?
    ensures ReadValue([LBRACKET] + (Join(COMMA, CanonicalItems(items, depth + 1).value) + [RBRACKET]) + rest)
         == Some((ArrMeaning(MeaningOfItems(items)), rest))
    decreases items, 1
  {
    var body := Join(COMMA, CanonicalItems(items, depth + 1).value);
    if items == [] {
      assert [LBRACKET] + (body + [RBRACKET]) + rest == [LBRACKET, RBRACKET] + rest;
    } else {
      ReadJoinedItems(items, depth + 1, rest);
      ReadBrackets(body, rest, MeaningOfItems(items));
    }
  }

  lemma ReadBrackets(body: Text, rest: Text, items: seq<Meaning>)
    requires ReadItems(body + ([RBRACKET] + rest)) == Some((items, rest))
    ensures ReadValue([LBRACKET] + (body + [RBRACKET]) + rest) == Some((ArrMeaning(items), rest))
  {
    var inner := body + ([RBRACKET] + rest);
    ConcatAssociative([LBRACKET], body + [RBRACKET], rest);
    ConcatAssociative(body, [RBRACKET], rest);
    StartsValue(inner);
    assert ([LBRACKET] + inner)[1..] == inner && ([LBRACKET] + inner)[1] == inner[0];
  }

  /** A closing bracket does not start a value. */
  lemma StartsValue(t: Text)
    requires ReadItems(t).Some?
    ensures t != [] && t[0] != RBRACKET
  {
  }

  lemma {:induction false} ReadJoinedItems(items: seq<Value>, depth: nat, rest: Text)
    requires items != [] && (forall x | x in items :: Valid(x)) && CanonicalItems(items, depth).Success?
    ensures ReadItems(Join(COMMA, CanonicalItems(items, depth).value) + ([RBRACKET] + rest))
            == Some((MeaningOfItems(items), rest))
    decreases items, 0
  {
    assert items[0] in items;
    var first, texts := Canonicalize(items[0], depth).value, CanonicalItems(items, depth).value;
    if |items| == 1 {
      ReadCanonical(items[0], depth, [RBRACKET] + rest);
      assert Join(COMMA, texts) == first && ([RBRACKET] + rest)[1..] == rest;
      assert MeaningOfItems(items) == [MeaningOf(items[0])];
    } else {
      var tail := Join(COMMA, texts[1..]) + ([RBRACKET] + rest);
      ReadJoinedItems(items[1..], depth, rest);
      ReadCanonical(items[0], depth, [COMMA] + tail);
      JoinTail(first, texts[1..], [RBRACKET] + rest);
      assert texts == [first] + texts[1..];
      assert ([COMMA] + tail)[1..] == tail;
    }
  }

  lemma JoinTail(first: Text, others: seq<Text>, end: Text)
    requires others != []
    ensures Join(COMMA, [first] + others) + end == first + ([COMMA] + (Join(COMMA, others) + end))
  {
    assert ([first] + others)[1..] == others;
    ConcatAssociative([COMMA], Join(COMMA, others), end);
    ConcatAssociative(first, [COMMA] + Join(COMMA, others), end);
  }

  lemma {:induction false} ReadObj(v: Value, depth: nat, rest: Text)
    requires v.Obj? && Valid(v) && CanonicalFields(v, SortByKey(Defined(v.fields)), depth + 1).Success?
    ensures var texts := CanonicalFields(v, SortByKey(Defined(v.fields)), depth + 1).value;
            ReadValue([LBRACE] + (Join(COMMA, texts) + [RBRACE]) + rest) == Some((MeaningOf(v), rest))
    decreases v, 0
  {
    var sorted := SortByKey(Defined(v.fields));
    SortedMeansTheSame(v);
    if sorted == [] {
      assert [LBRACE] + (Join(COMMA, CanonicalFields(v, sorted, depth + 1).value) + [RBRACE]) + rest
          == [LBRACE, RBRACE] + rest;
    } else {
      ReadJoinedFields(v, sorted, depth + 1, rest);
      ReadBraces(Join(COMMA, CanonicalFields(v, sorted, depth + 1).value), rest, MeaningOfFields(v, sorted));
    }
  }

  lemma ReadBraces(body: Text, rest: Text, m: map<Text, Meaning>)
    requires ReadFields(body + ([RBRACE] + rest)) == Some((m, rest))
    ensures ReadValue([LBRACE] + (body + [RBRACE]) + rest) == Some((ObjMeaning(m), rest))
  {
    var inner := body + ([RBRACE] + rest);
    ConcatAssociative([LBRACE], body + [RBRACE], rest);
    ConcatAssociative(body, [RBRACE], rest);
    assert inner != [] && inner[0] == QUOTE;
    assert ([LBRACE] + inner)[1..] == inner && ([LBRACE] + inner)[1] == inner[0];
  }

  lemma {:induction false} ReadJoinedFields(parent: Value, fields: seq<Field>, depth: nat, rest: Text)
    requires parent.Obj? && Valid(parent) && fields != [] && CanonicalFields.requires(parent, fields, depth)
    requires CanonicalFields(parent, fields, depth).Success? && (forall f | f in fields :: !f.value.Undefined?)
    ensures ReadFields(Join(COMMA, CanonicalFields(parent, fields, depth).value) + ([RBRACE] + rest))
         == Some((MeaningOfFields(parent, fields), rest))
    decreases parent, 0, |fields|
  {
    assert fields[0] in fields;
    var texts := CanonicalFields(parent, fields, depth).value;
    var f := fields[0];
    var text := Canonicalize(f.value, depth).value;
    if |fields| == 1 {
      ReadCanonical(f.value, depth, [RBRACE] + rest);
      ReadField(f, text, [RBRACE] + rest, MeaningOf(f.value));
      assert Join(COMMA, texts) == texts[0];
    } else {
      var tail := Join(COMMA, texts[1..]) + ([RBRACE] + rest);
      ReadJoinedFields(parent, fields[1..], depth, rest);
      ReadCanonical(f.value, depth, [COMMA] + tail);
      ReadField(f, text, [COMMA] + tail, MeaningOf(f.value));
      JoinTail(texts[0], texts[1..], [RBRACE] + rest);
      assert texts == [texts[0]] + texts[1..];
      assert ([COMMA] + tail)[1..] == tail;
    }
  }

  lemma ReadField(f: Field, text: Text, end: Text, x: Meaning)
    requires ReadValue(text + end) == Some((x, end)) && end != []
    ensures var t := (Quote(f.key) + ([COLON] + text)) + end;
            ReadFields(t) == (if end[0] == RBRACE then Some((map[f.key := x], end[1..]))
                              else if end[0] != COMMA then None
                              else match ReadFields(end[1..])
                                   case None => None
                                   case Some((m, rest)) => Some((m[f.key := x], rest)))
  {
    var t := (Quote(f.key) + ([COLON] + text)) + end;
    ConcatAssociative(Quote(f.key), [COLON] + text, end);
    ConcatAssociative([COLON], text, end);
    QuoteTail(f.key, [COLON] + (text + end));
    assert t[0] == QUOTE;
    assert ([COLON] + (text + end))[1..] == text + end;
  }

  // ---------------------------------------------------------------- key order does not matter

  /** The entries of an object's meaning are its defined fields. */
  lemma {:induction false} MeaningEntries(parent: Value, fields: seq<Field>, k: Text)
    requires MeaningOfFields.requires(parent, fields)
    ensures k in MeaningOfFields(parent, fields) <==> exists f :: f in fields && f.key == k && !f.value.Undefined?
    ensures k in MeaningOfFields(parent, fields) ==>
              exists f :: f in fields && f.key == k && !f.value.Undefined?
                  && MeaningOfFields(parent, fields)[k] == MeaningOf(f.value)
    decreases |fields|
  {
    if fields != [] {
      assert fields[0] in fields;
      MeaningEntries(parent, fields[1..], k);
      assert fields == [fields[0]] + fields[1..];
    }
  }

  lemma SortedMeansTheSame(v: Value)
    requires v.Obj? && DistinctKeys(v.fields)
    ensures MeaningOfFields(v, SortByKey(Defined(v.fields))) == MeaningOfFields(v, v.fields)
  {
    var sorted := SortByKey(Defined(v.fields));
    var a, b := MeaningOfFields(v, sorted), MeaningOfFields(v, v.fields);
    forall k ensures (k in a <==> k in b) && (k in a ==> a[k] == b[k]) {
      MeaningEntries(v, sorted, k);
      MeaningEntries(v, v.fields, k);
    }
  }

  /** Fields in strictly increasing key order. */
  ghost predicate Sorted(fields: seq<Field>) {
    forall i, j | 0 <= i < j < |fields| :: Precedes(fields[i].key, fields[j].key)
  }

  lemma {:induction false} PrecedesTransitive(a: Text, b: Text, c: Text)
    requires Precedes(a, b) && Precedes(b, c)
    ensures Precedes(a, c)
  {
    if a != [] && a[0] == b[0] == c[0] {
      PrecedesTransitive(a[1..], b[1..], c[1..]);
    }
  }

  lemma {:induction false} PrecedesTotal(a: Text, b: Text)
    ensures a == b || Precedes(a, b) || Precedes(b, a)
    ensures !(Precedes(a, b) && Precedes(b, a)) && !Precedes(a, a)
  {
    if a != [] {
      PrecedesTotal(a[1..], if b == [] then [] else b[1..]);
      assert b != [] && a[0] == b[0] && a[1..] == b[1..] ==> a == [a[0]] + a[1..] == b;
    }
  }

  lemma {:induction false} InsertSorted(f: Field, fields: seq<Field>)
    requires Sorted(fields) && forall g | g in fields :: g.key != f.key
    ensures Sorted(Insert(f, fields))
  {
    if fields != [] {
      assert fields[0] in fields;
      assert forall g :: g in fields[1..] ==> g in fields;
      if Precedes(fields[0].key, f.key) {
        InsertSorted(f, fields[1..]);
        var r := Insert(f, fields[1..]);
        forall i | 0 <= i < |r| ensures Precedes(fields[0].key, r[i].key) {
          assert r[i] in r;
        }
      } else {
        PrecedesTotal(f.key, fields[0].key);
        forall i | 0 <= i < |fields| ensures Precedes(f.key, fields[i].key) {
          if i > 0 {
            PrecedesTransitive(f.key, fields[0].key, fields[i].key);
          }
        }
      }
    }
  }

  lemma {:induction false} SortSorts(fields: seq<Field>)
    requires DistinctKeys(fields)
    ensures Sorted(SortByKey(fields))
  {
    if fields != [] {
      SortSorts(fields[1..]);
      InsertSorted(fields[0], SortByKey(fields[1..]));
    }
  }

  lemma {:induction false} DefinedKeepsDistinct(fields: seq<Field>)
    requires DistinctKeys(fields)
    ensures DistinctKeys(Defined(fields))
  {
    if fields != [] {
      DefinedKeepsDistinct(fields[1..]);
      forall f | f in Defined(fields[1..]) ensures f.key != fields[0].key {
        assert f in fields[1..];
      }
    }
  }

  /** Defined fields of an object, in key order. */
  ghost predicate InOrder(v: Value, a: seq<Field>) {
    MeaningOfFields.requires(v, a) && Sorted(a) && forall f | f in a :: !f.value.Undefined?
  }

  lemma InOrderTail(v: Value, a: seq<Field>)
    requires InOrder(v, a) && a != []
    ensures InOrder(v, a[1..]) && a[0] in a
  {
  }

  /** In order, the first key of an object is the least of its meaning. */
  lemma FirstIsLeast(v: Value, a: seq<Field>, k: Text)
    requires MeaningOfFields.requires(v, a) && Sorted(a) && k in MeaningOfFields(v, a)
    ensures a != [] && (k == a[0].key || Precedes(a[0].key, k))
  {
    MeaningEntries(v, a, k);
  }

  lemma FirstKeysAgree(v: Value, a: seq<Field>, w: Value, b: seq<Field>)
    requires InOrder(v, a) && InOrder(w, b) && MeaningOfFields(v, a) == MeaningOfFields(w, b) && a != []
    ensures b != [] && a[0].key == b[0].key && MeaningOf(a[0].value) == MeaningOf(b[0].value)
    ensures MeaningOfFields(v, a[1..]) == MeaningOfFields(w, b[1..])
  {
    assert a[0] in a;
    var m := MeaningOfFields(v, a);
    assert a[0].key in m && m[a[0].key] == MeaningOf(a[0].value);
    FirstIsLeast(w, b, a[0].key);
    assert b[0] in b;
    assert b[0].key in m && m[b[0].key] == MeaningOf(b[0].value);
    FirstIsLeast(v, a, b[0].key);
    PrecedesTotal(a[0].key, b[0].key);
    TailLacksHead(v, a);
    TailLacksHead(w, b);
    assert MeaningOfFields(v, a[1..]) == m - {a[0].key} == MeaningOfFields(w, b[1..]);
  }

  lemma TailLacksHead(v: Value, a: seq<Field>)
    requires MeaningOfFields.requires(v, a) && Sorted(a) && a != []
    ensures a[0].key !in MeaningOfFields(v, a[1..])
  {
    MeaningEntries(v, a[1..], a[0].key);
    PrecedesTotal(a[0].key, a[0].key);
  }

  /** Neither an array, nor an object, nor one that `toJSON` replaces. */
  predicate Scalar(v: Value) {
    !v.Arr? && !v.Obj? && !v.Jsonable?
  }

  lemma SameScalarSameText(v: Value, w: Value, depth: nat, depth': nat)
    requires MeaningOf(v) == MeaningOf(w) && Scalar(v) && !w.Jsonable?
    requires Canonicalize(v, depth).Success? && Canonicalize(w, depth').Success?
    ensures Canonicalize(v, depth) == Canonicalize(w, depth')
  {
    match v
    case Undefined => assert w.Undefined? || w.Null?;
    case Null => assert w.Undefined? || w.Null?;
    case Bool(b) => assert w == v;
    case Num(n) => assert w == v;
    case BigInt(n) => assert w == v;
    case Str(s) => assert w == v;
    case Unserializable =>
  }

  /** Values that mean the same print the same, at whatever depths. */
  lemma {:induction false} SameMeaningSameText(v: Value, w: Value, depth: nat, depth': nat)
    requires Valid(v) && Valid(w) && MeaningOf(v) == MeaningOf(w)
    requires Canonicalize(v, depth).Success? && Canonicalize(w, depth').Success?
    ensures Canonicalize(v, depth) == Canonicalize(w, depth')
    decreases v, 2, w
  {
    if v.Jsonable? {
      SameMeaningSameText(v.json, w, depth + 1, depth');
    } else if w.Jsonable? {
      SameMeaningSameText(v, w.json, depth, depth' + 1);
    } else if v.Arr? {
      assert w.Arr?;
      SameItemsSameText(v.items, w.items, depth + 1, depth' + 1);
    } else if v.Obj? {
      assert w.Obj?;
      SameObjSameText(v, w, depth, depth');
    } else {
      SameScalarSameText(v, w, depth, depth');
    }
  }

  lemma {:induction false} SameObjSameText(v: Value, w: Value, depth: nat, depth': nat)
    requires v.Obj? && w.Obj? && Valid(v) && Valid(w) && MeaningOf(v) == MeaningOf(w)
    requires Canonicalize(v, depth).Success? && Canonicalize(w, depth').Success?
    ensures Canonicalize(v, depth) == Canonicalize(w, depth')
    decreases v, 1
  {
    InKeyOrder(v);
    InKeyOrder(w);
    SameFieldsSameText(v, SortByKey(Defined(v.fields)), w, SortByKey(Defined(w.fields)), depth + 1, depth' + 1);
  }

  lemma InKeyOrder(v: Value)
    requires v.Obj? && Valid(v)
    ensures InOrder(v, SortByKey(Defined(v.fields)))
    ensures MeaningOf(v) == ObjMeaning(MeaningOfFields(v, SortByKey(Defined(v.fields))))
  {
    SortedMeansTheSame(v);
    DefinedKeepsDistinct(v.fields);
    SortSorts(Defined(v.fields));
  }

  lemma {:induction false} SameItemsSameText(a: seq<Value>, b: seq<Value>, depth: nat, depth': nat)
    requires (forall x | x in a :: Valid(x)) && (forall x | x in b :: Valid(x))
    requires MeaningOfItems(a) == MeaningOfItems(b)
    requires CanonicalItems(a, depth).Success? && CanonicalItems(b, depth').Success?
    ensures CanonicalItems(a, depth) == CanonicalItems(b, depth')
    decreases a
  {
    if a != [] {
      assert a[0] in a && b[0] in b;
      assert MeaningOfItems(a)[0] == MeaningOfItems(b)[0];
      SameMeaningSameText(a[0], b[0], depth, depth');
      assert MeaningOfItems(a)[1..] == MeaningOfItems(a[1..]) && MeaningOfItems(b)[1..] == MeaningOfItems(b[1..]);
      SameItemsSameText(a[1..], b[1..], depth, depth');
    }
  }

  lemma {:induction false} SameFieldsSameText(v: Value, a: seq<Field>, w: Value, b: seq<Field>, depth: nat, depth': nat)
    requires Valid(v) && Valid(w) && InOrder(v, a) && InOrder(w, b) && MeaningOfFields(v, a) == MeaningOfFields(w, b)
    requires CanonicalFields(v, a, depth).Success? && CanonicalFields(w, b, depth').Success?
    ensures CanonicalFields(v, a, depth) == CanonicalFields(w, b, depth')
    decreases v, 0, |a|
  {
    if a == [] {
      if b != [] {
        FirstKeysAgree(w, b, v, a);
      }
    } else {
      FirstKeysAgree(v, a, w, b);
      InOrderTail(v, a);
      InOrderTail(w, b);
      FieldsStep(v, a, depth);
      FieldsStep(w, b, depth');
      SameMeaningSameText(a[0].value, b[0].value, depth, depth');
      SameFieldsSameText(v, a[1..], w, b[1..], depth, depth');
    }
  }

  lemma FieldsStep(v: Value, a: seq<Field>, depth: nat)
    requires a != [] && a[0] in a
    requires Valid(v) && InOrder(v, a) && InOrder(v, a[1..]) && CanonicalFields(v, a, depth).Success?
    ensures Valid(a[0].value) && Canonicalize(a[0].value, depth).Success? && CanonicalFields(v, a[1..], depth).Success?
    ensures CanonicalFields(v, a, depth).value
         == [Quote(a[0].key) + ([COLON] + Canonicalize(a[0].value, depth).value)]
             + CanonicalFields(v, a[1..], depth).value
    ensures a[0].value < v
  {
  }

  // ---------------------------------------------------------------- the theorem

  /** Two values print to the same canonical text exactly when they are equal up to key order,
      undefined fields, and undefined read as null. */
  lemma CanonicalTextIsUnambiguous(v: Value, w: Value)
    requires Valid(v) && Valid(w) && Canonicalize(v, 0).Success? && Canonicalize(w, 0).Success?
    ensures Canonicalize(v, 0) == Canonicalize(w, 0) <==> MeaningOf(v) == MeaningOf(w)
  {
    var a, b := Canonicalize(v, 0).value, Canonicalize(w, 0).value;
    ReadCanonical(v, 0, []);
    ReadCanonical(w, 0, []);
    assert a + [] == a && b + [] == b;
    if MeaningOf(v) == MeaningOf(w) {
      SameMeaningSameText(v, w, 0, 0);
    }
  }

  // ---------------------------------------------------------------- what the text looks like

  /** `k` comes before `l`: at the first unit where they differ its unit is smaller, or it ends there. */
  ghost predicate FirstDiffersBelow(k: Text, l: Text) {
    exists n: nat | n <= |k| && n <= |l| ::
      k[..n] == l[..n] && ((n == |k| && n < |l|) || (n < |k| && n < |l| && k[n] < l[n]))
  }

  lemma {:induction false} PrecedesMeans(k: Text, l: Text)
    ensures Precedes(k, l) <==> FirstDiffersBelow(k, l)
  {
    if Precedes(k, l) {
      var n := Difference(k, l);
    }
    if FirstDiffersBelow(k, l) {
      var n: nat :| n <= |k| && n <= |l| && k[..n] == l[..n]
                    && ((n == |k| && n < |l|) || (n < |k| && n < |l| && k[n] < l[n]));
      PrecedesAt(k, l, n);
    }
  }

  lemma {:induction false} Difference(k: Text, l: Text) returns (n: nat)
    requires Precedes(k, l)
    ensures n <= |k| && n <= |l| && k[..n] == l[..n]
    ensures (n == |k| && n < |l|) || (n < |k| && n < |l| && k[n] < l[n])
  {
    if k == [] || k[0] < l[0] {
      n := 0;
    } else {
      n := Difference(k[1..], l[1..]);
      assert k[..n + 1] == [k[0]] + k[1..][..n] && l[..n + 1] == [l[0]] + l[1..][..n];
      n := n + 1;
    }
  }

  lemma {:induction false} PrecedesAt(k: Text, l: Text, n: nat)
    requires n <= |k| && n <= |l| && k[..n] == l[..n]
    requires (n == |k| && n < |l|) || (n < |k| && n < |l| && k[n] < l[n])
    ensures Precedes(k, l)
  {
    if n > 0 {
      assert k[0] == k[..n][0] == l[..n][0] == l[0];
      assert k[1..][..n - 1] == k[..n][1..] == l[..n][1..] == l[1..][..n - 1];
      PrecedesAt(k[1..], l[1..], n - 1);
    }
  }

  /** Of any two entries the one printed earlier has the smaller key, compared unit by unit. */
  lemma EntriesInKeyOrder(fields: seq<Field>, i: nat, j: nat)
    requires DistinctKeys(fields)
    requires i < j < |SortByKey(Defined(fields))|
    ensures var sorted := SortByKey(Defined(fields)); FirstDiffersBelow(sorted[i].key, sorted[j].key)
  {
    var sorted := SortByKey(Defined(fields));
    DefinedKeepsDistinct(fields);
    SortSorts(Defined(fields));
    PrecedesMeans(sorted[i].key, sorted[j].key);
  }

  /** The text of a member: its key as a string literal, a colon, its value. */
  function MemberText(f: Field, depth: nat): Option<Text> {
    match Canonicalize(f.value, depth)
    case Failure(_) => None
    case Success(text) => Some(Quote(f.key) + ([0x3A] + text))
  }

  /** An object prints as `{`, its members in that order with commas between, and `}`; each defined member once. */
  lemma ObjectText(v: Value, depth: nat)
    requires v.Obj? && Canonicalize(v, depth).Success?
    ensures var sorted := SortByKey(Defined(v.fields));
            exists texts: seq<Text> ::
              && |texts| == |sorted| && Canonicalize(v, depth).value == [0x7B] + (Join(0x2C, texts) + [0x7D])
              && forall i | 0 <= i < |sorted| :: MemberText(sorted[i], depth + 1) == Some(texts[i])
    ensures multiset(SortByKey(Defined(v.fields))) == multiset(Defined(v.fields))
  {
    var sorted := SortByKey(Defined(v.fields));
    MemberTexts(v, sorted, depth + 1);
    SortPermutes(Defined(v.fields));
  }

  lemma {:induction false} MemberTexts(parent: Value, fields: seq<Field>, depth: nat)
    requires CanonicalFields.requires(parent, fields, depth) && CanonicalFields(parent, fields, depth).Success?
    ensures var texts := CanonicalFields(parent, fields, depth).value;
            |texts| == |fields| && forall i | 0 <= i < |fields| :: MemberText(fields[i], depth) == Some(texts[i])
    decreases |fields|
  {
    if fields != [] {
      assert fields[0] in fields;
      MemberTexts(parent, fields[1..], depth);
    }
  }

  lemma {:induction false} SortPermutes(fields: seq<Field>)
    ensures multiset(SortByKey(fields)) == multiset(fields)
  {
    if fields != [] {
      SortPermutes(fields[1..]);
      InsertAdds(fields[0], SortByKey(fields[1..]));
      assert fields == [fields[0]] + fields[1..];
    }
  }

  lemma {:induction false} InsertAdds(f: Field, fields: seq<Field>)
    ensures multiset(Insert(f, fields)) == multiset(fields) + multiset{f}
  {
    if fields != [] && Precedes(fields[0].key, f.key) {
      InsertAdds(f, fields[1..]);
    }
    if fields != [] {
      assert fields == [fields[0]] + fields[1..];
    }
  }

  /** An array prints as `[`, its items in order with commas between, and `]`. */
  lemma ArrayText(items: seq<Value>, depth: nat)
    requires Canonicalize(Arr(items), depth).Success?
    ensures exists texts: seq<Text> ::
              && |texts| == |items| && Canonicalize(Arr(items), depth).value == [0x5B] + (Join(0x2C, texts) + [0x5D])
              && forall i | 0 <= i < |items| :: Canonicalize(items[i], depth + 1) == Success(texts[i])
  {
    ItemTexts(items, depth + 1);
  }

  lemma {:induction false} ItemTexts(items: seq<Value>, depth: nat)
    requires CanonicalItems(items, depth).Success?
    ensures var texts := CanonicalItems(items, depth).value;
            |texts| == |items| && forall i | 0 <= i < |items| :: Canonicalize(items[i], depth) == Success(texts[i])
  {
    if items != [] {
      ItemTexts(items[1..], depth);
    }
  }

  /** The words of the notation: null, true, false. */
  lemma WordTexts(depth: nat)
    requires depth <= 100
    ensures Canonicalize(Null, depth) == Canonicalize(Undefined, depth) == Success([0x6E, 0x75, 0x6C, 0x6C])
    ensures Canonicalize(Bool(true), depth) == Success([0x74, 0x72, 0x75, 0x65])
    ensures Canonicalize(Bool(false), depth) == Success([0x66, 0x61, 0x6C, 0x73, 0x65])
  {
  }

  /** Numbers: a digit, a minus sign before one, an `n` after one; longer numbers put the last digit last. */
  lemma NumberTexts(d: nat, m: nat, depth: nat)
    requires 0 < d < 10 && depth <= 100
    ensures Canonicalize(Num(d), depth) == Success([0x30 + d]) && Canonicalize(Num(0), depth) == Success([0x30])
    ensures Canonicalize(Num(0 - d), depth) == Success([0x2D, 0x30 + d])
    ensures Canonicalize(BigInt(d), depth) == Success([0x30 + d, 0x6E])
    ensures m > 0 ==> Decimal(10 * m + d) == Decimal(m) + [0x30 + d] && Decimal(10 * m) == Decimal(m) + [0x30]
  {
    var one: int := 0 - d;
    assert Decimal(one) == [0x2D] + [0x30 + d] == [0x2D, 0x30 + d];
    assert Decimal(d) + [0x6E] == [0x30 + d, 0x6E];
  }

  lemma LetterText(u: CodeUnit)
    requires 0x61 <= u <= 0x7A
    ensures Quote([u]) == [0x22, u, 0x22]
  {
    assert [u][1..] == [];
    assert Escape([u]) == [u];
  }

  lemma SortsTwo(a: Field, b: Field)
    requires Precedes(a.key, b.key) && !a.value.Undefined? && !b.value.Undefined?
    ensures SortByKey(Defined([b, a])) == [a, b]
  {
    assert [b, a][1..] == [a] && [a][1..] == [];
    assert Defined([a]) == [a];
    assert Defined([b, a]) == [b] + [a] == [b, a];
    assert SortByKey([a]) == [a];
    assert Insert(b, [a]) == [a] + Insert(b, []) == [a, b];
  }

  lemma TwoMembers(v: Value, a: Field, b: Field)
    requires v == Obj([b, a]) && a.value.Num? && b.value.Num?
    ensures CanonicalFields(v, [a, b], 1)
         == Success([Quote(a.key) + ([0x3A] + Decimal(a.value.n)), Quote(b.key) + ([0x3A] + Decimal(b.value.n))])
  {
    var first, second := Quote(a.key) + ([0x3A] + Decimal(a.value.n)), Quote(b.key) + ([0x3A] + Decimal(b.value.n));
    OneMember(v, b, [], 1);
    assert CanonicalFields(v, [], 1) == Success([]);
    assert [b] + [] == [b] && [second] + [] == [second];
    OneMember(v, a, [b], 1);
    assert [a] + [b] == [a, b] && [first] + [second] == [first, second];
  }

  /** `"k":m` */
  function LetterDigit(k: CodeUnit, m: SafeInt): Text
    requires 0 <= m < 10
  {
    [0x22, k, 0x22, 0x3A, 0x30 + m]
  }

  lemma BracedPair(k: CodeUnit, l: CodeUnit, m: SafeInt, n: SafeInt)
    requires 0 <= m < 10 && 0 <= n < 10
    ensures [0x7B] + ((LetterDigit(k, m) + ([0x2C] + LetterDigit(l, n))) + [0x7D])
         == [0x7B, 0x22, k, 0x22, 0x3A, 0x30 + m, 0x2C, 0x22, l, 0x22, 0x3A, 0x30 + n, 0x7D]
  {
  }

  lemma TwoKeysInOrder(k: CodeUnit, l: CodeUnit, m: SafeInt, n: SafeInt)
    requires 0x61 <= k < l <= 0x7A && 0 <= m < 10 && 0 <= n < 10
    ensures var v := Obj([Field([l], Num(n)), Field([k], Num(m))]);
            CanonicalFields(v, SortByKey(Defined(v.fields)), 1) == Success([LetterDigit(k, m), LetterDigit(l, n)])
  {
    var a, b := Field([k], Num(m)), Field([l], Num(n));
    SortsTwo(a, b);
    TwoMembers(Obj([b, a]), a, b);
    MemberOf(k, m);
    MemberOf(l, n);
  }

  /** The object {l: n, k: m} prints as {"k":m,"l":n}, for any letters k < l and digits m, n. */
  lemma TwoKeys(k: CodeUnit, l: CodeUnit, m: SafeInt, n: SafeInt)
    requires 0x61 <= k < l <= 0x7A && 0 <= m < 10 && 0 <= n < 10
    ensures Canonicalize(Obj([Field([l], Num(n)), Field([k], Num(m))]), 0)
         == Success([0x7B, 0x22, k, 0x22, 0x3A, 0x30 + m, 0x2C, 0x22, l, 0x22, 0x3A, 0x30 + n, 0x7D])
  {
    TwoKeysInOrder(k, l, m, n);
    ObjectOfTwo(Obj([Field([l], Num(n)), Field([k], Num(m))]), LetterDigit(k, m), LetterDigit(l, n));
    BracedPair(k, l, m, n);
  }

  lemma ObjectOfTwo(v: Value, first: Text, second: Text)
    requires v.Obj? && CanonicalFields(v, SortByKey(Defined(v.fields)), 1) == Success([first, second])
    ensures Canonicalize(v, 0) == Success([0x7B] + ((first + ([0x2C] + second)) + [0x7D]))
  {
    assert [first, second][1..] == [second];
    assert Join(0x2C, [first, second]) == first + ([0x2C] + second);
  }

  lemma MemberOf(k: CodeUnit, m: SafeInt)
    requires 0x61 <= k <= 0x7A && 0 <= m < 10
    ensures Quote([k]) + ([0x3A] + Decimal(m)) == [0x22, k, 0x22, 0x3A, 0x30 + m]
  {
    LetterText(k);
  }

  lemma OneMember(v: Value, f: Field, rest: seq<Field>, depth: nat)
    requires v.Obj? && f in v.fields && (forall g | g in rest :: g in v.fields) && depth <= 100
    requires f.value.Num? && CanonicalFields(v, rest, depth).Success?
    ensures CanonicalFields.requires(v, [f] + rest, depth)
    ensures CanonicalFields(v, [f] + rest, depth)
         == Success([Quote(f.key) + ([0x3A] + Decimal(f.value.n))] + CanonicalFields(v, rest, depth).value)
  {
    assert ([f] + rest)[1..] == rest;
  }
}
