/** Idempotency keys (src/domain/value-objects/idempotency-key.ts). `upper` stands for `toUpperCase`. */
module IdempotencyKeys {
  import opened Wrappers
  import Doubles
  import opened Unicode
  import opened JsonText
  import opened PercentEncoding
  import opened Texts

  datatype KeyError = MalformedText | UnsafeAmount | EmptyKey | TooLong

  /** A JavaScript number: an integer, or a fraction, an infinity or not a number. */
  datatype Amount = Whole(value: int) | NotWhole

  datatype Charge = Charge(tenantId: Option<Text>, provider: Text, billableType: Text, billableId: Text,
                           reference: Text, amount: Amount, currency: Text)

  datatype Checkout = Checkout(tenantId: Option<Text>, provider: Text, billableType: Text, billableId: Text,
                               price: Text, subscriptionName: Text, reference: Option<Text>)

  datatype Refund = Refund(tenantId: Option<Text>, provider: Text, paymentId: Text, amount: Amount, currency: Text,
                           reference: Option<Text>)

  const MAX_KEY_LENGTH := 512

  const CHARGE: Text := [0x63, 0x68, 0x61, 0x72, 0x67, 0x65]
  const CHECKOUT: Text := [0x63, 0x68, 0x65, 0x63, 0x6B, 0x6F, 0x75, 0x74]
  const REFUND: Text := [0x72, 0x65, 0x66, 0x75, 0x6E, 0x64]

  type Part = Result<Text, KeyError>

  function Segment(value: Text): Part {
    match EncodeComponent(value)
    case None => Failure(MalformedText)
    case Some(t) => Success(t)
  }

  function OrEmpty(value: Option<Text>): Text {
    if value.Some? then value.value else []
  }

  predicate SafeInteger(value: Amount) {
    value.Whole? && Doubles.Safe(value.value)
  }

  function AmountSegment(value: Amount): Part {
    if SafeInteger(value) then Segment(Decimal(value.value)) else Failure(UnsafeAmount)
  }

  /** `IdempotencyKey.of` */
  function Of(value: Text): Result<Text, KeyError> {
    var normalized := Trim(value);
    if normalized == [] then Failure(EmptyKey)
    else if |normalized| > MAX_KEY_LENGTH then Failure(TooLong)
    else Success(normalized)
  }

  /** The segments in order, or the first error. */
  function Collect(parts: seq<Part>): Result<seq<Text>, KeyError> {
    if parts == [] then Success([])
    else match parts[0]
      case Failure(e) => Failure(e)
      case Success(t) =>
        match Collect(parts[1..])
        case Failure(e) => Failure(e)
        case Success(ts) => Success([t] + ts)
  }

  function Build(family: Text, parts: seq<Part>): Result<Text, KeyError> {
    match Collect(parts)
    case Failure(e) => Failure(e)
    case Success(segments) => Of(Join(COLON, [family] + segments))
  }

  function OptionalReference(reference: Option<Text>): seq<Part> {
    if OrEmpty(reference) != [] then [Segment(OrEmpty(reference))] else []
  }

  function ChargeSegments(upper: Text -> Text, p: Charge): seq<Part> {
    [Segment(OrEmpty(p.tenantId)), Segment(p.provider), Segment(p.billableType), Segment(p.billableId),
     Segment(p.reference), AmountSegment(p.amount), Segment(upper(p.currency))]
  }

  function CheckoutSegments(p: Checkout): seq<Part> {
    [Segment(OrEmpty(p.tenantId)), Segment(p.provider), Segment(p.billableType), Segment(p.billableId),
     Segment(p.price), Segment(p.subscriptionName)] + OptionalReference(p.reference)
  }

  function RefundSegments(upper: Text -> Text, p: Refund): seq<Part> {
    [Segment(OrEmpty(p.tenantId)), Segment(p.provider), Segment(p.paymentId), AmountSegment(p.amount),
     Segment(upper(p.currency))] + OptionalReference(p.reference)
  }

  function ForCharge(upper: Text -> Text, p: Charge): Result<Text, KeyError> {
    Build(CHARGE, ChargeSegments(upper, p))
  }

  function ForCheckout(p: Checkout): Result<Text, KeyError> {
    Build(CHECKOUT, CheckoutSegments(p))
  }

  function ForRefund(upper: Text -> Text, p: Refund): Result<Text, KeyError> {
    Build(REFUND, RefundSegments(upper, p))
  }

  // ---------------------------------------------------------------- segments

  /** A part made by `segment`. */
  ghost predicate IsSegment(part: Part) {
    part.Success? ==> Plain(part.value)
  }

  lemma SegmentIsSegment(value: Text)
    ensures IsSegment(Segment(value))
  {
    EncodeComponentPlain(value);
  }

  lemma SegmentInjective(a: Text, b: Text)
    requires Segment(a).Success? && Segment(a) == Segment(b)
    ensures a == b
  {
    EncodeComponentInjective(a, b);
  }

  lemma AmountSegmentInjective(a: Amount, b: Amount)
    requires AmountSegment(a).Success? && AmountSegment(a) == AmountSegment(b)
    ensures a == b
  {
    SegmentInjective(Decimal(a.value), Decimal(b.value));
    ReadDecimal(a.value, []);
    ReadDecimal(b.value, []);
  }

  lemma AmountIsSegment(a: Amount)
    ensures IsSegment(AmountSegment(a))
  {
    if SafeInteger(a) {
      SegmentIsSegment(Decimal(a.value));
    }
  }

  // ---------------------------------------------------------------- keys from segments

  lemma {:induction false} CollectMeans(parts: seq<Part>)
    ensures Collect(parts).Success? <==> forall i | 0 <= i < |parts| :: parts[i].Success?
    ensures Collect(parts).Success? ==>
              |Collect(parts).value| == |parts|
                  && forall i | 0 <= i < |parts| :: parts[i] == Success(Collect(parts).value[i])
  {
    if parts != [] {
      CollectMeans(parts[1..]);
      assert forall i | 1 <= i < |parts| :: parts[i] == parts[1..][i - 1];
    }
  }

  ghost predicate Segments(parts: seq<Part>) {
    forall i | 0 <= i < |parts| :: IsSegment(parts[i])
  }

  /** A family name: not empty, so that no key is, and as plain as a segment. */
  ghost predicate Family(family: Text) {
    family != [] && Plain(family)
  }

  /** Trimming changes nothing, so a key fails only because of a part or of its length,
      and splitting it at the colons gives back the family and the parts. */
  lemma BuildMeans(family: Text, parts: seq<Part>)
    requires Family(family) && Segments(parts)
    ensures Collect(parts).Success? ==>
              var key := Join(COLON, [family] + Collect(parts).value);
              && Trim(key) == key && Split(key) == [family] + Collect(parts).value
              && Build(family, parts) == (if |key| <= MAX_KEY_LENGTH then Success(key) else Failure(TooLong))
  {
    CollectMeans(parts);
    if Collect(parts).Success? {
      var segments := [family] + Collect(parts).value;
      forall s | s in segments ensures Plain(s) {
        var i :| 0 <= i < |segments| && segments[i] == s;
        if i > 0 {
          assert parts[i - 1] == Success(s);
        }
      }
      JoinSolid(segments);
      TrimSolid(Join(COLON, segments));
      SplitJoin(segments);
      JoinNotEmpty(segments);
    }
  }

  lemma JoinNotEmpty(segments: seq<Text>)
    requires segments != [] && segments[0] != []
    ensures Join(COLON, segments) != []
  {
  }

  /** Equal keys have the same family and the same parts. */
  lemma EqualKeysEqualParts(family: Text, parts: seq<Part>, family': Text, parts': seq<Part>)
    requires Family(family) && Segments(parts) && Family(family') && Segments(parts')
    requires Build(family, parts).Success? && Build(family, parts) == Build(family', parts')
    ensures family == family' && parts == parts' && forall i | 0 <= i < |parts| :: parts[i].Success?
  {
    BuildMeans(family, parts);
    BuildMeans(family', parts');
    var segments, segments' := Collect(parts).value, Collect(parts').value;
    assert ([family] + segments)[0] == family && ([family'] + segments')[0] == family';
    assert segments == ([family] + segments)[1..] == ([family'] + segments')[1..] == segments';
    CollectMeans(parts);
    CollectMeans(parts');
  }

  /** A key is built exactly if all its parts are, and it is no longer than 512 units. */
  lemma BuildSucceedsIff(family: Text, parts: seq<Part>)
    requires Family(family) && Segments(parts)
    ensures Build(family, parts).Success? <==>
              Collect(parts).Success? && |Join(COLON, [family] + Collect(parts).value)| <= 512
    ensures Build(family, parts) != Failure(EmptyKey) || Collect(parts) == Failure(EmptyKey)
    ensures Collect(parts).Success? && Build(family, parts).Failure? ==> Build(family, parts) == Failure(TooLong)
  {
    BuildMeans(family, parts);
  }

  /** The first part that fails gives the error. */
  lemma {:induction false} FirstErrorDecides(parts: seq<Part>)
    ensures Collect(parts).Failure? ==>
              exists i | 0 <= i < |parts| ::
                parts[i] == Failure(Collect(parts).error) && forall j | 0 <= j < i :: parts[j].Success?
  {
    if parts != [] && parts[0].Success? {
      FirstErrorDecides(parts[1..]);
      if Collect(parts[1..]).Failure? {
        var i :| 0 <= i < |parts[1..]| && parts[1..][i] == Failure(Collect(parts[1..]).error)
                 && forall j | 0 <= j < i :: parts[1..][j].Success?;
        assert parts[i + 1] == Failure(Collect(parts).error);
        assert forall j | 1 <= j < i + 1 :: parts[j] == parts[1..][j - 1];
      }
    }
  }

  /** A text is usable exactly if it is well-formed; an amount exactly if it is a safe integer. */
  lemma PartsSucceedIff(t: Text, amount: Amount)
    ensures Segment(t) == Failure(MalformedText) <==> !WellFormed(t)
    ensures Segment(t).Success? <==> WellFormed(t)
    ensures AmountSegment(amount).Success? <==>
              amount.Whole? && -9007199254740991 <= amount.value <= 9007199254740991
    ensures AmountSegment(amount).Failure? ==> AmountSegment(amount) == Failure(UnsafeAmount)
  {
    if amount.Whole? {
      AsciiWellFormed(Decimal(amount.value));
    }
  }

  lemma SegmentSpells(t: Text)
    requires Segment(t).Success?
    ensures Spells(Segment(t).value, t)
  {
    ComponentSpells(t);
  }

  /** Splitting a built key at the colons gives back the family and then every part in order. */
  lemma KeySplits(family: Text, parts: seq<Part>)
    requires Family(family) && Segments(parts) && Build(family, parts).Success?
    ensures LinesUp(Split(Build(family, parts).value), family, parts)
  {
    BuildMeans(family, parts);
    CollectMeans(parts);
  }

  ghost predicate LinesUp(split: seq<Text>, family: Text, parts: seq<Part>) {
    && |split| == |parts| + 1 && split[0] == family
    && forall i | 0 <= i < |parts| :: parts[i] == Success(split[i + 1])
  }

  ghost predicate SegmentsOf(parts: seq<Part>, texts: seq<Text>) {
    |texts| == |parts| && forall i | 0 <= i < |texts| :: parts[i] == Segment(texts[i])
  }

  ghost predicate AllSpell(split: seq<Text>, family: Text, texts: seq<Text>) {
    |split| == |texts| + 1 && split[0] == family && forall i | 1 <= i < |split| :: Spells(split[i], texts[i - 1])
  }

  lemma PartsSpell(family: Text, parts: seq<Part>, texts: seq<Text>)
    requires Family(family) && Segments(parts) && Build(family, parts).Success? && SegmentsOf(parts, texts)
    ensures var s := Split(Build(family, parts).value);
            AllSpell(s, family, texts)
  {
    KeySplits(family, parts);
    var s := Split(Build(family, parts).value);
    forall i | 1 <= i < |s|
      ensures Spells(s[i], texts[i - 1])
    {
      assert parts[i - 1] == Success(s[i - 1 + 1]) && parts[i - 1] == Segment(texts[i - 1]);
      SegmentSpells(texts[i - 1]);
    }
  }

  // ---------------------------------------------------------------- the three families

  lemma Families()
    ensures Family(CHARGE) && Family(CHECKOUT) && Family(REFUND)
    ensures CHARGE != CHECKOUT && CHARGE != REFUND && CHECKOUT != REFUND
  {
    assert CHARGE[0] != REFUND[0] && CHECKOUT[0] != REFUND[0];
  }

  lemma ChargeHasSegments(upper: Text -> Text, p: Charge)
    ensures Segments(ChargeSegments(upper, p))
  {
    SegmentIsSegment(OrEmpty(p.tenantId));
    SegmentIsSegment(p.provider);
    SegmentIsSegment(p.billableType);
    SegmentIsSegment(p.billableId);
    SegmentIsSegment(p.reference);
    AmountIsSegment(p.amount);
    SegmentIsSegment(upper(p.currency));
  }

  lemma CheckoutHasSegments(p: Checkout)
    ensures Segments(CheckoutSegments(p))
  {
    SegmentIsSegment(OrEmpty(p.tenantId));
    SegmentIsSegment(p.provider);
    SegmentIsSegment(p.billableType);
    SegmentIsSegment(p.billableId);
    SegmentIsSegment(p.price);
    SegmentIsSegment(p.subscriptionName);
    SegmentIsSegment(OrEmpty(p.reference));
  }

  lemma RefundHasSegments(upper: Text -> Text, p: Refund)
    ensures Segments(RefundSegments(upper, p))
  {
    SegmentIsSegment(OrEmpty(p.tenantId));
    SegmentIsSegment(p.provider);
    SegmentIsSegment(p.paymentId);
    AmountIsSegment(p.amount);
    SegmentIsSegment(upper(p.currency));
    SegmentIsSegment(OrEmpty(p.reference));
  }

  /** The same part of two keys. */
  ghost predicate SamePart(a: Part, b: Part) {
    a.Success? && a == b
  }

  lemma SamePartSameText(a: Text, b: Text)
    requires SamePart(Segment(a), Segment(b))
    ensures a == b
  {
    SegmentInjective(a, b);
  }

  lemma SamePartSameAmount(a: Amount, b: Amount)
    requires SamePart(AmountSegment(a), AmountSegment(b))
    ensures a == b
  {
    AmountSegmentInjective(a, b);
  }

  /** Equal in every part, reading a missing tenant as empty and currencies in upper case. */
  predicate SameCharge(upper: Text -> Text, p: Charge, q: Charge) {
    && OrEmpty(p.tenantId) == OrEmpty(q.tenantId) && upper(p.currency) == upper(q.currency)
    && q == p.(tenantId := q.tenantId, currency := q.currency)
  }

  predicate SameCheckout(p: Checkout, q: Checkout) {
    && OrEmpty(p.tenantId) == OrEmpty(q.tenantId) && OrEmpty(p.reference) == OrEmpty(q.reference)
    && q == p.(tenantId := q.tenantId, reference := q.reference)
  }

  predicate SameRefund(upper: Text -> Text, p: Refund, q: Refund) {
    && OrEmpty(p.tenantId) == OrEmpty(q.tenantId) && OrEmpty(p.reference) == OrEmpty(q.reference)
    && upper(p.currency) == upper(q.currency)
    && q == p.(tenantId := q.tenantId, reference := q.reference, currency := q.currency)
  }

  /** Two charges share a key exactly when they are the same charge. */
  lemma ChargeKeysInjective(upper: Text -> Text, p: Charge, q: Charge)
    requires ForCharge(upper, p).Success?
    ensures ForCharge(upper, p) == ForCharge(upper, q) <==> SameCharge(upper, p, q)
  {
    if ForCharge(upper, p) == ForCharge(upper, q) {
      var a, b := ChargeSegments(upper, p), ChargeSegments(upper, q);
      Families();
      ChargeHasSegments(upper, p);
      ChargeHasSegments(upper, q);
      EqualKeysEqualParts(CHARGE, a, CHARGE, b);
      assert forall i | 0 <= i < |a| :: SamePart(a[i], b[i]);
      SamePartSameText(OrEmpty(p.tenantId), OrEmpty(q.tenantId)) by { assert SamePart(a[0], b[0]); }
      SamePartSameText(p.provider, q.provider) by { assert SamePart(a[1], b[1]); }
      SamePartSameText(p.billableType, q.billableType) by { assert SamePart(a[2], b[2]); }
      SamePartSameText(p.billableId, q.billableId) by { assert SamePart(a[3], b[3]); }
      SamePartSameText(p.reference, q.reference) by { assert SamePart(a[4], b[4]); }
      SamePartSameAmount(p.amount, q.amount) by { assert SamePart(a[5], b[5]); }
      SamePartSameText(upper(p.currency), upper(q.currency)) by { assert SamePart(a[6], b[6]); }
    }
  }

  lemma SameReference(fixed: seq<Part>, fixed': seq<Part>, r: Option<Text>, r': Option<Text>)
    requires |fixed| == |fixed'|
    requires var a := fixed + OptionalReference(r); var b := fixed' + OptionalReference(r');
             a == b && forall i | 0 <= i < |a| :: a[i].Success?
    ensures fixed == fixed' && OrEmpty(r) == OrEmpty(r')
    ensures forall i | 0 <= i < |fixed| :: SamePart(fixed[i], fixed'[i])
  {
    var n := |fixed|;
    var a, b := fixed + OptionalReference(r), fixed' + OptionalReference(r');
    assert fixed == a[..n] == b[..n] == fixed';
    assert forall i | 0 <= i < n :: fixed[i] == a[i];
    assert OptionalReference(r) == a[n..] == b[n..] == OptionalReference(r');
    if OrEmpty(r) != [] {
      assert OptionalReference(r)[0] == a[n];
      SegmentInjective(OrEmpty(r), OrEmpty(r'));
    }
  }

  /** Two checkouts share a key exactly when they are the same checkout. */
  lemma CheckoutKeysInjective(p: Checkout, q: Checkout)
    requires ForCheckout(p).Success?
    ensures ForCheckout(p) == ForCheckout(q) <==> SameCheckout(p, q)
  {
    if ForCheckout(p) == ForCheckout(q) {
      var a, b := CheckoutSegments(p)[..6], CheckoutSegments(q)[..6];
      Families();
      CheckoutHasSegments(p);
      CheckoutHasSegments(q);
      EqualKeysEqualParts(CHECKOUT, CheckoutSegments(p), CHECKOUT, CheckoutSegments(q));
      assert CheckoutSegments(p) == a + OptionalReference(p.reference);
      assert CheckoutSegments(q) == b + OptionalReference(q.reference);
      SameReference(a, b, p.reference, q.reference);
      SamePartSameText(OrEmpty(p.tenantId), OrEmpty(q.tenantId)) by { assert SamePart(a[0], b[0]); }
      SamePartSameText(p.provider, q.provider) by { assert SamePart(a[1], b[1]); }
      SamePartSameText(p.billableType, q.billableType) by { assert SamePart(a[2], b[2]); }
      SamePartSameText(p.billableId, q.billableId) by { assert SamePart(a[3], b[3]); }
      SamePartSameText(p.price, q.price) by { assert SamePart(a[4], b[4]); }
      SamePartSameText(p.subscriptionName, q.subscriptionName) by { assert SamePart(a[5], b[5]); }
    }
  }

  /** Two refunds share a key exactly when they are the same refund. */
  lemma RefundKeysInjective(upper: Text -> Text, p: Refund, q: Refund)
    requires ForRefund(upper, p).Success?
    ensures ForRefund(upper, p) == ForRefund(upper, q) <==> SameRefund(upper, p, q)
  {
    if ForRefund(upper, p) == ForRefund(upper, q) {
      var a, b := RefundSegments(upper, p)[..5], RefundSegments(upper, q)[..5];
      Families();
      RefundHasSegments(upper, p);
      RefundHasSegments(upper, q);
      EqualKeysEqualParts(REFUND, RefundSegments(upper, p), REFUND, RefundSegments(upper, q));
      assert RefundSegments(upper, p) == a + OptionalReference(p.reference);
      assert RefundSegments(upper, q) == b + OptionalReference(q.reference);
      SameReference(a, b, p.reference, q.reference);
      SamePartSameText(OrEmpty(p.tenantId), OrEmpty(q.tenantId)) by { assert SamePart(a[0], b[0]); }
      SamePartSameText(p.provider, q.provider) by { assert SamePart(a[1], b[1]); }
      SamePartSameText(p.paymentId, q.paymentId) by { assert SamePart(a[2], b[2]); }
      SamePartSameAmount(p.amount, q.amount) by { assert SamePart(a[3], b[3]); }
      SamePartSameText(upper(p.currency), upper(q.currency)) by { assert SamePart(a[4], b[4]); }
    }
  }

  /** A charge, a checkout and a refund never share a key. */
  lemma FamiliesNeverCollide(upper: Text -> Text, charge: Charge, checkout: Checkout, refund: Refund)
    ensures ForCharge(upper, charge).Success? ==> ForCharge(upper, charge) != ForCheckout(checkout)
    ensures ForCharge(upper, charge).Success? ==> ForCharge(upper, charge) != ForRefund(upper, refund)
    ensures ForCheckout(checkout).Success? ==> ForCheckout(checkout) != ForRefund(upper, refund)
  {
    Families();
    ChargeHasSegments(upper, charge);
    CheckoutHasSegments(checkout);
    RefundHasSegments(upper, refund);
    var a, b, c := ChargeSegments(upper, charge), CheckoutSegments(checkout), RefundSegments(upper, refund);
    if ForCharge(upper, charge).Success? && ForCharge(upper, charge) == ForCheckout(checkout) {
      EqualKeysEqualParts(CHARGE, a, CHECKOUT, b);
    }
    if ForCharge(upper, charge).Success? && ForCharge(upper, charge) == ForRefund(upper, refund) {
      EqualKeysEqualParts(CHARGE, a, REFUND, c);
    }
    if ForCheckout(checkout).Success? && ForCheckout(checkout) == ForRefund(upper, refund) {
      EqualKeysEqualParts(CHECKOUT, b, REFUND, c);
    }
  }

  // ---------------------------------------------------------------- what a key spells

  /** A charge key reads: charge, then tenant, provider, billable type and id, reference, amount, currency. */
  lemma ChargeKeySpells(upper: Text -> Text, p: Charge)
    requires ForCharge(upper, p).Success?
    ensures var s := Split(ForCharge(upper, p).value);
            && |s| == 8 && s[0] == [0x63, 0x68, 0x61, 0x72, 0x67, 0x65]
            && Spells(s[1], OrEmpty(p.tenantId)) && Spells(s[2], p.provider) && Spells(s[3], p.billableType)
            && Spells(s[4], p.billableId) && Spells(s[5], p.reference)
            && p.amount.Whole? && Spells(s[6], Decimal(p.amount.value)) && Spells(s[7], upper(p.currency))
  {
    var parts := ChargeSegments(upper, p);
    Families();
    ChargeHasSegments(upper, p);
    KeySplits(CHARGE, parts);
    assert parts[5].Success?;
    ChargeTextsOf(upper, p);
    PartsSpell(CHARGE, parts, ChargeTexts(upper, p));
    ChargeReads(upper, Split(ForCharge(upper, p).value), p);
  }

  function ChargeTexts(upper: Text -> Text, p: Charge): seq<Text>
    requires p.amount.Whole?
  {
    [OrEmpty(p.tenantId), p.provider, p.billableType, p.billableId, p.reference, Decimal(p.amount.value),
     upper(p.currency)]
  }

  lemma ChargeTextsOf(upper: Text -> Text, p: Charge)
    requires AmountSegment(p.amount).Success?
    ensures SegmentsOf(ChargeSegments(upper, p), ChargeTexts(upper, p))
  {
  }

  lemma ChargeReads(upper: Text -> Text, s: seq<Text>, p: Charge)
    requires p.amount.Whole? && AllSpell(s, CHARGE, ChargeTexts(upper, p))
    ensures Spells(s[1], OrEmpty(p.tenantId)) && Spells(s[2], p.provider) && Spells(s[3], p.billableType)
    ensures Spells(s[4], p.billableId) && Spells(s[5], p.reference)
    ensures Spells(s[6], Decimal(p.amount.value)) && Spells(s[7], upper(p.currency))
  {
  }

  /** A checkout key reads: checkout, then tenant, provider, billable type and id, price, subscription name, and the
      reference if there is one. */
  lemma CheckoutKeySpells(p: Checkout)
    requires ForCheckout(p).Success?
    ensures var s := Split(ForCheckout(p).value);
            && |s| == (if OrEmpty(p.reference) == [] then 7 else 8)
            && s[0] == [0x63, 0x68, 0x65, 0x63, 0x6B, 0x6F, 0x75, 0x74]
            && Spells(s[1], OrEmpty(p.tenantId)) && Spells(s[2], p.provider) && Spells(s[3], p.billableType)
            && Spells(s[4], p.billableId) && Spells(s[5], p.price) && Spells(s[6], p.subscriptionName)
            && (OrEmpty(p.reference) != [] ==> Spells(s[7], OrEmpty(p.reference)))
  {
    Families();
    CheckoutHasSegments(p);
    CheckoutTextsOf(p);
    PartsSpell(CHECKOUT, CheckoutSegments(p), CheckoutTexts(p));
    CheckoutReads(Split(ForCheckout(p).value), p);
  }

  lemma CheckoutReads(s: seq<Text>, p: Checkout)
    requires AllSpell(s, CHECKOUT, CheckoutTexts(p))
    ensures Spells(s[1], OrEmpty(p.tenantId)) && Spells(s[2], p.provider) && Spells(s[3], p.billableType)
    ensures Spells(s[4], p.billableId) && Spells(s[5], p.price) && Spells(s[6], p.subscriptionName)
    ensures OrEmpty(p.reference) != [] ==> Spells(s[7], OrEmpty(p.reference))
  {
  }

  function CheckoutTexts(p: Checkout): seq<Text> {
    [OrEmpty(p.tenantId), p.provider, p.billableType, p.billableId, p.price, p.subscriptionName]
    + OptionalText(p.reference)
  }

  lemma CheckoutTextsOf(p: Checkout)
    ensures SegmentsOf(CheckoutSegments(p), CheckoutTexts(p))
  {
  }

  /** A refund key reads: refund, then tenant, provider, payment, amount, currency, and the reference if there is
      one. */
  lemma RefundKeySpells(upper: Text -> Text, p: Refund)
    requires ForRefund(upper, p).Success?
    ensures var s := Split(ForRefund(upper, p).value);
            && |s| == (if OrEmpty(p.reference) == [] then 6 else 7)
            && s[0] == [0x72, 0x65, 0x66, 0x75, 0x6E, 0x64]
            && Spells(s[1], OrEmpty(p.tenantId)) && Spells(s[2], p.provider) && Spells(s[3], p.paymentId)
            && p.amount.Whole? && Spells(s[4], Decimal(p.amount.value)) && Spells(s[5], upper(p.currency))
            && (OrEmpty(p.reference) != [] ==> Spells(s[6], OrEmpty(p.reference)))
  {
    var parts := RefundSegments(upper, p);
    Families();
    RefundHasSegments(upper, p);
    KeySplits(REFUND, parts);
    assert parts[3].Success?;
    RefundTextsOf(upper, p);
    PartsSpell(REFUND, parts, RefundTexts(upper, p));
    RefundReads(upper, Split(ForRefund(upper, p).value), p);
  }

  function RefundTexts(upper: Text -> Text, p: Refund): seq<Text>
    requires p.amount.Whole?
  {
    [OrEmpty(p.tenantId), p.provider, p.paymentId, Decimal(p.amount.value), upper(p.currency)]
    + OptionalText(p.reference)
  }

  lemma RefundTextsOf(upper: Text -> Text, p: Refund)
    requires AmountSegment(p.amount).Success?
    ensures SegmentsOf(RefundSegments(upper, p), RefundTexts(upper, p))
  {
  }

  lemma RefundReads(upper: Text -> Text, s: seq<Text>, p: Refund)
    requires p.amount.Whole? && AllSpell(s, REFUND, RefundTexts(upper, p))
    ensures Spells(s[1], OrEmpty(p.tenantId)) && Spells(s[2], p.provider) && Spells(s[3], p.paymentId)
    ensures Spells(s[4], Decimal(p.amount.value)) && Spells(s[5], upper(p.currency))
    ensures OrEmpty(p.reference) != [] ==> Spells(s[6], OrEmpty(p.reference))
  {
  }

  function OptionalText(reference: Option<Text>): seq<Text> {
    if OrEmpty(reference) == [] then [] else [OrEmpty(reference)]
  }
}
