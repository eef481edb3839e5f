/** Price lookup keys (src/domain/validation/price-lookup-key.ts). */
module LookupKeys {
  import opened Wrappers
  import opened Unicode

  const PRICE_LOOKUP_KEY_MAX_LENGTH := 200
  const PRICE_LOOKUP_KEYS_MAX_ITEMS := 10

  datatype KeyError = NotAString | IllFormed | Empty | TooLong | TooManyItems

  /** The scan over code units accepts exactly the UTF-16 encodings of scalar values. */
  method IsWellFormedUnicode(value: Text) returns (ok: bool)
    ensures ok <==> WellFormed(value)
    ensures ok <==> exists cs :: Encode(cs) == value
  {
    WellFormedIffEncoded(value);
    var index := 0;
    while index < |value|
      invariant 0 <= index <= |value|
      invariant WellFormed(value) <==> WellFormed(value[index..])
    {
      var codeUnit := value[index];
      if codeUnit >= 0xD800 && codeUnit <= 0xDBFF {
        if index + 1 >= |value| || value[index + 1] < 0xDC00 || value[index + 1] > 0xDFFF {
          return false;
        }
        assert value[index..][2..] == value[index + 2..];
        index := index + 1;
      } else if codeUnit >= 0xDC00 && codeUnit <= 0xDFFF {
        return false;
      } else {
        assert value[index..][1..] == value[index + 1..];
      }
      index := index + 1;
    }
    ok := true;
  }

  /** `[...value].length`: the string iterator takes a surrogate pair as one element, anything else unit by unit. */
  function SpreadLength(t: Text): nat {
    if t == [] then 0
    else if FirstLength(t) == 2 then 1 + SpreadLength(t[2..])
    else 1 + SpreadLength(t[1..])
  }

  lemma {:induction false} SpreadCountsScalars(t: Text)
    requires WellFormed(t)
    ensures SpreadLength(t) == |Decode(t)|
  {
    if t != [] {
      SpreadCountsScalars(t[FirstLength(t)..]);
    }
  }

  ghost predicate Acceptable(value: Option<Text>) {
    value.Some? && !Blank(value.value)
    && exists cs :: Encode(cs) == value.value && 1 <= |cs| <= 200
  }

  /** Which error a value meets. */
  ghost predicate Fault(value: Option<Text>, error: KeyError) {
    match error
    case NotAString => value.None?
    case IllFormed => value.Some? && !WellFormed(value.value)
    case Empty => value.Some? && WellFormed(value.value) && Blank(value.value)
    case TooLong =>
      value.Some? && WellFormed(value.value) && !Blank(value.value) && |Decode(value.value)| > 200
    case TooManyItems => false
  }

  /** `validateLookupKey`; None stands for a value that is not a string. */
  method ValidateLookupKey(value: Option<Text>) returns (r: Result<Text, KeyError>)
    ensures r.Success? <==> Acceptable(value)
    ensures r.Success? ==> r.value == value.value
    ensures forall e :: r == Failure(e) <==> Fault(value, e)
  {
    if value.None? {
      return Failure(NotAString);
    }
    var text := value.value;
    AcceptableMeans(text);
    var ok := IsWellFormedUnicode(text);
    if !ok {
      return Failure(IllFormed);
    }
    TrimEmptyIffBlank(text);
    if |text| == 0 || |Trim(text)| == 0 {
      return Failure(Empty);
    }
    SpreadCountsScalars(text);
    if SpreadLength(text) > PRICE_LOOKUP_KEY_MAX_LENGTH {
      return Failure(TooLong);
    }
    r := Success(text);
  }

  lemma AcceptableMeans(t: Text)
    ensures Acceptable(Some(t)) <==> WellFormed(t) && !Blank(t) && 1 <= |Decode(t)| <= PRICE_LOOKUP_KEY_MAX_LENGTH
  {
    if Acceptable(Some(t)) {
      var cs :| Encode(cs) == t && 1 <= |cs| <= PRICE_LOOKUP_KEY_MAX_LENGTH;
      DecodeEncode(cs);
    } else if WellFormed(t) {
      EncodeDecode(t);
    }
  }

  /** The error of the first key that has one. */
  ghost predicate FirstFault(value: seq<Option<Text>>, e: KeyError) {
    exists i | 0 <= i < |value| :: Fault(value[i], e) && forall j | 0 <= j < i :: Acceptable(value[j])
  }

  /** `validateLookupKeys` on an array: at most ten keys, each acceptable, returned as they are. */
  method ValidateLookupKeys(value: seq<Option<Text>>) returns (r: Result<seq<Text>, KeyError>)
    ensures r.Success? <==>
              |value| <= 10 && forall i | 0 <= i < |value| :: Acceptable(value[i])
    ensures r == Failure(TooManyItems) <==> |value| > 10
    ensures r.Failure? && r.error != TooManyItems ==> FirstFault(value, r.error)
    ensures r.Success? ==> |r.value| == |value| && forall i | 0 <= i < |value| :: Some(r.value[i]) == value[i]
  {
    if |value| > PRICE_LOOKUP_KEYS_MAX_ITEMS {
      return Failure(TooManyItems);
    }
    var lookupKeys := [];
    var index := 0;
    while index < |value|
      invariant 0 <= index <= |value| && |lookupKeys| == index
      invariant forall i | 0 <= i < index :: Acceptable(value[i]) && Some(lookupKeys[i]) == value[i]
    {
      var key := ValidateLookupKey(value[index]);
      if key.Failure? {
        return Failure(key.error);
      }
      lookupKeys := lookupKeys + [key.value];
      index := index + 1;
    }
    r := Success(lookupKeys);
  }
}
