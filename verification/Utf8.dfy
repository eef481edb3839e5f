/** UTF-8 (section 3 of RFC 3629), as `TextEncoder` and `encodeURIComponent` produce it. */
module Utf8 {
  import opened Unicode

  type Byte = x: int | 0 <= x < 0x100

  function Bytes(c: Scalar): seq<Byte> {
    if c < 0x80 then [c]
    else if c < 0x800 then [0xC0 + c / 0x40, 0x80 + c % 0x40]
    else if c < 0x1_0000 then [0xE0 + c / 0x1000, 0x80 + c / 0x40 % 0x40, 0x80 + c % 0x40]
    else [0xF0 + c / 0x4_0000, 0x80 + c / 0x1000 % 0x40, 0x80 + c / 0x40 % 0x40, 0x80 + c % 0x40]
  }

  /** The lead byte alone tells how long the character is. */
  function LengthFromLead(b: Byte): nat {
    if b < 0x80 then 1 else if b < 0xE0 then 2 else if b < 0xF0 then 3 else 4
  }

  /** The number that the bytes of one character spell. */
  function Spelled(bs: seq<Byte>): int
    requires bs != [] && |bs| >= LengthFromLead(bs[0])
  {
    match LengthFromLead(bs[0])
    case 1 => bs[0] as int
    case 2 => (bs[0] as int - 0xC0) * 0x40 + (bs[1] as int - 0x80)
    case 3 => (bs[0] as int - 0xE0) * 0x1000 + (bs[1] as int - 0x80) * 0x40 + (bs[2] as int - 0x80)
    case _ => (bs[0] as int - 0xF0) * 0x4_0000 + (bs[1] as int - 0x80) * 0x1000 + (bs[2] as int - 0x80) * 0x40
              + (bs[3] as int - 0x80)
  }

  lemma BytesSpell(c: Scalar)
    ensures LengthFromLead(Bytes(c)[0]) == |Bytes(c)| && Spelled(Bytes(c)) == c
  {
    var n: int := c;
    Sextets(n);
    if c < 0x80 {
    } else if c < 0x800 {
    } else if c < 0x1_0000 {
    }
  }

  predicate Tail(b: Byte) {
    0x80 <= b < 0xC0
  }

  /** Lead and tail bytes lie in their ranges, and the form is the shortest. */
  lemma BytesAreShortest(c: Scalar)
    ensures var bs := Bytes(c);
            && (forall i | 1 <= i < |bs| :: Tail(bs[i]))
            && match |bs|
               case 1 => bs[0] as int == c < 0x80
               case 2 => 0xC2 <= bs[0] < 0xE0 && 0x80 <= c < 0x800
               case 3 => 0xE0 <= bs[0] < 0xF0 && (bs[0] == 0xE0 ==> bs[1] >= 0xA0) && 0x800 <= c < 0x1_0000
               case 4 => 0xF0 <= bs[0] < 0xF5 && (bs[0] == 0xF0 ==> bs[1] >= 0x90) && 0x1_0000 <= c < 0x11_0000
               case _ => false
  {
    var n: int := c;
    Sextets(n);
  }

  lemma Sextets(n: int)
    ensures n == n / 0x40 * 0x40 + n % 0x40
    ensures n / 0x40 == n / 0x1000 * 0x40 + n / 0x40 % 0x40
    ensures n / 0x1000 == n / 0x4_0000 * 0x40 + n / 0x1000 % 0x40
  {
    assert n / 0x1000 == n / 0x40 / 0x40;
    assert n / 0x4_0000 == n / 0x1000 / 0x40;
  }

  function EncodeUtf8(cs: seq<Scalar>): seq<Byte> {
    if cs == [] then [] else Bytes(cs[0]) + EncodeUtf8(cs[1..])
  }

  /** No two sequences of characters share an encoding. */
  lemma {:induction false} EncodeUtf8Injective(cs: seq<Scalar>, ds: seq<Scalar>)
    requires EncodeUtf8(cs) == EncodeUtf8(ds)
    ensures cs == ds
    decreases |cs|
  {
    if cs != [] && ds != [] {
      var t := EncodeUtf8(cs);
      BytesSpell(cs[0]);
      BytesSpell(ds[0]);
      assert t[0] == Bytes(cs[0])[0] == Bytes(ds[0])[0];
      var n := |Bytes(cs[0])|;
      assert Bytes(cs[0]) == t[..n] == Bytes(ds[0]);
      assert EncodeUtf8(cs[1..]) == t[n..] == EncodeUtf8(ds[1..]);
      EncodeUtf8Injective(cs[1..], ds[1..]);
      assert cs == [cs[0]] + cs[1..] && ds == [ds[0]] + ds[1..];
    }
  }

  /** `TextEncoder.encode`: a surrogate that stands alone is replaced. */
  function Scalars(t: Text): seq<Scalar>
    decreases |t|
  {
    if t == [] then []
    else if FirstLength(t) == 0 then [0xFFFD] + Scalars(t[1..])
    else [FirstScalar(t)] + Scalars(t[FirstLength(t)..])
  }

  lemma {:induction false} ScalarsOfWellFormed(t: Text)
    requires WellFormed(t)
    ensures Scalars(t) == Decode(t)
  {
    if t != [] {
      ScalarsOfWellFormed(t[FirstLength(t)..]);
    }
  }

  function TextEncode(t: Text): seq<Byte> {
    EncodeUtf8(Scalars(t))
  }

  lemma OneCharacter(t: Text)
    requires t != [] && FirstLength(t) == |t|
    ensures TextEncode(t) == Bytes(FirstScalar(t))
  {
    var cs := [FirstScalar(t)];
    assert t[FirstLength(t)..] == [] && Scalars(t) == cs + Scalars([]);
    assert cs[1..] == [] && EncodeUtf8(cs) == Bytes(cs[0]) + [];
  }

  /** One character of each length. */
  lemma SomeBytes()
    ensures TextEncode([0x41]) == [0x41] && TextEncode([0xE9]) == [0xC3, 0xA9]
    ensures TextEncode([0x20AC]) == [0xE2, 0x82, 0xAC]
    ensures TextEncode([0xD83D, 0xDE00]) == [0xF0, 0x9F, 0x98, 0x80]
  {
    OneCharacter([0x41]);
    OneCharacter([0xE9]);
    OneCharacter([0x20AC]);
    OneCharacter([0xD83D, 0xDE00]);
  }

  /** On well-formed text the encoder loses nothing. */
  lemma TextEncodeInjective(t: Text, u: Text)
    requires WellFormed(t) && WellFormed(u) && TextEncode(t) == TextEncode(u)
    ensures t == u
  {
    ScalarsOfWellFormed(t);
    ScalarsOfWellFormed(u);
    EncodeUtf8Injective(Decode(t), Decode(u));
    EncodeDecode(t);
    EncodeDecode(u);
  }
}
