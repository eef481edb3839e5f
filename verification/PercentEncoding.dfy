/** Percent-encoding of text (`encodeURIComponent`, section 2.1 of RFC 3986) and joining with `:`. */
module PercentEncoding {
  import opened Wrappers
  import opened Unicode
  import opened Utf8
  import opened Texts

  const PERCENT: CodeUnit := 0x25

  /** Letters, digits and `- _ . ! ~ * ' ( )`. */
  predicate Unreserved(u: int) {
    0x30 <= u <= 0x39 || 0x41 <= u <= 0x5A || 0x61 <= u <= 0x7A
    || u == 0x2D || u == 0x5F || u == 0x2E || u == 0x21 || u == 0x7E || u == 0x2A || 0x27 <= u <= 0x29
  }

  function EscapeByte(b: Byte): Text {
    [PERCENT, HexDigit(b / 16, UPPER_A), HexDigit(b % 16, UPPER_A)]
  }

  function EscapeBytes(bs: seq<Byte>): Text {
    if bs == [] then [] else EscapeByte(bs[0]) + EscapeBytes(bs[1..])
  }

  function EscapeCharacter(c: Scalar): Text {
    if Unreserved(c) then [c] else EscapeBytes(Bytes(c))
  }

  function EscapeAll(cs: seq<Scalar>): Text {
    if cs == [] then [] else EscapeCharacter(cs[0]) + EscapeAll(cs[1..])
  }

  /** `encodeURIComponent`; None where it throws, because a surrogate stands alone. */
  function EncodeComponent(t: Text): Option<Text> {
    if WellFormed(t) then Some(EscapeAll(Decode(t))) else None
  }

  // ---------------------------------------------------------------- the alphabet of a component

  /** Neither the colon nor any white space is among these. */
  predicate Plain(t: Text) {
    forall i | 0 <= i < |t| :: Unreserved(t[i]) || t[i] == PERCENT
  }

  lemma {:induction false} EscapeBytesPlain(bs: seq<Byte>)
    ensures Plain(EscapeBytes(bs))
  {
    if bs != [] {
      EscapeBytesPlain(bs[1..]);
    }
  }

  lemma {:induction false} EscapeAllPlain(cs: seq<Scalar>)
    ensures Plain(EscapeAll(cs))
  {
    if cs != [] {
      EscapeBytesPlain(Bytes(cs[0]));
      EscapeAllPlain(cs[1..]);
    }
  }

  lemma EncodeComponentPlain(t: Text)
    ensures EncodeComponent(t).Some? ==> Plain(EncodeComponent(t).value)
  {
    if WellFormed(t) {
      EscapeAllPlain(Decode(t));
    }
  }

  // ---------------------------------------------------------------- decoding

  predicate IsHex(u: CodeUnit) {
    HexValue(u, UPPER_A).Some?
  }

  /** The bytes a component stands for: an escape is one byte, any other ASCII character is itself. */
  function Unescape(t: Text): seq<Byte> {
    if t == [] then []
    else if |t| >= 3 && t[0] == PERCENT && IsHex(t[1]) && IsHex(t[2]) then
      [HexValue(t[1], UPPER_A).value * 16 + HexValue(t[2], UPPER_A).value] + Unescape(t[3..])
    else [t[0] % 0x100] + Unescape(t[1..])
  }

  lemma {:induction false} UnescapeBytes(bs: seq<Byte>, rest: Text)
    ensures Unescape(EscapeBytes(bs) + rest) == bs + Unescape(rest)
  {
    if bs == [] {
      assert EscapeBytes(bs) + rest == rest;
    } else {
      UnescapeBytes(bs[1..], rest);
      UnescapeByte(bs[0], EscapeBytes(bs[1..]) + rest);
      ConcatAssociative(EscapeByte(bs[0]), EscapeBytes(bs[1..]), rest);
      ConcatAssociative([bs[0]], bs[1..], Unescape(rest));
      assert [bs[0]] + bs[1..] == bs;
    }
  }

  lemma UnescapeByte(b: Byte, rest: Text)
    ensures Unescape(EscapeByte(b) + rest) == [b] + Unescape(rest)
  {
    var t := EscapeByte(b) + rest;
    assert t[3..] == rest;
    assert HexValue(t[1], UPPER_A) == Some(b / 16) && HexValue(t[2], UPPER_A) == Some(b % 16);
  }

  /** Decoding a component gives back the UTF-8 bytes of what was encoded. */
  lemma {:induction false} UnescapeEscapes(cs: seq<Scalar>)
    ensures Unescape(EscapeAll(cs)) == EncodeUtf8(cs)
  {
    if cs != [] {
      var rest := EscapeAll(cs[1..]);
      UnescapeEscapes(cs[1..]);
      if Unreserved(cs[0]) {
        assert ([cs[0] as CodeUnit] + rest)[1..] == rest;
      } else {
        UnescapeBytes(Bytes(cs[0]), rest);
      }
    }
  }

  lemma EncodeComponentInjective(t: Text, u: Text)
    requires EncodeComponent(t).Some? && EncodeComponent(t) == EncodeComponent(u)
    ensures t == u
  {
    UnescapeEscapes(Decode(t));
    UnescapeEscapes(Decode(u));
    EncodeUtf8Injective(Decode(t), Decode(u));
    EncodeDecode(t);
    EncodeDecode(u);
  }

  /** A segment spells a text: percent-decoding it gives the text's UTF-8 bytes. */
  predicate Spells(segment: Text, t: Text) {
    Unescape(segment) == TextEncode(t)
  }

  lemma ComponentSpells(t: Text)
    requires EncodeComponent(t).Some?
    ensures Spells(EncodeComponent(t).value, t)
  {
    UnescapeEscapes(Decode(t));
    ScalarsOfWellFormed(t);
  }

  /** Text of letters, digits and `- _ . ! ~ * ' ( )` is left as it is. */
  lemma {:induction false} UnreservedStays(t: Text)
    requires forall i | 0 <= i < |t| :: Unreserved(t[i])
    ensures EncodeComponent(t) == Some(t)
  {
    if t != [] {
      UnreservedStays(t[1..]);
      assert t == [t[0]] + t[1..];
    }
  }

  predicate Alphanumeric(ch: char) {
    '0' <= ch <= '9' || 'A' <= ch <= 'Z' || 'a' <= ch <= 'z'
  }

  /** These are the only characters left as they are. */
  lemma LeftAloneIff(c: Scalar)
    ensures EscapeCharacter(c) == [c] <==> c < 0x80 && (Alphanumeric(c as char) || c as char in "-_.!~*'()")
  {
    var marks := "-_.!~*'()";
    assert marks[0] == '-' && marks[1] == '_' && marks[2] == '.' && marks[3] == '!' && marks[4] == '~';
    assert marks[5] == '*' && marks[6] == '\'' && marks[7] == '(' && marks[8] == ')';
    if !Unreserved(c) {
      assert EscapeCharacter(c)[0] == PERCENT;
    }
  }

  /** Any other ASCII character becomes `%` and two upper-case digits: `/` is %2F, and a space is %20. */
  lemma AsciiEscapes(c: Scalar)
    requires c < 0x80 && !Unreserved(c)
    ensures EscapeCharacter(c) == [0x25, HexDigit(c / 16, 0x41), HexDigit(c % 16, 0x41)]
    ensures c == 0x2F ==> EscapeCharacter(c) == [0x25, 0x32, 0x46]
    ensures c == 0x20 ==> EscapeCharacter(c) == [0x25, 0x32, 0x30]
  {
    var b: Byte := c;
    assert Bytes(c) == [b] && [b][1..] == [];
    assert EscapeBytes([b]) == EscapeByte(b) + [];
  }

  // ---------------------------------------------------------------- joining

  function FirstColon(t: Text): (n: nat)
    ensures n <= |t|
  {
    if t == [] || t[0] == COLON then 0 else 1 + FirstColon(t[1..])
  }

  function Split(t: Text): seq<Text> {
    var n := FirstColon(t);
    if n == |t| then [t] else [t[..n]] + Split(t[n + 1..])
  }

  lemma {:induction false} FirstColonAfterPlain(s: Text, rest: Text)
    requires Plain(s) && (rest == [] || rest[0] == COLON)
    ensures FirstColon(s + rest) == |s|
  {
    if s == [] {
      assert s + rest == rest;
    } else {
      FirstColonAfterPlain(s[1..], rest);
      assert (s + rest)[1..] == s[1..] + rest;
    }
  }

  lemma SplitFirst(s: Text, rest: Text)
    requires Plain(s)
    ensures Split(s + ([COLON] + rest)) == [s] + Split(rest)
  {
    var t := s + ([COLON] + rest);
    FirstColonAfterPlain(s, [COLON] + rest);
    assert t[..|s|] == s && t[|s| + 1..] == rest;
  }

  /** Splitting at the colons undoes joining. */
  lemma {:induction false} SplitJoin(segments: seq<Text>)
    requires segments != [] && forall s | s in segments :: Plain(s)
    ensures Split(Join(COLON, segments)) == segments
  {
    var s := segments[0];
    assert s in segments;
    if |segments| == 1 {
      FirstColonAfterPlain(s, []);
      assert s + [] == s;
    } else {
      SplitJoin(segments[1..]);
      SplitFirst(s, Join(COLON, segments[1..]));
      assert [s] + segments[1..] == segments;
    }
  }

  // ---------------------------------------------------------------- nothing to trim

  predicate Solid(t: Text) {
    forall i | 0 <= i < |t| :: !IsSpace(t[i])
  }

  lemma {:induction false} JoinSolid(segments: seq<Text>)
    requires forall s | s in segments :: Plain(s)
    ensures Solid(Join(COLON, segments))
  {
    if segments != [] {
      assert segments[0] in segments;
      JoinSolid(segments[1..]);
    }
  }

  lemma TrimSolid(t: Text)
    requires Solid(t)
    ensures Trim(t) == t
  {
  }
}
