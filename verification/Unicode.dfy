/** UTF-16 text (section 2.1 of RFC 2781), as JavaScript strings hold it: any sequence of code units. */
module Unicode {
  type CodeUnit = x: int | 0 <= x < 0x1_0000
  type Text = seq<CodeUnit>

  /** A Unicode scalar value. */
  type Scalar = x: int | 0 <= x < 0xD800 || 0xE000 <= x < 0x11_0000

  predicate High(u: CodeUnit) {
    0xD800 <= u <= 0xDBFF
  }

  predicate Low(u: CodeUnit) {
    0xDC00 <= u <= 0xDFFF
  }

  function EncodeScalar(c: Scalar): Text {
    if c < 0x1_0000 then [c] else [0xD800 + (c - 0x1_0000) / 0x400, 0xDC00 + (c - 0x1_0000) % 0x400]
  }

  function Encode(cs: seq<Scalar>): Text {
    if cs == [] then [] else EncodeScalar(cs[0]) + Encode(cs[1..])
  }

  /** How many code units the first character takes; 0 if a surrogate stands alone. */
  function FirstLength(t: Text): (n: nat)
    requires t != []
    ensures n <= |t|
  {
    if High(t[0]) then if |t| >= 2 && Low(t[1]) then 2 else 0
    else if Low(t[0]) then 0
    else 1
  }

  function FirstScalar(t: Text): Scalar
    requires t != [] && FirstLength(t) > 0
  {
    var high: int := t[0];
    if FirstLength(t) == 2 then
      var low: int := t[1];
      0x1_0000 + (high - 0xD800) * 0x400 + (low - 0xDC00)
    else high
  }

  predicate WellFormed(t: Text) {
    t == [] || (FirstLength(t) > 0 && WellFormed(t[FirstLength(t)..]))
  }

  function Decode(t: Text): seq<Scalar>
    requires WellFormed(t)
  {
    if t == [] then [] else [FirstScalar(t)] + Decode(t[FirstLength(t)..])
  }

  lemma FirstOfEncoded(c: Scalar, rest: Text)
    ensures var t := EncodeScalar(c) + rest;
            FirstLength(t) == |EncodeScalar(c)| && FirstScalar(t) == c && t[FirstLength(t)..] == rest
  {
  }

  lemma EncodeFirst(t: Text)
    requires t != [] && FirstLength(t) > 0
    ensures EncodeScalar(FirstScalar(t)) == t[..FirstLength(t)]
  {
  }

  lemma {:induction false} DecodeEncode(cs: seq<Scalar>)
    ensures WellFormed(Encode(cs)) && Decode(Encode(cs)) == cs
  {
    if cs != [] {
      FirstOfEncoded(cs[0], Encode(cs[1..]));
      DecodeEncode(cs[1..]);
    }
  }

  lemma {:induction false} EncodeDecode(t: Text)
    requires WellFormed(t)
    ensures Encode(Decode(t)) == t
  {
    if t != [] {
      EncodeFirst(t);
      EncodeDecode(t[FirstLength(t)..]);
      assert t == t[..FirstLength(t)] + t[FirstLength(t)..];
    }
  }

  /** Well-formed text is exactly the encoded text. */
  lemma WellFormedIffEncoded(t: Text)
    ensures WellFormed(t) <==> exists cs :: Encode(cs) == t
  {
    if WellFormed(t) {
      EncodeDecode(t);
    }
    if cs :| Encode(cs) == t {
      DecodeEncode(cs);
    }
  }

  lemma {:induction false} WellFormedConcat(a: Text, b: Text)
    requires WellFormed(a) && WellFormed(b)
    ensures WellFormed(a + b)
    decreases |a|
  {
    if a == [] {
      assert a + b == b;
    } else {
      var n := FirstLength(a);
      WellFormedConcat(a[n..], b);
      assert (a + b)[n..] == a[n..] + b;
    }
  }

  // ---------------------------------------------------------------- trim

  /** White space and line terminators, as `String.prototype.trim` removes them. */
  predicate IsSpace(u: CodeUnit) {
    0x9 <= u <= 0xD || u == 0x20 || u == 0xA0 || u == 0x1680 || 0x2000 <= u <= 0x200A
    || u == 0x2028 || u == 0x2029 || u == 0x202F || u == 0x205F || u == 0x3000 || u == 0xFEFF
  }

  /** Exactly these twenty-five. */
  lemma SpacesAre(u: CodeUnit)
    ensures IsSpace(u) <==> u in {0x9, 0xA, 0xB, 0xC, 0xD, 0x20, 0xA0, 0x1680, 0x2000, 0x2001, 0x2002, 0x2003, 0x2004,
                                  0x2005, 0x2006, 0x2007, 0x2008, 0x2009, 0x200A, 0x2028, 0x2029, 0x202F, 0x205F,
                                  0x3000, 0xFEFF}
  {
  }

  function TrimStart(t: Text): Text {
    if t != [] && IsSpace(t[0]) then TrimStart(t[1..]) else t
  }

  function TrimEnd(t: Text): Text {
    if t != [] && IsSpace(t[|t| - 1]) then TrimEnd(t[..|t| - 1]) else t
  }

  function Trim(t: Text): Text {
    TrimEnd(TrimStart(t))
  }

  predicate Blank(t: Text) {
    forall i | 0 <= i < |t| :: IsSpace(t[i])
  }

  lemma {:induction false} TrimStartBlank(t: Text)
    ensures TrimStart(t) == [] <==> Blank(t)
    ensures TrimStart(t) != [] ==> !IsSpace(TrimStart(t)[0])
  {
    if t != [] && IsSpace(t[0]) {
      TrimStartBlank(t[1..]);
      assert t == [t[0]] + t[1..];
    }
  }

  lemma {:induction false} TrimEndKeeps(t: Text)
    requires t != [] && !IsSpace(t[0])
    ensures TrimEnd(t) != []
  {
    if IsSpace(t[|t| - 1]) {
      TrimEndKeeps(t[..|t| - 1]);
    }
  }

  lemma {:induction false} TrimStartCuts(t: Text) returns (lead: Text)
    ensures t == lead + TrimStart(t) && Blank(lead)
    ensures TrimStart(t) != [] ==> !IsSpace(TrimStart(t)[0])
  {
    if t != [] && IsSpace(t[0]) {
      var rest := TrimStartCuts(t[1..]);
      lead := [t[0]] + rest;
      assert t == [t[0]] + t[1..];
    } else {
      lead := [];
      assert t == [] + t;
    }
  }

  lemma {:induction false} TrimEndCuts(t: Text) returns (tail: Text)
    ensures t == TrimEnd(t) + tail && Blank(tail)
    ensures TrimEnd(t) != [] ==> TrimEnd(t)[0] == t[0] && !IsSpace(TrimEnd(t)[|TrimEnd(t)| - 1])
  {
    if t != [] && IsSpace(t[|t| - 1]) {
      var rest := TrimEndCuts(t[..|t| - 1]);
      tail := rest + [t[|t| - 1]];
      assert t == t[..|t| - 1] + [t[|t| - 1]];
      assert t == TrimEnd(t) + tail;
    } else {
      tail := [];
      assert t == t + [];
    }
  }

  /** Trimming takes white space off both ends, and all of it. */
  lemma TrimCuts(t: Text) returns (lead: Text, tail: Text)
    ensures t == lead + Trim(t) + tail && Blank(lead) && Blank(tail)
    ensures Trim(t) != [] ==> !IsSpace(Trim(t)[0]) && !IsSpace(Trim(t)[|Trim(t)| - 1])
  {
    lead := TrimStartCuts(t);
    tail := TrimEndCuts(TrimStart(t));
    assert lead + (Trim(t) + tail) == lead + Trim(t) + tail;
  }

  lemma TrimEmptyIffBlank(t: Text)
    ensures Trim(t) == [] <==> Blank(t)
  {
    TrimStartBlank(t);
    if TrimStart(t) != [] {
      TrimEndKeeps(TrimStart(t));
    }
  }
}
