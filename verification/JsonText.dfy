/** JSON string literals (section 7 of RFC 8259) as `JSON.stringify` writes them, and integers in decimal. */
module JsonText {
  import opened Wrappers
  import opened Unicode
  import opened Texts

  const QUOTE: CodeUnit := 0x22
  const BACKSLASH: CodeUnit := 0x5C
  const MINUS: CodeUnit := 0x2D

  // ---------------------------------------------------------------- strings

  function LowerHex(d: int): CodeUnit
    requires 0 <= d < 16
  {
    HexDigit(d, LOWER_A)
  }

  function UnicodeEscape(u: CodeUnit): Text {
    [BACKSLASH, 0x75, LowerHex(u / 0x1000), LowerHex(u / 0x100 % 0x10), LowerHex(u / 0x10 % 0x10), LowerHex(u % 0x10)]
  }

  /** The letter of a two-character escape. */
  function ShortEscape(u: CodeUnit): Option<CodeUnit> {
    if u == 0x08 then Some(0x62)
    else if u == 0x09 then Some(0x74)
    else if u == 0x0A then Some(0x6E)
    else if u == 0x0C then Some(0x66)
    else if u == 0x0D then Some(0x72)
    else if u == QUOTE || u == BACKSLASH then Some(u)
    else None
  }

  function EscapeUnit(u: CodeUnit): Text {
    if ShortEscape(u).Some? then [BACKSLASH, ShortEscape(u).value]
    else if u < 0x20 then UnicodeEscape(u)
    else [u]
  }

  /** A surrogate that stands alone is escaped. */
  function EscapeSingle(s: Text): Text
    requires s != []
  {
    if FirstLength(s) == 0 then UnicodeEscape(s[0]) else EscapeUnit(s[0])
  }

  /** Surrogate pairs are copied. */
  function Escape(s: Text): Text {
    if s == [] then []
    else if FirstLength(s) == 2 then s[..2] + Escape(s[2..])
    else EscapeSingle(s) + Escape(s[1..])
  }

  function Quote(s: Text): Text {
    [QUOTE] + (Escape(s) + [QUOTE])
  }

  function Unshort(letter: CodeUnit): Option<CodeUnit> {
    if letter == 0x62 then Some(0x08)
    else if letter == 0x74 then Some(0x09)
    else if letter == 0x6E then Some(0x0A)
    else if letter == 0x66 then Some(0x0C)
    else if letter == 0x72 then Some(0x0D)
    else if letter == QUOTE || letter == BACKSLASH then Some(letter)
    else None
  }

  /** Reads one character of a string body: what it stands for, and how much text it takes. */
  function ReadUnit(t: Text): Option<(CodeUnit, nat)> {
    if t == [] || t[0] == QUOTE then None
    else if t[0] != BACKSLASH then Some((t[0], 1))
    else if |t| >= 2 && Unshort(t[1]).Some? then Some((Unshort(t[1]).value, 2))
    else if |t| >= 6 && t[1] == 0x75 then
      match (HexValue(t[2], LOWER_A), HexValue(t[3], LOWER_A), HexValue(t[4], LOWER_A), HexValue(t[5], LOWER_A))
      case (Some(a), Some(b), Some(c), Some(d)) => Some((((a * 0x10 + b) * 0x10 + c) * 0x10 + d, 6))
      case _ => None
    else None
  }

  /** Reads a string body up to and including the closing quote. */
  function ReadBody(t: Text): (r: Option<(Text, Text)>)
    ensures r.Some? ==> |r.value.1| < |t|
    decreases |t|
  {
    if t != [] && t[0] == QUOTE then Some(([], t[1..]))
    else match ReadUnit(t)
      case None => None
      case Some((u, n)) =>
        if n > |t| then None
        else match ReadBody(t[n..])
          case None => None
          case Some((s, rest)) => Some(([u] + s, rest))
  }

  lemma UnicodeEscapeReads(u: CodeUnit, rest: Text)
    ensures ReadUnit(UnicodeEscape(u) + rest) == Some((u, 6))
  {
    var n: int := u;
    assert n / 0x1000 == n / 0x10 / 0x10 / 0x10 && n / 0x100 == n / 0x10 / 0x10;
  }

  lemma EscapeUnitReads(u: CodeUnit, rest: Text)
    ensures ReadUnit(EscapeUnit(u) + rest) == Some((u, |EscapeUnit(u)|))
  {
    if ShortEscape(u).None? && u < 0x20 {
      UnicodeEscapeReads(u, rest);
    }
  }

  lemma ReadBodyStep(chunk: Text, u: CodeUnit, s: Text, tail: Text, rest: Text)
    requires chunk != [] && chunk[0] != QUOTE && ReadUnit(chunk + tail) == Some((u, |chunk|))
    requires ReadBody(tail) == Some((s, rest))
    ensures ReadBody(chunk + tail) == Some(([u] + s, rest))
  {
    assert (chunk + tail)[|chunk|..] == tail;
  }

  lemma ReadPair(s: Text, tail: Text, rest: Text)
    requires s != [] && FirstLength(s) == 2 && ReadBody(tail) == Some((s[2..], rest))
    ensures ReadBody(s[..2] + tail) == Some((s, rest))
  {
    ReadBodyStep([s[1]], s[1], s[2..], tail, rest);
    ReadBodyStep([s[0]], s[0], [s[1]] + s[2..], [s[1]] + tail, rest);
    assert s[..2] + tail == [s[0]] + ([s[1]] + tail);
    assert s == [s[0]] + ([s[1]] + s[2..]);
  }

  lemma ReadSingle(s: Text, tail: Text, rest: Text)
    requires s != [] && FirstLength(s) != 2 && ReadBody(tail) == Some((s[1..], rest))
    ensures ReadBody(EscapeSingle(s) + tail) == Some((s, rest))
  {
    if FirstLength(s) == 0 {
      UnicodeEscapeReads(s[0], tail);
    } else {
      EscapeUnitReads(s[0], tail);
    }
    ReadBodyStep(EscapeSingle(s), s[0], s[1..], tail, rest);
    assert s == [s[0]] + s[1..];
  }

  /** The escapes of the notation: b, t, n, f, r, the quote, the backslash; other controls by number; the rest as is. */
  lemma EscapesAreJson(u: CodeUnit)
    ensures u == 0x08 ==> EscapeUnit(u) == [0x5C, 0x62]
    ensures u == 0x09 ==> EscapeUnit(u) == [0x5C, 0x74]
    ensures u == 0x0A ==> EscapeUnit(u) == [0x5C, 0x6E]
    ensures u == 0x0C ==> EscapeUnit(u) == [0x5C, 0x66]
    ensures u == 0x0D ==> EscapeUnit(u) == [0x5C, 0x72]
    ensures u == 0x22 ==> EscapeUnit(u) == [0x5C, 0x22]
    ensures u == 0x5C ==> EscapeUnit(u) == [0x5C, 0x5C]
    ensures u < 0x08 ==> EscapeUnit(u) == [0x5C, 0x75, 0x30, 0x30, 0x30, 0x30 + u]
    ensures u == 0x1F ==> EscapeUnit(u) == [0x5C, 0x75, 0x30, 0x30, 0x31, 0x66]
    ensures u >= 0x20 && u != 0x22 && u != 0x5C ==> EscapeUnit(u) == [u]
    ensures UnicodeEscape(0xDBFE) == [0x5C, 0x75, 0x64, 0x62, 0x66, 0x65]
  {
  }

  /** Reading undoes escaping. */
  lemma {:induction false} ReadEscaped(s: Text, end: Text)
    requires end != [] && end[0] == QUOTE
    ensures ReadBody(Escape(s) + end) == Some((s, end[1..]))
    decreases |s|
  {
    if s == [] {
      assert Escape(s) + end == end;
    } else if FirstLength(s) == 2 {
      ReadEscaped(s[2..], end);
      ReadPair(s, Escape(s[2..]) + end, end[1..]);
      ConcatAssociative(s[..2], Escape(s[2..]), end);
    } else {
      ReadEscaped(s[1..], end);
      ReadSingle(s, Escape(s[1..]) + end, end[1..]);
      ConcatAssociative(EscapeSingle(s), Escape(s[1..]), end);
    }
  }

  // ---------------------------------------------------------------- well-formed output

  predicate Ascii(t: Text) {
    forall i | 0 <= i < |t| :: t[i] < 0x80
  }

  lemma {:induction false} AsciiWellFormed(t: Text)
    requires Ascii(t)
    ensures WellFormed(t)
  {
    if t != [] {
      AsciiWellFormed(t[1..]);
    }
  }

  /** Whatever the string, its literal is well-formed text. */
  lemma {:induction false} EscapeWellFormed(s: Text)
    ensures WellFormed(Escape(s))
    decreases |s|
  {
    if s != [] {
      var n := if FirstLength(s) == 2 then 2 else 1;
      var chunk := if FirstLength(s) == 2 then s[..2] else EscapeSingle(s);
      EscapeWellFormed(s[n..]);
      if FirstLength(s) == 2 {
        assert chunk[2..] == [];
      } else if FirstLength(s) == 1 && s[0] >= 0x80 {
        assert chunk[1..] == [];
      } else {
        AsciiWellFormed(chunk);
      }
      WellFormedConcat(chunk, Escape(s[n..]));
    }
  }

  lemma QuoteWellFormed(s: Text)
    ensures WellFormed(Quote(s))
  {
    EscapeWellFormed(s);
    AsciiWellFormed([QUOTE]);
    WellFormedConcat(Escape(s), [QUOTE]);
    WellFormedConcat([QUOTE], Escape(s) + [QUOTE]);
  }

  // ---------------------------------------------------------------- integers

  predicate IsDigit(u: CodeUnit) {
    0x30 <= u <= 0x39
  }

  predicate AllDigits(t: Text) {
    forall i | 0 <= i < |t| :: IsDigit(t[i])
  }

  function Digits(n: nat): (t: Text)
    ensures t != [] && AllDigits(t)
  {
    if n < 10 then [0x30 + n] else Digits(n / 10) + [0x30 + n % 10]
  }

  function Decimal(n: int): Text {
    if n < 0 then [MINUS] + Digits(-n) else Digits(n)
  }

  function DigitsValue(t: Text): nat
    requires AllDigits(t)
  {
    if t == [] then 0 else DigitsValue(t[..|t| - 1]) * 10 + (t[|t| - 1] as int - 0x30)
  }

  lemma {:induction false} DigitsValueOfDigits(n: nat)
    ensures DigitsValue(Digits(n)) == n
  {
    if n < 10 {
      assert Digits(n)[..0] == [];
    } else {
      DigitsValueOfDigits(n / 10);
      assert Digits(n)[..|Digits(n)| - 1] == Digits(n / 10);
    }
  }

  /** How many digits a text starts with. */
  function Span(t: Text): (n: nat)
    ensures n <= |t| && AllDigits(t[..n])
  {
    if t == [] || !IsDigit(t[0]) then 0 else 1 + Span(t[1..])
  }

  lemma {:induction false} SpanOfDigits(ds: Text, rest: Text)
    requires AllDigits(ds) && (rest == [] || !IsDigit(rest[0]))
    ensures Span(ds + rest) == |ds|
  {
    if ds == [] {
      assert ds + rest == rest;
    } else {
      SpanOfDigits(ds[1..], rest);
      assert (ds + rest)[1..] == ds[1..] + rest;
    }
  }

  /** Reads an optional sign and the digits that follow: the number and the rest. */
  function ReadInteger(t: Text): (int, Text) {
    if t != [] && t[0] == MINUS then
      var n := Span(t[1..]);
      (0 - DigitsValue(t[1..][..n]), t[1..][n..])
    else
      var n := Span(t);
      (DigitsValue(t[..n]), t[n..])
  }

  lemma ReadDigits(m: nat, rest: Text)
    requires rest == [] || !IsDigit(rest[0])
    ensures var t := Digits(m) + rest;
            Span(t) == |Digits(m)| && t[..Span(t)] == Digits(m) && DigitsValue(t[..Span(t)]) == m
                && t[Span(t)..] == rest
  {
    SpanOfDigits(Digits(m), rest);
    DigitsValueOfDigits(m);
    assert (Digits(m) + rest)[..|Digits(m)|] == Digits(m);
  }

  lemma ReadDecimal(n: int, rest: Text)
    requires rest == [] || !IsDigit(rest[0])
    ensures ReadInteger(Decimal(n) + rest) == (n, rest)
  {
    if n < 0 {
      ReadDigits(-n, rest);
      ConcatAssociative([MINUS], Digits(-n), rest);
      assert ([MINUS] + (Digits(-n) + rest))[1..] == Digits(-n) + rest;
    } else {
      ReadDigits(n, rest);
      assert (Digits(n) + rest)[0] == Digits(n)[0];
    }
  }
}
