/** Small operations on text shared by the printers and encoders. */
module Texts {
  import opened Wrappers
  import opened Unicode

  const COMMA: CodeUnit := 0x2C
  const COLON: CodeUnit := 0x3A
  const LOWER_A: CodeUnit := 0x61
  const UPPER_A: CodeUnit := 0x41

  /** A hexadecimal digit; `a` is the letter for ten. */
  function HexDigit(d: int, a: CodeUnit): CodeUnit
    requires 0 <= d < 16 && a <= UPPER_A + 0x20
  {
    if d < 10 then 0x30 + d else a + d - 10
  }

  function HexValue(u: CodeUnit, a: CodeUnit): Option<int> {
    if 0x30 <= u <= 0x39 then Some(u as int - 0x30)
    else if a <= u <= a as int + 5 then Some(u as int - a as int + 10)
    else None
  }

  /** `Array.prototype.join` */
  function Join(separator: CodeUnit, parts: seq<Text>): Text {
    if parts == [] then []
    else if |parts| == 1 then parts[0]
    else parts[0] + ([separator] + Join(separator, parts[1..]))
  }

  lemma ConcatAssociative<T>(a: seq<T>, b: seq<T>, c: seq<T>)
    ensures (a + b) + c == a + (b + c)
  {
  }
}
