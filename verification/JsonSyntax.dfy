/** The characters of RFC 8259, by themselves. */
module JsonSyntax {
  import opened Bits

  const QUOTATION_MARK: byte := '"' as int
  const REVERSE_SOLIDUS: byte := '\\' as int
  const SOLIDUS: byte := '/' as int
  const BEGIN_ARRAY: byte := '[' as int
  const END_ARRAY: byte := ']' as int
  const BEGIN_OBJECT: byte := '{' as int
  const END_OBJECT: byte := '}' as int
  const NAME_SEPARATOR: byte := ':' as int
  const VALUE_SEPARATOR: byte := ',' as int
  const DECIMAL_POINT: byte := '.' as int
  const PLUS_SIGN: byte := '+' as int
  const MINUS_SIGN: byte := '-' as int
  const ZERO: byte := '0' as int

  /** Section 2. */
  predicate WhiteSpace(b: byte) {
    b == 0x20 || b == 0x09 || b == 0x0A || b == 0x0D
  }

  /** Section 6. */
  predicate Decimal(b: byte) {
    '0' as int <= b <= '9' as int
  }

  predicate ExponentLetter(b: byte) {
    b == 'e' as int || b == 'E' as int
  }

  /** Section 7. */
  predicate HexDigit(b: byte) {
    Decimal(b) || 'a' as int <= b <= 'f' as int || 'A' as int <= b <= 'F' as int
  }

  function HexWeight(b: byte): (r: nat)
    requires HexDigit(b)
    ensures r < 0x10
  {
    if Decimal(b) then b - '0' as int
    else if 'a' as int <= b then b - 'a' as int + 10
    else b - 'A' as int + 10
  }

  /** The escapes with one letter. */
  predicate EscapeLetter(c: byte) {
    c == QUOTATION_MARK || c == REVERSE_SOLIDUS || c == SOLIDUS || c == 'b' as int || c == 'f' as int || c == 'n' as int
    || c == 'r' as int || c == 't' as int
  }

  /** What they stand for: a mark or a control character. */
  function EscapeValue(c: byte): byte
    requires EscapeLetter(c)
  {
    if c == 'b' as int then 0x08
    else if c == 't' as int then 0x09
    else if c == 'n' as int then 0x0A
    else if c == 'f' as int then 0x0C
    else if c == 'r' as int then 0x0D
    else c
  }
}
