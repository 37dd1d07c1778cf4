/**
 * The few pieces of Java byte and char arithmetic that the form-urlencoded
 * codec relies on: sign extension of a byte, `>>` and `& 0xF` on an int,
 * `ByteArrayOutputStream.write(int)`, and the hexadecimal digit conversions
 * `Character.forDigit`, `Character.toUpperCase` and `Character.digit`.
 */
module JavaBytes {

  /** A byte, represented by its unsigned value. */
  type byte = x: int | 0 <= x < 256

  const SPACE: byte := 32
  const PERCENT: byte := 37
  const PLUS: byte := 43

  /** The upper-case hexadecimal digits, indexed by their value. */
  const UPPER_HEX: string := "0123456789ABCDEF"

  /** The value Java sees when a `byte` is widened to `int`: bit 7 is the sign. */
  function SignedByte(v: byte): (r: int)
    ensures -128 <= r < 128
    ensures r >= 0 <==> v < 128
    ensures r % 256 == v
  {
    if v < 128 then v else v - 256
  }

  /** `ByteArrayOutputStream.write(x)`: only the low-order eight bits of `x` are kept. */
  function WriteByte(x: int): (r: byte)
    ensures (r - x) % 256 == 0
  {
    x % 256
  }

  /**
   * `x >> 4` on a Java int, an arithmetic shift. Dafny's `/` by a positive
   * divisor rounds towards minus infinity, as the shift does.
   */
  function ShiftRight4(x: int): (r: int)
    ensures 16 * r <= x < 16 * r + 16
  {
    x / 16
  }

  /** `x & 0xF` on a Java int in two's complement: the low four bits. */
  function Low4Bits(x: int): (r: int)
    ensures 0 <= r < 16
    ensures (x - r) % 16 == 0
  {
    x % 16
  }

  /**
   * The nibbles the encoder extracts from the sign-extended byte are those of
   * the unsigned value: the high one is `v / 16`, the low one `v % 16`.
   */
  lemma NibblesOfSignedByte(v: byte)
    ensures Low4Bits(ShiftRight4(SignedByte(v))) == v / 16
    ensures Low4Bits(SignedByte(v)) == v % 16
  {
  }

  /**
   * `Character.forDigit(d, 16)`: the hex digit of value `d`, a letter in lower
   * case; the null char when `d` is no hex digit value.
   */
  function ForDigit16(d: int): (c: int)
    ensures 0 <= d < 16 ==> 0 <= c < 128 && IsHexDigit(c) && Digit16(c) == d && !('A' as int <= c <= 'F' as int)
    ensures (d < 0 || d >= 16) ==> c == 0
  {
    if 0 <= d < 10 then '0' as int + d
    else if 10 <= d < 16 then 'a' as int + (d - 10)
    else 0
  }

  /**
   * `Character.toUpperCase` on a 7-bit code point: only `'a'..'z'` change.
   * The encoder applies it only to what `ForDigit16` returns.
   */
  function ToUpperCase(c: int): (r: int)
    ensures 0 <= c < 128 ==> 0 <= r < 128 && !('a' as int <= r <= 'z' as int)
    ensures 0 <= c < 256 && IsHexDigit(c) ==> 0 <= r < 256 && IsHexDigit(r) && Digit16(r) == Digit16(c)
  {
    if 'a' as int <= c <= 'z' as int then c - ('a' as int - 'A' as int) else c
  }

  /** The digit the encoder writes for a nibble: upper-case hexadecimal. */
  lemma UpperHexDigit(d: int)
    requires 0 <= d < 16
    ensures ToUpperCase(ForDigit16(d)) == UPPER_HEX[d] as int
  {
  }

  /** A byte that is an ASCII hexadecimal digit of either case. */
  predicate IsHexDigit(v: byte)
  {
    ('0' as int <= v <= '9' as int) || ('A' as int <= v <= 'F' as int) || ('a' as int <= v <= 'f' as int)
  }

  /**
   * `Character.digit((char) b, 16)` for a byte `b`: the value of a hex digit
   * of either case, or -1. A byte with bit 7 set is sign-extended by the cast
   * and lands in U+FF80..U+FFFF; no character there has a hex digit value
   * (the full-width digits and letters `Character.digit` also accepts lie
   * below U+FF80), so only the ASCII digits count.
   */
  function Digit16(v: byte): (r: int)
    ensures -1 <= r < 16
    ensures r == -1 <==> !IsHexDigit(v)
    ensures r != -1 ==> UPPER_HEX[r] as int == v || ('a' as int <= v <= 'f' as int && UPPER_HEX[r] as int == v - 32)
  {
    if '0' as int <= v <= '9' as int then v - '0' as int
    else if 'A' as int <= v <= 'F' as int then v - 'A' as int + 10
    else if 'a' as int <= v <= 'f' as int then v - 'a' as int + 10
    else -1
  }

  /** Decoding a digit the encoder wrote gives back the nibble. */
  lemma DigitOfUpperHex(d: int)
    requires 0 <= d < 16
    ensures 0 <= UPPER_HEX[d] as int < 128
    ensures Digit16(UPPER_HEX[d] as int) == d
  {
  }

  /** Hex digits decode the same in either case. */
  lemma DigitIgnoresCase(v: byte)
    requires 'a' as int <= v <= 'z' as int
    ensures Digit16(v - 32) == Digit16(v)
  {
  }
}
