# URLCodec: the `application/x-www-form-urlencoded` byte codec, in Dafny

This project models `org.apache.commons.codec.net.URLCodec`, the codec for the
`www-form-urlencoded` scheme of HTML forms (section 17.13.4.1 of the HTML 4.01
Specification): percent-encoding with `+` for space.

- `java_bytes.dfy` (module `JavaBytes`): bytes as unsigned values 0..255, with
  the pieces of Java arithmetic the codec leans on: sign extension of a
  `byte`, `>> 4` and `& 0xF` on an `int`, `ByteArrayOutputStream.write(int)`
  keeping the low eight bits, `Character.forDigit`, `Character.toUpperCase`
  and `Character.digit` in radix 16.
- `form_url_encoding.dfy` (module `FormUrlEncoding`): the specification. The
  default safe set `WWW_FORM_URL`, the encoding `Encode(safe, s)` of a byte
  sequence, the decoding `Decode(s)` (which is `None` on a malformed escape),
  and the lemmas relating them: the round trip and exactly when it holds,
  exactly when decoding fails, lengths, the output alphabet.
- `url_codec.dfy` (module `URLCodec`): the Java code in its own form. The
  static initializer that fills the safe table with loops, the static
  `encodeUrl` and `decodeUrl` loops (over a Java `byte[]`, with the growing
  output buffer as a sequence; `decodeUrl` advances its index inside the body
  as the source's `++i` does), each proved equal to the specification, and
  the class `URLCodec` with its mutable `encoding` field, its constructors and
  the byte-array, string and object overloads of `encode` and `decode`.
- `wrappers.dfy` (module `Wrappers`): `Option`, standing for a Java reference
  that may be null.

A Java `null` byte array is a Dafny `null` array, a `null` safe set or string
is `None`, and a thrown exception is a `Failure` of the `Result` datatype. The
JDK's charset conversions (`String.getBytes(charset)`, `new String(bytes,
charset)`) are not modelled: the string overloads take them as a parameter
(`Charsets`) whose functions either convert or report an unsupported charset.

## Model

| member | source | states |
|---|---|---|
| `JavaBytes.SignedByte` | src/java/org/apache/commons/codec/net/URLCodec.java:126-127 | the widened Java byte is non-negative exactly when the unsigned value is below 128, and keeps the same low eight bits |
| `JavaBytes.WriteByte` | src/java/org/apache/commons/codec/net/URLCodec.java:131 | the byte written to the buffer is the int modulo 256 |
| `JavaBytes.Low4Bits` | src/java/org/apache/commons/codec/net/URLCodec.java:134-137 | `x & 0xF` is a nibble congruent to `x` modulo 16 |
| `JavaBytes.ShiftRight4` | src/java/org/apache/commons/codec/net/URLCodec.java:135 | `x >> 4` is the `r` with `16 * r <= x < 16 * r + 16`: division by 16 rounding towards minus infinity, negative `x` included |
| `JavaBytes.NibblesOfSignedByte` | src/java/org/apache/commons/codec/net/URLCodec.java:134-137 | `(b >> 4) & 0xF` and `b & 0xF` on the sign-extended byte are the high nibble `v / 16` and the low nibble `v % 16` of its unsigned value |
| `JavaBytes.ForDigit16` | src/java/org/apache/commons/codec/net/URLCodec.java:134-137 | `Character.forDigit(d, 16)` gives, for every nibble, a 7-bit hex digit that is not an upper-case letter and whose value is `d`; outside 0..15 it gives the null char |
| `JavaBytes.ToUpperCase` | src/java/org/apache/commons/codec/net/URLCodec.java:134-137 | a 7-bit character upper-cased is 7-bit and no lower-case letter, and a hex digit upper-cased is still a hex digit of the same value |
| `JavaBytes.UpperHexDigit` | src/java/org/apache/commons/codec/net/URLCodec.java:134-137 | upper-casing `forDigit(d, 16)` gives the d-th of `0123456789ABCDEF` |
| `JavaBytes.Digit16` | src/java/org/apache/commons/codec/net/URLCodec.java:168-169 | `Character.digit((char) b, 16)` is -1 exactly for bytes that are no ASCII hex digit, and otherwise the value whose upper-case digit is the byte upper-cased |
| `JavaBytes.DigitOfUpperHex` | src/java/org/apache/commons/codec/net/URLCodec.java:168-169 | the digit the encoder writes for a nibble is 7-bit and decodes back to that nibble |
| `JavaBytes.DigitIgnoresCase` | src/java/org/apache/commons/codec/net/URLCodec.java:168-169 | a lower-case hex letter has the same value as its upper-case form |
| `FormUrlEncoding.WwwFormUrlIsEscapeFree` | src/java/org/apache/commons/codec/net/URLCodec.java:65-87 | the default safe set holds only 7-bit characters, holds space, and holds neither `+` nor `%` |
| `FormUrlEncoding.IsWwwFormUrlChar` | src/java/org/apache/commons/codec/net/URLCodec.java:65-87 | defines the characters of `WWW_FORM_URL` (`a-z`, `A-Z`, `0-9`, `-`, `_`, `.`, `*`, space; `InitWwwFormUrl` is proved to build the same set) and states they are 7-bit and neither `+` nor `%` |
| `FormUrlEncoding.SafeSetOrDefault` | src/java/org/apache/commons/codec/net/URLCodec.java:120-122 | a given safe set is used as it is; a null one selects `WWW_FORM_URL`, which is 7-bit, holds space, and lacks `+` and `%`, so the round trip holds for it (`RoundTripIff`) |
| `FormUrlEncoding.Escape` | src/java/org/apache/commons/codec/net/URLCodec.java:132-139 | an escape is three bytes, `%` then two hex digits, neither a lower-case letter, whose values are the high and the low nibble |
| `FormUrlEncoding.EncodeByte` | src/java/org/apache/commons/codec/net/URLCodec.java:126-140 | defines what the encoder writes for one byte (itself, `+` for space, or its `Escape`); states that it is one byte exactly when the byte is 7-bit and safe, that it is 7-bit, and that it decodes back to the byte when the safe set lacks `+` and `%` |
| `FormUrlEncoding.Encode` | src/java/org/apache/commons/codec/net/URLCodec.java:107-142 | an n-byte input encodes to between n and 3n bytes, all of them 7-bit ASCII |
| `FormUrlEncoding.EncodeConcat` | src/java/org/apache/commons/codec/net/URLCodec.java:125-141 | encoding is byte by byte: the encoding of `a + b` is the encoding of `a` followed by that of `b` |
| `FormUrlEncoding.EncodeAlphabet` | src/java/org/apache/commons/codec/net/URLCodec.java:126-140 | every output byte is a 7-bit safe character other than space, `+`, `%`, or an upper-case hex digit |
| `FormUrlEncoding.EncodeIdentityIff` | src/java/org/apache/commons/codec/net/URLCodec.java:126-131 | encoding leaves the input unchanged exactly when every byte is a 7-bit safe character other than space |
| `FormUrlEncoding.HighByteAlwaysEscaped` | src/java/org/apache/commons/codec/net/URLCodec.java:127-139 | a byte of 128 or more is written as its `%HH` escape whatever the safe set holds, and decodes back |
| `FormUrlEncoding.EncodeExamples` | src/java/org/apache/commons/codec/net/URLCodec.java:115-143 | the empty input encodes to nothing, `a b` to `a+b`, `=` to `%3D`, and 0xFF to `%FF` even under a safe set that lists it |
| `FormUrlEncoding.Decode` | src/java/org/apache/commons/codec/net/URLCodec.java:162-179 | defines the left-to-right decoding (`+` to space, `%` and two hex digits of either case to `16 * u + l`, any other byte copied, a `%` without two hex digits a failure); states that a successful output is no longer than the input and at least a third of it. `DecodeSucceedsIff`, `DecodeLength`, `RoundTripIff` are about it |
| `FormUrlEncoding.DecodeFirst` | src/java/org/apache/commons/codec/net/URLCodec.java:163-179 | one iteration of the decoding loop: what the first byte, or first escape, decodes to, and failure on a short or non-hex escape |
| `FormUrlEncoding.DecodeSucceedsIff` | src/java/org/apache/commons/codec/net/URLCodec.java:162-179 | decoding succeeds exactly when every `%` in the input is followed by two hex digits |
| `FormUrlEncoding.ShiftWellFormed` | src/java/org/apache/commons/codec/net/URLCodec.java:166-169 | after a complete escape or a byte other than `%`, the rest of the input is well formed exactly when the whole is |
| `FormUrlEncoding.DecodeLength` | src/java/org/apache/commons/codec/net/URLCodec.java:162-181 | a decoded output is shorter than its input by two bytes per `%`, and at least a third of its length |
| `FormUrlEncoding.DecodeEscapeIgnoresCase` | src/java/org/apache/commons/codec/net/URLCodec.java:166-173 | an escape decodes the same whether its hex letters are upper or lower case |
| `FormUrlEncoding.DecodeEncodeByte` | src/java/org/apache/commons/codec/net/URLCodec.java:162-179 | what the encoder writes for one byte decodes back to that byte, when the safe set holds neither `+` nor `%` |
| `FormUrlEncoding.RoundTrip` | src/java/org/apache/commons/codec/net/URLCodec.java:115-182 | decoding the encoding of any input gives the input back, for any safe set without `+` and `%` |
| `FormUrlEncoding.DefaultRoundTrip` | src/java/org/apache/commons/codec/net/URLCodec.java:192-208 | with the default safe set, decoding undoes encoding for every byte sequence |
| `FormUrlEncoding.RoundTripIff` | src/java/org/apache/commons/codec/net/URLCodec.java:115-182 | the round trip holds for every input if and only if the safe set holds neither `+` nor `%` |
| `FormUrlEncoding.RoundTripFailsWithPlus` | src/java/org/apache/commons/codec/net/URLCodec.java:164-165 | with `+` in the safe set, the byte `+` encodes to itself and decodes to a space |
| `FormUrlEncoding.RoundTripFailsWithPercent` | src/java/org/apache/commons/codec/net/URLCodec.java:166-176 | with `%` in the safe set, the byte `%` encodes to itself and does not decode |
| `FormUrlEncoding.DecodeExamples` | src/java/org/apache/commons/codec/net/URLCodec.java:155-182 | the empty input decodes to nothing, `a+b` to `a b`, `%3d` and `%3D` both to `=`, and `%3`, `%` and `%GZ` fail |
| `URLCodec.InitWwwFormUrl` | src/java/org/apache/commons/codec/net/URLCodec.java:65-87 | the static initializer's loops set exactly the bits of `a-z`, `A-Z`, `0-9`, `-`, `_`, `.`, `*` and space |
| `URLCodec.EncodeUrl` | src/java/org/apache/commons/codec/net/URLCodec.java:115-143 | null gives null; a null safe set selects the default; otherwise the output is `Encode` of the input, proved from the Java byte arithmetic |
| `URLCodec.JavaEncodeByte` | src/java/org/apache/commons/codec/net/URLCodec.java:126-140 | what one iteration of `encodeUrl` writes, computed with the sign test, shift, mask, `forDigit` and `toUpperCase`, is `EncodeByte` of the byte |
| `URLCodec.DecodeUrl` | src/java/org/apache/commons/codec/net/URLCodec.java:155-182 | null gives null; a malformed escape throws `DecoderException` and returns no bytes; otherwise the output is `Decode` of the input |
| `URLCodec.URLCodec.constructor` | src/java/org/apache/commons/codec/net/URLCodec.java:60-95 | a codec made without a charset uses `UTF-8`, the initial value of the `encoding` field (line 60) that the constructor (lines 93-95) leaves in place |
| `URLCodec.URLCodec.WithEncoding` | src/java/org/apache/commons/codec/net/URLCodec.java:102-105 | a codec made with a charset name keeps it |
| `URLCodec.URLCodec.GetEncoding` | src/java/org/apache/commons/codec/net/URLCodec.java:345-347 | returns the codec's charset name |
| `URLCodec.URLCodec.EncodeBytes` | src/java/org/apache/commons/codec/net/URLCodec.java:192-194 | null gives null; otherwise the default-set encoding, which decodes back to the input |
| `URLCodec.URLCodec.DecodeBytes` | src/java/org/apache/commons/codec/net/URLCodec.java:206-208 | null gives null; `DecoderException` exactly when some `%` lacks two hex digits; otherwise the decoding |
| `URLCodec.URLCodec.EncodeStringAs` | src/java/org/apache/commons/codec/net/URLCodec.java:221-228 | null gives null; an unsupported charset throws `UnsupportedEncodingException`; otherwise the encoding of the string's bytes read as US-ASCII |
| `URLCodec.URLCodec.EncodeString` | src/java/org/apache/commons/codec/net/URLCodec.java:239-248 | as `EncodeStringAs` with the codec's charset, an unsupported charset rethrown as `EncoderException` with the same message |
| `URLCodec.URLCodec.DecodeStringAs` | src/java/org/apache/commons/codec/net/URLCodec.java:263-270 | null gives null; a malformed escape throws `DecoderException`; an unsupported charset `UnsupportedEncodingException`; otherwise the decoded bytes read in the named charset |
| `URLCodec.URLCodec.DecodeString` | src/java/org/apache/commons/codec/net/URLCodec.java:281-290 | as `DecodeStringAs` with the codec's charset, an unsupported charset rethrown as `DecoderException` with the same message |
| `URLCodec.URLCodec.EncodeObject` | src/java/org/apache/commons/codec/net/URLCodec.java:302-314 | null gives null, a byte array and a string are encoded by their overloads, any other type throws `EncoderException` naming the type |
| `URLCodec.URLCodec.DecodeObject` | src/java/org/apache/commons/codec/net/URLCodec.java:326-338 | null gives null, a byte array and a string are decoded by their overloads, any other type throws `DecoderException` naming the type |

## Left out

- Charset conversion: `String.getBytes(charset)` and `new String(bytes, charset)` are JDK calls over charset tables; the string overloads take them as the `Charsets` parameter, so what they return is not modelled, only how their results and failures are used.
- A `null` charset name (on which `String.getBytes` throws before converting anything) is not modelled: charset names are plain strings.
- `WWW_FORM_URL` is a `protected static final BitSet`, whose bits a subclass could change at run time; the model treats it as the constant the static initializer builds.
- The `encoding` field is `protected` and could be reassigned by a subclass; the model sets it only in the constructors.
- Thread-safety of the shared table and of the `encoding` field is not modelled.
- `URLCodec.EncodeUrl`, `URLCodec.DecodeUrl`: do not state that the returned array is a fresh copy (`ByteArrayOutputStream.toByteArray`), only its contents.
- `JavaBytes.ToUpperCase`: models `Character.toUpperCase` on ASCII only, the only characters the encoder passes to it.
- `JavaBytes.Digit16`: models `Character.digit` only on the characters a byte can be cast to (U+0000..U+007F and U+FF80..U+FFFF), where only the ASCII hex digits have a value.
- For `encode(Object)` and `decode(Object)`, the runtime type test is a four-way datatype (null, byte array, string, anything else named by its class name).
