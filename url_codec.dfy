/**
 * The `URLCodec` class of the `org.apache.commons.codec.net` package: the
 * static initializer of the default safe table, the static `encodeUrl` and
 * `decodeUrl` loops, and the instance overloads for byte arrays, strings and
 * objects. Each loop is proved against the specification in FormUrlEncoding.
 */
module URLCodec {
  import opened Wrappers
  import opened JavaBytes
  import opened FormUrlEncoding

  /** The exceptions the codec throws or lets through. */
  datatype Exception =
    | DecoderException(message: string)
    | EncoderException(message: string)
    | UnsupportedEncodingException(message: string)

  /** A value returned normally, or an exception thrown. */
  datatype Result<T> = Success(value: T) | Failure(error: Exception)

  const US_ASCII: string := "US-ASCII"
  const DEFAULT_ENCODING: string := "UTF-8"
  const INVALID_URL_ENCODING: string := "Invalid URL encoding"

  /**
   * The static initializer: sets the bits of `a-z`, `A-Z`, `0-9`, `-`, `_`,
   * `.`, `*` and space in a fresh table.
   */
  method InitWwwFormUrl() returns (bits: set<int>)
    ensures bits == WWW_FORM_URL
  {
    bits := {};
    for i := 'a' as int to 'z' as int + 1
      invariant forall c :: c in bits <==> 'a' as int <= c < i
    {
      bits := bits + {i};
    }
    for i := 'A' as int to 'Z' as int + 1
      invariant forall c :: c in bits <==> 'a' as int <= c <= 'z' as int || 'A' as int <= c < i
    {
      bits := bits + {i};
    }
    for i := '0' as int to '9' as int + 1
      invariant forall c :: c in bits <==>
        'a' as int <= c <= 'z' as int || 'A' as int <= c <= 'Z' as int || '0' as int <= c < i
    {
      bits := bits + {i};
    }
    bits := bits + {'-' as int};
    bits := bits + {'_' as int};
    bits := bits + {'.' as int};
    bits := bits + {'*' as int};
    bits := bits + {' ' as int};
    assert forall c :: c in bits <==> c in WWW_FORM_URL;
  }

  /**
   * `encodeUrl`: a null array gives null; a null safe set means the default
   * one. A byte that is non-negative as a Java byte and in the safe set is
   * written as itself (space as `+`); any other byte as `%` and the upper-case
   * hex digits of its two nibbles.
   */
  method EncodeUrl(urlsafe: Option<set<int>>, pArray: array?<byte>) returns (r: array?<byte>)
    ensures r == null <==> pArray == null
    ensures pArray != null ==> r[..] == Encode(SafeSetOrDefault(urlsafe), pArray[..])
  {
    if pArray == null {
      return null;
    }
    var safe := if urlsafe.None? then WWW_FORM_URL else urlsafe.value;
    var buffer: seq<byte> := [];
    for i := 0 to pArray.Length
      invariant buffer == Encode(safe, pArray[..i])
    {
      var b := SignedByte(pArray[i]);
      var written: seq<byte>;
      if b >= 0 && b in safe {
        if b == SPACE {
          b := PLUS;
        }
        written := [WriteByte(b)];
      } else {
        var hex1 := ToUpperCase(ForDigit16(Low4Bits(ShiftRight4(b))));
        var hex2 := ToUpperCase(ForDigit16(Low4Bits(b)));
        written := [PERCENT, WriteByte(hex1), WriteByte(hex2)];
      }
      JavaEncodeByte(safe, pArray[i]);
      buffer := buffer + written;
      EncodeAppend(safe, pArray[..i], pArray[i]);
      assert pArray[..i + 1] == pArray[..i] + [pArray[i]];
    }
    assert pArray[..pArray.Length] == pArray[..];
    r := new byte[|buffer|](k requires 0 <= k < |buffer| => buffer[k]);
  }

  /**
   * What one iteration of the encoder's loop writes for the byte `v`, computed
   * from its sign-extended value, is `EncodeByte(safe, v)`.
   */
  lemma JavaEncodeByte(safe: set<int>, v: byte)
    ensures var b := SignedByte(v);
      (if b >= 0 && b in safe then [WriteByte(if b == SPACE then PLUS else b)]
       else [PERCENT, WriteByte(ToUpperCase(ForDigit16(Low4Bits(ShiftRight4(b))))),
             WriteByte(ToUpperCase(ForDigit16(Low4Bits(b))))])
      == EncodeByte(safe, v)
  {
    NibblesOfSignedByte(v);
    UpperHexDigit(v / 16);
    UpperHexDigit(v % 16);
  }

  /**
   * `decodeUrl`: a null array gives null. Scanning left to right, `+` gives a
   * space, `%` and two hex digits give one byte, and any other byte is copied.
   * A `%` with fewer than two bytes after it, or followed by a byte that is
   * not a hex digit, throws `DecoderException` and nothing is returned.
   */
  method DecodeUrl(pArray: array?<byte>) returns (r: Result<array?<byte>>)
    ensures pArray == null ==> r == Success(null)
    ensures pArray != null && Decode(pArray[..]).None? ==> r == Failure(DecoderException(INVALID_URL_ENCODING))
    ensures pArray != null && Decode(pArray[..]).Some? ==>
      r.Success? && r.value != null && r.value[..] == Decode(pArray[..]).value
  {
    if pArray == null {
      return Success(null);
    }
    var buffer: seq<byte> := [];
    var i := 0;
    PrependNothing(Decode(pArray[..]));
    assert pArray[0..] == pArray[..];
    while i < pArray.Length
      invariant 0 <= i <= pArray.Length
      invariant Decode(pArray[..]) == PrependAll(buffer, Decode(pArray[i..]))
    {
      ghost var rest := pArray[i..];
      ghost var before := buffer;
      DecodeFirst(rest);
      var b := SignedByte(pArray[i]);
      if b == PLUS {
        buffer := buffer + [SPACE];
        assert rest[1..] == pArray[i + 1..];
      } else if b == PERCENT {
        // `pArray[++i]` beyond the end throws ArrayIndexOutOfBoundsException,
        // which is rethrown as DecoderException.
        i := i + 1;
        if i >= pArray.Length {
          return Failure(DecoderException(INVALID_URL_ENCODING));
        }
        var u := Digit16(pArray[i]);
        i := i + 1;
        if i >= pArray.Length {
          return Failure(DecoderException(INVALID_URL_ENCODING));
        }
        var l := Digit16(pArray[i]);
        if u == -1 || l == -1 {
          return Failure(DecoderException(INVALID_URL_ENCODING));
        }
        // `(u << 4) + l`
        buffer := buffer + [WriteByte(u * 16 + l)];
        assert rest[3..] == pArray[i + 1..];
      } else {
        buffer := buffer + [WriteByte(b)];
        assert rest[1..] == pArray[i + 1..];
      }
      PrependTwice(before, buffer[|before|..], Decode(pArray[i + 1..]));
      assert before + buffer[|before|..] == buffer;
      i := i + 1;
    }
    assert pArray[i..] == [];
    var decoded := new byte[|buffer|](k requires 0 <= k < |buffer| => buffer[k]);
    r := Success(decoded);
  }

  /**
   * The JDK's charset conversions, which the string overloads call:
   * `String.getBytes(charsetName)` and `new String(bytes, charsetName)`.
   * Either may report that it does not support the named charset.
   */
  datatype Conversion<T> = Converted(value: T) | Unsupported(message: string)

  datatype Charsets = Charsets(
    getBytes: (string, string) -> Conversion<seq<byte>>,
    newString: (seq<byte>, string) -> Conversion<string>)

  /** The values `encode(Object)` and `decode(Object)` can be given. */
  datatype JavaObject =
    | Null
    | ByteArray(bytes: array<byte>)
    | JavaString(text: string)
    | Other(className: string)

  /** A byte sequence as a fresh Java array. */
  method ToArray(s: seq<byte>) returns (a: array<byte>)
    ensures a[..] == s
  {
    a := new byte[|s|](k requires 0 <= k < |s| => s[k]);
  }

  class URLCodec {
    /** The charset the string overloads use when none is named. */
    var encoding: string

    constructor ()
      ensures encoding == DEFAULT_ENCODING
    {
      encoding := DEFAULT_ENCODING;
    }

    constructor WithEncoding(encoding: string)
      ensures this.encoding == encoding
    {
      this.encoding := encoding;
    }

    method GetEncoding() returns (r: string)
      ensures r == encoding
    {
      r := encoding;
    }

    /** `encode(byte[])`: `encodeUrl` with the default safe set. */
    method EncodeBytes(pArray: array?<byte>) returns (r: array?<byte>)
      ensures r == null <==> pArray == null
      ensures pArray != null ==> r[..] == Encode(WWW_FORM_URL, pArray[..])
      ensures pArray != null ==> Decode(r[..]) == Some(pArray[..])
    {
      r := EncodeUrl(Some(WWW_FORM_URL), pArray);
      if pArray != null {
        DefaultRoundTrip(pArray[..]);
      }
    }

    /** `decode(byte[])`: `decodeUrl`. */
    method DecodeBytes(pArray: array?<byte>) returns (r: Result<array?<byte>>)
      ensures pArray == null ==> r == Success(null)
      ensures pArray != null && !WellFormed(pArray[..]) ==> r == Failure(DecoderException(INVALID_URL_ENCODING))
      ensures pArray != null && WellFormed(pArray[..]) ==>
        r.Success? && r.value != null && Some(r.value[..]) == Decode(pArray[..])
    {
      if pArray != null {
        DecodeSucceedsIff(pArray[..]);
      }
      r := DecodeUrl(pArray);
    }

    /**
     * `encode(String, String)`: the string's bytes in the named charset,
     * encoded, read back as US-ASCII. An unsupported charset propagates as
     * `UnsupportedEncodingException`.
     */
    method EncodeStringAs(pString: Option<string>, charsetName: string, jdk: Charsets)
      returns (r: Result<Option<string>>)
      ensures pString.None? ==> r == Success(None)
      ensures pString.Some? && jdk.getBytes(pString.value, charsetName).Unsupported? ==>
        r == Failure(UnsupportedEncodingException(jdk.getBytes(pString.value, charsetName).message))
      ensures pString.Some? && jdk.getBytes(pString.value, charsetName).Converted? ==>
        var encoded := Encode(WWW_FORM_URL, jdk.getBytes(pString.value, charsetName).value);
        match jdk.newString(encoded, US_ASCII)
        case Converted(t) => r == Success(Some(t))
        case Unsupported(m) => r == Failure(UnsupportedEncodingException(m))
    {
      if pString.None? {
        return Success(None);
      }
      var bytes := jdk.getBytes(pString.value, charsetName);
      if bytes.Unsupported? {
        return Failure(UnsupportedEncodingException(bytes.message));
      }
      var input := ToArray(bytes.value);
      var encoded := EncodeBytes(input);
      var text := jdk.newString(encoded[..], US_ASCII);
      if text.Unsupported? {
        return Failure(UnsupportedEncodingException(text.message));
      }
      r := Success(Some(text.value));
    }

    /**
     * `encode(String)`: as `EncodeStringAs` with this codec's charset; an
     * `UnsupportedEncodingException` is rethrown as `EncoderException` with
     * the same message.
     */
    method EncodeString(pString: Option<string>, jdk: Charsets) returns (r: Result<Option<string>>)
      ensures pString.None? ==> r == Success(None)
      ensures pString.Some? && jdk.getBytes(pString.value, encoding).Unsupported? ==>
        r == Failure(EncoderException(jdk.getBytes(pString.value, encoding).message))
      ensures pString.Some? && jdk.getBytes(pString.value, encoding).Converted? ==>
        var encoded := Encode(WWW_FORM_URL, jdk.getBytes(pString.value, encoding).value);
        match jdk.newString(encoded, US_ASCII)
        case Converted(t) => r == Success(Some(t))
        case Unsupported(m) => r == Failure(EncoderException(m))
    {
      if pString.None? {
        return Success(None);
      }
      var charsetName := GetEncoding();
      r := EncodeStringAs(pString, charsetName, jdk);
      if r.Failure? && r.error.UnsupportedEncodingException? {
        r := Failure(EncoderException(r.error.message));
      }
    }

    /**
     * `decode(String, String)`: the string's US-ASCII bytes, decoded, read
     * back in the named charset. A malformed escape throws
     * `DecoderException`; an unsupported charset propagates as
     * `UnsupportedEncodingException`.
     */
    method DecodeStringAs(pString: Option<string>, charsetName: string, jdk: Charsets)
      returns (r: Result<Option<string>>)
      ensures pString.None? ==> r == Success(None)
      ensures pString.Some? && jdk.getBytes(pString.value, US_ASCII).Unsupported? ==>
        r == Failure(UnsupportedEncodingException(jdk.getBytes(pString.value, US_ASCII).message))
      ensures pString.Some? && jdk.getBytes(pString.value, US_ASCII).Converted? ==>
        match Decode(jdk.getBytes(pString.value, US_ASCII).value)
        case None => r == Failure(DecoderException(INVALID_URL_ENCODING))
        case Some(decoded) =>
          match jdk.newString(decoded, charsetName)
          case Converted(t) => r == Success(Some(t))
          case Unsupported(m) => r == Failure(UnsupportedEncodingException(m))
    {
      if pString.None? {
        return Success(None);
      }
      var bytes := jdk.getBytes(pString.value, US_ASCII);
      if bytes.Unsupported? {
        return Failure(UnsupportedEncodingException(bytes.message));
      }
      var input := ToArray(bytes.value);
      var decoded := DecodeUrl(input);
      if decoded.Failure? {
        return Failure(decoded.error);
      }
      var text := jdk.newString(decoded.value[..], charsetName);
      if text.Unsupported? {
        return Failure(UnsupportedEncodingException(text.message));
      }
      r := Success(Some(text.value));
    }

    /**
     * `decode(String)`: as `DecodeStringAs` with this codec's charset; an
     * `UnsupportedEncodingException` is rethrown as `DecoderException` with
     * the same message.
     */
    method DecodeString(pString: Option<string>, jdk: Charsets) returns (r: Result<Option<string>>)
      ensures pString.None? ==> r == Success(None)
      ensures pString.Some? && jdk.getBytes(pString.value, US_ASCII).Unsupported? ==>
        r == Failure(DecoderException(jdk.getBytes(pString.value, US_ASCII).message))
      ensures pString.Some? && jdk.getBytes(pString.value, US_ASCII).Converted? ==>
        match Decode(jdk.getBytes(pString.value, US_ASCII).value)
        case None => r == Failure(DecoderException(INVALID_URL_ENCODING))
        case Some(decoded) =>
          match jdk.newString(decoded, encoding)
          case Converted(t) => r == Success(Some(t))
          case Unsupported(m) => r == Failure(DecoderException(m))
    {
      if pString.None? {
        return Success(None);
      }
      var charsetName := GetEncoding();
      r := DecodeStringAs(pString, charsetName, jdk);
      if r.Failure? && r.error.UnsupportedEncodingException? {
        r := Failure(DecoderException(r.error.message));
      }
    }

    /**
     * `encode(Object)`: null gives null, a byte array and a string go to their
     * overloads, and any other type throws `EncoderException`.
     */
    method EncodeObject(pObject: JavaObject, jdk: Charsets) returns (r: Result<JavaObject>)
      ensures pObject.Null? ==> r == Success(Null)
      ensures pObject.ByteArray? ==>
        r.Success? && r.value.ByteArray? && r.value.bytes[..] == Encode(WWW_FORM_URL, pObject.bytes[..])
      ensures pObject.JavaString? ==>
        var bytes := jdk.getBytes(pObject.text, encoding);
        if bytes.Unsupported? then r == Failure(EncoderException(bytes.message))
        else match jdk.newString(Encode(WWW_FORM_URL, bytes.value), US_ASCII)
          case Converted(t) => r == Success(JavaString(t))
          case Unsupported(m) => r == Failure(EncoderException(m))
      ensures pObject.Other? ==>
        r == Failure(EncoderException("Objects of type " + pObject.className + " cannot be URL encoded"))
    {
      match pObject
      case Null =>
        r := Success(Null);
      case ByteArray(bytes) =>
        var encoded := EncodeBytes(bytes);
        r := Success(ByteArray(encoded));
      case JavaString(text) =>
        var encoded := EncodeString(Some(text), jdk);
        if encoded.Failure? {
          r := Failure(encoded.error);
        } else {
          r := Success(JavaString(encoded.value.value));
        }
      case Other(className) =>
        r := Failure(EncoderException("Objects of type " + className + " cannot be URL encoded"));
    }

    /**
     * `decode(Object)`: null gives null, a byte array and a string go to their
     * overloads, and any other type throws `DecoderException`.
     */
    method DecodeObject(pObject: JavaObject, jdk: Charsets) returns (r: Result<JavaObject>)
      ensures pObject.Null? ==> r == Success(Null)
      ensures pObject.ByteArray? ==>
        match Decode(pObject.bytes[..])
        case None => r == Failure(DecoderException(INVALID_URL_ENCODING))
        case Some(decoded) => r.Success? && r.value.ByteArray? && r.value.bytes[..] == decoded
      ensures pObject.JavaString? ==>
        var ascii := jdk.getBytes(pObject.text, US_ASCII);
        if ascii.Unsupported? then r == Failure(DecoderException(ascii.message))
        else match Decode(ascii.value)
          case None => r == Failure(DecoderException(INVALID_URL_ENCODING))
          case Some(decoded) =>
            match jdk.newString(decoded, encoding)
            case Converted(t) => r == Success(JavaString(t))
            case Unsupported(m) => r == Failure(DecoderException(m))
      ensures pObject.Other? ==>
        r == Failure(DecoderException("Objects of type " + pObject.className + " cannot be URL decoded"))
    {
      match pObject
      case Null =>
        r := Success(Null);
      case ByteArray(bytes) =>
        var decoded := DecodeBytes(bytes);
        DecodeSucceedsIff(bytes[..]);
        if decoded.Failure? {
          r := Failure(decoded.error);
        } else {
          r := Success(ByteArray(decoded.value));
        }
      case JavaString(text) =>
        var decoded := DecodeString(Some(text), jdk);
        if decoded.Failure? {
          r := Failure(decoded.error);
        } else {
          r := Success(JavaString(decoded.value.value));
        }
      case Other(className) =>
        r := Failure(DecoderException("Objects of type " + className + " cannot be URL decoded"));
    }
  }
}
