/**
 * The `application/x-www-form-urlencoded` byte transform as a specification:
 * the default safe set, the encoding of a byte sequence, the decoding of one
 * (which may fail), and the properties that relate them.
 */
module FormUrlEncoding {
  import opened Wrappers
  import opened JavaBytes

  /** The characters HTML forms send unescaped: letters, digits, `-`, `_`, `.`, `*`, and space (sent as `+`). */
  predicate IsWwwFormUrlChar(c: int)
    ensures IsWwwFormUrlChar(c) ==> 0 <= c < 128 && c != PLUS as int && c != PERCENT as int
  {
    ('a' as int <= c <= 'z' as int) || ('A' as int <= c <= 'Z' as int) || ('0' as int <= c <= '9' as int)
    || c == '-' as int || c == '_' as int || c == '.' as int || c == '*' as int || c == ' ' as int
  }

  /** The default safe set, as the indices of the bits set in the shared table. */
  const WWW_FORM_URL: set<int> := set c | 0 <= c < 256 && IsWwwFormUrlChar(c)

  /** The safe set a caller passes, or the default one when it passes none. */
  function SafeSetOrDefault(urlsafe: Option<set<int>>): (r: set<int>)
    ensures urlsafe.Some? ==> r == urlsafe.value
    ensures urlsafe.None? ==> SPACE in r && PLUS !in r && PERCENT !in r && forall c :: c in r ==> 0 <= c < 128
  {
    if urlsafe.Some? then urlsafe.value
    else
      WwwFormUrlIsEscapeFree();
      WWW_FORM_URL
  }

  /**
   * The default safe set holds only 7-bit characters and contains neither of
   * the two bytes the decoder gives a meaning to, `+` and `%`.
   */
  lemma WwwFormUrlIsEscapeFree()
    ensures forall c :: c in WWW_FORM_URL ==> 0 <= c < 128
    ensures PLUS !in WWW_FORM_URL && PERCENT !in WWW_FORM_URL
    ensures SPACE in WWW_FORM_URL
  {
  }

  /** Whether the encoder writes `v` as a character of its own rather than as an escape. */
  predicate IsLiteral(safe: set<int>, v: byte)
  {
    v < 128 && v in safe
  }

  /** The `%HH` escape of a byte: its high nibble, then its low one, as upper-case hex digits. */
  function Escape(v: byte): (r: seq<byte>)
    ensures |r| == 3 && r[0] == PERCENT
    ensures IsHexDigit(r[1]) && Digit16(r[1]) == v / 16
    ensures IsHexDigit(r[2]) && Digit16(r[2]) == v % 16
    ensures !('a' as int <= r[1] <= 'f' as int) && !('a' as int <= r[2] <= 'f' as int)
  {
    DigitOfUpperHex(v / 16);
    DigitOfUpperHex(v % 16);
    [PERCENT, UPPER_HEX[v / 16] as int, UPPER_HEX[v % 16] as int]
  }

  /** What the encoder writes for one byte. */
  function EncodeByte(safe: set<int>, v: byte): (r: seq<byte>)
    ensures |r| == 1 <==> IsLiteral(safe, v)
    ensures forall k :: 0 <= k < |r| ==> r[k] < 128
    ensures PLUS !in safe && PERCENT !in safe ==> Decode(r) == Some([v])
  {
    if IsLiteral(safe, v) then
      var literal := [if v == SPACE then PLUS else v];
      assert literal[1..] == [] && [v] + [] == [v];
      literal
    else
      var escape := Escape(v);
      assert escape[3..] == [] && [v] + [] == [v];
      assert 16 * Digit16(escape[1]) + Digit16(escape[2]) == v;
      escape
  }

  /** The encoding of a byte sequence: each byte encoded in turn. */
  function Encode(safe: set<int>, s: seq<byte>): (r: seq<byte>)
    ensures |s| <= |r| <= 3 * |s|
    ensures forall k :: 0 <= k < |r| ==> r[k] < 128
  {
    if s == [] then [] else EncodeByte(safe, s[0]) + Encode(safe, s[1..])
  }

  /** Puts `prefix` in front of a decoded result; a failure stays a failure. */
  function PrependAll(prefix: seq<byte>, o: Option<seq<byte>>): Option<seq<byte>>
  {
    if o.Some? then Some(prefix + o.value) else None
  }

  /** Prepending nothing changes nothing. */
  lemma PrependNothing(o: Option<seq<byte>>)
    ensures PrependAll([], o) == o
  {
    if o.Some? {
      assert [] + o.value == o.value;
    }
  }

  /** Prepending twice is prepending the concatenation. */
  lemma PrependTwice(a: seq<byte>, b: seq<byte>, o: Option<seq<byte>>)
    ensures PrependAll(a, PrependAll(b, o)) == PrependAll(a + b, o)
  {
    if o.Some? {
      assert a + (b + o.value) == (a + b) + o.value;
    }
  }

  /**
   * The decoding of a byte sequence, scanning left to right: `+` is a space,
   * `%` and two hex digits of either case is the byte `16 * u + l`, anything
   * else stands for itself. A `%` without two hex digits after it fails.
   */
  function Decode(s: seq<byte>): (r: Option<seq<byte>>)
    ensures r.Some? ==> |r.value| <= |s| <= 3 * |r.value|
    decreases |s|
  {
    if s == [] then Some([])
    else if s[0] == PLUS then PrependAll([SPACE], Decode(s[1..]))
    else if s[0] == PERCENT then
      if |s| < 3 then None
      else
        var u, l := Digit16(s[1]), Digit16(s[2]);
        if u == -1 || l == -1 then None else PrependAll([16 * u + l], Decode(s[3..]))
    else PrependAll([s[0]], Decode(s[1..]))
  }

  /** One step of the decoding: what the first byte, or the first escape, of `s` decodes to. */
  lemma DecodeFirst(s: seq<byte>)
    requires s != []
    ensures s[0] == PLUS ==> Decode(s) == PrependAll([SPACE], Decode(s[1..]))
    ensures s[0] == PERCENT && (|s| < 3 || Digit16(s[1]) == -1 || Digit16(s[2]) == -1) ==> Decode(s) == None
    ensures s[0] == PERCENT && |s| >= 3 && Digit16(s[1]) != -1 && Digit16(s[2]) != -1 ==>
      Decode(s) == PrependAll([16 * Digit16(s[1]) + Digit16(s[2])], Decode(s[3..]))
    ensures s[0] != PLUS && s[0] != PERCENT ==> Decode(s) == PrependAll([s[0]], Decode(s[1..]))
  {
  }

  /** Every `%` in `s` is followed by two hex digits. */
  predicate WellFormed(s: seq<byte>)
  {
    forall i :: 0 <= i < |s| && s[i] == PERCENT ==> i + 2 < |s| && IsHexDigit(s[i + 1]) && IsHexDigit(s[i + 2])
  }

  /**
   * Decoding fails exactly when some `%` lacks two hex digits after it. Since
   * a hex digit is never `%`, no `%` can hide inside an escape.
   */
  lemma {:induction false} DecodeSucceedsIff(s: seq<byte>)
    ensures Decode(s).Some? <==> WellFormed(s)
    decreases |s|
  {
    if s == [] {
    } else if s[0] == PERCENT {
      if |s| < 3 || !IsHexDigit(s[1]) || !IsHexDigit(s[2]) {
        assert !WellFormed(s) by { assert s[0] == PERCENT; }
      } else {
        DecodeSucceedsIff(s[3..]);
        ShiftWellFormed(s, 3);
      }
    } else {
      DecodeSucceedsIff(s[1..]);
      ShiftWellFormed(s, 1);
    }
  }

  /**
   * Dropping the first `n` bytes, of which only the first may be `%` and then
   * only as a complete escape, keeps well-formedness unchanged.
   */
  lemma ShiftWellFormed(s: seq<byte>, n: nat)
    requires 0 < n <= |s|
    requires s[0] == PERCENT ==> 2 < |s| && IsHexDigit(s[1]) && IsHexDigit(s[2])
    requires forall i :: 0 < i < n ==> s[i] != PERCENT
    ensures WellFormed(s) <==> WellFormed(s[n..])
  {
  }

  /** Encoding works byte by byte: the encoding of a concatenation is the concatenation of the encodings. */
  lemma {:induction false} EncodeConcat(safe: set<int>, a: seq<byte>, b: seq<byte>)
    ensures Encode(safe, a + b) == Encode(safe, a) + Encode(safe, b)
    decreases |a|
  {
    if a == [] {
      assert a + b == b;
    } else {
      assert (a + b)[1..] == a[1..] + b;
      EncodeConcat(safe, a[1..], b);
    }
  }

  /** Appending one byte to the input appends its encoding to the output. */
  lemma EncodeAppend(safe: set<int>, s: seq<byte>, v: byte)
    ensures Encode(safe, s + [v]) == Encode(safe, s) + EncodeByte(safe, v)
  {
    EncodeConcat(safe, s, [v]);
  }

  /**
   * Every byte the encoder writes is a 7-bit safe character other than space,
   * `+`, `%`, or an upper-case hex digit.
   */
  lemma {:induction false} EncodeAlphabet(safe: set<int>, s: seq<byte>, k: nat)
    requires k < |Encode(safe, s)|
    ensures var c := Encode(safe, s)[k];
      (c in safe && c < 128 && c != SPACE) || c == PLUS || c == PERCENT || (IsHexDigit(c) && !('a' as int <= c <= 'f' as int))
    decreases |s|
  {
    var e := EncodeByte(safe, s[0]);
    if k >= |e| {
      EncodeAlphabet(safe, s[1..], k - |e|);
    }
  }

  /**
   * A byte the encoder writes literally is its own decoding (space via `+`),
   * and so is an escape, provided the safe set holds neither `+` nor `%`.
   */
  lemma DecodeEncodeByte(safe: set<int>, v: byte, t: seq<byte>)
    requires PLUS !in safe && PERCENT !in safe
    ensures Decode(EncodeByte(safe, v) + t) == PrependAll([v], Decode(t))
  {
  }

  /** Round trip: decoding undoes encoding when the safe set holds neither `+` nor `%`. */
  lemma {:induction false} RoundTrip(safe: set<int>, s: seq<byte>)
    requires PLUS !in safe && PERCENT !in safe
    ensures Decode(Encode(safe, s)) == Some(s)
    decreases |s|
  {
    if s != [] {
      DecodeEncodeByte(safe, s[0], Encode(safe, s[1..]));
      RoundTrip(safe, s[1..]);
      assert [s[0]] + s[1..] == s;
    }
  }

  /** With the default safe set, decoding undoes encoding for every byte sequence. */
  lemma DefaultRoundTrip(s: seq<byte>)
    ensures Decode(Encode(WWW_FORM_URL, s)) == Some(s)
  {
    WwwFormUrlIsEscapeFree();
    RoundTrip(WWW_FORM_URL, s);
  }

  /**
   * The round trip holds for every input exactly when the safe set holds
   * neither `+` (which would decode to a space) nor `%` (which would start a
   * broken escape).
   */
  lemma RoundTripIff(safe: set<int>)
    ensures (forall s :: Decode(Encode(safe, s)) == Some(s)) <==> (PLUS !in safe && PERCENT !in safe)
  {
    if PLUS !in safe && PERCENT !in safe {
      forall s ensures Decode(Encode(safe, s)) == Some(s) {
        RoundTrip(safe, s);
      }
    } else if PLUS in safe {
      RoundTripFailsWithPlus(safe);
    } else {
      RoundTripFailsWithPercent(safe);
    }
  }

  /** A safe set holding `+`: the byte `+` is written as itself and read back as a space. */
  lemma RoundTripFailsWithPlus(safe: set<int>)
    requires PLUS in safe
    ensures Encode(safe, [PLUS]) == [PLUS]
    ensures Decode(Encode(safe, [PLUS])) == Some([SPACE])
  {
    assert Encode(safe, [PLUS]) == EncodeByte(safe, PLUS) + Encode(safe, []);
    assert [PLUS][1..] == [];
    assert Decode([PLUS]) == PrependAll([SPACE], Decode([]));
    assert [SPACE] + [] == [SPACE];
  }

  /** A safe set holding `%`: the byte `%` is written as itself and cannot be read back. */
  lemma RoundTripFailsWithPercent(safe: set<int>)
    requires PERCENT in safe
    ensures Encode(safe, [PERCENT]) == [PERCENT]
    ensures Decode(Encode(safe, [PERCENT])) == None
  {
  }

  /**
   * A successful decoding is shorter than its input by two bytes per `%`:
   * each escape turns three bytes into one, every other byte gives one.
   */
  lemma {:induction false} DecodeLength(s: seq<byte>)
    requires Decode(s).Some?
    ensures |Decode(s).value| + 2 * multiset(s)[PERCENT] == |s|
    ensures |s| <= 3 * |Decode(s).value|
    decreases |s|
  {
    if s != [] {
      var n := if s[0] == PERCENT then 3 else 1;
      assert s == s[..n] + s[n..];
      assert multiset(s)[PERCENT] == multiset(s[..n])[PERCENT] + multiset(s[n..])[PERCENT];
      if n == 3 {
        assert s[..n] == [s[0], s[1], s[2]];
        assert s[1] != PERCENT && s[2] != PERCENT;
      } else {
        assert s[..n] == [s[0]];
      }
      DecodeLength(s[n..]);
    }
  }

  /** An escape decodes the same whichever case its hex letters are written in. */
  lemma DecodeEscapeIgnoresCase(h: byte, l: byte, t: seq<byte>)
    requires IsHexDigit(h) && IsHexDigit(l)
    ensures Decode([PERCENT, ToUpperCase(h), ToUpperCase(l)] + t) == Decode([PERCENT, h, l] + t)
  {
  }

  /**
   * Encoding leaves a sequence unchanged exactly when every byte of it is a
   * 7-bit safe character other than space.
   */
  lemma {:induction false} EncodeIdentityIff(safe: set<int>, s: seq<byte>)
    ensures Encode(safe, s) == s <==> forall k :: 0 <= k < |s| ==> IsLiteral(safe, s[k]) && s[k] != SPACE
    decreases |s|
  {
    if s != [] {
      EncodeIdentityIff(safe, s[1..]);
      var e := EncodeByte(safe, s[0]);
      if IsLiteral(safe, s[0]) && s[0] != SPACE {
        assert e == [s[0]];
        if Encode(safe, s[1..]) == s[1..] {
          assert Encode(safe, s) == [s[0]] + s[1..] == s;
        } else {
          assert Encode(safe, s)[1..] == Encode(safe, s[1..]);
        }
        assert (forall k :: 0 <= k < |s| ==> IsLiteral(safe, s[k]) && s[k] != SPACE)
          <==> (forall k :: 0 <= k < |s[1..]| ==> IsLiteral(safe, s[1..][k]) && s[1..][k] != SPACE);
      } else if IsLiteral(safe, s[0]) {
        assert Encode(safe, s)[0] == PLUS != s[0];
      } else {
        assert |Encode(safe, s)| >= 3 + |s[1..]| > |s|;
      }
    }
  }

  /**
   * A byte with bit 7 set is escaped whatever the safe set holds, even one
   * that lists it.
   */
  lemma HighByteAlwaysEscaped(safe: set<int>, v: byte)
    requires v >= 128
    ensures Encode(safe, [v]) == Escape(v)
    ensures Decode(Encode(safe, [v])) == Some([v])
  {
    assert Encode(safe, [v]) == EncodeByte(safe, v) + Encode(safe, []);
    DecodeEncodeByte({}, v, []);
    assert EncodeByte({}, v) == Escape(v);
    assert [v] + [] == [v];
  }

  /** The encoder on a few inputs: the empty input, `a b`, `=` and the byte 0xFF. */
  lemma EncodeExamples(safe: set<int>)
    ensures Encode(safe, []) == []
    ensures Encode(WWW_FORM_URL, [97, 32, 98]) == [97, 43, 98]
    ensures Encode(WWW_FORM_URL, [0x3D]) == [37, 51, 68]
    ensures Encode(safe + {0xFF}, [0xFF]) == [37, 70, 70]
  {
    assert 97 in WWW_FORM_URL && 98 in WWW_FORM_URL && 32 in WWW_FORM_URL && 0x3D !in WWW_FORM_URL;
    assert Encode(WWW_FORM_URL, [97, 32, 98]) == [97] + Encode(WWW_FORM_URL, [32, 98]);
    assert Encode(WWW_FORM_URL, [32, 98]) == [43] + Encode(WWW_FORM_URL, [98]);
    assert Encode(WWW_FORM_URL, [98]) == [98] + Encode(WWW_FORM_URL, []);
    assert Encode(WWW_FORM_URL, [0x3D]) == Escape(0x3D) + Encode(WWW_FORM_URL, []);
    HighByteAlwaysEscaped(safe + {0xFF}, 0xFF);
  }

  /**
   * The decoder on a few inputs: the empty input, `a+b`, `%3d` and `%3D`
   * (the same byte), and the malformed `%3`, `%` and `%GZ`.
   */
  lemma DecodeExamples()
    ensures Decode([]) == Some([])
    ensures Decode([97, 43, 98]) == Some([97, 32, 98])
    ensures Decode([37, 51, 100]) == Decode([37, 51, 68]) == Some([0x3D])
    ensures Decode([37, 51]) == None && Decode([37]) == None
    ensures Decode([37, 71, 90]) == None
  {
    var plus: seq<byte> := [97, 43, 98];
    assert plus[1..] == [43, 98] && plus[1..][1..] == [98] && plus[1..][1..][1..] == [];
    assert plus[3..] == [] && [98] + [] == [98] && [SPACE] + [98] == [32, 98] && [97] + [32, 98] == [97, 32, 98];
    assert Decode(plus[2..]) == PrependAll([98], Decode(plus[3..])) == Some([98]);
    assert Decode(plus[1..]) == PrependAll([SPACE], Decode(plus[2..])) == Some([32, 98]);
    assert Decode(plus) == PrependAll([97], Decode(plus[1..]));
    var lower: seq<byte> := [37, 51, 100];
    var upper: seq<byte> := [37, 51, 68];
    assert lower[3..] == [] && upper[3..] == [];
    assert Decode(lower) == PrependAll([0x3D], Decode([]));
    assert Decode(upper) == PrependAll([0x3D], Decode([]));
    assert [0x3D] + [] == [0x3D];
  }
}
