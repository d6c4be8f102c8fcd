/** `base64.urlsafe_b64encode`: the base 64 encoding with the URL- and filename-safe
    alphabet of section 5 of RFC 4648 ('-' and '_' in place of '+' and '/'), padded
    with '=' to a multiple of four characters. A decoder of the unpadded form is
    given beside it as the encoder's inverse. */
module Base64Url {
  import opened Wrappers
  import opened Text

  /** A character of the alphabet: A-Z, a-z, 0-9, '-' and '_'. */
  predicate IsUrlSafe(c: char) {
    'A' <= c <= 'Z' || 'a' <= c <= 'z' || '0' <= c <= '9' || c == '-' || c == '_'
  }

  predicate AllUrlSafe(s: string) {
    forall i :: 0 <= i < |s| ==> IsUrlSafe(s[i])
  }

  /** The character for a 6-bit value, as in Table 2 of RFC 4648. */
  function EncodeSextet(v: int): (c: char)
    requires 0 <= v < 64
    ensures IsUrlSafe(c) && c != '='
  {
    if v < 26 then ('A' as int + v) as char
    else if v < 52 then ('a' as int + v - 26) as char
    else if v < 62 then ('0' as int + v - 52) as char
    else if v == 62 then '-'
    else '_'
  }

  /** The 6-bit value of an alphabet character; `None` off the alphabet. */
  function SextetValue(c: char): (r: Option<int>)
    ensures r.Some? <==> IsUrlSafe(c)
    ensures r.Some? ==> 0 <= r.value < 64 && EncodeSextet(r.value) == c
  {
    if 'A' <= c <= 'Z' then Some(c as int - 'A' as int)
    else if 'a' <= c <= 'z' then Some(c as int - 'a' as int + 26)
    else if '0' <= c <= '9' then Some(c as int - '0' as int + 52)
    else if c == '-' then Some(62)
    else if c == '_' then Some(63)
    else None
  }

  lemma SextetRoundTrip(v: int)
    requires 0 <= v < 64
    ensures SextetValue(EncodeSextet(v)) == Some(v)
  {
  }

  /** Four characters for three bytes: their 24 bits, six at a time. */
  function EncodeGroup(b0: Byte, b1: Byte, b2: Byte): string {
    [EncodeSextet(b0 as int / 4), EncodeSextet(b0 as int % 4 * 16 + b1 as int / 16),
     EncodeSextet(b1 as int % 16 * 4 + b2 as int / 64), EncodeSextet(b2 as int % 64)]
  }

  /** `base64.urlsafe_b64encode(b)`: groups of three bytes become four characters; a
      final group of one or two bytes is filled with zero bits and padded with '='. */
  function UrlSafeEncode(b: seq<Byte>): (r: string)
    ensures |r| == 4 * ((|b| + 2) / 3)
    decreases |b|
  {
    if |b| == 0 then ""
    else if |b| == 1 then
      [EncodeSextet(b[0] as int / 4), EncodeSextet(b[0] as int % 4 * 16), '=', '=']
    else if |b| == 2 then
      [EncodeSextet(b[0] as int / 4), EncodeSextet(b[0] as int % 4 * 16 + b[1] as int / 16),
       EncodeSextet(b[1] as int % 16 * 4), '=']
    else
      EncodeGroup(b[0], b[1], b[2]) + UrlSafeEncode(b[3..])
  }

  /** The number of characters that carry data for `n` bytes: 8n bits, 6 per
      character, rounded up. */
  function UnpaddedLength(n: nat): nat {
    (8 * n + 5) / 6
  }

  /** `e` is `k` alphabet characters followed by '=' only. */
  predicate PaddedShape(e: string, k: nat) {
    k <= |e| && AllUrlSafe(e[..k]) && forall i :: k <= i < |e| ==> e[i] == '='
  }

  lemma ShapeAfterGroup(g: string, rest: string, k: nat)
    requires |g| == 4 && AllUrlSafe(g) && PaddedShape(rest, k)
    ensures PaddedShape(g + rest, 4 + k)
  {
    assert (g + rest)[..4 + k] == g + rest[..k];
    assert forall i :: 4 <= i < |g + rest| ==> (g + rest)[i] == rest[i - 4];
  }

  /** The encoding is UnpaddedLength(|b|) alphabet characters followed by '=' only. */
  lemma {:induction false} EncodingShape(b: seq<Byte>)
    ensures PaddedShape(UrlSafeEncode(b), UnpaddedLength(|b|))
    decreases |b|
  {
    if |b| >= 3 {
      EncodingShape(b[3..]);
      assert UnpaddedLength(|b|) == 4 + UnpaddedLength(|b| - 3);
      ShapeAfterGroup(EncodeGroup(b[0], b[1], b[2]), UrlSafeEncode(b[3..]), UnpaddedLength(|b| - 3));
    }
  }

  /** Stripping the padding leaves exactly the data characters. */
  lemma StripPadding(b: seq<Byte>)
    ensures RStrip(UrlSafeEncode(b), '=') == UrlSafeEncode(b)[..UnpaddedLength(|b|)]
  {
    var e := UrlSafeEncode(b);
    var k := UnpaddedLength(|b|);
    EncodingShape(b);
    assert e == e[..k] + e[k..];
    RStripPadding(e[..k], e[k..], '=');
  }

  /** `urlsafe_b64encode(b).rstrip('=')` is UnpaddedLength(|b|) characters long and
      uses the alphabet only; in particular it holds no '='. */
  lemma StrippedEncoding(b: seq<Byte>)
    ensures |RStrip(UrlSafeEncode(b), '=')| == UnpaddedLength(|b|)
    ensures AllUrlSafe(RStrip(UrlSafeEncode(b), '='))
  {
    StripPadding(b);
    EncodingShape(b);
  }

  /** Past the first q groups, the encoding is the encoding of the remaining bytes. */
  lemma {:induction false} EncodeDrop(b: seq<Byte>, q: nat)
    requires 3 * q <= |b|
    ensures UrlSafeEncode(b)[4 * q..] == UrlSafeEncode(b[3 * q..])
    decreases q
  {
    if q > 0 {
      EncodeDrop(b[3..], q - 1);
      assert b[3..][3 * (q - 1)..] == b[3 * q..];
    }
  }

  /** The last data character of an encoding whose final group holds one byte. */
  lemma LastCharOneByteTail(b: seq<Byte>)
    requires |b| % 3 == 1
    ensures var s := RStrip(UrlSafeEncode(b), '=');
      |s| > 0 && s[|s| - 1] == EncodeSextet(b[|b| - 1] as int % 4 * 16)
  {
    StripPadding(b);
    var q := |b| / 3;
    EncodeDrop(b, q);
    var e := UrlSafeEncode(b);
    assert UnpaddedLength(|b|) == 4 * q + 2;
    assert e[4 * q + 1] == e[4 * q..][1] == UrlSafeEncode(b[3 * q..])[1];
  }

  /** The last data character of an encoding whose final group holds two bytes. */
  lemma LastCharTwoByteTail(b: seq<Byte>)
    requires |b| % 3 == 2
    ensures var s := RStrip(UrlSafeEncode(b), '=');
      |s| > 0 && s[|s| - 1] == EncodeSextet(b[|b| - 1] as int % 16 * 4)
  {
    StripPadding(b);
    var q := |b| / 3;
    EncodeDrop(b, q);
    var e := UrlSafeEncode(b);
    assert UnpaddedLength(|b|) == 4 * q + 3;
    assert e[4 * q + 2] == e[4 * q..][2] == UrlSafeEncode(b[3 * q..])[2];
  }

  lemma MultipleOfFour(m: int)
    ensures (4 * m) % 4 == 0
  {
  }

  /** When the byte count is not a multiple of three, the last data character carries
      two or four zero bits, so its value is a multiple of four. */
  lemma LastCharHasZeroBits(b: seq<Byte>)
    requires |b| % 3 != 0
    ensures var s := RStrip(UrlSafeEncode(b), '=');
      |s| > 0 && SextetValue(s[|s| - 1]).Some? && SextetValue(s[|s| - 1]).value % 4 == 0
  {
    var s := RStrip(UrlSafeEncode(b), '=');
    var last := b[|b| - 1] as int;
    var m := if |b| % 3 == 1 then last % 4 * 4 else last % 16;
    assert |s| > 0 && s[|s| - 1] == EncodeSextet(4 * m) by {
      if |b| % 3 == 1 { LastCharOneByteTail(b); } else { LastCharTwoByteTail(b); }
    }
    MultipleOfFour(m);
    SextetRoundTrip(4 * m);
  }

  /** 'X' has value 23, not a multiple of four, so it never ends such an encoding. */
  lemma LastCharNotX(b: seq<Byte>)
    requires |b| % 3 != 0
    ensures var s := RStrip(UrlSafeEncode(b), '=');
      |s| > 0 && s[|s| - 1] != 'X'
  {
    LastCharHasZeroBits(b);
  }

  // ---------------------------------------------------------------------------
  // The inverse: decoding the unpadded form
  // ---------------------------------------------------------------------------

  function DecodeGroup(s0: int, s1: int, s2: int, s3: int): seq<Byte>
    requires 0 <= s0 < 64 && 0 <= s1 < 64 && 0 <= s2 < 64 && 0 <= s3 < 64
  {
    [(s0 * 4 + s1 / 16) as Byte, (s1 % 16 * 16 + s2 / 4) as Byte, (s2 % 4 * 64 + s3) as Byte]
  }

  /** Decode unpadded base64url text; `None` for a character off the alphabet or a
      length of the form 4k + 1, which no byte string encodes to. */
  function DecodeNoPad(s: string): (r: Option<seq<Byte>>)
    decreases |s|
  {
    if |s| == 0 then Some([])
    else if !(IsUrlSafe(s[0]) && (|s| < 2 || IsUrlSafe(s[1])) && (|s| < 3 || IsUrlSafe(s[2]))
              && (|s| < 4 || IsUrlSafe(s[3]))) then None
    else if |s| == 1 then None
    else
      var s0, s1 := SextetValue(s[0]).value, SextetValue(s[1]).value;
      if |s| == 2 then Some([(s0 * 4 + s1 / 16) as Byte])
      else
        var s2 := SextetValue(s[2]).value;
        if |s| == 3 then Some([(s0 * 4 + s1 / 16) as Byte, (s1 % 16 * 16 + s2 / 4) as Byte])
        else
          match DecodeNoPad(s[4..])
          case None => None
          case Some(rest) => Some(DecodeGroup(s0, s1, s2, SextetValue(s[3]).value) + rest)
  }

  lemma GroupArithmetic(b0: int, b1: int, b2: int)
    requires 0 <= b0 < 256 && 0 <= b1 < 256 && 0 <= b2 < 256
    ensures (b0 / 4) * 4 + (b0 % 4 * 16 + b1 / 16) / 16 == b0
    ensures (b0 % 4 * 16 + b1 / 16) % 16 * 16 + (b1 % 16 * 4 + b2 / 64) / 4 == b1
    ensures (b1 % 16 * 4 + b2 / 64) % 4 * 64 + b2 % 64 == b2
  {
    assert (b0 % 4 * 16 + b1 / 16) / 16 == b0 % 4;
    assert (b0 % 4 * 16 + b1 / 16) % 16 == b1 / 16;
    assert (b1 % 16 * 4 + b2 / 64) / 4 == b1 % 16;
    assert (b1 % 16 * 4 + b2 / 64) % 4 == b2 / 64;
  }

  lemma DecodeOneByte(b0: Byte)
    ensures DecodeNoPad(UrlSafeEncode([b0])[..2]) == Some([b0])
  {
    var x := b0 as int;
    var s0, s1 := x / 4, x % 4 * 16;
    GroupArithmetic(x, 0, 0);
    SextetRoundTrip(s0);
    SextetRoundTrip(s1);
    var s := UrlSafeEncode([b0])[..2];
    assert s == [EncodeSextet(s0), EncodeSextet(s1)];
    assert SextetValue(s[0]) == Some(s0) && SextetValue(s[1]) == Some(s1);
    assert DecodeNoPad(s) == Some([(s0 * 4 + s1 / 16) as Byte]);
  }

  lemma DecodeTwoBytes(b0: Byte, b1: Byte)
    ensures DecodeNoPad(UrlSafeEncode([b0, b1])[..3]) == Some([b0, b1])
  {
    var x, y := b0 as int, b1 as int;
    var s0, s1, s2 := x / 4, x % 4 * 16 + y / 16, y % 16 * 4;
    GroupArithmetic(x, y, 0);
    SextetRoundTrip(s0);
    SextetRoundTrip(s1);
    SextetRoundTrip(s2);
    var s := UrlSafeEncode([b0, b1])[..3];
    assert s == [EncodeSextet(s0), EncodeSextet(s1), EncodeSextet(s2)];
    assert SextetValue(s[0]) == Some(s0) && SextetValue(s[1]) == Some(s1) && SextetValue(s[2]) == Some(s2);
    assert DecodeNoPad(s) == Some([(s0 * 4 + s1 / 16) as Byte, (s1 % 16 * 16 + s2 / 4) as Byte]);
  }

  /** Decoding a full group followed by more text decodes the group, then the rest. */
  lemma DecodeGroupThenRest(b0: Byte, b1: Byte, b2: Byte, rest: string)
    ensures DecodeNoPad(EncodeGroup(b0, b1, b2) + rest) ==
      match DecodeNoPad(rest)
      case None => None
      case Some(r) => Some([b0, b1, b2] + r)
  {
    var x, y, z := b0 as int, b1 as int, b2 as int;
    var s0, s1, s2, s3 := x / 4, x % 4 * 16 + y / 16, y % 16 * 4 + z / 64, z % 64;
    GroupArithmetic(x, y, z);
    SextetRoundTrip(s0);
    SextetRoundTrip(s1);
    SextetRoundTrip(s2);
    SextetRoundTrip(s3);
    var s := EncodeGroup(b0, b1, b2) + rest;
    assert s[4..] == rest;
    assert SextetValue(s[0]) == Some(s0) && SextetValue(s[1]) == Some(s1);
    assert SextetValue(s[2]) == Some(s2) && SextetValue(s[3]) == Some(s3);
    assert DecodeGroup(s0, s1, s2, s3) == [b0, b1, b2];
  }

  lemma SplitThree(b: seq<Byte>)
    requires |b| >= 3
    ensures [b[0], b[1], b[2]] + b[3..] == b
  {
  }

  /** Decoding the data characters of an encoding gives the bytes back. */
  lemma {:induction false} DecodeEncode(b: seq<Byte>)
    ensures DecodeNoPad(UrlSafeEncode(b)[..UnpaddedLength(|b|)]) == Some(b)
    decreases |b|
  {
    if |b| == 1 {
      assert b == [b[0]];
      DecodeOneByte(b[0]);
    } else if |b| == 2 {
      assert b == [b[0], b[1]];
      DecodeTwoBytes(b[0], b[1]);
    } else if |b| >= 3 {
      var rest := UrlSafeEncode(b[3..])[..UnpaddedLength(|b| - 3)];
      assert UrlSafeEncode(b)[..UnpaddedLength(|b|)] == EncodeGroup(b[0], b[1], b[2]) + rest by {
        assert UnpaddedLength(|b|) == 4 + UnpaddedLength(|b| - 3);
        assert UrlSafeEncode(b) == EncodeGroup(b[0], b[1], b[2]) + UrlSafeEncode(b[3..]);
      }
      DecodeEncode(b[3..]);
      DecodeGroupThenRest(b[0], b[1], b[2], rest);
      SplitThree(b);
    }
  }

  /** The unpadded encoding loses nothing: equal encodings come from equal bytes. */
  lemma StrippedEncodingInjective(a: seq<Byte>, b: seq<Byte>)
    requires RStrip(UrlSafeEncode(a), '=') == RStrip(UrlSafeEncode(b), '=')
    ensures a == b
  {
    StripPadding(a);
    StripPadding(b);
    DecodeEncode(a);
    DecodeEncode(b);
  }
}
