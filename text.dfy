/** The Python string and integer built-ins the token protocol relies on:
    `str.lower`, `str(int)`, `int(str)`, `str.encode('utf-8')` and `str.rstrip`. */
module Text {
  import opened Wrappers

  newtype Byte = x: int | 0 <= x < 256

  // ---------------------------------------------------------------------------
  // str.lower(), restricted to the ASCII letters
  // ---------------------------------------------------------------------------

  predicate IsUpper(c: char) {
    'A' <= c <= 'Z'
  }

  function LowerChar(c: char): (r: char)
    ensures !IsUpper(r)
    ensures IsUpper(c) ==> r as int == c as int + 32
    ensures !IsUpper(c) ==> r == c
  {
    if IsUpper(c) then (c as int + 32) as char else c
  }

  /** Lower-case every ASCII capital and leave every other character alone. */
  function Lower(s: string): (r: string)
    ensures |r| == |s|
    ensures forall i :: 0 <= i < |s| ==> r[i] == LowerChar(s[i])
    ensures forall i :: 0 <= i < |r| ==> !IsUpper(r[i])
  {
    if s == [] then [] else [LowerChar(s[0])] + Lower(s[1..])
  }

  /** Lower-casing twice is lower-casing once. */
  lemma LowerIdempotent(s: string)
    ensures Lower(Lower(s)) == Lower(s)
  {
    var t := Lower(s);
    assert forall i :: 0 <= i < |t| ==> LowerChar(t[i]) == t[i];
  }

  /** Lower-casing distributes over concatenation. */
  lemma LowerAppend(a: string, b: string)
    ensures Lower(a + b) == Lower(a) + Lower(b)
  {
  }

  // ---------------------------------------------------------------------------
  // str(n) and int(s) for integers in base ten
  // ---------------------------------------------------------------------------

  predicate IsDigit(c: char) {
    '0' <= c <= '9'
  }

  predicate AllDigits(s: string) {
    forall i :: 0 <= i < |s| ==> IsDigit(s[i])
  }

  function DigitChar(d: int): (c: char)
    requires 0 <= d < 10
    ensures IsDigit(c) && c as int - '0' as int == d
  {
    ('0' as int + d) as char
  }

  /** The canonical decimal spelling of a natural number: digits only, no leading zero. */
  function NatToDecimal(n: nat): (r: string)
    ensures |r| >= 1 && AllDigits(r)
    ensures |r| > 1 ==> r[0] != '0'
  {
    if n < 10 then [DigitChar(n)] else NatToDecimal(n / 10) + [DigitChar(n % 10)]
  }

  /** `str(n)` for a Python int: a minus sign before the digits of a negative number. */
  function Decimal(n: int): (r: string)
    ensures |r| >= 1
    ensures n >= 0 ==> AllDigits(r)
    ensures n < 0 ==> r[0] == '-' && AllDigits(r[1..])
  {
    if n < 0 then "-" + NatToDecimal(-n) else NatToDecimal(n)
  }

  /** The value of a string of decimal digits, most significant first. */
  function DigitsValue(s: string): nat
    requires AllDigits(s)
  {
    if s == [] then 0
    else
      var d := s[|s| - 1] as int - '0' as int;
      assert IsDigit(s[|s| - 1]) && d >= 0;
      DigitsValue(s[..|s| - 1]) * 10 + d
  }

  /** `sys.get_int_max_str_digits()` at its default: `int()` and `str()` refuse a
      decimal spelling with more digits than this with a `ValueError`. */
  const MaxStrDigits: nat := 4300

  function Abs(n: int): nat {
    if n < 0 then -n else n
  }

  /** The integers whose decimal spelling `int()` and `str()` handle. */
  predicate WithinDigitLimit(n: int) {
    |NatToDecimal(Abs(n))| <= MaxStrDigits
  }

  /** What follows an optional leading sign. */
  function Unsigned(s: string): (d: string)
    ensures d == s || (|s| >= 1 && (s[0] == '+' || s[0] == '-') && d == s[1..])
  {
    if |s| >= 1 && (s[0] == '+' || s[0] == '-') then s[1..] else s
  }

  /** `int(s)`: an optional sign followed by between one and `MaxStrDigits` decimal
      digits; anything else is the `ValueError` branch, here `None`. */
  function ParseInt(s: string): (r: Option<int>)
    ensures r.Some? <==> 1 <= |Unsigned(s)| <= MaxStrDigits && AllDigits(Unsigned(s))
    ensures r.Some? ==> var v: int := DigitsValue(Unsigned(s)); r.value == if s[0] == '-' then -v else v
  {
    var digits := Unsigned(s);
    if digits == [] || |digits| > MaxStrDigits || !AllDigits(digits) then None
    else
      var v: int := DigitsValue(digits);
      Some(if s[0] == '-' then -v else v)
  }

  lemma {:induction false} DigitsValueOfDecimal(n: nat)
    ensures DigitsValue(NatToDecimal(n)) == n
  {
    if n >= 10 {
      var front, last := NatToDecimal(n / 10), [DigitChar(n % 10)];
      assert (front + last)[..|front + last| - 1] == front;
      DigitsValueOfDecimal(n / 10);
    }
  }

  function Zeros(k: nat): (z: string)
    ensures |z| == k && AllDigits(z)
  {
    seq(k, _ => '0')
  }

  /** Leading zeros do not change the value of a digit string. */
  lemma {:induction false} DigitsValueZeros(k: nat, d: string)
    requires AllDigits(d)
    ensures AllDigits(Zeros(k) + d) && DigitsValue(Zeros(k) + d) == DigitsValue(d)
  {
    var t := Zeros(k) + d;
    if d == [] {
      assert t == Zeros(k);
      if k > 0 {
        assert t[..k - 1] == Zeros(k - 1);
        DigitsValueZeros(k - 1, []);
        assert Zeros(k - 1) + [] == Zeros(k - 1);
      }
    } else {
      var front := d[..|d| - 1];
      assert t[..|t| - 1] == Zeros(k) + front;
      DigitsValueZeros(k, front);
    }
  }

  /** Every digit string is some zeros followed by the canonical spelling of its value. */
  lemma {:induction false} DigitsSpelling(d: string)
    requires d != [] && AllDigits(d)
    ensures var c := NatToDecimal(DigitsValue(d));
      |c| <= |d| && d == Zeros(|d| - |c|) + c
  {
    if |d| > 1 {
      var front, last := d[..|d| - 1], d[|d| - 1];
      var v, x := DigitsValue(front), last as int - '0' as int;
      DigitsSpelling(front);
      var cf := NatToDecimal(v);
      assert front == Zeros(|front| - |cf|) + cf;
      assert d == front + [last];
      if v == 0 {
        assert cf == "0";
        assert Zeros(|front| - 1) + "0" == Zeros(|front|);
        assert NatToDecimal(x) == [last];
      } else {
        var n := v * 10 + x;
        assert n / 10 == v && n % 10 == x;
        assert NatToDecimal(n) == cf + [DigitChar(x)];
        assert DigitChar(x) == last;
      }
    } else {
      assert NatToDecimal(DigitsValue(d)) == [DigitChar(d[0] as int - '0' as int)];
    }
  }

  /** `int()` on a sign or none followed by a non-empty string of digits. */
  lemma SignedDigits(sign: string, digits: string)
    requires sign == "" || sign == "+" || sign == "-"
    requires digits != [] && AllDigits(digits)
    ensures var v: int := DigitsValue(digits);
      ParseInt(sign + digits) == if |digits| <= MaxStrDigits then Some(if sign == "-" then -v else v) else None
  {
    var s := sign + digits;
    if sign == "" {
      assert s == digits && IsDigit(s[0]);
    } else {
      assert s[0] == sign[0] && s[1..] == digits;
    }
    assert Unsigned(s) == digits;
    assert s[0] == '-' <==> sign == "-";
    if |digits| <= MaxStrDigits {
      assert ParseInt(s).Some?;
    }
  }

  /** Every spelling `int()` accepts: a sign or none, leading zeros, then the digits of
      `n`; it is accepted exactly when the digits, zeros included, fit the limit. */
  lemma ParseIntSpellings(sign: string, k: nat, n: nat)
    requires sign == "" || sign == "+" || sign == "-"
    ensures var digits := Zeros(k) + NatToDecimal(n);
      ParseInt(sign + digits) == if |digits| <= MaxStrDigits then Some(if sign == "-" then -(n as int) else n) else None
  {
    DigitsValueZeros(k, NatToDecimal(n));
    DigitsValueOfDecimal(n);
    SignedDigits(sign, Zeros(k) + NatToDecimal(n));
  }

  /** And `int()` accepts nothing else: whatever it parses is a sign or none, leading
      zeros, and the canonical digits of the absolute value. */
  lemma ParseIntOnlySpellings(s: string, n: int)
    requires ParseInt(s) == Some(n)
    ensures var digits := Unsigned(s);
      var sign, c := s[..|s| - |digits|], NatToDecimal(Abs(n));
      (sign == "" || sign == "+" || sign == "-") && |c| <= |digits| &&
      s == sign + Zeros(|digits| - |c|) + c && n == (if sign == "-" then -(Abs(n) as int) else Abs(n))
  {
    var digits := Unsigned(s);
    var sign, c := s[..|s| - |digits|], NatToDecimal(Abs(n));
    assert Abs(n) == DigitsValue(digits);
    DigitsSpelling(digits);
    var z := Zeros(|digits| - |c|);
    assert digits == z + c;
    SignSplit(s);
    assert s == sign + (z + c) == sign + z + c;
  }

  /** A string is its optional sign followed by the rest. */
  lemma SignSplit(s: string)
    ensures var sign := s[..|s| - |Unsigned(s)|];
      (sign == "" || sign == "+" || sign == "-") && s == sign + Unsigned(s)
  {
    if Unsigned(s) != s {
      assert s == [s[0]] + s[1..];
    }
  }

  /** `int(str(n)) == n` for every integer within the digit limit; beyond it `int()`
      refuses the spelling. */
  lemma ParseDecimal(n: int)
    ensures ParseInt(Decimal(n)) == if WithinDigitLimit(n) then Some(n) else None
  {
    var sign := if n < 0 then "-" else "";
    assert Decimal(n) == sign + NatToDecimal(Abs(n));
    DigitsValueOfDecimal(Abs(n));
    SignedDigits(sign, NatToDecimal(Abs(n)));
  }

  /** Distinct integers render as distinct strings. */
  lemma DecimalInjective(m: int, n: int)
    requires Decimal(m) == Decimal(n)
    ensures m == n
  {
    var d := Decimal(m);
    assert m < 0 <==> d[0] == '-';
    assert n < 0 <==> d[0] == '-';
    var a := if m < 0 then d[1..] else d;
    assert a == NatToDecimal(Abs(m)) == NatToDecimal(Abs(n));
    DigitsValueOfDecimal(Abs(m));
    DigitsValueOfDecimal(Abs(n));
  }

  // ---------------------------------------------------------------------------
  // str.encode('utf-8')
  // ---------------------------------------------------------------------------

  predicate IsAscii(s: string) {
    forall i :: 0 <= i < |s| ==> s[i] as int < 128
  }

  /** The UTF-8 encoding of one Unicode scalar value (section 3 of RFC 3629). */
  function Utf8EncodeChar(c: char): (r: seq<Byte>)
    ensures 1 <= |r| <= 4
    ensures c as int < 128 <==> |r| == 1
    ensures c as int < 128 ==> r[0] as int == c as int
  {
    var n := c as int;
    if n < 0x80 then [n as Byte]
    else if n < 0x800 then [(0xC0 + n / 0x40) as Byte, (0x80 + n % 0x40) as Byte]
    else if n < 0x10000 then
      [(0xE0 + n / 0x1000) as Byte, (0x80 + n / 0x40 % 0x40) as Byte, (0x80 + n % 0x40) as Byte]
    else
      [(0xF0 + n / 0x40000) as Byte, (0x80 + n / 0x1000 % 0x40) as Byte,
       (0x80 + n / 0x40 % 0x40) as Byte, (0x80 + n % 0x40) as Byte]
  }

  function Utf8Encode(s: string): (r: seq<Byte>)
    ensures |s| <= |r| <= 4 * |s|
    ensures IsAscii(s) ==> |r| == |s| && forall i :: 0 <= i < |s| ==> r[i] as int == s[i] as int
  {
    if s == [] then [] else Utf8EncodeChar(s[0]) + Utf8Encode(s[1..])
  }

  /** On ASCII text the encoding is one byte per character, so it loses nothing. */
  lemma AsciiUtf8Injective(s: string, t: string)
    requires IsAscii(s) && IsAscii(t) && Utf8Encode(s) == Utf8Encode(t)
    ensures s == t
  {
    assert forall i :: 0 <= i < |s| ==> s[i] as int == Utf8Encode(s)[i] as int == t[i] as int;
  }

  // ---------------------------------------------------------------------------
  // str.rstrip(c)
  // ---------------------------------------------------------------------------

  /** Remove every trailing copy of `c`: the result is the prefix of `s` after which
      only `c` follows and which does not itself end in `c`. */
  function RStrip(s: string, c: char): (r: string)
    ensures |r| <= |s| && r == s[..|r|]
    ensures forall i :: |r| <= i < |s| ==> s[i] == c
    ensures r == [] || r[|r| - 1] != c
  {
    if s != [] && s[|s| - 1] == c then RStrip(s[..|s| - 1], c) else s
  }

  /** Stripping a run of `c` off a string that does not end in `c` gives that string back. */
  lemma RStripPadding(s: string, pad: string, c: char)
    requires s == [] || s[|s| - 1] != c
    requires forall i :: 0 <= i < |pad| ==> pad[i] == c
    ensures RStrip(s + pad, c) == s
  {
    var t := s + pad;
    assert |s| > 0 ==> t[|s| - 1] == s[|s| - 1];
    assert forall i :: |s| <= i < |t| ==> t[i] == pad[i - |s|];
    assert t[..|s|] == s;
  }
}
