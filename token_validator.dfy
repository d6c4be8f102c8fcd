/** The HMAC token gate: `ValidationResult` and `TokenValidator` of
    token_validator.py (token.py is a line-for-line copy of it).

    A token is a pair (exp, sig). The validator rejects it as expired when the
    clock has passed `exp`, and otherwise accepts it exactly when `sig` is the
    unpadded base64url HMAC-SHA256, under the shared secret, of the lower-cased
    path followed by the decimal spelling of `exp`. */
module Token {
  import opened Wrappers
  import opened Text
  import opened Base64Url

  /** HMAC-SHA256 (RFC 2104 over the SHA-256 of FIPS 180-4) yields 32 bytes. */
  const DigestLength: nat := 32

  type Digest = d: seq<Byte> | |d| == DigestLength witness seq(32, _ => 0 as Byte)

  /** The foreign MAC, keyed by its first argument. The model assumes nothing of
      it beyond the length of its result. */
  type Hmac = (seq<Byte>, seq<Byte>) -> Digest

  /** 32 bytes are 256 bits, which take 43 base64url characters. */
  const SignatureLength: nat := 43

  /** The source's result record: a flag, an error name and an HTTP status. */
  datatype ValidationResult = ValidationResult(isValid: bool, errorType: Option<string>, statusCode: Option<int>)

  const Accepted := ValidationResult(true, None, None)
  const Expired := ValidationResult(false, Some("expired"), Some(410))
  const Forbidden := ValidationResult(false, Some("forbidden"), Some(403))

  /** The message that is signed: the lower-cased path, then the decimal `exp`,
      with no separator between them. */
  function Message(path: string, exp: int): (m: string)
    ensures |m| == |path| + |Decimal(exp)|
    ensures m[..|path|] == Lower(path) && m[|path|..] == Decimal(exp)
  {
    Lower(path) + Decimal(exp)
  }

  /** `TokenValidator`: holds the UTF-8 bytes of the signing secret. */
  datatype TokenValidator = TokenValidator(signingSecret: seq<Byte>) {

    /** `_is_expired`: strictly past `exp` on the (fractional) clock `now`. The token
        is live up to and including the second `exp`, and expired from any instant
        after it, a fraction of a second included. */
    function IsExpired(exp: int, now: real): (expired: bool)
      ensures now <= exp as real ==> !expired
      ensures exp as real < now < exp as real + 1.0 ==> expired
      ensures now >= exp as real + 1.0 ==> expired
    {
      now > exp as real
    }

    /** `_compute_signature`: base64url of the HMAC of the message, '=' stripped.
        It is always 43 characters of the URL-safe alphabet, and never ends in 'X'. */
    function ComputeSignature(hmac: Hmac, path: string, exp: int): (sig: string)
      ensures |sig| == SignatureLength && AllUrlSafe(sig)
      ensures sig[SignatureLength - 1] != 'X'
    {
      var digest := hmac(signingSecret, Utf8Encode(Message(path, exp)));
      StrippedEncoding(digest);
      LastCharNotX(digest);
      RStrip(UrlSafeEncode(digest), '=')
    }

    /** `validate_request`: expiry first, then the signature comparison. */
    function ValidateRequest(hmac: Hmac, path: string, exp: int, sig: string, now: real): (r: ValidationResult)
      ensures r == Accepted || r == Expired || r == Forbidden
      ensures r.isValid <==> !IsExpired(exp, now) && sig == ComputeSignature(hmac, path, exp)
      ensures IsExpired(exp, now) ==> r == Expired
      ensures !IsExpired(exp, now) && sig != ComputeSignature(hmac, path, exp) ==> r == Forbidden
    {
      if IsExpired(exp, now) then Expired
      else if sig != ComputeSignature(hmac, path, exp) then Forbidden
      else Accepted
    }
  }

  /** `TokenValidator.__init__`: the secret is stored as its UTF-8 encoding. A
      non-empty secret gives a non-empty key. */
  function NewTokenValidator(signingSecret: string): (v: TokenValidator)
    ensures v.signingSecret == Utf8Encode(signingSecret)
    ensures |v.signingSecret| >= |signingSecret|
    ensures IsAscii(signingSecret) ==> |v.signingSecret| == |signingSecret|
  {
    TokenValidator(Utf8Encode(signingSecret))
  }

  // ---------------------------------------------------------------------------
  // Properties of the validator
  // ---------------------------------------------------------------------------

  /** The three verdicts keep the flag and the error fields mutually exclusive, and
      pair each error name with its status. */
  lemma ResultShapes(v: TokenValidator, hmac: Hmac, path: string, exp: int, sig: string, now: real)
    ensures var r := v.ValidateRequest(hmac, path, exp, sig, now);
      (r.isValid <==> r.errorType.None?) && (r.isValid <==> r.statusCode.None?) &&
      (r.errorType == Some("expired") <==> r.statusCode == Some(410)) &&
      (r.errorType == Some("forbidden") <==> r.statusCode == Some(403))
  {
  }

  /** An expired token is reported as expired whatever its signature, so two
      requests that differ only in `sig` get the same verdict. */
  lemma ExpiryPrecedesSignature(v: TokenValidator, hmac: Hmac, path: string, exp: int,
                                sig1: string, sig2: string, now: real)
    requires now > exp as real
    ensures v.ValidateRequest(hmac, path, exp, sig1, now) == Expired
    ensures v.ValidateRequest(hmac, path, exp, sig1, now) == v.ValidateRequest(hmac, path, exp, sig2, now)
  {
  }

  /** The comparison is strict: at the instant `exp` the token is still live, a second
      later it is not; on a fractional clock even half a second past `exp` expires it. */
  lemma ExpiryBoundary(v: TokenValidator, hmac: Hmac, path: string, t: int)
    ensures var sig := v.ComputeSignature(hmac, path, t);
      v.ValidateRequest(hmac, path, t, sig, t as real) == Accepted
    ensures var sig := v.ComputeSignature(hmac, path, t - 1);
      v.ValidateRequest(hmac, path, t - 1, sig, t as real) == Expired
    ensures var sig := v.ComputeSignature(hmac, path, t + 1);
      v.ValidateRequest(hmac, path, t + 1, sig, t as real) == Accepted
    ensures var sig := v.ComputeSignature(hmac, path, t);
      v.ValidateRequest(hmac, path, t, sig, t as real + 0.5) == Expired
  {
  }

  /** Lower-casing the path first changes nothing: the signature is computed over
      the lower-cased path anyway. */
  lemma SignatureIgnoresCase(v: TokenValidator, hmac: Hmac, path: string, exp: int)
    ensures v.ComputeSignature(hmac, path, exp) == v.ComputeSignature(hmac, Lower(path), exp)
  {
    LowerIdempotent(path);
  }

  /** Two paths that agree up to ASCII case get the same verdict for every token;
      in particular a signature minted over the lower-case path validates an upper- or
      mixed-case request. */
  lemma ValidationIgnoresCase(v: TokenValidator, hmac: Hmac, p: string, q: string, exp: int, sig: string, now: real)
    requires Lower(p) == Lower(q)
    ensures v.ValidateRequest(hmac, p, exp, sig, now) == v.ValidateRequest(hmac, q, exp, sig, now)
  {
    assert Message(p, exp) == Message(q, exp);
  }

  /** A correct signature for a live token is accepted, and the verdict depends on
      the signature only through this comparison. */
  lemma FreshlySignedIsAccepted(v: TokenValidator, hmac: Hmac, path: string, exp: int, now: real)
    requires !(now > exp as real)
    ensures v.ValidateRequest(hmac, path, exp, v.ComputeSignature(hmac, path, exp), now) == Accepted
  {
  }

  /** Replacing the last character of a correct signature with 'X' always changes
      it (the last character never is 'X'), so the tampered token is forbidden. */
  lemma TamperedSignatureForbidden(v: TokenValidator, hmac: Hmac, path: string, exp: int, now: real)
    requires !(now > exp as real)
    ensures var sig := v.ComputeSignature(hmac, path, exp);
      var tampered := sig[..|sig| - 1] + "X";
      tampered != sig && v.ValidateRequest(hmac, path, exp, tampered, now) == Forbidden
  {
    var sig := v.ComputeSignature(hmac, path, exp);
    var tampered := sig[..|sig| - 1] + "X";
    assert tampered[|sig| - 1] == 'X';
  }

  /** Changing any one character of a correct signature makes a live token forbidden. */
  lemma SingleCharTamperForbidden(v: TokenValidator, hmac: Hmac, path: string, exp: int, now: real, i: nat, c: char)
    requires !(now > exp as real)
    requires i < SignatureLength && c != v.ComputeSignature(hmac, path, exp)[i]
    ensures v.ValidateRequest(hmac, path, exp, v.ComputeSignature(hmac, path, exp)[i := c], now) == Forbidden
  {
    var sig := v.ComputeSignature(hmac, path, exp);
    assert sig[i := c][i] != sig[i];
  }

  /** Two signatures are equal exactly when the two digests are: the encoding hides
      nothing, so any difference between digests shows in the signature. */
  lemma SignatureDeterminesDigest(v: TokenValidator, hmac: Hmac, p1: string, e1: int, p2: string, e2: int)
    ensures v.ComputeSignature(hmac, p1, e1) == v.ComputeSignature(hmac, p2, e2) <==>
      hmac(v.signingSecret, Utf8Encode(Message(p1, e1))) == hmac(v.signingSecret, Utf8Encode(Message(p2, e2)))
  {
    var d1 := hmac(v.signingSecret, Utf8Encode(Message(p1, e1)));
    var d2 := hmac(v.signingSecret, Utf8Encode(Message(p2, e2)));
    if v.ComputeSignature(hmac, p1, e1) == v.ComputeSignature(hmac, p2, e2) {
      StrippedEncodingInjective(d1, d2);
    }
  }

  // ---------------------------------------------------------------------------
  // The signed message
  // ---------------------------------------------------------------------------

  /** For a fixed path, distinct expirations give distinct messages. */
  lemma MessageInjectiveInExp(path: string, e1: int, e2: int)
    requires Message(path, e1) == Message(path, e2)
    ensures e1 == e2
  {
    var l := Lower(path);
    assert Decimal(e1) == Message(path, e1)[|l|..];
    assert Decimal(e2) == Message(path, e2)[|l|..];
    DecimalInjective(e1, e2);
  }

  /** For a fixed expiration, paths that differ after lower-casing give distinct messages. */
  lemma MessageInjectiveInPath(p1: string, p2: string, exp: int)
    requires Message(p1, exp) == Message(p2, exp)
    ensures Lower(p1) == Lower(p2)
  {
    var d := Decimal(exp);
    assert Lower(p1) == Message(p1, exp)[..|Message(p1, exp)| - |d|];
    assert Lower(p2) == Message(p2, exp)[..|Message(p2, exp)| - |d|];
  }

  /** Without a separator the pair (path, exp) is not recoverable from the message:
      "/a1" with 23 and "/a" with 123 both sign "/a123". */
  lemma MessageNotInjective()
    ensures Message("/a1", 23) == Message("/a", 123) == "/a123"
  {
    assert Lower("/a1") == "/a1" && Lower("/a") == "/a";
    assert NatToDecimal(2) == "2" && NatToDecimal(23) == "23";
    assert NatToDecimal(1) == "1" && NatToDecimal(12) == "12" && NatToDecimal(123) == "123";
  }

  /** The message is ASCII whenever the path is, so its UTF-8 bytes are its characters. */
  lemma MessageIsAscii(path: string, exp: int)
    requires IsAscii(path)
    ensures IsAscii(Message(path, exp))
  {
    var l, d := Lower(path), Decimal(exp);
    assert forall i :: 0 <= i < |l| ==> l[i] as int < 128;
    assert forall i :: 0 <= i < |d| ==> d[i] as int < 128;
  }

  /** What HMAC receives is the UTF-8 encoding of the message. For ASCII paths that
      encoding loses nothing, so the bytes signed still tell apart two expirations
      for one path, and two lower-cased paths for one expiration. */
  lemma SignedBytesInjective(p1: string, e1: int, p2: string, e2: int)
    requires IsAscii(p1) && IsAscii(p2)
    requires Utf8Encode(Message(p1, e1)) == Utf8Encode(Message(p2, e2))
    ensures Message(p1, e1) == Message(p2, e2)
    ensures p1 == p2 ==> e1 == e2
    ensures e1 == e2 ==> Lower(p1) == Lower(p2)
  {
    MessageIsAscii(p1, e1);
    MessageIsAscii(p2, e2);
    AsciiUtf8Injective(Message(p1, e1), Message(p2, e2));
    if p1 == p2 {
      MessageInjectiveInExp(p1, e1, e2);
    }
    if e1 == e2 {
      MessageInjectiveInPath(p1, p2, e1);
    }
  }
}
