/** gen_url.py: the offline script that mints a token for one path. It repeats the
    validator's signing steps on its own (`b64url_nopad`, and the `exp`, `msg`,
    `sig`, `sig_b64` assignments); the lemmas below show that what it mints is what
    the validator and the routes accept. */
module GenUrl {
  import opened Wrappers
  import opened Text
  import opened Base64Url
  import opened Token
  import opened Gate

  /** The script's defaults: `PATH` and `TTL` (seconds). */
  const DefaultPath: string := "/live/stream.m3u8"
  const DefaultTtl: int := 30

  /** `b64url_nopad`: `urlsafe_b64encode(b).decode().rstrip("=")`. */
  function B64UrlNopad(b: seq<Byte>): (r: string)
    ensures |r| == UnpaddedLength(|b|) && AllUrlSafe(r)
    ensures DecodeNoPad(r) == Some(b)
  {
    StripPadding(b);
    StrippedEncoding(b);
    DecodeEncode(b);
    RStrip(UrlSafeEncode(b), '=')
  }

  /** Python's `int(x)` for a float: truncation toward zero. */
  function Truncate(x: real): (n: int)
    ensures x >= 0.0 ==> n as real <= x < n as real + 1.0
    ensures x < 0.0 ==> n as real - 1.0 < x <= n as real
  {
    if x >= 0.0 then x.Floor else -((-x).Floor)
  }

  datatype MintedToken = MintedToken(exp: int, sig: string)

  /** The script body for secret `secret`, path `path`, time-to-live `ttl` and clock
      reading `now`: `exp = int(now) + ttl`, `msg = (path.lower() + str(exp)).encode()`,
      `sig_b64 = b64url_nopad(hmac(secret, msg))`. The signature it mints is the one
      `TokenValidator._compute_signature` computes for the same secret, path and `exp`. */
  function Mint(secret: string, hmac: Hmac, path: string, ttl: int, now: real): (t: MintedToken)
    ensures t.exp == Truncate(now) + ttl
    ensures t.sig == NewTokenValidator(secret).ComputeSignature(hmac, path, t.exp)
  {
    var exp := Truncate(now) + ttl;
    var msg := Utf8Encode(Lower(path) + Decimal(exp));
    var sig := hmac(Utf8Encode(secret), msg);
    MintedToken(exp, B64UrlNopad(sig))
  }

  /** A minted token is accepted, for the path it was minted for, at every instant up
      to and including `exp`, and reported expired at every instant after it. With a
      time-to-live of at least one second, `exp` lies more than `ttl - 1` seconds after
      the minting instant, so the token stays live for at least that long. */
  lemma MintedTokenAccepted(secret: string, hmac: Hmac, path: string, ttl: int, mintedAt: real, now: real)
    ensures var t := Mint(secret, hmac, path, ttl, mintedAt);
      var v := NewTokenValidator(secret);
      (now <= t.exp as real ==> v.ValidateRequest(hmac, path, t.exp, t.sig, now) == Accepted) &&
      (now > t.exp as real ==> v.ValidateRequest(hmac, path, t.exp, t.sig, now) == Expired)
    ensures (Mint(secret, hmac, path, ttl, mintedAt).exp as real) > mintedAt + (ttl - 1) as real
  {
  }

  /** End to end: the query string the script prints (`exp` as `str(exp)`, `sig` as
      `sig_b64`), sent to the route whose path it was minted for on a server holding
      the same secret, is answered with the file while the token is live and the file
      exists. (An `exp` beyond the digit limit would make `str(exp)` in the script
      raise before anything is printed.) */
  lemma MintedUrlServed(secret: string, hmac: Hmac, route: Route, ttl: int, mintedAt: real, now: real, files: set<string>)
    requires var t := Mint(secret, hmac, RequestPath(route), ttl, mintedAt); now <= t.exp as real
    requires FileName(route) in files
    requires WithinDigitLimit(Mint(secret, hmac, RequestPath(route), ttl, mintedAt).exp)
    ensures var t := Mint(secret, hmac, RequestPath(route), ttl, mintedAt);
      var r := Serve(NewTokenValidator(secret), hmac, route, Query(Some(Decimal(t.exp)), Some(t.sig)), now, files);
      r.FileResponse? && r.fileName == FileName(route) && r.StatusCode() == 200
  {
    var t := Mint(secret, hmac, RequestPath(route), ttl, mintedAt);
    ParseDecimal(t.exp);
    Classification(NewTokenValidator(secret), hmac, route, Query(Some(Decimal(t.exp)), Some(t.sig)), now, files);
  }

  /** With the script's defaults the manifest URL is served, with the playlist media
      type and `no-store`, for the 29 seconds after minting. */
  lemma DefaultMintServesManifest(secret: string, hmac: Hmac, mintedAt: real, now: real, files: set<string>)
    requires mintedAt <= now <= mintedAt + 29.0
    requires ManifestFile in files
    requires WithinDigitLimit(Truncate(mintedAt) + DefaultTtl)
    ensures var t := Mint(secret, hmac, DefaultPath, DefaultTtl, mintedAt);
      ServeManifest(NewTokenValidator(secret), hmac, Query(Some(Decimal(t.exp)), Some(t.sig)), now, files)
        == FileResponse(ManifestFile, "application/vnd.apple.mpegurl", "no-store")
  {
    MintedTokenAccepted(secret, hmac, DefaultPath, DefaultTtl, mintedAt, now);
    MintedUrlServed(secret, hmac, Manifest, DefaultTtl, mintedAt, now, files);
  }
}
