# HMAC token gate for HLS media — a verified Dafny model

The service serves an HLS playlist (`/live/stream.m3u8`) and its transport-stream
segments (`/live/<segment>.ts`) only to requests that carry a short-lived token: the
query parameters `exp` (a Unix time in seconds) and `sig`. The token is valid when the
clock has not passed `exp` and `sig` is the unpadded base64url (section 5 of RFC 4648)
of the HMAC-SHA256 (RFC 2104, FIPS 180-4), under a shared secret, of the lower-cased
path followed by the decimal `exp`. An offline script mints such tokens.

The model, one module per source file:

- `text.dfy` (`Text`): the Python built-ins the protocol uses — ASCII `str.lower`,
  `str(int)`, `int(str)`, `str.encode('utf-8')`, `str.rstrip`.
- `base64url.dfy` (`Base64Url`): `base64.urlsafe_b64encode`, with a decoder of the
  unpadded form as its proved inverse.
- `token_validator.dfy` (`Token`): `ValidationResult` and `TokenValidator` of
  `token_validator.py`. `token.py` is a line-for-line copy of that file (the unit tests
  import it), so the one module models both; a row citing `token.py:N` applies equally to
  `token_validator.py:N` and the other way round.
- `deps.dfy` (`Deps`): the lazily filled validator cache of `deps.py`, as a class whose
  one field the method updates in place.
- `gate.dfy` (`Gate`): the two protected routes of `main.py` and
  `validate_token_dependency`, as a pure classifier from a request to its response.
- `gen_url.dfy` (`GenUrl`): the minting script `gen_url.py`.
- `wrappers.dfy` (`Wrappers`): `Option` and `Result`.

External inputs become parameters: the clock `now` (a `real`, since `time.time()` is
fractional), the HMAC-SHA256 function (`Token.Hmac`, any function returning 32 bytes),
the value of the `EDGE_SIGNING_SECRET` environment variable, and the set of file names
present under `HLS_ROOT`.

Where the code leaves a gap or disagrees with its own tests, the model follows the code:

- `TokenValidator.__init__` accepts any string, the empty one included. An empty secret
  is refused only in `get_token_validator` (`deps.py:23-24`) and at startup in
  `validate_environment` (`main.py:18-20`), and the model places the refusal there.
- `main.py:145` calls `validate_token` from `deps`, which `deps.py` does not define.
  `Gate.ValidateToken` raises the validator's own error name and status, as
  `tests/test_api.py:99-118` expect: `{"error": "expired"}` with 410 and
  `{"error": "forbidden"}` with 403.
- An `HTTPException` is modelled by its status and its `detail` exactly as raised; the
  JSON envelope FastAPI wraps around `detail` is not modelled.
  This leaves a mismatch in the source itself. FastAPI's default handler answers an
  `HTTPException` with the body `{"detail": <detail>}`, which is the envelope the 404
  tests expect (`tests/test_api.py:151`, `230`). The two 400 errors raised at
  `main.py:131-134` and `main.py:139-142` therefore arrive as
  `{"detail": {"error": ...}}`, whereas their tests expect a top-level `{"error": ...}`
  (`tests/test_api.py:127`, `133`, `138`, `220`, `254`). For the 410 and 403 errors
  (`tests/test_api.py:107`, `118`, `200`, `211`) the same mismatch holds only under the
  model's reading that `validate_token` raises `HTTPException(detail={"error": ...})`;
  the source does not show how they are raised. No exception handler that would unwrap
  `detail` is part of the files modelled here.

What is proved, in short: expiry is checked first and strictly (`exp == now` is still
live, half a second later is not); the verdict is one of exactly three shapes; a correct
signature is accepted and any other one forbidden; the signature ignores the path's case;
every signature is 43 URL-safe characters with no `=`, and its last character encodes
two zero bits, so it is never `'X'` and the `sig[:-1] + "X"` tamper test always changes
it; the encoding is injective, so two signatures differ exactly when the two digests do;
the message is injective in each component but not in both (`"/a1"`,23 and `"/a"`,123 both
sign `"/a123"`), yet across the paths the two routes sign it is injective; the request
gate decides missing parameter, malformed `exp`, expired, forbidden, not found and served
in that order, where `int()` accepts exactly a sign or none, leading zeros and the digits
of the value, 4300 digits at most; and tokens the script mints are exactly the ones the validator computes,
accepted until `exp` and served end to end.

## Model

| member | source | states |
|---|---|---|
| Text.Lower | token_validator.py:65 | ASCII lower-casing: same length, each character folded, no capital left |
| Text.LowerIdempotent | token_validator.py:65 | lower-casing an already lower-cased path changes nothing |
| Text.Decimal | token_validator.py:68 | `str(exp)`: at least one character, digits only for `exp >= 0`, a `-` then digits below zero |
| Text.ParseInt | main.py:136-142 | `int(exp)`: a result exactly when the string is an optional `+` or `-` followed by one to 4300 ASCII digits (CPython's default `int_max_str_digits`); its value is the digits' value, negated after `-` |
| Text.ParseDecimal | main.py:137 | `int(str(n)) == n` for every integer of at most 4300 digits, and a `ValueError` beyond |
| Text.ParseIntSpellings | main.py:137 | a sign or none, any leading zeros, then the digits of `n` parse to `n` (negated after `-`) exactly when all the digits fit the 4300-digit limit |
| Text.ParseIntOnlySpellings | main.py:137 | whatever `int()` accepts is such a spelling: sign or none, leading zeros, and the canonical digits of the value |
| Text.DecimalInjective | token_validator.py:68 | distinct integers render as distinct strings |
| Text.Utf8Encode | token_validator.py:28 | `encode('utf-8')`: between `|s|` and `4|s|` bytes; on ASCII text one byte per character equal to its code |
| Text.AsciiUtf8Injective | token_validator.py:68 | on ASCII text equal UTF-8 bytes mean equal strings |
| Text.RStrip | token_validator.py:75 | `rstrip('=')`: the longest prefix after which only `=` follows, not itself ending in `=` |
| Base64Url.UrlSafeEncode | token_validator.py:74 | `urlsafe_b64encode`: four characters per started group of three bytes |
| Base64Url.EncodingShape | token_validator.py:74 | the padded encoding is `ceil(8n/6)` alphabet characters followed by `=` only |
| Base64Url.StrippedEncoding | token_validator.py:74-75 | after stripping, exactly `ceil(8n/6)` characters, all from `A-Za-z0-9-_` |
| Base64Url.LastCharNotX | token_validator.py:74-75 | when the byte count is not a multiple of three the last character is never `'X'` |
| Base64Url.DecodeEncode | token_validator.py:74-75 | decoding the stripped encoding gives the bytes back |
| Base64Url.StrippedEncodingInjective | token_validator.py:74-75 | equal stripped encodings come from equal bytes |
| Token.NewTokenValidator | token_validator.py:22-28 | the stored key is exactly the secret's UTF-8 bytes, never shorter than the secret and as long as it for ASCII |
| Token.Message | token_validator.py:65-68 | the signed text is the lower-cased path followed directly by `str(exp)` |
| Token.TokenValidator.IsExpired | token_validator.py:77-86 | live up to and including the instant `exp`, expired at any instant after it, a fraction of a second included |
| Token.TokenValidator.ComputeSignature | token_validator.py:54-75 | the signature is 43 characters of the URL-safe alphabet (so no `=`) whose last character is not `'X'` |
| Token.TokenValidator.ValidateRequest | token_validator.py:30-52 | one of three results; valid exactly when not expired and `sig` equals the computed signature; expired whenever `now > exp`; forbidden when live with a different `sig` |
| Token.ResultShapes | token_validator.py:10-16 | in every result the flag and the two error fields are set together or not at all, `expired` with 410 and `forbidden` with 403 |
| Token.ExpiryPrecedesSignature | token.py:42-43 | an expired token is `expired` whatever its signature |
| Token.ExpiryBoundary | token.py:86 | `exp == now` is accepted, `exp = now - 1` expired, `exp = now + 1` accepted, and `exp` half a second in the past expired |
| Token.FreshlySignedIsAccepted | token.py:52 | a live token with the computed signature is `(True, None, None)` |
| Token.TamperedSignatureForbidden | token.py:49-50 | replacing the last character of a correct signature with `X` always changes it and is forbidden |
| Token.SingleCharTamperForbidden | token_validator.py:49-50 | changing any one character of a correct signature makes a live token forbidden |
| Token.SignatureIgnoresCase | token.py:65 | `compute(p, e) == compute(lower(p), e)` |
| Token.ValidationIgnoresCase | token_validator.py:65 | paths equal up to ASCII case get the same verdict for every token |
| Token.SignatureDeterminesDigest | token_validator.py:71-75 | two signatures are equal exactly when the two HMAC digests are |
| Token.MessageInjectiveInExp | token.py:68 | for a fixed path, equal messages mean equal `exp` |
| Token.MessageInjectiveInPath | token_validator.py:68 | for a fixed `exp`, equal messages mean equal lower-cased paths |
| Token.MessageIsAscii | token_validator.py:65-68 | an ASCII path gives an ASCII message |
| Token.SignedBytesInjective | token_validator.py:68-71 | for ASCII paths the UTF-8 bytes handed to HMAC determine the message, hence `exp` for one path and the lower-cased path for one `exp` |
| Token.MessageNotInjective | token_validator.py:67-68 | `("/a1", 23)` and `("/a", 123)` sign the same message `"/a123"` |
| Deps.ValidatorCache.constructor | deps.py:8 | the cache starts empty |
| Deps.ValidatorCache.GetTokenValidator | deps.py:11-26 | a filled cache is returned unchanged without consulting the secret; otherwise a missing or empty secret fails with the `RuntimeError` and leaves the cache empty, and a non-empty one builds, stores and returns the validator; a stored key is never empty |
| Deps.RepeatedCalls | deps.py:20-26 | after a first successful call a second call returns the same validator whatever the environment says; after a failed one it reads the secret afresh |
| Gate.ValidateToken | main.py:145 | passes exactly the tokens the validator accepts; an `expired` verdict raises 410 `{"error": "expired"}` and a `forbidden` one 403 `{"error": "forbidden"}`, and nothing else is raised |
| Gate.RequestPath | main.py:67-100 | the path a route signs (the literal at line 67, the f-string at line 97) is `/live/` followed by the file name the route serves |
| Gate.FileName | main.py:70-103 | the file a route serves (line 70 or line 103) ends in `.ts` exactly for a segment, and is the segment name followed by `.ts` |
| Gate.ValidateTokenDependency | main.py:115-145 | a missing `exp` or `sig` is 400 `missing_parameters` before any parsing; a non-integer `exp` is 400 `invalid_expiration`; the request passes exactly when the validator accepts the parsed `exp` |
| Gate.ServeManifest | main.py:53-79 | the playlist is served, as `application/vnd.apple.mpegurl` with `no-store`, exactly when the token passes and the file exists; 404 exactly when the token passes and it does not |
| Gate.ServeSegment | main.py:82-112 | a segment is validated against `/live/<segment>.ts` and served as `video/mp2t` with `public, max-age=10, immutable` exactly when the token passes and `<segment>.ts` exists; 404 exactly when it passes and the file is absent |
| Gate.Classification | main.py:126-145 | every request gets one response, decided in the order missing parameter (400), bad `exp` (400), expired (410), forbidden (403), not found (404), served (200) |
| Gate.FileLookupOnlyAfterToken | main.py:67-73 | a 404 or a served file implies a present, integer, unexpired and correctly signed token |
| Gate.ExpSpellingIrrelevant | main.py:136-137 | two spellings of the same integer in `exp` get the same response |
| Gate.ZeroPaddedExp | main.py:137 | `"0100"` and `"100"` both parse to 100 |
| Gate.SegmentCaseMismatchIsNotFound | main.py:97-106 | a segment requested in another case than it was signed in passes the token check and, with no file of that exact name, gets 404 rather than 403 |
| Gate.RoutedMessagesInjective | main.py:67-97 | across the manifest and segment paths, equal messages mean equal lower-cased paths and equal `exp` |
| GenUrl.B64UrlNopad | gen_url.py:8-9 | `ceil(8n/6)` URL-safe characters (no `=`) that decode back to the input |
| GenUrl.Truncate | gen_url.py:11 | `int(x)` on a float truncates toward zero |
| GenUrl.Mint | gen_url.py:11-14 | `exp = int(now) + TTL`, and the minted `sig_b64` equals the validator's `_compute_signature(PATH, exp)` under the same secret |
| GenUrl.MintedTokenAccepted | gen_url.py:11-14 | a minted token is accepted for its path at every instant up to `exp`, expired after it, and `exp` is more than `TTL - 1` seconds after minting |
| GenUrl.MintedUrlServed | gen_url.py:16 | the printed `exp` and `sig`, sent to the route of the minted path while live, are answered with the file when it exists |
| GenUrl.DefaultMintServesManifest | gen_url.py:5-6 | with `PATH = "/live/stream.m3u8"` and `TTL = 30` the playlist is served for the 29 seconds after minting |

## Left out

- HMAC-SHA256 itself (`hmac.new` with `hashlib.sha256`): a foreign cryptographic call, taken as a parameter that returns 32 bytes. No collision resistance is assumed, so "different inputs give different signatures" is proved at the level of messages and digests, not of signatures.
- `time.time()`, `os.getenv`, `os.environ`: passed in as values.
- Text.Lower: folds only the ASCII capitals; Python's `str.lower` also folds non-ASCII letters. Paths outside ASCII are therefore not modelled faithfully.
- Text.ParseInt: accepts an optional sign and ASCII digits only; Python's `int()` also allows surrounding whitespace, `_` between digits and non-ASCII decimal digits. The 4300-digit limit is modelled at its default value; a limit changed with `sys.set_int_max_str_digits` is not.
- Text.Decimal: `str(n)` is modelled for every integer, without the `ValueError` CPython raises beyond 4300 digits. In the gate every `exp` has passed `int()`, so it is within the limit; the lemmas that render an arbitrary `exp` (`Gate.SegmentCaseMismatchIsNotFound`, `GenUrl.MintedUrlServed`, `GenUrl.DefaultMintServesManifest`) require it to be within the limit, which for the script means a clock below 10^4300 seconds.
- Constant-time comparison: the source compares with plain `!=`, as the model does; timing is not expressible.
- FastAPI routing, `FileResponse` streaming, `Path.exists()` (replaced by membership in the set of file names), the JSON envelope of `HTTPException`, the `/healthz` endpoint, `validate_environment` with its `sys.exit` and `print`, and `uvicorn`.
- The `auth` module that `deps.py` imports `TokenValidator` from is not part of this model; it is taken to be the `TokenValidator` of `token_validator.py`.
- `urllib.parse.quote` and `print` in `gen_url.py`: the printed URL is represented by the `exp` and `sig` values it carries; `quote` is not modelled. The `KeyError` that `os.environ[...]` raises for an unset secret is not modelled.
- Query-string parsing: the request reaches the model as at most one `exp` and one `sig` string; URL decoding and repeated parameters are left to FastAPI.
- The test files: read as evidence for the properties above, not modelled.
