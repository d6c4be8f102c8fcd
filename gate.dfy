/** main.py: the two protected routes and `validate_token_dependency`, as a pure
    classifier from a request to the one response it gets. Raised `HTTPException`s
    are `HttpError` values; a served file is a `FileResponse`. The directory
    HLS_ROOT is given as the set of file names it holds. */
module Gate {
  import opened Wrappers
  import opened Text
  import opened Token

  /** `/live/stream.m3u8`, or `/live/{segment}.ts`. */
  datatype Route = Manifest | Segment(segment: string)

  /** The query parameters `exp` and `sig` as received, either possibly absent. */
  datatype Query = Query(exp: Option<string>, sig: Option<string>)

  /** The `detail` of an `HTTPException`: `{"error": ...}` or a plain message. */
  datatype Detail = ErrorCode(error: string) | Plain(text: string)

  datatype Response =
    | HttpError(status: int, detail: Detail)
    | FileResponse(fileName: string, mediaType: string, cacheControl: string)
  {
    function StatusCode(): int {
      if HttpError? then status else 200
    }
  }

  const ManifestPath: string := "/live/stream.m3u8"
  const ManifestFile: string := "stream.m3u8"

  const MissingParameters := HttpError(400, ErrorCode("missing_parameters"))
  const InvalidExpiration := HttpError(400, ErrorCode("invalid_expiration"))
  const NotFound := HttpError(404, Plain("File not found"))

  /** The path each route signs: the route's own logical path, without the query.
      It is `/live/` followed by the name of the file the route serves. */
  function RequestPath(route: Route): (path: string)
    ensures path == "/live/" + FileName(route)
  {
    match route
    case Manifest => ManifestPath
    case Segment(s) => "/live/" + s + ".ts"
  }

  /** The file each route serves, relative to HLS_ROOT: a segment's name ends in
      `.ts`, and the playlist's does not. */
  function FileName(route: Route): (name: string)
    ensures route.Segment? <==> |name| >= 3 && name[|name| - 3..] == ".ts"
    ensures route.Segment? ==> name[..|name| - 3] == route.segment
  {
    match route
    case Manifest => ManifestFile
    case Segment(s) => s + ".ts"
  }

  /** `deps.validate_token`, which deps.py does not define: it is taken to raise the
      validator's own error name and status, as the API tests expect
      ({"error": "expired"} with 410, {"error": "forbidden"} with 403). */
  function ValidateToken(v: TokenValidator, hmac: Hmac, requestPath: string, exp: int, sig: string, now: real): (r: Option<Response>)
    ensures r == None <==> v.ValidateRequest(hmac, requestPath, exp, sig, now).isValid
    ensures r == None || r == Some(HttpError(410, ErrorCode("expired"))) || r == Some(HttpError(403, ErrorCode("forbidden")))
    ensures v.ValidateRequest(hmac, requestPath, exp, sig, now) == Expired ==> r == Some(HttpError(410, ErrorCode("expired")))
    ensures v.ValidateRequest(hmac, requestPath, exp, sig, now) == Forbidden ==> r == Some(HttpError(403, ErrorCode("forbidden")))
  {
    var result := v.ValidateRequest(hmac, requestPath, exp, sig, now);
    if result.isValid then None
    else Some(HttpError(result.statusCode.value, ErrorCode(result.errorType.value)))
  }

  /** `validate_token_dependency`: `None` lets the handler go on; `Some(e)` is the
      exception raised. Absence is checked before `int()`, and `int()` before the
      validator, which sees the parsed value, re-rendered canonically in the message. */
  function ValidateTokenDependency(v: TokenValidator, hmac: Hmac, query: Query, requestPath: string, now: real): (r: Option<Response>)
    ensures query.exp.None? || query.sig.None? ==> r == Some(MissingParameters)
    ensures query.exp.Some? && query.sig.Some? && ParseInt(query.exp.value).None? ==> r == Some(InvalidExpiration)
    ensures r == None <==>
      query.exp.Some? && query.sig.Some? && ParseInt(query.exp.value).Some? &&
      v.ValidateRequest(hmac, requestPath, ParseInt(query.exp.value).value, query.sig.value, now).isValid
  {
    if query.exp.None? || query.sig.None? then Some(MissingParameters)
    else
      match ParseInt(query.exp.value)
      case None => Some(InvalidExpiration)
      case Some(exp) => ValidateToken(v, hmac, requestPath, exp, query.sig.value, now)
  }

  /** `serve_m3u8`. */
  function ServeManifest(v: TokenValidator, hmac: Hmac, query: Query, now: real, files: set<string>): (r: Response)
    ensures r.FileResponse? <==> ValidateTokenDependency(v, hmac, query, ManifestPath, now).None? && ManifestFile in files
    ensures r.FileResponse? ==> r == FileResponse(ManifestFile, "application/vnd.apple.mpegurl", "no-store")
    ensures r == NotFound <==> ValidateTokenDependency(v, hmac, query, ManifestPath, now).None? && ManifestFile !in files
  {
    match ValidateTokenDependency(v, hmac, query, ManifestPath, now)
    case Some(e) => e
    case None =>
      if ManifestFile !in files then NotFound
      else FileResponse(ManifestFile, "application/vnd.apple.mpegurl", "no-store")
  }

  /** `serve_ts_segment`. */
  function ServeSegment(v: TokenValidator, hmac: Hmac, segment: string, query: Query, now: real, files: set<string>): (r: Response)
    ensures var path, file := RequestPath(Segment(segment)), FileName(Segment(segment));
      (r.FileResponse? <==> ValidateTokenDependency(v, hmac, query, path, now).None? && file in files) &&
      (r.FileResponse? ==> r == FileResponse(file, "video/mp2t", "public, max-age=10, immutable")) &&
      (r == NotFound <==> ValidateTokenDependency(v, hmac, query, path, now).None? && file !in files)
  {
    var file := FileName(Segment(segment));
    match ValidateTokenDependency(v, hmac, query, RequestPath(Segment(segment)), now)
    case Some(e) => e
    case None =>
      if file !in files then NotFound
      else FileResponse(file, "video/mp2t", "public, max-age=10, immutable")
  }

  /** The response a request for `route` gets. */
  function Serve(v: TokenValidator, hmac: Hmac, route: Route, query: Query, now: real, files: set<string>): Response {
    match route
    case Manifest => ServeManifest(v, hmac, query, now, files)
    case Segment(s) => ServeSegment(v, hmac, s, query, now, files)
  }

  // ---------------------------------------------------------------------------
  // Properties of the gate
  // ---------------------------------------------------------------------------

  /** Every request ends in exactly one of six responses, decided in this order:
      missing parameter, malformed `exp`, expired, bad signature, absent file, served. */
  lemma {:induction false} Classification(v: TokenValidator, hmac: Hmac, route: Route, query: Query, now: real, files: set<string>)
    ensures var r := Serve(v, hmac, route, query, now, files);
      var path := RequestPath(route);
      if query.exp.None? || query.sig.None? then r == MissingParameters
      else if ParseInt(query.exp.value).None? then r == InvalidExpiration
      else
        var exp, sig := ParseInt(query.exp.value).value, query.sig.value;
        if now > exp as real then r == HttpError(410, ErrorCode("expired"))
        else if sig != v.ComputeSignature(hmac, path, exp) then r == HttpError(403, ErrorCode("forbidden"))
        else if FileName(route) !in files then r == NotFound
        else r.FileResponse? && r.fileName == FileName(route) && r.StatusCode() == 200
  {
    match route
    case Manifest =>
    case Segment(s) =>
  }

  /** The file lookup comes after the token check, so a request that gets 404 or 200
      carried a present, well-formed, unexpired and correctly signed token. */
  lemma FileLookupOnlyAfterToken(v: TokenValidator, hmac: Hmac, route: Route, query: Query, now: real, files: set<string>)
    requires var r := Serve(v, hmac, route, query, now, files); r == NotFound || r.FileResponse?
    ensures query.exp.Some? && query.sig.Some? && ParseInt(query.exp.value).Some?
    ensures var exp := ParseInt(query.exp.value).value;
      !(now > exp as real) && query.sig.value == v.ComputeSignature(hmac, RequestPath(route), exp)
  {
    Classification(v, hmac, route, query, now, files);
  }

  /** `exp` reaches the validator as a parsed integer: two spellings of the same
      number ("0100" and "100", "+7" and "7") get the same response. */
  lemma ExpSpellingIrrelevant(v: TokenValidator, hmac: Hmac, route: Route, e1: string, e2: string, sig: Option<string>, now: real, files: set<string>)
    requires ParseInt(e1) == ParseInt(e2)
    ensures Serve(v, hmac, route, Query(Some(e1), sig), now, files) == Serve(v, hmac, route, Query(Some(e2), sig), now, files)
  {
    Classification(v, hmac, route, Query(Some(e1), sig), now, files);
    Classification(v, hmac, route, Query(Some(e2), sig), now, files);
  }

  lemma ZeroPaddedExp()
    ensures ParseInt("0100") == ParseInt("100") == Some(100)
  {
    assert DigitsValue("0") == 0 && DigitsValue("01") == 1 && DigitsValue("010") == 10;
    assert DigitsValue("1") == 1 && DigitsValue("10") == 10;
    assert "0100"[..3] == "010" && "010"[..2] == "01" && "01"[..1] == "0";
    assert "100"[..2] == "10" && "10"[..1] == "1";
  }

  /** A segment requested in another case than it was signed in passes the token
      check, because the path is lower-cased before signing; when no file of that
      exact name exists the answer is 404, not 403. This holds for every `exp` whose
      spelling `int()` accepts, which is every one within the digit limit. */
  lemma SegmentCaseMismatchIsNotFound(v: TokenValidator, hmac: Hmac, signed: string, requested: string, exp: int, now: real, files: set<string>)
    requires Lower(signed) == Lower(requested)
    requires !(now > exp as real)
    requires requested + ".ts" !in files
    requires WithinDigitLimit(exp)
    ensures var sig := v.ComputeSignature(hmac, "/live/" + signed + ".ts", exp);
      ServeSegment(v, hmac, requested, Query(Some(Decimal(exp)), Some(sig)), now, files) == NotFound
  {
    var p, q := "/live/" + signed + ".ts", "/live/" + requested + ".ts";
    LowerAppend("/live/" + signed, ".ts");
    LowerAppend("/live/", signed);
    LowerAppend("/live/" + requested, ".ts");
    LowerAppend("/live/", requested);
    ParseDecimal(exp);
    ValidationIgnoresCase(v, hmac, p, q, exp, v.ComputeSignature(hmac, p, exp), now);
  }

  /** How a lower-cased route path ends: in 's' (".ts") or in "u8" (".m3u8"). */
  predicate RouteEnding(l: string) {
    |l| >= 2 && (l[|l| - 1] == 's' || (l[|l| - 1] == '8' && l[|l| - 2] == 'u'))
  }

  /** The characters `str(n)` can produce. */
  predicate DecimalChars(d: string) {
    forall i :: 0 <= i < |d| ==> IsDigit(d[i]) || d[i] == '-'
  }

  lemma RoutePathEnding(route: Route)
    ensures RouteEnding(Lower(RequestPath(route)))
  {
    match route
    case Manifest =>
    case Segment(s) =>
      var p := "/live/" + s + ".ts";
      assert p[|p| - 2..] == "ts";
  }

  lemma DecimalCharsOf(n: int)
    ensures DecimalChars(Decimal(n))
  {
  }

  /** If two route paths each followed by a decimal give the same string, the second
      path cannot be the longer one: its last characters would have to come from the
      digits of the first decimal. */
  lemma RouteEndsBeforeDecimal(l1: string, d1: string, l2: string, d2: string)
    requires l1 + d1 == l2 + d2
    requires RouteEnding(l1) && RouteEnding(l2) && DecimalChars(d1)
    ensures |l2| <= |l1|
  {
    var m := l1 + d1;
    assert forall i :: |l1| <= i < |m| ==> IsDigit(m[i]) || m[i] == '-' by {
      assert forall i :: |l1| <= i < |m| ==> m[i] == d1[i - |l1|];
    }
    assert m == l2 + d2;
    assert m[|l2| - 1] == l2[|l2| - 1] && m[|l2| - 2] == l2[|l2| - 2];
    assert m[|l1| - 1] == l1[|l1| - 1];
  }

  /** Although the message has no separator, across the paths the two routes sign it
      does determine the lower-cased path and the expiration: a token minted for one
      route and time never validates another. */
  lemma RoutedMessagesInjective(r1: Route, e1: int, r2: Route, e2: int)
    requires Message(RequestPath(r1), e1) == Message(RequestPath(r2), e2)
    ensures Lower(RequestPath(r1)) == Lower(RequestPath(r2)) && e1 == e2
  {
    var l1, l2 := Lower(RequestPath(r1)), Lower(RequestPath(r2));
    var d1, d2 := Decimal(e1), Decimal(e2);
    RoutePathEnding(r1);
    RoutePathEnding(r2);
    DecimalCharsOf(e1);
    DecimalCharsOf(e2);
    RouteEndsBeforeDecimal(l1, d1, l2, d2);
    RouteEndsBeforeDecimal(l2, d2, l1, d1);
    var m := l1 + d1;
    assert l1 == m[..|l1|] == l2;
    assert d1 == m[|l1|..] == d2;
    DecimalInjective(e1, e2);
  }
}
