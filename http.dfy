/** Requests, responses and cache keys as the worker sees them, with the
    helpers that only look at a response: `addVWHeaders`, the staleness
    test, `isResponseUsable` and `handleHeadRequest`. */
module Http {
  import opened Wrappers
  import opened JsNumber

  /** `Response.type` */
  datatype ResponseType = Basic | Cors | Default | Error | Opaque | OpaqueRedirect

  /** A response: its type, status, headers (lower-case names) and body,
      `None` standing for a null body. */
  datatype Response = Response(
    rtype: ResponseType,
    status: int,
    headers: map<string, string>,
    body: Option<string>
  )

  /** A request: the method (`verb`), whether it is a navigation, the URL's origin,
      pathname and search string, the `vw-mode` header and search parameter,
      whether it carries a `Range` header, and whether its cache mode is
      `no-cache`. */
  datatype Request = Request(
    verb: string,
    navigate: bool,
    origin: string,
    pathname: string,
    search: string,
    modeHeader: Option<string>,
    modeParam: Option<string>,
    hasRange: bool,
    noCache: bool
  )

  /** What a cache matches a request by: its URL without the origin */
  datatype Key = Key(pathname: string, search: string)

  function KeyOf(req: Request): Key {
    Key(req.pathname, req.search)
  }

  /** The header that stamps a stored response with its version */
  const VersionHeader := "vw-version"

  /** `Response.error()` */
  const NetworkError := Response(Error, 0, map[], None)

  /** The version a response is stamped with: `parseInt` of its `vw-version`
      header, read as the text `null` when the header is missing. */
  function StampOf(r: Response): Number {
    ParseInt(if VersionHeader in r.headers then r.headers[VersionHeader] else "null")
  }

  /** Not stale: the stamp equals the current version exactly */
  predicate IsFresh(version: int, r: Response) {
    StampOf(r) == Num(version)
  }

  /** `addVWHeaders`: stamps the response with the current version and
      changes nothing else; a stamped response is fresh. */
  function AddVWHeaders(version: int, r: Response): (s: Response)
    ensures IsFresh(version, s)
    ensures s.rtype == r.rtype && s.status == r.status && s.body == r.body
    ensures forall h :: h in r.headers && h != VersionHeader ==> h in s.headers && s.headers[h] == r.headers[h]
    ensures forall h :: h in s.headers ==> h in r.headers || h == VersionHeader
  {
    ParseIntOfIntToString(version);
    r.(headers := r.headers[VersionHeader := IntToString(version)])
  }

  /** `acceptableResponseTypes` */
  predicate AcceptableType(t: ResponseType) {
    t == Basic || t == Default
  }

  /** `isResponseUsable`: an ordinary (basic or default) response whose
      status is not a 4xx or 5xx error. */
  function IsResponseUsable(r: Response): (usable: bool)
    ensures usable <==> AcceptableType(r.rtype) && !(400 <= r.status < 600)
  {
    if !AcceptableType(r.rtype) then false
    else
      var codeRange := FloorDiv(r.status, 100);
      !(codeRange == 4 || codeRange == 5)
  }

  /** `handleHeadRequest`: for a HEAD request with a body, a new response
      with the same headers and no body (`new Response(null, {headers})`,
      which has status 200 and type default); otherwise the response itself. */
  function HandleHeadRequest(r: Response, isHead: bool): (s: Response)
    ensures s.headers == r.headers
    ensures isHead ==> s.body.None?
    ensures !isHead || r.body.None? ==> s == r
    ensures isHead && r.body.Some? ==> s.status == 200 && s.rtype == Default
  {
    if !isHead || r.body.None? then r
    else Response(Default, 200, r.headers, None)
  }

  /** A stamp of version N is fresh while the current version is N and
      stale once it is N + 1: staleness is exact equality. */
  lemma StalenessBoundary(r: Response, n: int)
    requires StampOf(r) == Num(n)
    ensures IsFresh(n, r) && !IsFresh(n + 1, r)
  {
  }

  /** A response without a stamp is always stale. */
  lemma UnstampedIsStale(r: Response, version: int)
    requires VersionHeader !in r.headers
    ensures !IsFresh(version, r)
  {
    ParseIntOfNull();
  }
}
