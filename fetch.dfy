/** The fetch handler (adapter/static/src/worker/index.ts): resolve the
    request's mode, give the hook the first word, then answer from the
    current cache or the network according to the path's class. */
module FetchHandler {
  import opened Wrappers
  import opened JsNumber
  import opened JsString
  import opened Http
  import opened Settings
  import opened Installer

  /* ---------------------------------------------------------------------
     Request modes
     --------------------------------------------------------------------- */

  /** `VWRequestMode` */
  datatype VWMode = DefaultMode | ForcePassthrough | HandleOnly | NoNetwork

  /** The value of a `vw-mode` header or search parameter that names a mode */
  function ModeName(m: VWMode): string {
    match m
    case DefaultMode => "default"
    case ForcePassthrough => "force-passthrough"
    case HandleOnly => "handle-only"
    case NoNetwork => "no-network"
  }

  /** Membership in `vwRequestModes`, which leaves out `"default"`: the mode
      a value selects, if any */
  function ModeOf(value: Option<string>): (m: Option<VWMode>)
    ensures m.Some? ==> m.value != DefaultMode && value == Some(ModeName(m.value))
    ensures forall n :: n != DefaultMode && value == Some(ModeName(n)) ==> m == Some(n)
  {
    if value == Some("force-passthrough") then Some(ForcePassthrough)
    else if value == Some("handle-only") then Some(HandleOnly)
    else if value == Some("no-network") then Some(NoNetwork)
    else None
  }

  /** `getVWRequestMode`: a valid header wins, then a valid search
      parameter, then the default for the kind of path. */
  function GetVWRequestMode(req: Request, hasVirtualPrefix: bool): (m: VWMode)
    ensures ModeOf(req.modeHeader).Some? ==> m == ModeOf(req.modeHeader).value
    ensures ModeOf(req.modeHeader).None? && ModeOf(req.modeParam).Some? ==> m == ModeOf(req.modeParam).value
    ensures ModeOf(req.modeHeader).None? && ModeOf(req.modeParam).None? ==>
      m == (if hasVirtualPrefix then HandleOnly else DefaultMode)
  {
    var fromHeader := ModeOf(req.modeHeader);
    if fromHeader.Some? then fromHeader.value
    else
      var fromParam := ModeOf(req.modeParam);
      if fromParam.Some? then fromParam.value
      else if hasVirtualPrefix then HandleOnly else DefaultMode
  }

  /** Every mode but the default can be asked for by name, in the header or
      in the search parameter, and the header takes precedence. */
  lemma ModeByName(req: Request, hasVirtualPrefix: bool, m: VWMode)
    requires m != DefaultMode
    ensures req.modeHeader == Some(ModeName(m)) ==> GetVWRequestMode(req, hasVirtualPrefix) == m
    ensures ModeOf(req.modeHeader).None? && req.modeParam == Some(ModeName(m)) ==> GetVWRequestMode(req, hasVirtualPrefix) == m
  {
  }

  /** The text `default` is not a recognised value: on a virtual path it
      still leaves the request in `handle-only` mode. */
  lemma DefaultIsNotSelectable(req: Request)
    requires req.modeHeader == Some("default") && ModeOf(req.modeParam).None?
    ensures GetVWRequestMode(req, true) == HandleOnly
    ensures GetVWRequestMode(req, false) == DefaultMode
  {
  }

  /* ---------------------------------------------------------------------
     The handlers in front of the worker's own logic
     --------------------------------------------------------------------- */

  /** The function `selectHandleFetchFunction` returns: none, the hooks
      file's `handleFetch`, or the built-in quick-fetch handler */
  datatype Handler = NoHandler | UserHook | QuickFetch

  /** `selectHandleFetchFunction` */
  function SelectHandleFetchFunction(virtualHref: Option<string>, isCrossOrigin: bool, hasFetchHook: bool): (h: Handler)
    ensures h == QuickFetch <==> !isCrossOrigin && virtualHref == Some("quick-fetch")
    ensures h == UserHook <==> hasFetchHook && !(h == QuickFetch)
  {
    if isCrossOrigin then (if hasFetchHook then UserHook else NoHandler)
    else if virtualHref == Some("quick-fetch") then QuickFetch
    else if hasFetchHook then UserHook else NoHandler
  }

  /** What a handler returns: `null` right away, a response right away, or a
      promise that resolves to a response or `null` */
  datatype HookOutput = NoOutput | Immediate(response: Response) | Later(answer: Option<Response>)

  /** The handler answered with a response */
  predicate Answers(output: HookOutput) {
    output.Immediate? || (output.Later? && output.answer.Some?)
  }

  /** The response a handler answered with */
  function AnswerOf(output: HookOutput): Response
    requires Answers(output)
  {
    if output.Immediate? then output.response else output.answer.value
  }

  /** The world the handler sees: this worker's origin, what the hook and the
      quick-fetch handler return for the request, the entries of the current
      cache, what the network answers to each request (`None` when `fetch`
      rejects), and the verdict of `isResponseTheDefault`. */
  datatype FetchEnv = FetchEnv(
    selfOrigin: string,
    hookOutput: HookOutput,
    quickFetchAnswer: Response,
    cache: seq<Entry>,
    network: Request -> Option<Response>,
    isDefault: (Request, Response) -> bool
  )

  /** What the selected handler returns; the quick-fetch handler is async */
  function HandlerOutput(h: Handler, env: FetchEnv): HookOutput {
    match h
    case NoHandler => NoOutput
    case UserHook => env.hookOutput
    case QuickFetch => Later(Some(env.quickFetchAnswer))
  }

  /* ---------------------------------------------------------------------
     Requests and the network
     --------------------------------------------------------------------- */

  /** `modifyRequestForCaching`: no `Range` or `vw-mode` header, the method
      `GET` unless told to keep it, and the cache mode `no-cache` */
  function ModifyRequestForCaching(req: Request, enforceGetRequest: bool): (m: Request)
    ensures KeyOf(m) == KeyOf(req) && m.origin == req.origin
    ensures !m.hasRange && m.modeHeader.None? && m.noCache
    ensures m.verb == (if enforceGetRequest then "GET" else req.verb)
  {
    req.(verb := if enforceGetRequest then "GET" else req.verb, hasRange := false, modeHeader := None, noCache := true)
  }

  /** The page sent for a route navigation while offline:
      `new Response("Something went wrong. …")` */
  const OfflinePage := Response(Default, 200, map["content-type" := "text/plain;charset=UTF-8"],
                                Some("Something went wrong. Please connect to the internet and try again."))

  /** The offline page carries no stamp. */
  lemma OfflinePageIsUnstamped(version: int)
    ensures !IsFresh(version, OfflinePage) && IsResponseUsable(OfflinePage)
  {
    UnstampedIsStale(OfflinePage, version);
  }

  /** `fetchResource`: the response and whether it is an error. A response
      of an acceptable type is stamped; a rejected fetch gives the offline
      page for a route navigation and a network error otherwise. */
  function FetchResource(c: Config, env: FetchEnv, pathWithoutBase: string, modified: Request, isPage: bool)
    : (r: (Response, bool))
    ensures r.1 <==> env.network(modified).None?
    ensures r.1 ==> r.0 == (if pathWithoutBase in c.routes && isPage then OfflinePage else NetworkError)
    ensures !r.1 && AcceptableType(env.network(modified).value.rtype) ==>
      r.0 == AddVWHeaders(c.version, env.network(modified).value)
    ensures !r.1 && !AcceptableType(env.network(modified).value.rtype) ==> r.0 == env.network(modified).value
    ensures !r.1 && IsResponseUsable(r.0) ==> IsFresh(c.version, r.0)
  {
    var fetched := env.network(modified);
    if fetched.None? then
      (if pathWithoutBase in c.routes && isPage then OfflinePage else NetworkError, true)
    else if AcceptableType(fetched.value.rtype) then (AddVWHeaders(c.version, fetched.value), false)
    else (fetched.value, false)
  }

  /** The detached work of `updateResourceInBackground`: the network
      requests it sends and the cache writes it makes */
  datatype Background = Background(fetched: seq<Request>, writes: seq<Entry>)

  /** What `updateResourceInBackground` is willing to store: a usable
      response that is the default one for the request and not partial
      content */
  predicate Storable(env: FetchEnv, modified: Request, res: Response) {
    IsResponseUsable(res) && env.isDefault(modified, res) && res.status != 206
  }

  /** `updateResourceInBackground`: fetch and stamp the resource unless
      one is given, then store it if it is storable. */
  function UpdateResourceInBackground(env: FetchEnv, version: int, modified: Request, resource: Option<Response>)
    : (b: Background)
    ensures b.fetched == (if resource.None? then [modified] else [])
    ensures resource.Some? ==>
      b.writes == (if Storable(env, modified, resource.value) then [Entry(KeyOf(modified), resource.value)] else [])
    ensures resource.None? && env.network(modified).None? ==> b.writes == []
    ensures resource.None? && env.network(modified).Some? ==>
      var stamped := AddVWHeaders(version, env.network(modified).value);
      b.writes == (if Storable(env, modified, stamped) then [Entry(KeyOf(modified), stamped)] else [])
    ensures |b.writes| <= 1
    ensures forall w :: w in b.writes ==>
      && w.key == KeyOf(modified)
      && IsResponseUsable(w.response) && w.response.status != 206 && env.isDefault(modified, w.response)
      && (if resource.None? then env.network(modified).Some? && w.response == AddVWHeaders(version, env.network(modified).value)
          else w.response == resource.value)
  {
    var fetched := if resource.None? then [modified] else [];
    var res :=
      if resource.Some? then resource
      else if env.network(modified).None? then None
      else Some(AddVWHeaders(version, env.network(modified).value));
    if res.Some? && Storable(env, modified, res.value)
    then Background(fetched, [Entry(KeyOf(modified), res.value)])
    else Background(fetched, [])
  }

  /* ---------------------------------------------------------------------
     The handler
     --------------------------------------------------------------------- */

  /** How a fetch event ends: the worker does not respond (the browser
      fetches as if there were no worker), or it responds, having sent the
      given network requests, looked in the cache or not, and left the given
      cache writes to the background. */
  datatype FetchOutcome =
    | Passthrough
    | Respond(response: Response, fetched: seq<Request>, lookedUp: bool, writes: seq<Entry>)

  /** What the handler computes from the request before deciding anything */
  datatype Facts = Facts(
    pathWithoutBase: string,
    hasVirtualPrefix: bool,
    mode: VWMode,
    isGet: bool,
    isHead: bool,
    isPage: bool,
    isCrossOrigin: bool,
    inCacheList: bool,
    virtualHref: Option<string>
  )

  /** The facts, in terms of the request: the path is what follows the
      base URL, the virtual path what follows the virtual prefix, and a
      request is in the cache list exactly when it is a same-origin GET or
      HEAD of a listed path. */
  function Classify(c: Config, env: FetchEnv, req: Request): (f: Facts)
    ensures StartsWith(req.pathname, c.baseUrl) ==> req.pathname == c.baseUrl + f.pathWithoutBase
    ensures f.hasVirtualPrefix <==> StartsWith(f.pathWithoutBase, c.virtualPrefix)
    ensures f.virtualHref.Some? <==> f.hasVirtualPrefix
    ensures f.virtualHref.Some? ==> f.pathWithoutBase == c.virtualPrefix + f.virtualHref.value
    ensures f.mode == GetVWRequestMode(req, f.hasVirtualPrefix)
    ensures (f.isGet <==> req.verb == "GET") && (f.isHead <==> req.verb == "HEAD")
    ensures f.isPage <==> req.navigate && req.verb == "GET"
    ensures f.isCrossOrigin <==> req.origin != env.selfOrigin
    ensures f.inCacheList <==>
      req.origin == env.selfOrigin && (req.verb == "GET" || req.verb == "HEAD") && f.pathWithoutBase in CompleteCacheList(c)
  {
    var pathWithoutBase := SliceFrom(req.pathname, |c.baseUrl|);
    var hasVirtualPrefix := StartsWith(pathWithoutBase, c.virtualPrefix);
    PrefixAndRest(req.pathname, c.baseUrl);
    PrefixAndRest(pathWithoutBase, c.virtualPrefix);
    var isGet := req.verb == "GET";
    var isHead := req.verb == "HEAD";
    var isCrossOrigin := req.origin != env.selfOrigin;
    Facts(
      pathWithoutBase,
      hasVirtualPrefix,
      GetVWRequestMode(req, hasVirtualPrefix),
      isGet,
      isHead,
      req.navigate && isGet,
      isCrossOrigin,
      !isCrossOrigin && (isGet || isHead) && pathWithoutBase in CompleteCacheList(c),
      if hasVirtualPrefix then Some(SliceFrom(pathWithoutBase, |c.virtualPrefix|)) else None
    )
  }

  /** The fetch event listener. A request in the cache list is always
      answered unless it forces passthrough, and otherwise only when
      passthrough is enabled may the worker leave a request alone. The
      cache is only read for listed requests, and at most one usable,
      complete response is written back. */
  function HandleFetch(c: Config, env: FetchEnv, req: Request): (r: FetchOutcome)
    ensures Classify(c, env, req).inCacheList && Classify(c, env, req).mode != ForcePassthrough ==> r.Respond?
    ensures r.Passthrough? && Classify(c, env, req).mode != ForcePassthrough ==> c.enablePassthrough
    ensures r.Respond? && (r.lookedUp || r.writes != []) ==> Classify(c, env, req).inCacheList
    ensures r.Respond? ==> |r.writes| <= 1
    ensures r.Respond? ==> forall w :: w in r.writes ==> IsResponseUsable(w.response) && w.response.status != 206
  {
    var f := Classify(c, env, req);
    if f.mode == ForcePassthrough then Passthrough
    else
      var handler := SelectHandleFetchFunction(f.virtualHref, f.isCrossOrigin, c.hasFetchHook);
      var output := HandlerOutput(handler, env);
      if handler != NoHandler && c.enablePassthrough && output.NoOutput? && !f.inCacheList && f.mode != HandleOnly
      then Passthrough
      else RespondWith(c, env, req, f, output)
  }

  /** The body of `respondWith`, once past the hook: it always responds;
      `handle-only` touches neither the network nor the cache, and
      `no-network` sends nothing to the network for a same-origin GET or
      HEAD. */
  function RespondWith(c: Config, env: FetchEnv, req: Request, f: Facts, output: HookOutput): (r: FetchOutcome)
    ensures r.Respond?
    ensures (r.lookedUp || r.writes != []) ==> f.inCacheList
    ensures f.mode == HandleOnly ==> r.fetched == [] && !r.lookedUp && r.writes == []
    ensures f.mode == NoNetwork && !f.isCrossOrigin && (f.isGet || f.isHead) ==> r.fetched == []
    ensures |r.writes| <= 1
    ensures forall w :: w in r.writes ==> IsResponseUsable(w.response) && w.response.status != 206
  {
    if Answers(output) then Respond(AnswerOf(output), [], false, [])
    else if f.mode == HandleOnly then Respond(NetworkError, [], false, [])
    else if f.isCrossOrigin || !(f.isGet || f.isHead) then
      var res := env.network(req);
      Respond(if res.Some? then res.value else NetworkError, [req], false, [])
    else if f.inCacheList then ServeCachedOrNetwork(c, env, req, f)
    else ServeFromNetwork(c, env, req, f, false)
  }

  /** A request in the cache list: look it up first. A fresh entry, and in
      `no-network` mode any cached entry, is served with no network request
      and no write. */
  function ServeCachedOrNetwork(c: Config, env: FetchEnv, req: Request, f: Facts): (r: FetchOutcome)
    ensures r.Respond? && r.lookedUp
    ensures var cached := Match(env.cache, KeyOf(ModifyRequestForCaching(req, true)));
      cached.Some? && StampOf(cached.value) == Num(c.version) ==> r.fetched == [] && r.writes == []
    ensures var cached := Match(env.cache, KeyOf(ModifyRequestForCaching(req, true)));
      cached.Some? && (StampOf(cached.value) == Num(c.version) || f.mode == NoNetwork) ==>
        r == Respond(HandleHeadRequest(cached.value, f.isHead), [], true, [])
    ensures f.mode == NoNetwork ==> r.fetched == []
    ensures |r.writes| <= 1
    ensures forall w :: w in r.writes ==> IsResponseUsable(w.response) && w.response.status != 206
  {
    var modified := ModifyRequestForCaching(req, true);
    var cached := Match(env.cache, KeyOf(modified));
    if cached.None? then ServeFromNetwork(c, env, req, f, true)
    else
      var entry := cached.value;
      var stale := StampOf(entry) != Num(c.version);
      if !stale then Respond(HandleHeadRequest(entry, f.isHead), [], true, [])
      else if f.mode == NoNetwork || f.pathWithoutBase in c.staleLazy then
        var bg := if f.mode != NoNetwork then UpdateResourceInBackground(env, c.version, modified, None)
                  else Background([], []);
        Respond(HandleHeadRequest(entry, f.isHead), bg.fetched, true, bg.writes)
      else
        // The branch for lax-lazy (and for any other stale entry) as written:
        // a successful refetch is discarded and the stale entry served; the
        // documentation of the "lazy" mode promises the reverse.
        var (resource, isError) := FetchResource(c, env, f.pathWithoutBase, modified, f.isPage);
        if !isError then Respond(HandleHeadRequest(entry, f.isHead), [modified], true, [])
        else
          var bg := UpdateResourceInBackground(env, c.version, modified, Some(resource));
          Respond(HandleHeadRequest(resource, f.isHead), [modified] + bg.fetched, true, bg.writes)
  }

  /** Nothing usable was cached: the network, unless it may not be used.
      The one request it sends is the request prepared for caching, and it
      writes only for a GET in the cache list. */
  function ServeFromNetwork(c: Config, env: FetchEnv, req: Request, f: Facts, lookedUp: bool): (r: FetchOutcome)
    ensures r.Respond? && r.lookedUp == lookedUp
    ensures r.fetched == [] <==> f.mode == NoNetwork
    ensures r.fetched != [] ==> r.fetched == [ModifyRequestForCaching(req, false)]
    ensures r.writes != [] ==> f.inCacheList && !f.isHead
    ensures |r.writes| <= 1
    ensures forall w :: w in r.writes ==> IsResponseUsable(w.response) && w.response.status != 206
  {
    if f.mode == NoNetwork then Respond(NetworkError, [], lookedUp, [])
    else
      var modified := ModifyRequestForCaching(req, false);
      var (resource, isError) := FetchResource(c, env, f.pathWithoutBase, modified, f.isPage);
      if isError || f.isHead then Respond(resource, [modified], lookedUp, [])
      else
        var bg := if f.inCacheList then UpdateResourceInBackground(env, c.version, modified, Some(resource))
                  else Background([], []);
        Respond(HandleHeadRequest(resource, f.isHead), [modified] + bg.fetched, lookedUp, bg.writes)
  }

  /* ---------------------------------------------------------------------
     Properties
     --------------------------------------------------------------------- */

  /** No handler answered the request */
  predicate Unanswered(c: Config, env: FetchEnv, req: Request) {
    var f := Classify(c, env, req);
    !Answers(HandlerOutput(SelectHandleFetchFunction(f.virtualHref, f.isCrossOrigin, c.hasFetchHook), env))
  }

  /** `force-passthrough` leaves the request to the browser. */
  lemma ForcePassthroughIsIgnored(c: Config, env: FetchEnv, req: Request)
    requires Classify(c, env, req).mode == ForcePassthrough
    ensures HandleFetch(c, env, req) == Passthrough
  {
  }

  /** An answer from the hook is what the page gets, in every mode but
      `force-passthrough`, with no network request and no cache access. */
  lemma HookAnswerWins(c: Config, env: FetchEnv, req: Request)
    requires Classify(c, env, req).mode != ForcePassthrough && !Unanswered(c, env, req)
    ensures var f := Classify(c, env, req);
      HandleFetch(c, env, req)
      == Respond(AnswerOf(HandlerOutput(SelectHandleFetchFunction(f.virtualHref, f.isCrossOrigin, c.hasFetchHook), env)),
                 [], false, [])
  {
  }

  /** In `handle-only` mode a request no handler answers is a network
      error; nothing else is tried. */
  lemma HandleOnlyWithoutAnswer(c: Config, env: FetchEnv, req: Request)
    requires Classify(c, env, req).mode == HandleOnly && Unanswered(c, env, req)
    ensures HandleFetch(c, env, req) == Respond(NetworkError, [], false, [])
  {
  }

  /** A fresh cached entry is served with no network request. */
  lemma FreshHitUsesNoNetwork(c: Config, env: FetchEnv, req: Request, entry: Response)
    requires var f := Classify(c, env, req);
      f.mode != ForcePassthrough && f.mode != HandleOnly && f.inCacheList && Unanswered(c, env, req)
    requires Match(env.cache, KeyOf(req)) == Some(entry) && IsFresh(c.version, entry)
    ensures HandleFetch(c, env, req) == Respond(HandleHeadRequest(entry, req.verb == "HEAD"), [], true, [])
  {
  }

  /** In `no-network` mode a same-origin GET or HEAD that the cache cannot
      answer is a network error, with no network request; unless, as
      written, passthrough is enabled and the hook returned `null` for a
      path outside the cache list, which hands the request to the browser. */
  lemma NoNetworkMissIsError(c: Config, env: FetchEnv, req: Request)
    requires var f := Classify(c, env, req);
      f.mode == NoNetwork && !f.isCrossOrigin && (f.isGet || f.isHead) && Unanswered(c, env, req)
    requires Match(env.cache, KeyOf(req)).None? || !Classify(c, env, req).inCacheList
    ensures HandleFetch(c, env, req) == Passthrough ||
      (HandleFetch(c, env, req).Respond? && HandleFetch(c, env, req).response == NetworkError
       && HandleFetch(c, env, req).fetched == [] && HandleFetch(c, env, req).writes == [])
    ensures HandleFetch(c, env, req) == Passthrough ==>
      c.enablePassthrough && c.hasFetchHook && env.hookOutput.NoOutput? && !Classify(c, env, req).inCacheList
  {
  }

  /** A cross-origin request, or one that is neither GET nor HEAD, never
      touches the cache: it is sent unchanged, at most once. */
  lemma UnsafeOrCrossOriginBypassCache(c: Config, env: FetchEnv, req: Request)
    requires var f := Classify(c, env, req); f.isCrossOrigin || !(f.isGet || f.isHead)
    ensures var o := HandleFetch(c, env, req);
      o.Respond? ==> !o.lookedUp && o.writes == [] && (o.fetched == [] || o.fetched == [req])
    ensures var o := HandleFetch(c, env, req);
      o.Respond? && Unanswered(c, env, req) && Classify(c, env, req).mode != HandleOnly ==> o.fetched == [req]
  {
  }

  /** In `no-network` mode a stale cached entry is served at once, with no
      network request and no write. */
  lemma NoNetworkServesStale(c: Config, env: FetchEnv, req: Request, entry: Response)
    requires var f := Classify(c, env, req); f.mode == NoNetwork && f.inCacheList && Unanswered(c, env, req)
    requires Match(env.cache, KeyOf(req)) == Some(entry) && !IsFresh(c.version, entry)
    ensures HandleFetch(c, env, req) == Respond(HandleHeadRequest(entry, req.verb == "HEAD"), [], true, [])
  {
    var f := Classify(c, env, req);
    assert HandleFetch(c, env, req) == ServeCachedOrNetwork(c, env, req, f);
  }

  /** As written, a same-origin path outside the base URL still has its
      first `BASE_URL.length` characters cut off: under the base `/app/`,
      `/xyz/foo.js` is read as the path `foo.js`. */
  lemma PathOutsideBaseIsCutBlindly(c: Config, env: FetchEnv, req: Request)
    requires c.baseUrl == "/app/" && req.pathname == "/xyz/foo.js"
    ensures !StartsWith(req.pathname, c.baseUrl)
    ensures Classify(c, env, req).pathWithoutBase == "foo.js"
  {
    assert req.pathname[..5] == "/xyz/";
    assert req.pathname[5..] == "foo.js";
  }

  /** Every cache write is of a path in the cache list, under the request's
      own key, usable, not partial content, and stamped with the current
      version, except the offline page written by the lax-lazy branch. */
  lemma WritesAreStampedAndUsable(c: Config, env: FetchEnv, req: Request)
    ensures var o := HandleFetch(c, env, req);
      o.Respond? ==> forall w :: w in o.writes ==>
        && Classify(c, env, req).inCacheList
        && w.key == KeyOf(req)
        && IsResponseUsable(w.response) && w.response.status != 206
        && (IsFresh(c.version, w.response) || w.response == OfflinePage)
  {
    var f := Classify(c, env, req);
    if f.mode != ForcePassthrough && !f.isCrossOrigin && (f.isGet || f.isHead) {
      if f.inCacheList {
        CachedWritesAreGood(c, env, req, f);
      } else {
        NetworkWritesAreGood(c, env, req, f, false);
      }
    }
  }

  /** The writes of an outcome are of the request's path in the cache
      list, under its key, usable, not partial content and fresh or the
      offline page. */
  ghost predicate GoodWrites(c: Config, req: Request, f: Facts, o: FetchOutcome) {
    o.Respond? ==> forall w :: w in o.writes ==>
      && f.inCacheList
      && w.key == KeyOf(req)
      && IsResponseUsable(w.response) && w.response.status != 206
      && (IsFresh(c.version, w.response) || w.response == OfflinePage)
  }

  lemma NetworkWritesAreGood(c: Config, env: FetchEnv, req: Request, f: Facts, lookedUp: bool)
    requires f == Classify(c, env, req)
    ensures GoodWrites(c, req, f, ServeFromNetwork(c, env, req, f, lookedUp))
  {
    var modified := ModifyRequestForCaching(req, false);
    assert KeyOf(modified) == KeyOf(req);
  }

  lemma CachedWritesAreGood(c: Config, env: FetchEnv, req: Request, f: Facts)
    requires f == Classify(c, env, req) && f.inCacheList
    ensures GoodWrites(c, req, f, ServeCachedOrNetwork(c, env, req, f))
  {
    var modified := ModifyRequestForCaching(req, true);
    assert KeyOf(modified) == KeyOf(req);
    var cached := Match(env.cache, KeyOf(modified));
    if cached.None? {
      NetworkWritesAreGood(c, env, req, f, true);
    } else if StampOf(cached.value) != Num(c.version) && !(f.mode == NoNetwork || f.pathWithoutBase in c.staleLazy) {
      var (resource, isError) := FetchResource(c, env, f.pathWithoutBase, modified, f.isPage);
      if isError {
        assert resource == OfflinePage || resource == NetworkError;
      }
    }
  }

  /** A stale entry of a stale-lazy path is served at once, and refreshed
      in the background. */
  lemma StaleLazyServesStale(c: Config, env: FetchEnv, req: Request, entry: Response)
    requires var f := Classify(c, env, req);
      f.mode == DefaultMode && f.inCacheList && f.pathWithoutBase in c.staleLazy && Unanswered(c, env, req)
    requires Match(env.cache, KeyOf(req)) == Some(entry) && !IsFresh(c.version, entry)
    ensures var o := HandleFetch(c, env, req);
      && o.Respond? && o.response == HandleHeadRequest(entry, req.verb == "HEAD")
      && o.fetched == [ModifyRequestForCaching(req, true)]
      && o.writes == UpdateResourceInBackground(env, c.version, ModifyRequestForCaching(req, true), None).writes
  {
    var f := Classify(c, env, req);
    assert HandleFetch(c, env, req) == ServeCachedOrNetwork(c, env, req, f);
  }

  /** As written, a stale entry of a lax-lazy path is served even when the
      refetch succeeds, and the fresh response is neither served nor
      stored. The documentation of the "lazy" mode (adapter/src/types.ts,
      line 140) promises the fresh response, with the stale entry only as
      the fallback when the network fails. */
  lemma LaxLazyAsWritten(c: Config, env: FetchEnv, req: Request, entry: Response)
    requires var f := Classify(c, env, req);
      f.mode == DefaultMode && f.inCacheList && f.pathWithoutBase !in c.staleLazy && Unanswered(c, env, req)
    requires Match(env.cache, KeyOf(req)) == Some(entry) && !IsFresh(c.version, entry)
    requires env.network(ModifyRequestForCaching(req, true)).Some?
    ensures HandleFetch(c, env, req)
         == Respond(HandleHeadRequest(entry, req.verb == "HEAD"), [ModifyRequestForCaching(req, true)], true, [])
  {
    var f := Classify(c, env, req);
    assert HandleFetch(c, env, req) == ServeCachedOrNetwork(c, env, req, f);
  }

  /** A lax-lazy refetch that fails serves the failure: the offline page on
      a route navigation, a network error otherwise. */
  lemma LaxLazyFailureServesError(c: Config, env: FetchEnv, req: Request, entry: Response)
    requires var f := Classify(c, env, req);
      f.mode == DefaultMode && f.inCacheList && f.pathWithoutBase !in c.staleLazy && Unanswered(c, env, req)
    requires Match(env.cache, KeyOf(req)) == Some(entry) && !IsFresh(c.version, entry)
    requires env.network(ModifyRequestForCaching(req, true)).None?
    ensures var o := HandleFetch(c, env, req);
      var f := Classify(c, env, req);
      o.Respond? && o.response == HandleHeadRequest(if f.pathWithoutBase in c.routes && f.isPage then OfflinePage else NetworkError, f.isHead)
  {
    var f := Classify(c, env, req);
    assert HandleFetch(c, env, req) == ServeCachedOrNetwork(c, env, req, f);
  }

  /** A miss in the cache list that the network answers is served and
      stored in the background when it is a usable GET response. */
  lemma MissIsFetchedAndStored(c: Config, env: FetchEnv, req: Request, res: Response)
    requires var f := Classify(c, env, req);
      f.mode == DefaultMode && f.inCacheList && f.isGet && Unanswered(c, env, req)
    requires Match(env.cache, KeyOf(req)).None?
    requires env.network(ModifyRequestForCaching(req, false)) == Some(res)
    requires IsResponseUsable(res) && res.status != 206 && env.isDefault(ModifyRequestForCaching(req, false), AddVWHeaders(c.version, res))
    ensures HandleFetch(c, env, req)
         == Respond(AddVWHeaders(c.version, res), [ModifyRequestForCaching(req, false)], true,
                    [Entry(KeyOf(req), AddVWHeaders(c.version, res))])
  {
    var f := Classify(c, env, req);
    assert HandleFetch(c, env, req) == ServeFromNetwork(c, env, req, f, true);
    NetworkAnswerIsStored(c, env, req, f, res);
  }

  lemma NetworkAnswerIsStored(c: Config, env: FetchEnv, req: Request, f: Facts, res: Response)
    requires f.mode != NoNetwork && f.inCacheList && f.isGet && !f.isHead
    requires env.network(ModifyRequestForCaching(req, false)) == Some(res)
    requires IsResponseUsable(res) && res.status != 206 && env.isDefault(ModifyRequestForCaching(req, false), AddVWHeaders(c.version, res))
    ensures ServeFromNetwork(c, env, req, f, true)
         == Respond(AddVWHeaders(c.version, res), [ModifyRequestForCaching(req, false)], true,
                    [Entry(KeyOf(req), AddVWHeaders(c.version, res))])
  {
    var modified := ModifyRequestForCaching(req, false);
    var stamped := AddVWHeaders(c.version, res);
    assert IsResponseUsable(stamped);
    assert FetchResource(c, env, f.pathWithoutBase, modified, f.isPage) == (stamped, false);
    assert UpdateResourceInBackground(env, c.version, modified, Some(stamped))
        == Background([], [Entry(KeyOf(req), stamped)]);
  }
}
