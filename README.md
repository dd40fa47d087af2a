# Versioned Worker service worker: a Dafny model

This project models the service worker that SvelteKit Adapter Versioned Worker
ships to the browser (`adapter/static/src/worker/index.ts`). That worker keeps
one cache per app version, named `STORAGE_PREFIX + VERSION`. It has five
handlers:

- **install** finds the versions of the older caches (`getInstalled`). It
  downloads the version-diff files that list the paths changed since the
  newest of them (`getUpdated`, `parseUpdatedList`). It then plans which
  resources to download and which to copy from older caches, and carries
  the plan out.
- **activate** deletes the caches of older versions.
- **fetch** resolves the request's `vw-mode` and gives the `handleFetch`
  hook the first word. It then answers from the current cache, from the
  network, or not at all, depending on the path's class: route, pre-cache,
  lax-lazy, stale-lazy, strict-lazy or semi-lazy.
- **message** lets a page ask the waiting worker to take over.

The model has one module per part:

| file | module | what it holds |
|---|---|---|
| `wrappers.dfy` | `Wrappers` | `Option` |
| `jsnumber.dfy` | `JsNumber` | JavaScript numbers as used: `parseInt`, `String(n)`, `Math.floor`/`Math.ceil` of a quotient, `%`, NaN |
| `jsstring.dfy` | `JsString` | `startsWith`, `slice`, `indexOf`, `split`, `join` with ECMAScript semantics |
| `settings.dfy` | `Settings` | the build constants as one `Config` value; `COMPLETE_CACHE_LIST`, `REUSABLE_BETWEEN_VERSIONS`, `currentStorageName` |
| `http.dfy` | `Http` | requests, responses, `addVWHeaders`, the staleness test, `isResponseUsable`, `handleHeadRequest` |
| `versionfile.dfy` | `VersionFile` | the diff-file format, `parseUpdatedList`, a reference encoder |
| `resolver.dfy` | `Resolver` | `getInstalled` and `getUpdated`, as loops proved against specification functions |
| `install.dfy` | `Installer` | the install handler: the planning loops, the plan's properties, its execution |
| `activate.dfy` | `Activator` | the activate handler's clean-up loop |
| `fetch.dfy` | `FetchHandler` | the fetch handler and its helpers, as a function over oracles |
| `messages.dfy` | `Messages` | the message handler |

Where the source loops and mutates, the model is a `method` with a loop:
`getInstalled`, `getUpdated`, the install planner's nested loops and the
activate loop. Each method is proved equal to a specification function.
The properties are proved about that function. `parseUpdatedList`, the
fetch dispatch and the message handler are pure functions.

The browser is replaced by values and oracles:

- The origin's storage is a sequence of named caches, in `caches.keys()`
  order.
- A cache is a sequence of (key, response) entries. A key is the URL's
  pathname and search string.
- `fetch` is a function from a request to a response, or to `None` when it
  rejects. The diff files are fetched through a function from file id to
  an answer.
- `hooks.handleFetch`, the quick-fetch handler and `isResponseTheDefault`
  are fields of the fetch handler's environment.

Where the code and its documentation disagree, the model follows the code:

- **Lax-lazy resources.** When the cached copy is stale and the refetch
  succeeds, the code serves the stale copy and drops the fresh response
  (`index.ts:275-280`). The `"lazy"` documentation (`adapter/src/types.ts:140`)
  promises the reverse. `FetchHandler.LaxLazyAsWritten` states what the code
  does.
- **A diff file with no line break.** `parseUpdatedList` takes the text minus
  its last character as the format token (`index.ts:328-329`). So the text
  `20` is read as format 2 with one block holding `20`
  (`VersionFile.NoLineBreakQuirk`).
- **`no-network` mode with passthrough enabled.** When the hook returns
  `null` for a path outside the cache list, the request is handed to the
  browser, which will use the network (`index.ts:230-231`).
  `FetchHandler.NoNetworkMissIsError` states this exception.

## Model

| member | source | states |
|---|---|---|
| `JsNumber.ParseIntOfIntToString` | adapter/static/src/worker/index.ts:46 | `parseInt` reads back what `String(n)` wrote, for every integer, so a cache name gives back its version |
| `JsNumber.ParseIntOfNull` | adapter/static/src/worker/index.ts:268 | a missing `vw-version` header (read as the text `null`) parses to NaN |
| `JsNumber.ParseInt` | adapter/static/src/worker/index.ts:107 | blank text is NaN; a negative number comes only from text whose first non-blank character is `-`, and other text never gives one. `ParseIntOfIntToString` and `ParseIntOfNull` state its values |
| `JsNumber.IntToString` | adapter/static/src/worker/index.ts:433 | `String(n)` is a minus sign exactly for a negative number, then decimal digits with no leading zero; `ParseIntOfIntToString` reads it back |
| `JsNumber.JsRem` | adapter/static/src/worker/index.ts:382 | `%` takes the sign of the dividend: for a non-negative dividend it is the Euclidean remainder; for a negative one it is 0 when b divides it and the Euclidean remainder minus b otherwise, so it lies in (-b, 0] |
| `JsNumber.FloorDivBounds` | adapter/static/src/worker/index.ts:377-378 | `Math.floor(a / b)` is the largest q with b*q <= a |
| `JsNumber.CeilDivBounds` | adapter/static/src/worker/index.ts:374 | `Math.ceil(a / b)` is the smallest q with a <= b*q |
| `JsString.IndexOf` | adapter/static/src/worker/index.ts:328 | -1 exactly when the character is absent, otherwise the position of its first occurrence |
| `JsString.JoinSplit` | adapter/static/src/worker/index.ts:337 | joining the pieces of a split with the same separator gives back the text |
| `JsString.JoinSplitReplaces` | adapter/static/src/worker/index.ts:326 | `split("\r\n").join("\n")` replaces every CRLF, left to right |
| `JsString.SplitJoin` | adapter/static/src/worker/index.ts:334-335 | splitting a join of clean pieces gives back the pieces |
| `Http.AddVWHeaders` | adapter/static/src/worker/index.ts:431-435 | the stamped response is fresh; that it keeps its type, status, body and every other header is assumed of `modifyResponseHeaders` (see Left out) |
| `Http.IsResponseUsable` | adapter/static/src/worker/index.ts:506-512 | usable exactly when the type is basic or default and the status is not 4xx or 5xx |
| `Http.HandleHeadRequest` | adapter/static/src/worker/index.ts:497-504 | the headers are kept; a HEAD answer has no body; anything else is the response itself |
| `Http.StalenessBoundary` | adapter/static/src/worker/index.ts:268 | a stamp of version n is fresh for n and stale for n + 1: staleness is exact equality |
| `Http.UnstampedIsStale` | adapter/static/src/worker/index.ts:268 | a response without a stamp is stale for every version |
| `VersionFile.ParseBlock` | adapter/static/src/worker/index.ts:336-340 | a block gives no paths exactly when it is empty or starts with a line break; otherwise its lines, none of which holds a line break and which join back to the block |
| `VersionFile.ParseUpdatedList` | adapter/static/src/worker/index.ts:325-348 | the format is 2 exactly when the header test passes, and -1 with no blocks otherwise |
| `VersionFile.HeaderTest` | adapter/static/src/worker/index.ts:328-330 | the `indexOf`/`slice` test equals "first line is `2`, or the text is `2` plus one character" |
| `VersionFile.ParseEncode` | adapter/static/src/worker/index.ts:325-348 | parsing what the build writes for a batch gives back format 2 and the same blocks |
| `VersionFile.CrlfParsesLikeLf` | adapter/static/src/worker/index.ts:326 | a file with CRLF line breaks parses like the same file with LF |
| `VersionFile.NoLineBreakQuirk` | adapter/static/src/worker/index.ts:328-334 | `20` is accepted as format 2 with the block `["20"]`, while `2` is rejected |
| `Resolver.VersionOfCurrentName` | adapter/static/src/worker/index.ts:46 | the current cache's name reads back as the current version |
| `Resolver.SortDesc` | adapter/static/src/worker/index.ts:362 | the result is sorted newest first and is a permutation of the input |
| `Resolver.GetInstalled` | adapter/static/src/worker/index.ts:349-364 | NaN is reported exactly when an older cache name does not parse; otherwise the versions of the older caches, newest first, as a permutation |
| `Resolver.Max` | adapter/static/src/worker/index.ts:367 | `Math.max` is an element and an upper bound |
| `Resolver.BatchOffset` | adapter/static/src/worker/index.ts:374 | the batch offset is never positive |
| `Resolver.BatchOffsetZero` | adapter/static/src/worker/index.ts:374 | the offset is 0 exactly while version + 1 fits in `MAX_VERSION_FILES` batches |
| `Resolver.CeilOfNext` | adapter/static/src/worker/index.ts:374 | `Math.ceil((v + 1) / B)` is `Math.floor(v / B) + 1` |
| `Resolver.RangeNonEmpty` | adapter/static/src/worker/index.ts:376-384 | when the newest installed version is below the current one, the range is not empty |
| `Resolver.RangeStartInRange` | adapter/static/src/worker/index.ts:376-380 | the range start is not negative exactly when the newest installed batch is one of the last `MAX_VERSION_FILES` |
| `Resolver.ChooseRange` | adapter/static/src/worker/index.ts:366-384 | a settled answer is a clean install or a throw; a download is exactly the source's range and first index |
| `Resolver.GetUpdatedSpec` | adapter/static/src/worker/index.ts:365-411 | NaN among the installed versions throws; nothing installed, or a newest version not below the current one, is a clean install; a list of changed paths comes only when the newest installed version is below the current one. `CleanInstallCases`, `ChangedIsUnionOverVersions` and the lemmas below state the rest |
| `Resolver.GetUpdated` | adapter/static/src/worker/index.ts:365-411 | the method computes `GetUpdatedSpec` |
| `Resolver.DownloadAndCollect` | adapter/static/src/worker/index.ts:386-410 | the fetch loop, the format check and the union compute `ResolveRange` |
| `Resolver.CollectUpdated` | adapter/static/src/worker/index.ts:398-409 | the nested loops compute the union of the blocks, skipping the first file's blocks before `idInBatchOfOneAfterInstalled` |
| `Resolver.ResolveRangeClean` | adapter/static/src/worker/index.ts:386-396 | a downloaded range gives a clean install exactly when some file is of an unknown format |
| `Resolver.CleanInstallCases` | adapter/static/src/worker/index.ts:366-396 | a clean install happens exactly in the four cases: nothing installed, newest >= VERSION, negative range start, an unknown format |
| `Resolver.DownloadFailureThrows` | adapter/static/src/worker/index.ts:389-390 | a file in range that fails to download makes `getUpdated` throw |
| `Resolver.NaNThrows` | adapter/static/src/worker/index.ts:367-387 | a NaN among the installed versions makes `getUpdated` throw |
| `Resolver.BlocksUnionMembers` | adapter/static/src/worker/index.ts:406-408 | a path is in the union of blocks exactly when some block in the range lists it |
| `Resolver.FilesUnionMembers` | adapter/static/src/worker/index.ts:398-409 | a path is collected exactly when some block at or after the file's start index lists it |
| `Resolver.ChangedIsUnionOverFiles` | adapter/static/src/worker/index.ts:386-409 | the changed set is exactly what the range's files list, from the first file's start index |
| `Resolver.VersionOfFileBlock` | adapter/static/src/worker/index.ts:377-382 | a block of a file in range belongs to a version after the newest installed and no later than the last of the current batch |
| `Resolver.FileBlockOfVersion` | adapter/static/src/worker/index.ts:377-403 | every such version is a block of a file in range, at or after the start index |
| `Resolver.ChangedIsUnionOverVersions` | adapter/static/src/worker/index.ts:365-411 | the changed set is exactly the paths listed for the versions after the newest installed one |
| `Installer.Match` | adapter/static/src/worker/index.ts:162 | `cache.match`, here and in the fetch handler (`index.ts:266`): it finds nothing exactly when no entry has the key, and otherwise an entry with that key |
| `Installer.PathOfStoredKey` | adapter/static/src/worker/index.ts:106 | a path the install stored reads back as that path |
| `Installer.AddIfNewer` | adapter/static/src/worker/index.ts:133-144 | the path is a key afterwards and every other entry is unchanged; the new source is taken when the path was absent or the source's version is strictly newer, so among equal versions the first one stays |
| `Installer.StepOcc` | adapter/static/src/worker/index.ts:108-145 | one occurrence changes only its own path's plan; copies are never dropped; a path leaves the downloads only when it is pre-cached and unchanged, and is then copied; it joins them only when it is semi-lazy and changed. `PlanAfterDecides` states the fold |
| `Installer.PlanSpec` | adapter/static/src/worker/index.ts:94-147 | a clean install copies nothing; every route and pre-cached path is still downloaded, or, on an update, is an unchanged pre-cached path that is copied. `PlanDecides` states the per-path rules |
| `Installer.PlanInstall` | adapter/static/src/worker/index.ts:94-147 | the planning loops compute `PlanSpec`: the initial plan on a clean install, the fold over the older caches otherwise |
| `Installer.VisitCache` | adapter/static/src/worker/index.ts:107-145 | the loop over one cache's paths applies one step per path, in order |
| `Installer.StepsAppend` | adapter/static/src/worker/index.ts:101-146 | folding over two runs of paths is folding over the first, then the second |
| `Installer.PlanAfterDecides` | adapter/static/src/worker/index.ts:94-146 | a path is downloaded exactly as the class rules say; it is copied exactly when an older cache holds it and it may be reused; a copy is stale exactly when the path changed |
| `Installer.CopyComesFromOccurrence` | adapter/static/src/worker/index.ts:133-144 | every copy names an older cache that holds the path, and that cache's version |
| `Installer.StepCopyable` | adapter/static/src/worker/index.ts:116-130 | a reusable non-pre-cache path is added if newer, stale exactly when it changed |
| `Installer.CopyIsNewest` | adapter/static/src/worker/index.ts:137-139 | outside the pre-cache, no older cache holding the path has a strictly newer version than the copy's source |
| `Installer.PrecacheCopyIsFirst` | adapter/static/src/worker/index.ts:110-115 | a pre-cache path is copied, not stale, from the first older cache that holds it |
| `Installer.PlanDecides` | adapter/static/src/worker/index.ts:94-147 | on a clean install, routes and pre-cache are downloaded and nothing is copied; otherwise the per-path rules above |
| `Installer.RoutesAlwaysDownloaded` | adapter/static/src/worker/index.ts:94-97 | every route is downloaded |
| `Installer.PlanWithDisjointClasses` | adapter/static/src/worker/index.ts:109-131 | with disjoint classes, no path is both downloaded and copied, and no route is copied. Changed strict-lazy and semi-lazy paths are not copied. Changed lax- or stale-lazy copies are stale |
| `Installer.UnlistedNeverPlanned` | adapter/static/src/worker/index.ts:125-131 | a path outside the complete cache list is neither downloaded nor copied |
| `Installer.Execute` | adapter/static/src/worker/index.ts:152-173 | the install succeeds exactly when every download and copy succeeds; it then stores exactly the planned paths and tells every client |
| `Installer.ExecuteStamps` | adapter/static/src/worker/index.ts:153-170 | a stale copy is the old entry unchanged; everything else is stored fresh; a download is stored only if usable |
| `Installer.UpdatedIgnoresOrder` | adapter/static/src/worker/index.ts:362-367 | `getUpdated` gives the same answer for any order of the installed versions |
| `Installer.InstallSpec` | adapter/static/src/worker/index.ts:88-176 | a `getUpdated` that throws fails the install; a successful one stores every route and pre-cached path and tells every client. `RoutesFreshAfterInstall` states what is stored |
| `Installer.Install` | adapter/static/src/worker/index.ts:88-176 | the handler computes `InstallSpec` from the storage, the diff files, the network and the clients |
| `Installer.RoutesFreshAfterInstall` | adapter/static/src/worker/index.ts:88-176 | after a successful install with disjoint classes, every route is stored as downloaded, fresh and usable |
| `Installer.RoutesFreshAfterPlan` | adapter/static/src/worker/index.ts:94-170 | the same, for any answer of `getUpdated` |
| `Installer.DownloadedIsFresh` | adapter/static/src/worker/index.ts:153-160 | a downloaded path that is not also copied is stored as downloaded, fresh and usable |
| `Installer.FailedDownloadFailsInstall` | adapter/static/src/worker/index.ts:156-158 | one failed download fails the whole install |
| `Activator.Activate` | adapter/static/src/worker/index.ts:184-191 | the clean-up loop leaves exactly `Kept`, the caches that are not outdated, in order |
| `Activator.KeptMembers` | adapter/static/src/worker/index.ts:186-190 | a cache survives exactly when it is not outdated |
| `Activator.Kept` | adapter/static/src/worker/index.ts:184-191 | the remaining caches are no more than the storage held, and none of them is outdated; `KeptMembers` says which survive |
| `Activator.KeptIsSubsequence` | adapter/static/src/worker/index.ts:184-191 | the clean-up only removes caches: what is left is a subsequence of the storage, in its order |
| `Activator.CurrentAndForeignKept` | adapter/static/src/worker/index.ts:187-188 | the current cache, and every cache the worker does not manage, is kept |
| `Activator.NoOlderGenerationAfterActivate` | adapter/static/src/worker/index.ts:184-191 | after the clean-up, `getInstalled` finds no older version |
| `FetchHandler.ModeOf` | adapter/static/src/worker/index.ts:413-418 | exactly the three named modes are recognised; `default` is not |
| `FetchHandler.GetVWRequestMode` | adapter/static/src/worker/index.ts:419-426 | a valid header wins, then a valid search parameter, then `handle-only` for a virtual path and `default` otherwise |
| `FetchHandler.ModeByName` | adapter/static/src/worker/index.ts:419-424 | each named mode can be selected by header or by parameter, and the header takes precedence |
| `FetchHandler.DefaultIsNotSelectable` | adapter/static/src/worker/index.ts:413-426 | a `default` header is ignored, so a virtual path stays in `handle-only` mode |
| `FetchHandler.SelectHandleFetchFunction` | adapter/static/src/worker/index.ts:517-522 | quick fetch exactly for a same-origin `quick-fetch` virtual path; the hook otherwise, when there is one |
| `FetchHandler.ModifyRequestForCaching` | adapter/static/src/worker/index.ts:436-447 | same URL; no `Range` or `vw-mode` header; method GET unless kept; cache mode `no-cache` |
| `FetchHandler.OfflinePageIsUnstamped` | adapter/static/src/worker/index.ts:463-465 | the offline page is usable but carries no stamp |
| `FetchHandler.FetchResource` | adapter/static/src/worker/index.ts:456-476 | an error exactly when the fetch rejects, with the offline page for a route navigation; acceptable types are stamped; a usable answer is fresh |
| `FetchHandler.UpdateResourceInBackground` | adapter/static/src/worker/index.ts:480-495 | it fetches only when no resource is given; it writes the given or stamped response under the request's key exactly when that response is usable, the default one and not partial content, and writes nothing otherwise |
| `FetchHandler.Classify` | adapter/static/src/worker/index.ts:196-212 | the path is what follows the base URL, the virtual path what follows the virtual prefix; a page is a navigating GET; cross-origin means another origin than the worker's; in the cache list means a same-origin GET or HEAD of a path in the complete list |
| `FetchHandler.HandleFetch` | adapter/static/src/worker/index.ts:195-296 | a listed request is always answered unless it forces passthrough, and otherwise only enabled passthrough leaves a request alone; only listed requests read or write the cache; at most one usable, complete response is written |
| `FetchHandler.RespondWith` | adapter/static/src/worker/index.ts:235-294 | it always responds; `handle-only` uses neither the network nor the cache; `no-network` sends nothing for a same-origin GET or HEAD; only listed requests read or write the cache |
| `FetchHandler.ServeCachedOrNetwork` | adapter/static/src/worker/index.ts:263-283 | the cache is read; a fresh entry, and in `no-network` mode a stale one too, is served at once with no network request and no write; `no-network` sends nothing; at most one usable, complete response is written |
| `FetchHandler.ServeFromNetwork` | adapter/static/src/worker/index.ts:285-293 | the network is used exactly when the mode allows it, once, with the request prepared for caching; only a listed GET is written back |
| `FetchHandler.ForcePassthroughIsIgnored` | adapter/static/src/worker/index.ts:204 | `force-passthrough` never responds |
| `FetchHandler.HookAnswerWins` | adapter/static/src/worker/index.ts:248-250 | a handler's answer is served, with no network request and no cache access |
| `FetchHandler.HandleOnlyWithoutAnswer` | adapter/static/src/worker/index.ts:252 | `handle-only` with no answer is a network error and tries nothing else |
| `FetchHandler.FreshHitUsesNoNetwork` | adapter/static/src/worker/index.ts:264-269 | a fresh cached entry is served with no network request and no write |
| `FetchHandler.NoNetworkMissIsError` | adapter/static/src/worker/index.ts:230-286 | in `no-network` mode a same-origin miss is a network error with no request, except the passthrough case |
| `FetchHandler.UnsafeOrCrossOriginBypassCache` | adapter/static/src/worker/index.ts:254-261 | cross-origin and non-GET/HEAD requests never read or write the cache; with no handler answer and outside `handle-only` they are sent to the network unchanged, exactly once |
| `FetchHandler.NoNetworkServesStale` | adapter/static/src/worker/index.ts:270-273 | in `no-network` mode a stale cached entry is served at once, with no network request and no write |
| `FetchHandler.PathOutsideBaseIsCutBlindly` | adapter/static/src/worker/index.ts:200 | a same-origin path outside the base URL still loses its first `BASE_URL.length` characters: under `/app/`, `/xyz/foo.js` is read as `foo.js` |
| `FetchHandler.WritesAreStampedAndUsable` | adapter/static/src/worker/index.ts:264-293 | every write is of a listed path, under its key, usable, not partial content, and fresh unless it is the offline page |
| `FetchHandler.StaleLazyServesStale` | adapter/static/src/worker/index.ts:271-274 | a stale stale-lazy entry is served at once and refreshed in the background |
| `FetchHandler.LaxLazyAsWritten` | adapter/static/src/worker/index.ts:275-277 | a stale entry is served even when its refetch succeeds, and the fresh response is dropped |
| `FetchHandler.LaxLazyFailureServesError` | adapter/static/src/worker/index.ts:275-281 | a failed refetch serves the error or the offline page, not the stale entry |
| `FetchHandler.MissIsFetchedAndStored` | adapter/static/src/worker/index.ts:286-293 | a miss is fetched, stamped, served and stored in the background |
| `Messages.Normalize` | adapter/static/src/worker/index.ts:303-309 | the bare string `skipWaiting` becomes the typed `skipWaiting`; a typed message and every other bare string are kept as they are |
| `Messages.LegacySkipWaitingIsTyped` | adapter/static/src/worker/index.ts:303-314 | the legacy string and the typed message act alike |
| `Messages.HandleMessage` | adapter/static/src/worker/index.ts:300-323 | the worker takes over on `skipWaiting` (typed or bare), on `conditionalSkipWaiting` exactly when fewer than two clients are open, and on nothing else; the conditional request with fewer than two clients open reloads exactly those clients (the single open page, if any), and nothing else reloads a page |

## Left out

- `handleQuickFetch` (`index.ts:64-83`) is not modelled. It depends on
  `JSON.stringify`, on `summarizeRequest`, and on a promise map shared with
  another module. The fetch handler takes its answer as an input.
- `modifyRequestHeaders`, `modifyResponseHeaders`, `isResponseTheDefault`
  and `hooks.handleFetch` are imported from modules that are not part of
  this model. `modifyRequestHeaders` is modelled by what its caller's
  comment promises. The other two are oracles.
- `Http.AddVWHeaders`: that the stamped response keeps its type, status,
  body and every other header is an assumption about
  `modifyResponseHeaders`. That helper is not part of this model, and the
  comment above `addVWHeaders` (`index.ts:427-430`) only says that it
  consumes the response and that the response is of the latest version.
- The hook's and the quick-fetch handler's promises are assumed to
  resolve; a rejection is not modelled. A hook that throws synchronously
  is not modelled either.
- Browser effects become values:
  - `caches` is a sequence of named caches;
  - `fetch` is a deterministic function of the request;
  - `clients.matchAll` is a sequence of clients.
  `postMessage` (`InstallDone.notified`), `client.navigate`
  (`MessageEffect.reloads`) and `skipWaiting()` (`MessageEffect.skipsWaiting`)
  appear only as fields of an outcome.
- `clients.claim()` in the activate handler (`index.ts:181`) is not
  modelled. Taking control of the open pages is a browser effect that no
  later step of the model reads, so `Activator.Activate` only returns the
  caches that remain.
- Concurrency: `Promise.all` and the detached background updates become
  sequential steps.
  - A failed install is a single `InstallFailed`. The writes that had
    already completed are not recorded.
  - If a path were both downloaded and copied, the copy is what the model
    stores. The order of the two writes is not modelled. With disjoint
    classes this cannot happen (`Installer.PlanWithDisjointClasses`).
  - Background writes are returned as a list and not raced against later
    events.
- The `registration.waiting` block at `index.ts:237-246` is not modelled.
  Its effect is commented out.
- The `""` path is re-pointed to `BASE_URL` before a download
  (`index.ts:155`). The model keys the network answer by the planned path
  and does not record the URL rewrite. A copied `""` path would match the
  worker script's URL in the source. The model looks it up under
  `BASE_URL`.
- `VERSION_FOLDER` URLs are replaced by an oracle indexed by file id.
- `FetchHandler.Classify`: the path is tied to the pathname only when the
  pathname starts with the base URL. Like the code (`index.ts:200`), the
  model cuts `BASE_URL.length` characters from any same-origin pathname, so
  a path outside the base can land in the cache list
  (`FetchHandler.PathOutsideBaseIsCutBlindly`). Requests outside the
  worker's scope normally never reach it, and that is not modelled.
- URL parsing is replaced by a request that already carries its origin,
  pathname, search string and `vw-mode` values.
- Strings are sequences of code points. JavaScript's `length` and `slice`
  count UTF-16 code units (`index.ts:106`, `107`, `200`, `330`, `358`). The two
  agree on text without characters outside the Basic Multilingual Plane.
  A surrogate pair counts once in the model and twice in the source, so
  for example the code's `slice` can split one in two where the model
  cannot.
- Numbers are unbounded integers or NaN. Floating-point rounding of
  `Math.floor`/`Math.ceil` on very large values is not modelled.
- `Resolver.ChangedIsUnionOverVersions`: it assumes every downloaded file has
  at most `VERSION_FILE_BATCH_SIZE` blocks, which the build guarantees. A
  block past that limit is still collected by the code.
- The build-time types in `adapter/src/types.ts` and `adapter/runtime-constants.js`
  have no behaviour. The only use of them is the `"lazy"` documentation
  quoted above.
