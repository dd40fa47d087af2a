/** The install handler (adapter/static/src/worker/index.ts): plan which
    resources to download and which to copy from the caches of older
    versions, then carry out the plan into the current version's cache. */
module Installer {
  import opened Wrappers
  import opened JsNumber
  import opened JsString
  import opened Http
  import opened Settings
  import opened Resolver

  /* ---------------------------------------------------------------------
     Storage
     --------------------------------------------------------------------- */

  /** One stored request/response pair of a cache */
  datatype Entry = Entry(key: Key, response: Response)

  /** A cache of the origin's storage, its entries in `cache.keys()` order */
  datatype NamedCache = NamedCache(name: string, entries: seq<Entry>)

  /** `caches.keys()` */
  function CacheNames(storage: seq<NamedCache>): (names: seq<string>)
    ensures |names| == |storage| && forall i :: 0 <= i < |storage| ==> names[i] == storage[i].name
  {
    seq(|storage|, i requires 0 <= i < |storage| => storage[i].name)
  }

  /** `cache.match(key)`: the response of the first entry with that key */
  function Match(entries: seq<Entry>, key: Key): (r: Option<Response>)
    ensures r.None? <==> forall k :: 0 <= k < |entries| ==> entries[k].key != key
    ensures r.Some? ==> exists k :: 0 <= k < |entries| && entries[k] == Entry(key, r.value)
  {
    if entries == [] then None
    else if entries[0].key == key then Some(entries[0].response)
    else
      var rest := Match(entries[1..], key);
      assert forall k :: 1 <= k < |entries| ==> entries[k] == entries[1..][k - 1];
      rest
  }

  /** The key under which the install stores the resource at `path` */
  function StoredKey(c: Config, path: string): Key {
    Key(c.baseUrl + path, "")
  }

  /** `pathsInCache`: the pathname of each stored request with the first
      `BASE_URL.length` characters cut off */
  function PathsInCache(c: Config, cache: NamedCache): (paths: seq<string>)
    ensures |paths| == |cache.entries|
    ensures forall k :: 0 <= k < |paths| ==> paths[k] == SliceFrom(cache.entries[k].key.pathname, |c.baseUrl|)
  {
    seq(|cache.entries|, k requires 0 <= k < |cache.entries| => SliceFrom(cache.entries[k].key.pathname, |c.baseUrl|))
  }

  /** A path stored by the install reads back as that path. */
  lemma PathOfStoredKey(c: Config, path: string)
    ensures SliceFrom(StoredKey(c, path).pathname, |c.baseUrl|) == path
  {
    assert (c.baseUrl + path)[|c.baseUrl|..] == path;
  }

  /* ---------------------------------------------------------------------
     The plan
     --------------------------------------------------------------------- */

  /** A `toCopy` value: the index of the old cache in `caches.keys()`,
      whether the copy is stale, and the version of that cache */
  datatype CopySource = CopySource(cache: nat, isStale: bool, fromVersion: Number)

  datatype Plan = Plan(toDownload: set<string>, toCopy: map<string, CopySource>)

  /** One path found in one older cache: the unit the planner's loops visit */
  datatype Occ = Occ(cache: nat, version: Number, path: string)

  /** Before any cache is visited: download every route and precached path */
  function InitialPlan(c: Config): Plan {
    Plan(c.routes + c.precache, map[])
  }

  /** `changed`: the path is in the updated list, or is a route */
  predicate Changed(c: Config, updated: set<string>, path: string) {
    path in updated || path in c.routes
  }

  /** `addToToCopyIfNewer`: an existing entry is replaced only by a strictly
      newer cache version */
  function AddIfNewer(toCopy: map<string, CopySource>, path: string, src: CopySource): (r: map<string, CopySource>)
    ensures r.Keys == toCopy.Keys + {path}
    ensures forall q :: q in toCopy && q != path ==> r[q] == toCopy[q]
    ensures path !in toCopy ==> r[path] == src
    ensures path in toCopy ==> r[path] == (if Gt(src.fromVersion, toCopy[path].fromVersion) then src else toCopy[path])
  {
    if path in toCopy then
      if Gt(src.fromVersion, toCopy[path].fromVersion) then toCopy[path := src] else toCopy
    else toCopy[path := src]
  }

  /** The body of the inner loop over `pathsInCache` */
  function StepOcc(c: Config, updated: set<string>, plan: Plan, o: Occ): (r: Plan)
    ensures forall p :: p != o.path ==>
      && (p in r.toDownload <==> p in plan.toDownload) && (p in r.toCopy <==> p in plan.toCopy)
      && (p in plan.toCopy ==> r.toCopy[p] == plan.toCopy[p])
    ensures plan.toCopy.Keys <= r.toCopy.Keys
    ensures o.path in plan.toDownload && o.path !in r.toDownload ==>
      o.path in c.precache && !Changed(c, updated, o.path) && o.path in r.toCopy
    ensures o.path !in plan.toDownload && o.path in r.toDownload ==>
      o.path !in c.precache && o.path in c.semiLazy && Changed(c, updated, o.path)
  {
    var path := o.path;
    var changed := Changed(c, updated, path);
    if path in c.precache then
      if path in plan.toDownload && !changed then
        Plan(plan.toDownload - {path}, AddIfNewer(plan.toCopy, path, CopySource(o.cache, false, o.version)))
      else plan
    else if path in c.semiLazy then
      if changed then Plan(plan.toDownload + {path}, plan.toCopy)
      else Plan(plan.toDownload, AddIfNewer(plan.toCopy, path, CopySource(o.cache, false, o.version)))
    else if path in CompleteCacheList(c) then
      var staleAndAcceptable := changed && path in ReusableBetweenVersions(c);
      var reusable := !changed || staleAndAcceptable;
      if reusable then Plan(plan.toDownload, AddIfNewer(plan.toCopy, path, CopySource(o.cache, changed, o.version)))
      else plan
    else plan
  }

  /** The plan after visiting the given path occurrences in order, from `plan` */
  function Steps(c: Config, updated: set<string>, plan: Plan, occs: seq<Occ>): Plan {
    if occs == [] then plan
    else StepOcc(c, updated, Steps(c, updated, plan, occs[..|occs| - 1]), occs[|occs| - 1])
  }

  /** The plan after visiting the given path occurrences in order */
  function PlanAfter(c: Config, updated: set<string>, occs: seq<Occ>): Plan {
    Steps(c, updated, InitialPlan(c), occs)
  }

  lemma {:induction false} StepsAppend(c: Config, updated: set<string>, plan: Plan, a: seq<Occ>, b: seq<Occ>)
    ensures Steps(c, updated, plan, a + b) == Steps(c, updated, Steps(c, updated, plan, a), b)
    decreases |b|
  {
    if b == [] {
      assert a + b == a;
    } else {
      StepsAppend(c, updated, plan, a, b[..|b| - 1]);
      assert (a + b)[..|a + b| - 1] == a + b[..|b| - 1];
    }
  }

  /** The occurrences one cache contributes */
  function CacheOccs(i: nat, version: Number, paths: seq<string>): (occs: seq<Occ>)
    ensures |occs| == |paths| && forall k :: 0 <= k < |paths| ==> occs[k] == Occ(i, version, paths[k])
  {
    seq(|paths|, k requires 0 <= k < |paths| => Occ(i, version, paths[k]))
  }

  /** The occurrences in the first `n` caches, skipping those that are not
      of an older generation */
  function Occs(c: Config, storage: seq<NamedCache>, n: nat): seq<Occ>
    requires n <= |storage|
  {
    if n == 0 then []
    else
      Occs(c, storage, n - 1)
      + (if IsOlderGeneration(c, storage[n - 1].name)
         then CacheOccs(n - 1, VersionOfName(c, storage[n - 1].name), PathsInCache(c, storage[n - 1]))
         else [])
  }

  /** Every route and precached path of the initial plan is still to be
      downloaded, or it is an unchanged precached path that is copied */
  ghost predicate KeepsInitial(c: Config, updated: set<string>, plan: Plan) {
    forall p :: p in c.routes + c.precache ==>
      p in plan.toDownload || (p in c.precache && !Changed(c, updated, p) && p in plan.toCopy)
  }

  lemma {:induction false} StepsKeepInitial(c: Config, updated: set<string>, plan: Plan, occs: seq<Occ>)
    requires KeepsInitial(c, updated, plan)
    ensures KeepsInitial(c, updated, Steps(c, updated, plan, occs))
    decreases |occs|
  {
    if occs != [] {
      StepsKeepInitial(c, updated, plan, occs[..|occs| - 1]);
    }
  }

  /** The plan the install makes: the initial plan on a clean install. No
      route or precached path is ever dropped: each is downloaded, or copied
      when it is precached and unchanged. */
  function PlanSpec(c: Config, storage: seq<NamedCache>, updated: Updated): (r: Plan)
    ensures updated.CleanInstall? ==> r.toCopy == map[]
    ensures forall p :: p in c.routes + c.precache ==>
      p in r.toDownload
      || (p in c.precache && updated.Changed? && !Changed(c, updated.paths, p) && p in r.toCopy)
  {
    match updated
    case CleanInstall => InitialPlan(c)
    case Changed(u) =>
      StepsKeepInitial(c, u, InitialPlan(c), Occs(c, storage, |storage|));
      PlanAfter(c, u, Occs(c, storage, |storage|))
  }

  /** The planning loops of the install handler: the outer loop over
      `caches.keys()` */
  method PlanInstall(c: Config, storage: seq<NamedCache>, updatedList: Updated) returns (plan: Plan)
    ensures plan == PlanSpec(c, storage, updatedList)
  {
    plan := Plan(c.routes + c.precache, map[]);
    if updatedList.CleanInstall? {
      return;
    }
    var updated := updatedList.paths;
    var cacheNames := CacheNames(storage);
    var i := 0;
    while i < |cacheNames|
      invariant 0 <= i <= |storage|
      invariant plan == PlanAfter(c, updated, Occs(c, storage, i))
    {
      var cacheName := cacheNames[i];
      if !StartsWith(cacheName, c.storagePrefix) || cacheName == CurrentStorageName(c) {
        assert Occs(c, storage, i + 1) == Occs(c, storage, i) + [];
        assert Occs(c, storage, i + 1) == Occs(c, storage, i);
        i := i + 1;
        continue;
      }
      var pathsInCache := PathsInCache(c, storage[i]);
      var cacheVersion := ParseInt(SliceFrom(cacheName, |c.storagePrefix|));
      ghost var before := Occs(c, storage, i);
      plan := VisitCache(c, updated, plan, i, cacheVersion, pathsInCache);
      StepsAppend(c, updated, InitialPlan(c), before, CacheOccs(i, cacheVersion, pathsInCache));
      i := i + 1;
    }
    assert cacheNames == CacheNames(storage);
  }

  /** The inner loop over `pathsInCache` of one older cache */
  method VisitCache(c: Config, updated: set<string>, plan0: Plan, i: nat, cacheVersion: Number, pathsInCache: seq<string>)
    returns (plan: Plan)
    ensures plan == Steps(c, updated, plan0, CacheOccs(i, cacheVersion, pathsInCache))
  {
    var toDownload := plan0.toDownload;
    var toCopy := plan0.toCopy;
    var j := 0;
    while j < |pathsInCache|
      invariant 0 <= j <= |pathsInCache|
      invariant Plan(toDownload, toCopy) == Steps(c, updated, plan0, CacheOccs(i, cacheVersion, pathsInCache[..j]))
    {
      var path := pathsInCache[j];
      ghost var occs := CacheOccs(i, cacheVersion, pathsInCache[..j + 1]);
      assert occs[..|occs| - 1] == CacheOccs(i, cacheVersion, pathsInCache[..j]);
      assert occs[|occs| - 1] == Occ(i, cacheVersion, path);
      var changed := path in updated || path in c.routes;
      if path in c.precache {
        if path in toDownload && !changed {
          toDownload := toDownload - {path};
          toCopy := AddIfNewer(toCopy, path, CopySource(i, false, cacheVersion));
        }
      } else if path in c.semiLazy {
        if changed {
          toDownload := toDownload + {path};
        } else {
          toCopy := AddIfNewer(toCopy, path, CopySource(i, false, cacheVersion));
        }
      } else if path in CompleteCacheList(c) {
        var staleAndAcceptable := changed && path in ReusableBetweenVersions(c);
        var reusable := !changed || staleAndAcceptable;
        if reusable {
          toCopy := AddIfNewer(toCopy, path, CopySource(i, changed, cacheVersion));
        }
      }
      j := j + 1;
    }
    assert pathsInCache[..j] == pathsInCache;
    plan := Plan(toDownload, toCopy);
  }

  /* ---------------------------------------------------------------------
     Properties of the plan
     --------------------------------------------------------------------- */

  /** Some visited occurrence is of `path` */
  predicate Seen(occs: seq<Occ>, path: string) {
    exists k :: 0 <= k < |occs| && occs[k].path == path
  }

  /** Whether the plan downloads `path`, given whether some older cache holds it */
  predicate WantDownload(c: Config, updated: set<string>, seen: bool, path: string) {
    || path in c.routes
    || (path in c.precache && (Changed(c, updated, path) || !seen))
    || (path !in c.precache && path in c.semiLazy && Changed(c, updated, path) && seen)
  }

  /** Whether an older copy of `path` may be reused */
  predicate Copyable(c: Config, updated: set<string>, path: string) {
    if path in c.precache || path in c.semiLazy then !Changed(c, updated, path)
    else path in CompleteCacheList(c) && (!Changed(c, updated, path) || path in ReusableBetweenVersions(c))
  }

  lemma SeenSnoc(occs: seq<Occ>, path: string)
    requires occs != []
    ensures Seen(occs, path) <==> Seen(occs[..|occs| - 1], path) || occs[|occs| - 1].path == path
  {
    var xs := occs[..|occs| - 1];
    if Seen(xs, path) {
      var k :| 0 <= k < |xs| && xs[k].path == path;
      assert occs[k] == xs[k];
    }
    if Seen(occs, path) {
      var k :| 0 <= k < |occs| && occs[k].path == path;
      if k < |xs| {
        assert xs[k] == occs[k];
      }
    }
  }

  /** A step leaves every other path alone. */
  lemma StepOther(c: Config, updated: set<string>, plan: Plan, o: Occ, path: string)
    requires o.path != path
    ensures path in StepOcc(c, updated, plan, o).toDownload <==> path in plan.toDownload
    ensures path in StepOcc(c, updated, plan, o).toCopy <==> path in plan.toCopy
    ensures path in plan.toCopy ==> StepOcc(c, updated, plan, o).toCopy[path] == plan.toCopy[path]
  {
  }

  /** What the planner decides for one path: it downloads the path exactly
      as WantDownload says, copies it exactly when some older cache holds it
      and it is Copyable, and a copy is stale exactly when the path changed. */
  lemma {:induction false} PlanAfterDecides(c: Config, updated: set<string>, occs: seq<Occ>, path: string)
    ensures path in PlanAfter(c, updated, occs).toDownload <==> WantDownload(c, updated, Seen(occs, path), path)
    ensures path in PlanAfter(c, updated, occs).toCopy <==> Seen(occs, path) && Copyable(c, updated, path)
    ensures path in PlanAfter(c, updated, occs).toCopy ==>
      PlanAfter(c, updated, occs).toCopy[path].isStale == Changed(c, updated, path)
    decreases |occs|
  {
    if occs != [] {
      var xs := occs[..|occs| - 1];
      var o := occs[|occs| - 1];
      PlanAfterDecides(c, updated, xs, path);
      SeenSnoc(occs, path);
      var plan := PlanAfter(c, updated, xs);
      if o.path != path {
        StepOther(c, updated, plan, o, path);
      }
    }
  }

  /** Every copy names an occurrence of its path: the old cache and that
      cache's version. */
  lemma {:induction false} CopyComesFromOccurrence(c: Config, updated: set<string>, occs: seq<Occ>, path: string)
    requires path in PlanAfter(c, updated, occs).toCopy
    ensures exists k :: (0 <= k < |occs| && occs[k].path == path
                         && occs[k].cache == PlanAfter(c, updated, occs).toCopy[path].cache
                         && occs[k].version == PlanAfter(c, updated, occs).toCopy[path].fromVersion)
    decreases |occs|
  {
    var xs := occs[..|occs| - 1];
    var o := occs[|occs| - 1];
    var plan := PlanAfter(c, updated, xs);
    var src := PlanAfter(c, updated, occs).toCopy[path];
    if o.path != path {
      StepOther(c, updated, plan, o, path);
      CopyComesFromOccurrence(c, updated, xs, path);
      var k :| 0 <= k < |xs| && xs[k].path == path && xs[k].cache == src.cache && xs[k].version == src.fromVersion;
      assert occs[k] == xs[k];
    } else if path in plan.toCopy && src == plan.toCopy[path] {
      CopyComesFromOccurrence(c, updated, xs, path);
      var k :| 0 <= k < |xs| && xs[k].path == path && xs[k].cache == src.cache && xs[k].version == src.fromVersion;
      assert occs[k] == xs[k];
    } else {
      assert occs[|occs| - 1] == o;
    }
  }

  /** When a non-precached path may be reused, visiting it is
      `addToToCopyIfNewer` with a copy that is stale exactly when it changed. */
  lemma StepCopyable(c: Config, updated: set<string>, plan: Plan, o: Occ)
    requires o.path !in c.precache && Copyable(c, updated, o.path)
    ensures StepOcc(c, updated, plan, o).toCopy
         == AddIfNewer(plan.toCopy, o.path, CopySource(o.cache, Changed(c, updated, o.path), o.version))
  {
  }

  /** Outside the precache, a copy comes from the newest older cache that
      holds the path: no occurrence has a strictly greater version. */
  lemma {:induction false} CopyIsNewest(c: Config, updated: set<string>, occs: seq<Occ>, path: string)
    requires path !in c.precache && path in PlanAfter(c, updated, occs).toCopy
    ensures forall k :: 0 <= k < |occs| && occs[k].path == path ==>
      !Gt(occs[k].version, PlanAfter(c, updated, occs).toCopy[path].fromVersion)
    decreases |occs|
  {
    var xs := occs[..|occs| - 1];
    var o := occs[|occs| - 1];
    var plan := PlanAfter(c, updated, xs);
    assert forall k :: 0 <= k < |xs| ==> occs[k] == xs[k];
    if o.path != path {
      StepOther(c, updated, plan, o, path);
      CopyIsNewest(c, updated, xs, path);
    } else {
      PlanAfterDecides(c, updated, occs, path);
      StepCopyable(c, updated, plan, o);
      if path in plan.toCopy {
        CopyIsNewest(c, updated, xs, path);
      } else {
        PlanAfterDecides(c, updated, xs, path);
      }
    }
  }

  /** A precached path is copied from the first older cache that holds it. */
  lemma {:induction false} PrecacheCopyIsFirst(c: Config, updated: set<string>, occs: seq<Occ>, path: string)
    requires path in c.precache && path in PlanAfter(c, updated, occs).toCopy
    ensures exists k :: (0 <= k < |occs| && occs[k].path == path
                         && (forall k' :: 0 <= k' < k ==> occs[k'].path != path)
                         && PlanAfter(c, updated, occs).toCopy[path] == CopySource(occs[k].cache, false, occs[k].version))
    decreases |occs|
  {
    var xs := occs[..|occs| - 1];
    var o := occs[|occs| - 1];
    var plan := PlanAfter(c, updated, xs);
    PlanAfterDecides(c, updated, xs, path);
    SeenSnoc(occs, path);
    if o.path != path || path in plan.toCopy {
      if o.path != path {
        StepOther(c, updated, plan, o, path);
      }
      PrecacheCopyIsFirst(c, updated, xs, path);
      var k :| 0 <= k < |xs| && xs[k].path == path
        && (forall k' :: 0 <= k' < k ==> xs[k'].path != path)
        && plan.toCopy[path] == CopySource(xs[k].cache, false, xs[k].version);
      assert occs[k] == xs[k];
      assert forall k' :: 0 <= k' < k ==> occs[k'] == xs[k'];
    } else {
      assert !Seen(xs, path);
      var k := |occs| - 1;
      assert forall k' :: 0 <= k' < k ==> occs[k'] == xs[k'] && xs[k'].path != path;
    }
  }

  /** The plan before the execution, in the terms of the classes: what
      the planner does for every path, once and for all. */
  lemma PlanDecides(c: Config, storage: seq<NamedCache>, updated: Updated, path: string)
    ensures updated.CleanInstall? ==>
      (path in PlanSpec(c, storage, updated).toDownload <==> path in c.routes || path in c.precache)
      && PlanSpec(c, storage, updated).toCopy == map[]
    ensures updated.Changed? ==>
      var plan := PlanSpec(c, storage, updated);
      var seen := Seen(Occs(c, storage, |storage|), path);
      && (path in plan.toDownload <==> WantDownload(c, updated.paths, seen, path))
      && (path in plan.toCopy <==> seen && Copyable(c, updated.paths, path))
      && (path in plan.toCopy ==> plan.toCopy[path].isStale == Changed(c, updated.paths, path))
  {
    if updated.Changed? {
      PlanAfterDecides(c, updated.paths, Occs(c, storage, |storage|), path);
    }
  }

  /** Every route is downloaded, whatever the older caches hold. */
  lemma RoutesAlwaysDownloaded(c: Config, storage: seq<NamedCache>, updated: Updated)
    ensures c.routes <= PlanSpec(c, storage, updated).toDownload
  {
    forall r | r in c.routes ensures r in PlanSpec(c, storage, updated).toDownload {
      PlanDecides(c, storage, updated, r);
    }
  }

  /** With disjoint classes, no path is both downloaded and copied, and
      routes, changed strict-lazy and changed semi-lazy paths are never
      copied; a changed lax- or stale-lazy path that is copied is stale. */
  lemma PlanWithDisjointClasses(c: Config, storage: seq<NamedCache>, updated: Updated, path: string)
    requires ClassesDisjoint(c)
    ensures !(path in PlanSpec(c, storage, updated).toDownload && path in PlanSpec(c, storage, updated).toCopy)
    ensures path in c.routes ==> path in PlanSpec(c, storage, updated).toDownload && path !in PlanSpec(c, storage, updated).toCopy
    ensures updated.Changed? && path in updated.paths && (path in c.strictLazy || path in c.semiLazy) ==>
      path !in PlanSpec(c, storage, updated).toCopy
    ensures (updated.Changed? && path in updated.paths && path in ReusableBetweenVersions(c)
             && path in PlanSpec(c, storage, updated).toCopy) ==>
      PlanSpec(c, storage, updated).toCopy[path].isStale
  {
    PlanDecides(c, storage, updated, path);
  }

  /** A path outside every class is never stored. */
  lemma UnlistedNeverPlanned(c: Config, storage: seq<NamedCache>, updated: Updated, path: string)
    requires path !in CompleteCacheList(c)
    ensures path !in PlanSpec(c, storage, updated).toDownload && path !in PlanSpec(c, storage, updated).toCopy
  {
    PlanDecides(c, storage, updated, path);
  }

  /* ---------------------------------------------------------------------
     Carrying out the plan
     --------------------------------------------------------------------- */

  /** How the install ends: failed (the promise passed to `waitUntil`
      rejects), or done with the responses it stored, by path, and the
      clients it told that the new version is waiting. */
  datatype InstallOutcome = InstallFailed | InstallDone(stored: map<string, Response>, notified: seq<int>)

  /** Downloading one path: `fetch(path, { cache: "no-cache" })` (the
      `network` answer for the path, `None` when it rejects), stamped; it
      fails when the stamped response is not usable. */
  function DownloadOne(c: Config, network: string -> Option<Response>, path: string): Option<Response> {
    var res := network(path);
    if res.None? then None
    else
      var stamped := AddVWHeaders(c.version, res.value);
      if IsResponseUsable(stamped) then Some(stamped) else None
  }

  /** Copying one path: the old cache's response for it, restamped unless
      the copy is stale; it fails when the old cache has no such entry. */
  function CopyOne(c: Config, storage: seq<NamedCache>, path: string, src: CopySource): Option<Response> {
    if src.cache >= |storage| then None
    else
      var existing := Match(storage[src.cache].entries, StoredKey(c, path));
      if existing.None? then None
      else Some(if src.isStale then existing.value else AddVWHeaders(c.version, existing.value))
  }

  /** Every download and every copy succeeds */
  predicate AllSucceed(c: Config, storage: seq<NamedCache>, plan: Plan, network: string -> Option<Response>) {
    && (forall p :: p in plan.toDownload ==> DownloadOne(c, network, p).Some?)
    && (forall p :: p in plan.toCopy ==> CopyOne(c, storage, p, plan.toCopy[p]).Some?)
  }

  /** The `Promise.all` of the downloads and copies, then the `vw-waiting`
      message to every client */
  function Execute(c: Config, storage: seq<NamedCache>, plan: Plan, network: string -> Option<Response>,
                   clients: seq<int>): (r: InstallOutcome)
    ensures r.InstallDone? <==> AllSucceed(c, storage, plan, network)
    ensures r.InstallDone? ==> r.stored.Keys == plan.toDownload + plan.toCopy.Keys && r.notified == clients
    ensures r.InstallDone? ==> forall p :: p in plan.toCopy ==> Some(r.stored[p]) == CopyOne(c, storage, p, plan.toCopy[p])
    ensures r.InstallDone? ==> forall p :: p in plan.toDownload && p !in plan.toCopy ==>
      Some(r.stored[p]) == DownloadOne(c, network, p)
  {
    if !AllSucceed(c, storage, plan, network) then InstallFailed
    else InstallDone(StoredAll(c, storage, plan, network), clients)
  }

  /** The responses the install stores when every download and copy succeeds */
  function StoredAll(c: Config, storage: seq<NamedCache>, plan: Plan, network: string -> Option<Response>)
    : (stored: map<string, Response>)
    requires AllSucceed(c, storage, plan, network)
    ensures stored.Keys == plan.toDownload + plan.toCopy.Keys
    ensures forall p :: p in plan.toCopy ==> Some(stored[p]) == CopyOne(c, storage, p, plan.toCopy[p])
    ensures forall p :: p in plan.toDownload && p !in plan.toCopy ==> Some(stored[p]) == DownloadOne(c, network, p)
  {
    var get := p => if p in plan.toCopy then CopyOne(c, storage, p, plan.toCopy[p]) else DownloadOne(c, network, p);
    Collect(plan.toDownload + plan.toCopy.Keys, get)
  }

  /** The answers of `get` on `keys`, all of which succeed */
  function Collect(keys: set<string>, get: string -> Option<Response>): (m: map<string, Response>)
    requires forall p :: p in keys ==> get(p).Some?
    ensures m.Keys == keys && forall p :: p in keys ==> Some(m[p]) == get(p)
  {
    map p | p in keys :: get(p).value
  }

  /** Every stored response is usable if downloaded and carries the
      current version unless it is a stale copy. */
  lemma ExecuteStamps(c: Config, storage: seq<NamedCache>, plan: Plan, network: string -> Option<Response>,
                      clients: seq<int>, path: string)
    requires Execute(c, storage, plan, network, clients).InstallDone?
    requires path in plan.toDownload + plan.toCopy.Keys
    ensures var stored := Execute(c, storage, plan, network, clients).stored;
      && (path in plan.toCopy && plan.toCopy[path].isStale ==>
            Some(stored[path]) == Match(storage[plan.toCopy[path].cache].entries, StoredKey(c, path)))
      && (!(path in plan.toCopy && plan.toCopy[path].isStale) ==> IsFresh(c.version, stored[path]))
      && (path !in plan.toCopy ==> IsResponseUsable(stored[path]))
  {
  }

  /* ---------------------------------------------------------------------
     The whole install
     --------------------------------------------------------------------- */

  /** The versions `getInstalled` collects, in the order of the names */
  function InstalledOf(c: Config, storage: seq<NamedCache>): InstalledVersions {
    var candidates := CandidateVersions(c, CacheNames(storage));
    if NaN in candidates then HoldsNaN else Installed(NumValues(candidates))
  }

  /** What the install handler does, given the storage, the answers to the
      downloads of the diff files (by id) and of the resources (by path),
      and the clients. */
  function InstallSpec(c: Config, storage: seq<NamedCache>, diffFiles: int -> Option<Response>,
                       network: string -> Option<Response>, clients: seq<int>): (r: InstallOutcome)
    ensures GetUpdatedSpec(c, InstalledOf(c, storage), Downloads(diffFiles)).Thrown? ==> r == InstallFailed
    ensures r.InstallDone? ==> c.routes + c.precache <= r.stored.Keys && r.notified == clients
  {
    InstallAfter(c, storage, GetUpdatedSpec(c, InstalledOf(c, storage), Downloads(diffFiles)), network, clients)
  }

  /** The install once `getUpdated` has settled: a rejection fails it */
  function InstallAfter(c: Config, storage: seq<NamedCache>, resolution: Resolution,
                        network: string -> Option<Response>, clients: seq<int>): InstallOutcome {
    match resolution
    case Thrown => InstallFailed
    case Resolved(updated) => Execute(c, storage, PlanSpec(c, storage, updated), network, clients)
  }

  lemma MaxOfSameMultiset(a: seq<int>, b: seq<int>)
    requires |a| > 0 && multiset(a) == multiset(b)
    ensures |b| > 0 && Max(a) == Max(b)
  {
    assert |multiset(b)| == |b|;
    assert Max(a) in multiset(b);
    assert Max(b) in multiset(a);
  }

  /** `getUpdated` depends only on which versions are installed, not on
      their order. */
  lemma UpdatedIgnoresOrder(c: Config, a: seq<int>, b: seq<int>, files: int -> Option<VersionFile.VersionFile>)
    requires multiset(a) == multiset(b)
    ensures GetUpdatedSpec(c, Installed(a), files) == GetUpdatedSpec(c, Installed(b), files)
  {
    assert |multiset(a)| == |a| && |multiset(b)| == |b|;
    if |a| > 0 {
      MaxOfSameMultiset(a, b);
    }
  }

  /** The install handler */
  method Install(c: Config, storage: seq<NamedCache>, diffFiles: int -> Option<Response>,
                 network: string -> Option<Response>, clients: seq<int>) returns (r: InstallOutcome)
    ensures r == InstallSpec(c, storage, diffFiles, network, clients)
  {
    var installedVersions := GetInstalled(c, CacheNames(storage));
    if installedVersions.Installed? {
      UpdatedIgnoresOrder(c, installedVersions.newestFirst, NumValues(CandidateVersions(c, CacheNames(storage))),
                          Downloads(diffFiles));
    }
    var updatedList := GetUpdated(c, installedVersions, diffFiles);
    if updatedList.Thrown? {
      return InstallFailed;
    }
    var plan := PlanInstall(c, storage, updatedList.updated);
    r := Execute(c, storage, plan, network, clients);
  }

  /** After an install that succeeds, every route is stored fresh (stamped
      with the current version) and usable, and with disjoint classes it
      was downloaded rather than copied. */
  lemma RoutesFreshAfterInstall(c: Config, storage: seq<NamedCache>, diffFiles: int -> Option<Response>,
                                network: string -> Option<Response>, clients: seq<int>, route: string)
    requires ClassesDisjoint(c) && route in c.routes
    requires InstallSpec(c, storage, diffFiles, network, clients).InstallDone?
    ensures var stored := InstallSpec(c, storage, diffFiles, network, clients).stored;
      route in stored && IsFresh(c.version, stored[route]) && IsResponseUsable(stored[route])
      && Some(stored[route]) == DownloadOne(c, network, route)
  {
    var resolution := GetUpdatedSpec(c, InstalledOf(c, storage), Downloads(diffFiles));
    RoutesFreshAfterPlan(c, storage, resolution.updated, network, clients, route);
  }

  lemma RoutesFreshAfterPlan(c: Config, storage: seq<NamedCache>, updated: Updated,
                             network: string -> Option<Response>, clients: seq<int>, route: string)
    requires ClassesDisjoint(c) && route in c.routes
    requires Execute(c, storage, PlanSpec(c, storage, updated), network, clients).InstallDone?
    ensures var stored := Execute(c, storage, PlanSpec(c, storage, updated), network, clients).stored;
      route in stored && IsFresh(c.version, stored[route]) && IsResponseUsable(stored[route])
      && Some(stored[route]) == DownloadOne(c, network, route)
  {
    PlanWithDisjointClasses(c, storage, updated, route);
    DownloadedIsFresh(c, storage, PlanSpec(c, storage, updated), network, clients, route);
  }

  /** A downloaded path that is not also copied is stored as downloaded,
      stamped and usable. */
  lemma DownloadedIsFresh(c: Config, storage: seq<NamedCache>, plan: Plan, network: string -> Option<Response>,
                          clients: seq<int>, path: string)
    requires path in plan.toDownload && path !in plan.toCopy
    requires Execute(c, storage, plan, network, clients).InstallDone?
    ensures var stored := Execute(c, storage, plan, network, clients).stored;
      path in stored && IsFresh(c.version, stored[path]) && IsResponseUsable(stored[path])
      && Some(stored[path]) == DownloadOne(c, network, path)
  {
    ExecuteStamps(c, storage, plan, network, clients, path);
  }

  /** A failed download of a planned path fails the whole install, and no
      client is told anything. */
  lemma FailedDownloadFailsInstall(c: Config, storage: seq<NamedCache>, plan: Plan,
                                   network: string -> Option<Response>, clients: seq<int>, path: string)
    requires path in plan.toDownload && DownloadOne(c, network, path).None?
    ensures Execute(c, storage, plan, network, clients) == InstallFailed
  {
  }
}
