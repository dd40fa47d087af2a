/** The build-time constants the worker imports, gathered into one value
    that every operation takes as a parameter. */
module Settings {
  import opened JsNumber

  /** `VERSION_FILE_BATCH_SIZE`: how many versions one diff file covers */
  type BatchSize = b: int | b > 0 witness 1

  datatype Config = Config(
    // The six classes of resource paths (relative to the base URL)
    routes: set<string>,
    precache: set<string>,
    laxLazy: set<string>,
    staleLazy: set<string>,
    strictLazy: set<string>,
    semiLazy: set<string>,
    storagePrefix: string,       // STORAGE_PREFIX
    version: int,                // VERSION, the version this worker belongs to
    batchSize: BatchSize,        // VERSION_FILE_BATCH_SIZE
    maxVersionFiles: int,        // MAX_VERSION_FILES
    baseUrl: string,             // BASE_URL
    enablePassthrough: bool,     // ENABLE_PASSTHROUGH
    virtualPrefix: string,       // VIRTUAL_FETCH_PREFIX
    hasFetchHook: bool           // whether the hooks file exports handleFetch
  )

  /** COMPLETE_CACHE_LIST: every path the worker may store */
  function CompleteCacheList(c: Config): set<string> {
    c.routes + c.precache + c.laxLazy + c.staleLazy + c.strictLazy + c.semiLazy
  }

  /** REUSABLE_BETWEEN_VERSIONS: paths whose outdated copies may still be served */
  function ReusableBetweenVersions(c: Config): set<string> {
    c.laxLazy + c.staleLazy
  }

  /** `currentStorageName`: the name of this version's cache */
  function CurrentStorageName(c: Config): string {
    c.storagePrefix + IntToString(c.version)
  }

  /** The classifier puts every path in at most one class. */
  ghost predicate ClassesDisjoint(c: Config) {
    && c.routes !! c.precache && c.routes !! c.laxLazy && c.routes !! c.staleLazy
    && c.routes !! c.strictLazy && c.routes !! c.semiLazy
    && c.precache !! c.laxLazy && c.precache !! c.staleLazy && c.precache !! c.strictLazy
    && c.precache !! c.semiLazy
    && c.laxLazy !! c.staleLazy && c.laxLazy !! c.strictLazy && c.laxLazy !! c.semiLazy
    && c.staleLazy !! c.strictLazy && c.staleLazy !! c.semiLazy
    && c.strictLazy !! c.semiLazy
  }
}
