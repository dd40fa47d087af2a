/** The activate handler (adapter/static/src/worker/index.ts): delete the
    caches of older versions, including those named by earlier releases of
    the adapter, and keep every other cache of the origin. */
module Activator {
  import opened JsString
  import opened Settings
  import opened Resolver
  import opened Installer

  /** A cache name from an earlier release of the adapter */
  predicate HasAnOldName(name: string) {
    StartsWith(name, "VersionedWorkerStorage-") || StartsWith(name, "VersionedWorkerCache-")
  }

  /** The caches the clean-up deletes: managed by this worker (by its
      prefix or an old name) and not the current version's cache */
  predicate IsOutdated(c: Config, name: string) {
    (StartsWith(name, c.storagePrefix) || HasAnOldName(name)) && name != CurrentStorageName(c)
  }

  /** The storage after the clean-up: the caches that are not outdated, in
      order; it is no longer than the storage and leaves no outdated cache */
  function Kept(c: Config, storage: seq<NamedCache>): (r: seq<NamedCache>)
    ensures |r| <= |storage|
    ensures forall k :: 0 <= k < |r| ==> !IsOutdated(c, r[k].name)
  {
    if storage == [] then []
    else
      var last := storage[|storage| - 1];
      Kept(c, storage[..|storage| - 1]) + (if IsOutdated(c, last.name) then [] else [last])
  }

  /** The clean-up loop: every outdated cache is deleted, one after another */
  method Activate(c: Config, storage: seq<NamedCache>) returns (remaining: seq<NamedCache>)
    ensures remaining == Kept(c, storage)
  {
    var cacheNames := CacheNames(storage);
    remaining := [];
    var i := 0;
    while i < |cacheNames|
      invariant 0 <= i <= |storage|
      invariant remaining == Kept(c, storage[..i])
    {
      var cacheName := cacheNames[i];
      assert storage[..i + 1][..i] == storage[..i];
      var hasAnOldName := StartsWith(cacheName, "VersionedWorkerStorage-") || StartsWith(cacheName, "VersionedWorkerCache-");
      if !(StartsWith(cacheName, c.storagePrefix) || hasAnOldName) || cacheName == CurrentStorageName(c) {
        remaining := remaining + [storage[i]];
      }
      i := i + 1;
    }
    assert storage[..i] == storage;
  }

  /** A cache survives the clean-up exactly when it is in the storage and
      not outdated; the survivors keep their order. */
  lemma {:induction false} KeptMembers(c: Config, storage: seq<NamedCache>, cache: NamedCache)
    ensures cache in Kept(c, storage) <==> cache in storage && !IsOutdated(c, cache.name)
    decreases |storage|
  {
    if storage != [] {
      var init := storage[..|storage| - 1];
      KeptMembers(c, init, cache);
      assert storage == init + [storage[|storage| - 1]];
    }
  }

  /** `idx` places each element of `a` at a position of `b`, in increasing
      order of position: `a` is a subsequence of `b` */
  ghost predicate IsEmbedding(idx: seq<nat>, a: seq<NamedCache>, b: seq<NamedCache>) {
    && |idx| == |a|
    && (forall k :: 0 <= k < |idx| ==> idx[k] < |b| && b[idx[k]] == a[k])
    && (forall k, l :: 0 <= k < l < |idx| ==> idx[k] < idx[l])
  }

  lemma EmbeddingWiden(idx: seq<nat>, a: seq<NamedCache>, b: seq<NamedCache>, x: NamedCache)
    requires IsEmbedding(idx, a, b)
    ensures IsEmbedding(idx, a, b + [x])
  {
    assert forall k :: 0 <= k < |b| ==> (b + [x])[k] == b[k];
  }

  lemma EmbeddingExtend(idx: seq<nat>, a: seq<NamedCache>, b: seq<NamedCache>, x: NamedCache)
    requires IsEmbedding(idx, a, b)
    ensures IsEmbedding(idx + [|b|], a + [x], b + [x])
  {
    assert forall k :: 0 <= k < |b| ==> (b + [x])[k] == b[k];
  }

  /** The clean-up only deletes: what is left is a subsequence of the
      storage, in the storage's order. */
  lemma {:induction false} KeptIsSubsequence(c: Config, storage: seq<NamedCache>)
    ensures exists idx :: IsEmbedding(idx, Kept(c, storage), storage)
    decreases |storage|
  {
    if storage == [] {
      assert IsEmbedding([], Kept(c, storage), storage);
    } else {
      var init := storage[..|storage| - 1];
      var last := storage[|storage| - 1];
      assert storage == init + [last];
      KeptIsSubsequence(c, init);
      var idx: seq<nat> :| IsEmbedding(idx, Kept(c, init), init);
      if IsOutdated(c, last.name) {
        EmbeddingWiden(idx, Kept(c, init), init, last);
        assert IsEmbedding(idx, Kept(c, storage), storage);
      } else {
        EmbeddingExtend(idx, Kept(c, init), init, last);
        assert IsEmbedding(idx + [|init|], Kept(c, storage), storage);
      }
    }
  }

  /** The current version's cache and every cache this worker does not
      manage are kept. */
  lemma CurrentAndForeignKept(c: Config, storage: seq<NamedCache>, cache: NamedCache)
    requires cache in storage
    requires cache.name == CurrentStorageName(c) || !(StartsWith(cache.name, c.storagePrefix) || HasAnOldName(cache.name))
    ensures cache in Kept(c, storage)
  {
    KeptMembers(c, storage, cache);
  }

  /** After the clean-up no cache of an older version is left: `getInstalled`
      run on what remains finds none. */
  lemma {:induction false} NoOlderGenerationAfterActivate(c: Config, storage: seq<NamedCache>)
    ensures CandidateVersions(c, CacheNames(Kept(c, storage))) == []
    decreases |storage|
  {
    if storage != [] {
      var init := storage[..|storage| - 1];
      var last := storage[|storage| - 1];
      NoOlderGenerationAfterActivate(c, init);
      if !IsOutdated(c, last.name) {
        var names := CacheNames(Kept(c, storage));
        assert names[..|names| - 1] == CacheNames(Kept(c, init));
        assert names[|names| - 1] == last.name;
      } else {
        assert Kept(c, storage) == Kept(c, init);
      }
    }
  }
}
