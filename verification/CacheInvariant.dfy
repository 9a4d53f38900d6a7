/** What a request to the disk cache keeps: a URL is served, and validated, only with the
    body that was last stored for that very URL. */
module CacheInvariant {
  import opened Common
  import opened CacheMeta
  import opened DiskCache

  predicate PlainFetch(fetch: Fetch) {
    match fetch
    case Ok(etag, lastModified, _, _) => Plain(etag) && Plain(lastModified)
    case NotModified(etag, lastModified) => Plain(etag) && Plain(lastModified)
    case Failed(_) => true
  }

  predicate PlainUrl(url: string) { IsHttp(url) && Plain(url) }

  /** The last payload of a 200 answer stored for each URL. */
  type Stored = map<string, string>

  /** Metadata under key `k` names a URL of that key, has validators, and stands beside
      the body last stored for that URL. */
  predicate SlotInv(slot: Slot, k: string, stored: Stored, key: CacheKey) {
    slot.meta.Some? ==>
      && Parse(slot.meta.value).Some?
      && var m := Parse(slot.meta.value).value;
         && m.url != "" && m.HasValidators() && key(m.url) == k
         && Plain(m.etag) && Plain(m.lastModified)
         && m.url in stored && slot.body == Some(stored[m.url])
  }

  predicate DiskInv(disk: Disk, stored: Stored, key: CacheKey) {
    forall k :: k in disk ==> SlotInv(disk[k], k, stored, key)
  }

  function StoredAfter(stored: Stored, url: string, fetch: Fetch): Stored {
    if fetch.Ok? then stored[url := fetch.payload] else stored
  }

  /** The answer a fetch of `url` gets from the state of its files. */
  function Answer(slot: Slot, url: string, server: Server): Fetch {
    server(url, ReadEntry(slot, url).Sent())
  }

  lemma StoreMetaReads(slot: Slot, m: CacheMeta)
    requires Plain(m.url) && Plain(m.etag) && Plain(m.lastModified) && m.url != ""
    ensures StoreMeta(slot, m).meta.Some? && Parse(StoreMeta(slot, m).meta.value) == Some(m)
    ensures StoreMeta(slot, m).body == slot.body
  {
    RoundTrip(m);
  }

  /** One fetch keeps the invariant of its own files, and a URL it serves is served with
      the body last stored for it, whether the answer was 200, 304 or a failure. */
  lemma FetchOneServesStored(slot: Slot, k: string, url: string, key: CacheKey, server: Server, stored: Stored)
    requires SlotInv(slot, k, stored, key) && PlainUrl(url) && k == key(url)
    requires PlainFetch(Answer(slot, url, server))
    ensures var after := StoredAfter(stored, url, Answer(slot, url, server));
            var (files, served) := FetchOne(slot, url, server);
            && SlotInv(files, k, after, key)
            && (served ==> url in after && files.body == Some(after[url]))
    ensures !Misanswered(slot, url, server)
  {
    hide Serialize, Parse, StoreMeta;
    var entry := ReadEntry(slot, url);
    var fetch := Answer(slot, url, server);
    var fetched := AfterFetch(slot.(bodyTmp := None), fetch);
    match fetch
    case Ok(_, _, _, payload) =>
      StoreMetaReads(fetched.(body := fetched.bodyTmp, bodyTmp := None), FreshMeta(url, fetch, payload));
    case NotModified(_, _) =>
      if entry.haveBody { StoreMetaReads(fetched.(bodyTmp := None), Refreshed(entry.meta, url, fetch)); }
    case Failed(_) =>
  }

  /** Storing a payload for `url` does not disturb the files of other keys. */
  lemma OtherSlotInv(slot: Slot, k: string, url: string, key: CacheKey, stored: Stored, fetch: Fetch)
    requires SlotInv(slot, k, stored, key) && k != key(url)
    ensures SlotInv(slot, k, StoredAfter(stored, url, fetch), key)
  {
  }

  /** What is stored once `url` has been ensured: nothing changes when it is already served. */
  function StoredNext(cache: Cache, url: string, key: CacheKey, server: Server, stored: Stored): Stored {
    if url in cache.urlToLocal && cache.Exists(cache.urlToLocal[url]) then stored
    else StoredAfter(stored, url, Answer(SlotOf(cache.disk, key(url)), url, server))
  }

  /** Ensuring a URL keeps the disk invariant, for any cache key, and if it fetches and
      serves the URL its body is the one last stored for that URL. */
  lemma EnsureKeeps(cache: Cache, url: string, key: CacheKey, server: Server, stored: Stored)
    requires DiskInv(cache.disk, stored, key) && PlainUrl(url)
    requires PlainFetch(Answer(SlotOf(cache.disk, key(url)), url, server))
    ensures var after := EnsureHttp(cache, url, key, server);
            var next := StoredNext(cache, url, key, server, stored);
            && DiskInv(after.disk, next, key)
            && (!(url in cache.urlToLocal && cache.Exists(cache.urlToLocal[url])) &&
                FetchOne(SlotOf(cache.disk, key(url)), url, server).1 ==>
                  url in after.urlToLocal && after.urlToLocal[url] == CachedBody(key(url))
                  && url in next && SlotOf(after.disk, key(url)).body == Some(next[url]))
  {
    if !(url in cache.urlToLocal && cache.Exists(cache.urlToLocal[url])) {
      hide SlotInv, FetchOne;
      var slot := SlotOf(cache.disk, key(url));
      assert SlotInv(EMPTY, key(url), stored, key) by { EmptySlotInv(key(url), stored, key); }
      FetchOneServesStored(slot, key(url), url, key, server, stored);
      var after := EnsureHttp(cache, url, key, server);
      forall k | k in after.disk ensures SlotInv(after.disk[k], k, StoredNext(cache, url, key, server, stored), key) {
        if k != key(url) { OtherSlotInv(cache.disk[k], k, url, key, stored, Answer(slot, url, server)); }
      }
    }
  }

  lemma EmptySlotInv(k: string, stored: Stored, key: CacheKey)
    ensures SlotInv(EMPTY, k, stored, key)
  {
  }

  /** Every mapped URL is mapped to the body of its own key, last stored for it. */
  predicate MapInv(cache: Cache, stored: Stored, key: CacheKey) {
    forall u :: u in cache.urlToLocal ==>
      && cache.urlToLocal[u] == CachedBody(key(u))
      && u in stored && SlotOf(cache.disk, key(u)).body == Some(stored[u])
  }

  /** A key without collisions among the mapped URLs and `url`. */
  predicate NoCollision(cache: Cache, url: string, key: CacheKey) {
    forall u :: u in cache.urlToLocal && key(u) == key(url) ==> u == url
  }

  /** Without key collisions every mapped URL goes on being served its own last body. */
  lemma EnsureKeepsMap(cache: Cache, url: string, key: CacheKey, server: Server, stored: Stored)
    requires DiskInv(cache.disk, stored, key) && MapInv(cache, stored, key)
    requires PlainUrl(url) && PlainFetch(Answer(SlotOf(cache.disk, key(url)), url, server))
    requires NoCollision(cache, url, key)
    ensures MapInv(EnsureHttp(cache, url, key, server), StoredNext(cache, url, key, server, stored), key)
  {
    hide SlotInv, FetchOne;
    EnsureKeeps(cache, url, key, server, stored);
    if url in cache.urlToLocal {
      assert cache.Exists(cache.urlToLocal[url]);
    }
  }

  // ---- a batch ----

  /** Every job of a batch is answered for the files as they were before it. */
  predicate PlainBatch(disk: Disk, jobs: seq<string>, key: CacheKey, server: Server) {
    forall i :: 0 <= i < |jobs| ==> PlainUrl(jobs[i]) && PlainFetch(Answer(SlotOf(disk, key(jobs[i])), jobs[i], server))
  }

  /** What is stored once every job of a batch is answered. */
  function StoredBatch(disk: Disk, jobs: seq<string>, key: CacheKey, server: Server, stored: Stored): Stored {
    if jobs == [] then stored
    else
      var last := |jobs| - 1;
      StoredAfter(StoredBatch(disk, jobs[..last], key, server, stored), jobs[last],
                  Answer(SlotOf(disk, key(jobs[last])), jobs[last], server))
  }

  /** A job of a batch finds its own files and the map as they were before the batch. */
  lemma JobFindsItsFiles(cache: Cache, jobs: seq<string>, key: CacheKey, server: Server, stored: Stored)
    requires jobs != [] && DistinctKeys(jobs, key) && Unmapped(jobs, cache.urlToLocal)
    ensures var last := |jobs| - 1;
            var before := EnsureEach(cache, jobs[..last], key, server);
            && jobs[last] !in before.urlToLocal
            && SlotOf(before.disk, key(jobs[last])) == SlotOf(cache.disk, key(jobs[last]))
            && StoredNext(before, jobs[last], key, server, stored) ==
               StoredAfter(stored, jobs[last], Answer(SlotOf(cache.disk, key(jobs[last])), jobs[last], server))
  {
    hide FetchOne, EnsureEach, DiskOutcome, Answer, StoredAfter, SlotOf;
    var last := |jobs| - 1;
    var results := SingleResults(cache.disk, jobs, key, server);
    assert results[..last] == SingleResults(cache.disk, jobs[..last], key, server);
    EnsureEachOutcome(cache, jobs[..last], key, server);
    UntouchedSlot(cache.disk, EnsureEach(cache, jobs[..last], key, server).disk, jobs, key, results);
    LastStillUnmapped(cache.urlToLocal, jobs, key, results);
  }

  lemma {:induction false} EachKeeps(cache: Cache, jobs: seq<string>, key: CacheKey, server: Server, stored: Stored)
    requires DistinctKeys(jobs, key) && Unmapped(jobs, cache.urlToLocal)
    requires DiskInv(cache.disk, stored, key) && PlainBatch(cache.disk, jobs, key, server)
    ensures DiskInv(EnsureEach(cache, jobs, key, server).disk, StoredBatch(cache.disk, jobs, key, server, stored), key)
  {
    if jobs != [] {
      hide DiskInv, EnsureHttp, StoredNext, PlainFetch, PlainUrl, Answer, SlotOf;
      var last := |jobs| - 1;
      EachKeeps(cache, jobs[..last], key, server, stored);
      var before := EnsureEach(cache, jobs[..last], key, server);
      var mid := StoredBatch(cache.disk, jobs[..last], key, server, stored);
      JobFindsItsFiles(cache, jobs, key, server, mid);
      EnsureKeeps(before, jobs[last], key, server, mid);
    }
  }

  /** Jobs with keys of their own are prefetched as if ensured one after another. */
  lemma PrefetchIsEach(cache: Cache, urls: seq<string>, key: CacheKey, server: Server, stored: Stored)
    requires DiskInv(cache.disk, stored, key) && DistinctKeys(urls, key)
    requires forall i :: 0 <= i < |urls| ==> IsHttp(urls[i])
    ensures var jobs := Jobs(urls, cache.urlToLocal);
            && DistinctKeys(jobs, key) && Unmapped(jobs, cache.urlToLocal)
            && (forall u :: u in jobs ==> u in urls)
            && Prefetch(cache, urls, key, server) == EnsureEach(cache, jobs, key, server)
  {
    hide DiskInv, EnsureEach, Misanswered, SlotOf;
    var jobs := Jobs(urls, cache.urlToLocal);
    JobsAre(urls, cache.urlToLocal, key);
    FormsAgreeOnJobs(cache, jobs, key, server);
    forall i | 0 <= i < |jobs| ensures !Misanswered(SlotOf(cache.disk, key(jobs[i])), jobs[i], server) {
      NeverMisanswered(cache.disk, jobs[i], key, server, stored);
    }
  }

  /** A key without collisions on these URLs. */
  predicate KeysDiffer(known: set<string>, key: CacheKey) {
    forall u, v :: u in known && v in known && key(u) == key(v) ==> u == v
  }

  lemma {:induction false} EachKeepsMap(cache: Cache, jobs: seq<string>, key: CacheKey, server: Server,
                                        stored: Stored, known: set<string>)
    requires DistinctKeys(jobs, key) && Unmapped(jobs, cache.urlToLocal)
    requires DiskInv(cache.disk, stored, key) && PlainBatch(cache.disk, jobs, key, server)
    requires MapInv(cache, stored, key) && KeysDiffer(known, key) && cache.urlToLocal.Keys <= known
    requires forall u :: u in jobs ==> u in known
    ensures MapInv(EnsureEach(cache, jobs, key, server), StoredBatch(cache.disk, jobs, key, server, stored), key)
    ensures EnsureEach(cache, jobs, key, server).urlToLocal.Keys <= known
  {
    if jobs != [] {
      hide DiskInv, MapInv, EnsureHttp, StoredNext, PlainFetch, PlainUrl, Answer, SlotOf;
      var last := |jobs| - 1;
      EachKeeps(cache, jobs[..last], key, server, stored);
      EachKeepsMap(cache, jobs[..last], key, server, stored, known);
      var before := EnsureEach(cache, jobs[..last], key, server);
      var mid := StoredBatch(cache.disk, jobs[..last], key, server, stored);
      JobFindsItsFiles(cache, jobs, key, server, mid);
      EnsureKeepsMap(before, jobs[last], key, server, mid);
      EnsureMapsOnly(before, jobs[last], key, server);
    }
  }

  lemma EnsureMapsOnly(cache: Cache, url: string, key: CacheKey, server: Server)
    ensures EnsureHttp(cache, url, key, server).urlToLocal.Keys <= cache.urlToLocal.Keys + {url}
  {
    hide FetchOne;
  }

  // ---- the two forms on such a disk ----

  /** On a disk this program wrote the batched form always agrees with the one-at-a-time
      form: metadata there always has validators, so no 304 can be unconditional. */
  lemma FormsAgreeOnOwnDisk(cache: Cache, urls: seq<string>, key: CacheKey, server: Server, stored: Stored)
    requires DiskInv(cache.disk, stored, key) && Suitable(cache, urls, key)
    requires forall i :: 0 <= i < |urls| ==> PlainUrl(urls[i])
    ensures Prefetch(cache, urls, key, server) == EnsureEach(cache, urls, key, server)
  {
    hide Suitable, Prefetch, EnsureEach;
    var jobs := Jobs(urls, cache.urlToLocal);
    FormsAgree(cache, urls, key, server);
    forall i | 0 <= i < |jobs| ensures !Misanswered(SlotOf(cache.disk, key(jobs[i])), jobs[i], server) {
      NeverMisanswered(cache.disk, jobs[i], key, server, stored);
    }
  }

  lemma NeverMisanswered(disk: Disk, url: string, key: CacheKey, server: Server, stored: Stored)
    requires DiskInv(disk, stored, key)
    ensures !Misanswered(SlotOf(disk, key(url)), url, server)
  {
  }
}
