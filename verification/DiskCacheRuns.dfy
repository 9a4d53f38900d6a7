/** Runs of requests to the disk cache, single and batched in any order, and exactly when each
    URL goes on being validated and served with the body last stored for it. */
module DiskCacheRuns {
  import opened Common
  import opened CacheMeta
  import opened DiskCache
  import opened CacheInvariant
  import opened SharedKeys

  /** A session asks for one URL or for many at once, in any order, and may forget its URL
      map; the server may change between requests. */
  datatype Request =
    | One(url: string, server: Server)
    | Many(urls: seq<string>, server: Server)
    | ForgetMap

  function Serve(cache: Cache, r: Request, key: CacheKey): Cache {
    match r
    case One(url, server) => EnsureHttp(cache, url, key, server)
    case Many(urls, server) => Prefetch(cache, urls, key, server)
    case ForgetMap => cache.(urlToLocal := map[])
  }

  function StoredBy(cache: Cache, r: Request, key: CacheKey, stored: Stored): Stored {
    match r
    case One(url, server) => StoredNext(cache, url, key, server, stored)
    case Many(urls, server) => StoredBatch(cache.disk, Jobs(urls, cache.urlToLocal), key, server, stored)
    case ForgetMap => stored
  }

  /** URLs and header values are single lines, as HTTP makes them. */
  predicate PlainRequest(cache: Cache, r: Request, key: CacheKey) {
    match r
    case One(url, server) => PlainUrl(url) && PlainFetch(Answer(SlotOf(cache.disk, key(url)), url, server))
    case Many(urls, server) => PlainBatch(cache.disk, Jobs(urls, cache.urlToLocal), key, server)
    case ForgetMap => true
  }

  /** The request leaves the metadata of every key with a URL that has its own body. */
  predicate Kept(cache: Cache, r: Request, key: CacheKey, stored: Stored) {
    r.Many? ==> BatchKept(cache.disk, Jobs(r.urls, cache.urlToLocal), key, r.server, stored)
  }

  lemma ServeExactly(cache: Cache, r: Request, key: CacheKey, stored: Stored)
    requires DiskInv(cache.disk, stored, key) && PlainRequest(cache, r, key)
    ensures DiskInv(Serve(cache, r, key).disk, StoredBy(cache, r, key, stored), key) <==> Kept(cache, r, key, stored)
  {
    hide DiskInv, EnsureHttp, Committed, Downloaded, StoredNext, StoredBatch, PlainBatch, BatchKept;
    match r {
      case One(url, server) => EnsureKeeps(cache, url, key, server, stored);
      case Many(urls, server) => DiskInvExactly(cache, Jobs(urls, cache.urlToLocal), key, server, stored);
      case ForgetMap =>
    }
  }

  /** The request leaves every mapped URL its own body: one that is fetched anew does not
      replace the body of another of its key by a different one. */
  ghost predicate Owned(cache: Cache, r: Request, key: CacheKey, stored: Stored) {
    match r
    case One(url, server) =>
      var fetch := Answer(SlotOf(cache.disk, key(url)), url, server);
      url !in cache.urlToLocal && fetch.Ok? ==>
        forall u :: u in cache.urlToLocal && key(u) == key(url) ==> u in stored && stored[u] == fetch.payload
    case Many(urls, server) =>
      var jobs := Jobs(urls, cache.urlToLocal);
      var now := StoredBatch(cache.disk, jobs, key, server, stored);
      forall u :: u in AfterBatch(cache, jobs, key, server).urlToLocal ==>
        Own(BatchOf(cache.disk, jobs, key, server), key(u), now, u)
    case ForgetMap => true
  }

  /** What one request does to the body of its key and to the map. */
  lemma EnsureChanges(cache: Cache, url: string, key: CacheKey, server: Server, stored: Stored)
    requires DiskInv(cache.disk, stored, key) && MapInv(cache, stored, key) && url !in cache.urlToLocal
    requires PlainUrl(url) && PlainFetch(Answer(SlotOf(cache.disk, key(url)), url, server))
    ensures var fetch := Answer(SlotOf(cache.disk, key(url)), url, server);
            var after, now := EnsureHttp(cache, url, key, server), StoredNext(cache, url, key, server, stored);
            && now == StoredAfter(stored, url, fetch)
            && (forall k :: SlotOf(after.disk, k).body ==
                  if fetch.Ok? && k == key(url) then Some(fetch.payload) else SlotOf(cache.disk, k).body)
            && (forall u :: u in cache.urlToLocal ==>
                  u in after.urlToLocal && after.urlToLocal[u] == cache.urlToLocal[u])
            && (forall u :: u in after.urlToLocal && u !in cache.urlToLocal ==>
                  u == url && after.urlToLocal[u] == CachedBody(key(u))
                  && u in now && SlotOf(after.disk, key(u)).body == Some(now[u]))
  {
    hide SlotInv, FetchOne;
    EnsureKeeps(cache, url, key, server, stored);
    BodyOfOne(SlotOf(cache.disk, key(url)), url, server);
  }

  lemma BodyOfOne(slot: Slot, url: string, server: Server)
    ensures FetchOne(slot, url, server).0.body ==
            if Answer(slot, url, server).Ok? then Some(Answer(slot, url, server).payload) else slot.body
  {
  }

  lemma ServeMapExactly(cache: Cache, r: Request, key: CacheKey, stored: Stored)
    requires DiskInv(cache.disk, stored, key) && PlainRequest(cache, r, key) && MapInv(cache, stored, key)
    ensures MapInv(Serve(cache, r, key), StoredBy(cache, r, key, stored), key) <==> Owned(cache, r, key, stored)
  {
    match r {
      case One(url, server) => EnsureMapExactly(cache, url, key, server, stored);
      case Many(urls, server) =>
        hide DiskInv, MapInv, Committed, Downloaded, StoredBatch, Own, BatchOf;
        MapInvExactly(cache, Jobs(urls, cache.urlToLocal), key, server, stored);
      case ForgetMap =>
    }
  }

  lemma EnsureMapExactly(cache: Cache, url: string, key: CacheKey, server: Server, stored: Stored)
    requires DiskInv(cache.disk, stored, key) && MapInv(cache, stored, key)
    requires PlainUrl(url) && PlainFetch(Answer(SlotOf(cache.disk, key(url)), url, server))
    ensures MapInv(EnsureHttp(cache, url, key, server), StoredNext(cache, url, key, server, stored), key)
            <==> Owned(cache, One(url, server), key, stored)
  {
    if url in cache.urlToLocal {
      assert cache.Exists(cache.urlToLocal[url]);
    } else {
      EnsureChanges(cache, url, key, server, stored);
      hide EnsureHttp, StoredNext, DiskInv, Answer, SlotOf;
      var after := EnsureHttp(cache, url, key, server);
      if Owned(cache, One(url, server), key, stored) {
        assert MapInv(after, StoredNext(cache, url, key, server, stored), key);
      }
    }
  }

  function RunCache(start: Cache, requests: seq<Request>, key: CacheKey): Cache {
    if requests == [] then start
    else
      var last := |requests| - 1;
      Serve(RunCache(start, requests[..last], key), requests[last], key)
  }

  function RunStored(start: Cache, requests: seq<Request>, key: CacheKey, stored: Stored): Stored {
    if requests == [] then stored
    else
      var last := |requests| - 1;
      StoredBy(RunCache(start, requests[..last], key), requests[last], key,
               RunStored(start, requests[..last], key, stored))
  }

  predicate PlainRequests(start: Cache, requests: seq<Request>, key: CacheKey) {
    requests != [] ==>
      var last := |requests| - 1;
      && PlainRequests(start, requests[..last], key)
      && PlainRequest(RunCache(start, requests[..last], key), requests[last], key)
  }

  /** The disk invariant holds at every point of the run. */
  predicate ValidThroughout(start: Cache, requests: seq<Request>, key: CacheKey, stored: Stored) {
    && DiskInv(RunCache(start, requests, key).disk, RunStored(start, requests, key, stored), key)
    && (requests != [] ==> ValidThroughout(start, requests[..|requests| - 1], key, stored))
  }

  predicate KeptThroughout(start: Cache, requests: seq<Request>, key: CacheKey, stored: Stored) {
    requests != [] ==>
      var before := requests[..|requests| - 1];
      && KeptThroughout(start, before, key, stored)
      && Kept(RunCache(start, before, key), requests[|requests| - 1], key, RunStored(start, before, key, stored))
  }

  /** Over every run of single requests and batches, with any cache key, metadata on disk
      stands beside exactly the body last stored for the URL it names, so that validators are
      sent only for that body, if and only if every batch keeps every key its jobs use. */
  lemma {:induction false} ValidatedBodyIsStored(start: Cache, requests: seq<Request>, key: CacheKey, stored: Stored)
    requires DiskInv(start.disk, stored, key) && PlainRequests(start, requests, key)
    ensures ValidThroughout(start, requests, key, stored) <==> KeptThroughout(start, requests, key, stored)
  {
    if requests != [] {
      hide DiskInv, Serve, StoredBy, PlainRequest, Kept;
      var before := requests[..|requests| - 1];
      ValidatedBodyIsStored(start, before, key, stored);
      if ValidThroughout(start, before, key, stored) {
        ValidAtEnd(start, before, key, stored);
        ServeExactly(RunCache(start, before, key), requests[|requests| - 1], key,
                     RunStored(start, before, key, stored));
      }
    }
  }

  lemma ValidAtEnd(start: Cache, requests: seq<Request>, key: CacheKey, stored: Stored)
    requires ValidThroughout(start, requests, key, stored)
    ensures DiskInv(RunCache(start, requests, key).disk, RunStored(start, requests, key, stored), key)
  {
  }

  /** The disk invariant holds at every point of the run, and every mapped URL is mapped to
      its own file, with the body last stored for it. */
  ghost predicate SoundThroughout(start: Cache, requests: seq<Request>, key: CacheKey, stored: Stored) {
    && DiskInv(RunCache(start, requests, key).disk, RunStored(start, requests, key, stored), key)
    && MapInv(RunCache(start, requests, key), RunStored(start, requests, key, stored), key)
    && (requests != [] ==> SoundThroughout(start, requests[..|requests| - 1], key, stored))
  }

  ghost predicate OwnedThroughout(start: Cache, requests: seq<Request>, key: CacheKey, stored: Stored) {
    requests != [] ==>
      var before := requests[..|requests| - 1];
      var cache, mid := RunCache(start, before, key), RunStored(start, before, key, stored);
      && OwnedThroughout(start, before, key, stored)
      && Kept(cache, requests[|requests| - 1], key, mid) && Owned(cache, requests[|requests| - 1], key, mid)
  }

  /** Over every run, with any cache key, every URL is validated and served with the body last
      stored for it, if and only if every request leaves every key and every mapped URL with
      its own body. */
  lemma {:induction false} ServedBodyExactly(start: Cache, requests: seq<Request>, key: CacheKey, stored: Stored)
    requires DiskInv(start.disk, stored, key) && MapInv(start, stored, key) && PlainRequests(start, requests, key)
    ensures SoundThroughout(start, requests, key, stored) <==> OwnedThroughout(start, requests, key, stored)
  {
    if requests != [] {
      hide DiskInv, MapInv, Serve, StoredBy, PlainRequest, Kept, Owned;
      var before, last := requests[..|requests| - 1], requests[|requests| - 1];
      ServedBodyExactly(start, before, key, stored);
      if SoundThroughout(start, before, key, stored) {
        SoundAtEnd(start, before, key, stored);
        ServeExactly(RunCache(start, before, key), last, key, RunStored(start, before, key, stored));
        ServeMapExactly(RunCache(start, before, key), last, key, RunStored(start, before, key, stored));
      }
    }
  }

  lemma SoundAtEnd(start: Cache, requests: seq<Request>, key: CacheKey, stored: Stored)
    requires SoundThroughout(start, requests, key, stored)
    ensures DiskInv(RunCache(start, requests, key).disk, RunStored(start, requests, key, stored), key)
    ensures MapInv(RunCache(start, requests, key), RunStored(start, requests, key, stored), key)
  {
  }

  // ---- keys that differ ----

  /** The request asks for known URLs, and for none twice. */
  predicate Asks(r: Request, known: set<string>) {
    match r
    case One(url, _) => url in known
    case Many(urls, _) =>
      && (forall u :: u in urls ==> u in known && IsHttp(u))
      && forall i, j :: 0 <= i < j < |urls| ==> urls[i] != urls[j]
    case ForgetMap => true
  }

  lemma AskedDistinct(urls: seq<string>, key: CacheKey, known: set<string>)
    requires KeysDiffer(known, key) && forall u :: u in urls ==> u in known
    requires forall i, j :: 0 <= i < j < |urls| ==> urls[i] != urls[j]
    ensures DistinctKeys(urls, key)
  {
    forall i, j | 0 <= i < j < |urls| ensures key(urls[i]) != key(urls[j]) {
      assert urls[i] in known && urls[j] in known;
    }
  }

  lemma ServeKeepsAll(cache: Cache, r: Request, key: CacheKey, stored: Stored, known: set<string>)
    requires DiskInv(cache.disk, stored, key) && PlainRequest(cache, r, key) && Asks(r, known)
    requires MapInv(cache, stored, key) && KeysDiffer(known, key) && cache.urlToLocal.Keys <= known
    ensures DiskInv(Serve(cache, r, key).disk, StoredBy(cache, r, key, stored), key)
    ensures MapInv(Serve(cache, r, key), StoredBy(cache, r, key, stored), key)
    ensures Serve(cache, r, key).urlToLocal.Keys <= known
  {
    match r {
      case One(url, server) =>
        hide DiskInv, MapInv, EnsureHttp, StoredNext;
        EnsureKeeps(cache, url, key, server, stored);
        EnsureKeepsMap(cache, url, key, server, stored);
        EnsureMapsOnly(cache, url, key, server);
      case Many(urls, server) =>
        AskedDistinct(urls, key, known);
        hide DiskInv, MapInv, Prefetch, EnsureEach, StoredBatch, PlainBatch;
        PrefetchIsEach(cache, urls, key, server, stored);
        EachKeeps(cache, Jobs(urls, cache.urlToLocal), key, server, stored);
        EachKeepsMap(cache, Jobs(urls, cache.urlToLocal), key, server, stored, known);
      case ForgetMap =>
    }
  }

  /** If the keys of the URLs asked for differ and no batch has a URL twice, every URL that is
      mapped at the end of a run is mapped to its own file, which holds the body last stored
      for that URL, and validators are sent only for such a body: no 304, no failure and no
      other URL's fetch ever puts a partial or a foreign body there. */
  lemma {:induction false} ServedBodyIsStored(start: Cache, requests: seq<Request>, key: CacheKey, stored: Stored,
                                              known: set<string>)
    requires DiskInv(start.disk, stored, key) && PlainRequests(start, requests, key)
    requires MapInv(start, stored, key) && KeysDiffer(known, key) && start.urlToLocal.Keys <= known
    requires forall r :: r in requests ==> Asks(r, known)
    ensures DiskInv(RunCache(start, requests, key).disk, RunStored(start, requests, key, stored), key)
    ensures MapInv(RunCache(start, requests, key), RunStored(start, requests, key, stored), key)
    ensures RunCache(start, requests, key).urlToLocal.Keys <= known
  {
    if requests != [] {
      hide DiskInv, MapInv, Serve, StoredBy, PlainRequest, Asks, KeysDiffer;
      var last := |requests| - 1;
      var before, mid := RunCache(start, requests[..last], key), RunStored(start, requests[..last], key, stored);
      ServedBodyIsStored(start, requests[..last], key, stored, known);
      ServeKeepsAll(before, requests[last], key, mid, known);
    }
  }
}
