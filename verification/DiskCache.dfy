/** The validated HTTP disk cache: one conditional GET at a time, or a batch of them. */
module DiskCache {
  import opened Common
  import opened CacheMeta

  /** A body; its size fits a long. */
  type Payload = s: string | |s| < LONG_MAX witness ""

  /** How a fetch ends. Only a 200 answer, or a failure to write it, touches the temporary file. */
  datatype Fetch =
    | Ok(etag: string, lastModified: string, contentLength: Long, payload: Payload)
    | NotModified(etag: string, lastModified: string)
    | Failed(leftover: Option<Payload>)

  /** The server's answer to a URL and the validators sent with it. */
  type Server = (string, Validators) -> Fetch

  /** The name under which the files of a URL are kept. */
  type CacheKey = string -> string

  /** The four files a cache key names. */
  datatype Slot = Slot(
    body: Option<Payload>, meta: Option<string>, bodyTmp: Option<Payload>, metaTmp: Option<string>)

  /** What a fetch leaves of its files, and whether its URL is served. */
  type Outcome = (Slot, bool)

  const EMPTY: Slot := Slot(None, None, None, None)

  type Disk = map<string, Slot>

  datatype Location = CachedBody(key: string) | LocalFile(name: string)

  datatype Cache = Cache(disk: Disk, localFiles: set<string>, urlToLocal: map<string, Location>)
  {
    predicate Exists(location: Location) {
      match location
      case CachedBody(key) => SlotOf(disk, key).body.Some?
      case LocalFile(name) => name in localFiles
    }
  }

  function SlotOf(disk: Disk, key: string): Slot {
    if key in disk then disk[key] else EMPTY
  }

  predicate IsHttp(url: string) { "http://" <= url || "https://" <= url }

  /** What the cache knows of a URL before it is fetched. */
  datatype Entry = Entry(meta: CacheMeta, haveBody: bool)
  {
    predicate Trusted() { haveBody && meta.HasValidators() }

    function Sent(): Validators {
      if Trusted() then Validators(meta.etag, meta.lastModified) else Validators("", "")
    }
  }

  predicate LooksComplete(body: Option<string>, meta: CacheMeta) {
    body.Some? && body.value != "" && (meta.contentLength > 0 ==> |body.value| == meta.contentLength)
  }

  function ReadEntry(slot: Slot, url: string): Entry {
    if slot.meta == None then Entry(BLANK, false)
    else
      match Parse(slot.meta.value)
      case None => Entry(BLANK, false)
      case Some(m) => Entry(m, (m.url == "" || m.url == url) && LooksComplete(slot.body, m))
  }

  function AfterFetch(slot: Slot, fetch: Fetch): Slot {
    match fetch
    case Ok(_, _, _, payload) => slot.(bodyTmp := Some(payload))
    case NotModified(_, _) => slot
    case Failed(leftover) => if leftover.Some? then slot.(bodyTmp := leftover) else slot
  }

  function StoreMeta(slot: Slot, meta: CacheMeta): Slot {
    slot.(meta := Some(Serialize(meta)), metaTmp := None)
  }

  /** The metadata after a 304: validators the server repeated are taken over. */
  function Refreshed(meta: CacheMeta, url: string, fetch: Fetch): CacheMeta
    requires fetch.NotModified?
  {
    CacheMeta(url, if fetch.etag != "" then fetch.etag else meta.etag,
              if fetch.lastModified != "" then fetch.lastModified else meta.lastModified, meta.contentLength)
  }

  /** The metadata of a body that was just promoted. */
  function FreshMeta(url: string, fetch: Fetch, body: Payload): CacheMeta
    requires fetch.Ok?
  {
    CacheMeta(url, fetch.etag, fetch.lastModified, if fetch.contentLength < 0 then |body| else fetch.contentLength)
  }

  /** The files after the fetch of `url`, and whether the URL is served from its body. A
      304 is accepted when `accept304` says so. A body whose temporary file another job of
      the same key took is lost: the old one is removed before the renaming fails. */
  function Commit(slot: Slot, url: string, entry: Entry, fetch: Fetch, accept304: bool): Outcome
  {
    match fetch
    case NotModified(_, _) =>
      var meta := Refreshed(entry.meta, url, fetch);
      var kept := slot.(bodyTmp := None);
      if !accept304 then (kept, false)
      else (if meta.HasValidators() then StoreMeta(kept, meta) else kept, true)
    case Failed(_) => (slot.(bodyTmp := None), entry.Trusted())
    case Ok(_, _, _, _) =>
      var promoted := slot.(body := slot.bodyTmp, bodyTmp := None);
      if promoted.body == None then (promoted, false)
      else
        var meta := FreshMeta(url, fetch, promoted.body.value);
        (if meta.HasValidators() then StoreMeta(promoted, meta) else promoted.(meta := None), true)
  }

  /** One URL on its own files, as the one-at-a-time form handles it. */
  function FetchOne(slot: Slot, url: string, server: Server): Outcome
  {
    var entry := ReadEntry(slot, url);
    var fetch := server(url, entry.Sent());
    Commit(AfterFetch(slot.(bodyTmp := None), fetch), url, entry, fetch, entry.haveBody)
  }

  /** The same URL as the batched form commits it. */
  function FetchBatched(slot: Slot, url: string, server: Server): Outcome
  {
    var entry := ReadEntry(slot, url);
    var fetch := server(url, entry.Sent());
    Commit(AfterFetch(slot.(bodyTmp := None), fetch), url, entry, fetch, entry.Trusted())
  }

  /** The server answers 304 to an unconditional GET of a URL whose metadata has a body
      but no validators. */
  predicate Misanswered(slot: Slot, url: string, server: Server) {
    var entry := ReadEntry(slot, url);
    entry.haveBody && !entry.meta.HasValidators() && server(url, Validators("", "")).NotModified?
  }

  lemma FormsAgreeOnOne(slot: Slot, url: string, server: Server)
    ensures FetchOne(slot, url, server) == FetchBatched(slot, url, server) <==> !Misanswered(slot, url, server)
    ensures Misanswered(slot, url, server) ==>
              FetchOne(slot, url, server).1 && !FetchBatched(slot, url, server).1
  {
  }

  // ---- the two forms over a list of URLs ----

  /** `ensureLocalFile` on an http URL: a mapped file that exists is served as it is. */
  function EnsureHttp(cache: Cache, url: string, key: CacheKey, server: Server): Cache {
    if url in cache.urlToLocal && cache.Exists(cache.urlToLocal[url]) then cache
    else
      var k := key(url);
      var (slot, served) := FetchOne(SlotOf(cache.disk, k), url, server);
      cache.(disk := cache.disk[k := slot],
             urlToLocal := if served then cache.urlToLocal[url := CachedBody(k)] else cache.urlToLocal)
  }

  function EnsureEach(cache: Cache, urls: seq<string>, key: CacheKey, server: Server): Cache {
    if urls == [] then cache
    else EnsureHttp(EnsureEach(cache, urls[..|urls| - 1], key, server), urls[|urls| - 1], key, server)
  }

  /** The jobs of a batch: the http URLs not mapped yet. */
  function Jobs(urls: seq<string>, mapped: map<string, Location>): seq<string> {
    if urls == [] then []
    else
      var before := Jobs(urls[..|urls| - 1], mapped);
      var url := urls[|urls| - 1];
      if IsHttp(url) && url !in mapped then before + [url] else before
  }

  /** The positions of the URLs that a batch fetches. */
  function Fetchable(urls: seq<string>, mapped: map<string, Location>): set<int> {
    set i | 0 <= i < |urls| && ("http://" <= urls[i] || "https://" <= urls[i]) && urls[i] !in mapped
  }

  /** The jobs are those URLs, each as often as it is asked for. */
  lemma {:induction false} JobsExactly(urls: seq<string>, mapped: map<string, Location>)
    ensures |Jobs(urls, mapped)| == |Fetchable(urls, mapped)|
    ensures forall u :: u in Jobs(urls, mapped) <==> u in urls && ("http://" <= u || "https://" <= u) && u !in mapped
  {
    if urls == [] {
      assert Fetchable(urls, mapped) == {};
    } else {
      var last := |urls| - 1;
      FetchableNext(urls, mapped);
      hide Fetchable;
      JobsExactly(urls[..last], mapped);
      assert forall u :: u in urls <==> u in urls[..last] || u == urls[last];
    }
  }

  lemma FetchableNext(urls: seq<string>, mapped: map<string, Location>)
    requires urls != []
    ensures var last := |urls| - 1;
            var before := Fetchable(urls[..last], mapped);
            last !in before
            && Fetchable(urls, mapped) ==
               if ("http://" <= urls[last] || "https://" <= urls[last]) && urls[last] !in mapped
               then before + {last} else before
  {
  }

  /** First phase: the entry of every job is read and its temporary file removed. */
  function Prepared(disk: Disk, jobs: seq<string>, key: CacheKey): Disk {
    if jobs == [] then disk
    else
      var before := Prepared(disk, jobs[..|jobs| - 1], key);
      var k := key(jobs[|jobs| - 1]);
      before[k := SlotOf(before, k).(bodyTmp := None)]
  }

  function Entries(disk: Disk, jobs: seq<string>, key: CacheKey): (entries: seq<Entry>)
    ensures |entries| == |jobs|
  {
    if jobs == [] then []
    else
      var url := jobs[|jobs| - 1];
      var before := Prepared(disk, jobs[..|jobs| - 1], key);
      Entries(disk, jobs[..|jobs| - 1], key) + [ReadEntry(SlotOf(before, key(url)), url)]
  }

  /** Second phase: every job is fetched into its temporary file. */
  function Downloaded(disk: Disk, jobs: seq<string>, entries: seq<Entry>, key: CacheKey, server: Server): Disk
    requires |entries| == |jobs|
  {
    if jobs == [] then disk
    else
      var last := |jobs| - 1;
      var before := Downloaded(disk, jobs[..last], entries[..last], key, server);
      var k := key(jobs[last]);
      before[k := AfterFetch(SlotOf(before, k), server(jobs[last], entries[last].Sent()))]
  }

  /** Third phase: every job is committed and mapped. */
  function Committed(cache: Cache, jobs: seq<string>, entries: seq<Entry>, key: CacheKey, server: Server): Cache
    requires |entries| == |jobs|
  {
    if jobs == [] then cache
    else
      var last := |jobs| - 1;
      var before := Committed(cache, jobs[..last], entries[..last], key, server);
      var url, entry := jobs[last], entries[last];
      var k := key(url);
      var (slot, served) :=
        Commit(SlotOf(before.disk, k), url, entry, server(url, entry.Sent()), entry.Trusted());
      before.(disk := before.disk[k := slot],
              urlToLocal := if served then before.urlToLocal[url := CachedBody(k)] else before.urlToLocal)
  }

  function Prefetch(cache: Cache, urls: seq<string>, key: CacheKey, server: Server): Cache {
    var jobs := Jobs(urls, cache.urlToLocal);
    var entries := Entries(cache.disk, jobs, key);
    var downloaded := Downloaded(Prepared(cache.disk, jobs, key), jobs, entries, key, server);
    Committed(cache.(disk := downloaded), jobs, entries, key, server)
  }

  predicate DistinctKeys(urls: seq<string>, key: CacheKey) {
    forall i, j :: 0 <= i < j < |urls| ==> key(urls[i]) != key(urls[j])
  }

  /** The job whose key is `k`, if any. */
  predicate HasKey(jobs: seq<string>, key: CacheKey, k: string) {
    exists i :: 0 <= i < |jobs| && key(jobs[i]) == k
  }

  /** Each phase leaves every key's files as that phase alone on the key's own job. */
  lemma {:induction false} PreparedAt(disk: Disk, jobs: seq<string>, key: CacheKey)
    requires DistinctKeys(jobs, key)
    ensures var d := Prepared(disk, jobs, key);
            && (forall k :: k in d <==> k in disk || HasKey(jobs, key, k))
            && (forall k :: !HasKey(jobs, key, k) ==> SlotOf(d, k) == SlotOf(disk, k))
            && (forall i :: 0 <= i < |jobs| ==>
                  SlotOf(d, key(jobs[i])) == SlotOf(disk, key(jobs[i])).(bodyTmp := None))
  {
    if jobs != [] {
      var last := |jobs| - 1;
      var rest := jobs[..last];
      PreparedAt(disk, rest, key);
      KeysSplit(jobs, key);
    }
  }

  lemma KeysSplit(jobs: seq<string>, key: CacheKey)
    requires jobs != [] && DistinctKeys(jobs, key)
    ensures var rest := jobs[..|jobs| - 1];
            && DistinctKeys(rest, key)
            && (forall k :: HasKey(jobs, key, k) <==> HasKey(rest, key, k) || key(jobs[|jobs| - 1]) == k)
            && !HasKey(rest, key, key(jobs[|jobs| - 1]))
  {
  }

  lemma {:induction false} EntriesAt(disk: Disk, jobs: seq<string>, key: CacheKey)
    requires DistinctKeys(jobs, key)
    ensures forall i :: 0 <= i < |jobs| ==>
              Entries(disk, jobs, key)[i] == ReadEntry(SlotOf(disk, key(jobs[i])), jobs[i])
  {
    if jobs != [] {
      var rest := jobs[..|jobs| - 1];
      KeysSplit(jobs, key);
      EntriesAt(disk, rest, key);
      PreparedAt(disk, rest, key);
    }
  }

  /** What downloading makes of each job's files. */
  function DownloadResults(disk: Disk, jobs: seq<string>, entries: seq<Entry>, key: CacheKey, server: Server):
    (results: seq<Outcome>)
    requires |entries| == |jobs|
    ensures |results| == |jobs|
  {
    seq(|jobs|, i requires 0 <= i < |jobs| =>
      (AfterFetch(SlotOf(disk, key(jobs[i])), server(jobs[i], entries[i].Sent())), false))
  }

  lemma {:induction false} DownloadedAt(disk: Disk, jobs: seq<string>, entries: seq<Entry>, key: CacheKey,
                                        server: Server)
    requires DistinctKeys(jobs, key) && |entries| == |jobs|
    ensures DiskOutcome(disk, Downloaded(disk, jobs, entries, key, server), jobs, key,
                        DownloadResults(disk, jobs, entries, key, server))
  {
    if jobs != [] {
      hide AfterFetch, DiskOutcome;
      var last := |jobs| - 1;
      var results := DownloadResults(disk, jobs, entries, key, server);
      assert results[..last] == DownloadResults(disk, jobs[..last], entries[..last], key, server);
      DownloadedAt(disk, jobs[..last], entries[..last], key, server);
      var before := Downloaded(disk, jobs[..last], entries[..last], key, server);
      UntouchedSlot(disk, before, jobs, key, results);
      ExtendDisk(disk, before, jobs, key, results);
    } else {
      assert forall k :: !HasKey(jobs, key, k);
    }
  }

  /** What a form leaves on disk and in the URL map, given the outcome of each job on its
      own files: `results[i]` for `jobs[i]`. */
  ghost predicate DiskOutcome(before: Disk, after: Disk, jobs: seq<string>, key: CacheKey, results: seq<Outcome>)
    requires |results| == |jobs|
  {
    && (forall k :: k in after <==> k in before || HasKey(jobs, key, k))
    && (forall k :: !HasKey(jobs, key, k) ==> SlotOf(after, k) == SlotOf(before, k))
    && (forall i :: 0 <= i < |jobs| ==> SlotOf(after, key(jobs[i])) == results[i].0)
  }

  /** The URL map after the served jobs are mapped to their bodies. */
  function MapAfter(before: map<string, Location>, jobs: seq<string>, key: CacheKey, results: seq<Outcome>):
    map<string, Location>
    requires |results| == |jobs|
  {
    if jobs == [] then before
    else
      var last := |jobs| - 1;
      var rest := MapAfter(before, jobs[..last], key, results[..last]);
      if results[last].1 then rest[jobs[last] := CachedBody(key(jobs[last]))] else rest
  }

  /** A job is mapped after exactly when it was served, and every other URL keeps its entry. */
  ghost predicate Mapped(before: map<string, Location>, after: map<string, Location>, jobs: seq<string>,
                         results: seq<Outcome>)
    requires |results| == |jobs|
  {
    && (forall u :: u !in jobs ==> (u in after <==> u in before) && (u in before ==> after[u] == before[u]))
    && (forall i :: 0 <= i < |jobs| ==> (jobs[i] in after <==> results[i].1))
  }

  lemma {:induction false} MapAfterAt(before: map<string, Location>, jobs: seq<string>, key: CacheKey,
                                      results: seq<Outcome>)
    requires |results| == |jobs| && DistinctKeys(jobs, key) && Unmapped(jobs, before)
    ensures Mapped(before, MapAfter(before, jobs, key, results), jobs, results)
  {
    if jobs != [] {
      JobsSplit(jobs, key);
      KeysSplit(jobs, key);
      hide DistinctKeys, MapAfter, HasKey, Mapped;
      var last := |jobs| - 1;
      MapAfterAt(before, jobs[..last], key, results[..last]);
      MapAfterLast(before, jobs, key, results);
      var mid := MapAfter(before, jobs[..last], key, results[..last]);
      MappedNext(before, mid, jobs, results, CachedBody(key(jobs[last])));
    }
  }

  lemma MappedNext(before: map<string, Location>, mid: map<string, Location>, jobs: seq<string>, results: seq<Outcome>,
                   location: Location)
    requires jobs != [] && |results| == |jobs| && jobs[|jobs| - 1] !in jobs[..|jobs| - 1]
    requires jobs[|jobs| - 1] !in before && Mapped(before, mid, jobs[..|jobs| - 1], results[..|jobs| - 1])
    ensures var last := |jobs| - 1;
            Mapped(before, if results[last].1 then mid[jobs[last] := location] else mid, jobs, results)
  {
    var last := |jobs| - 1;
    assert forall u :: u in jobs <==> u in jobs[..last] || u == jobs[last];
    forall i | 0 <= i < last
      ensures jobs[..last][i] == jobs[i] && results[..last][i] == results[i] && jobs[i] != jobs[last]
    {
      assert jobs[i] in jobs[..last];
    }
  }

  lemma MapAfterLast(before: map<string, Location>, jobs: seq<string>, key: CacheKey, results: seq<Outcome>)
    requires jobs != [] && |results| == |jobs|
    ensures var last := |jobs| - 1;
            var rest := MapAfter(before, jobs[..last], key, results[..last]);
            MapAfter(before, jobs, key, results) ==
            if results[last].1 then rest[jobs[last] := CachedBody(key(jobs[last]))] else rest
  {
  }

  lemma SameDisk(before: Disk, a: Disk, b: Disk, jobs: seq<string>, key: CacheKey, results: seq<Outcome>)
    requires |results| == |jobs|
    requires DiskOutcome(before, a, jobs, key, results) && DiskOutcome(before, b, jobs, key, results)
    ensures a == b
  {
    forall k ensures (k in a <==> k in b) && (k in a ==> a[k] == b[k]) {
      if HasKey(jobs, key, k) {
        var i :| 0 <= i < |jobs| && key(jobs[i]) == k;
        assert SlotOf(a, k) == SlotOf(b, k) == results[i].0;
      }
      assert SlotOf(a, k) == SlotOf(b, k);
    }
  }

  lemma ExtendDisk(before: Disk, mid: Disk, jobs: seq<string>, key: CacheKey, results: seq<Outcome>)
    requires jobs != [] && |results| == |jobs| && DistinctKeys(jobs, key)
    requires DiskOutcome(before, mid, jobs[..|jobs| - 1], key, results[..|jobs| - 1])
    ensures DiskOutcome(before, mid[key(jobs[|jobs| - 1]) := results[|jobs| - 1].0], jobs, key, results)
  {
    KeysSplit(jobs, key);
    var last := |jobs| - 1;
    forall i | 0 <= i < last
      ensures SlotOf(mid[key(jobs[last]) := results[last].0], key(jobs[i])) == results[i].0
    {
      assert key(jobs[i]) != key(jobs[last]);
      assert jobs[..last][i] == jobs[i] && results[..last][i] == results[i];
    }
  }

  lemma JobsSplit(jobs: seq<string>, key: CacheKey)
    requires jobs != [] && DistinctKeys(jobs, key)
    ensures var last := |jobs| - 1;
            && (forall u :: u in jobs <==> u in jobs[..last] || u == jobs[last])
            && jobs[last] !in jobs[..last]
  {
  }

  /** The outcome of each job of the batch, decided by its own files before the batch. */
  function BatchedResults(disk: Disk, jobs: seq<string>, key: CacheKey, server: Server): (results: seq<Outcome>)
    ensures |results| == |jobs|
  {
    seq(|jobs|, i requires 0 <= i < |jobs| => FetchBatched(SlotOf(disk, key(jobs[i])), jobs[i], server))
  }

  function SingleResults(disk: Disk, jobs: seq<string>, key: CacheKey, server: Server): (results: seq<Outcome>)
    ensures |results| == |jobs|
  {
    seq(|jobs|, i requires 0 <= i < |jobs| => FetchOne(SlotOf(disk, key(jobs[i])), jobs[i], server))
  }

  predicate Unmapped(jobs: seq<string>, mapped: map<string, Location>) {
    forall i :: 0 <= i < |jobs| ==> jobs[i] !in mapped
  }

  /** What committing does to each job, given the files and the entry it finds. */
  function CommitResults(disk: Disk, jobs: seq<string>, entries: seq<Entry>, key: CacheKey, server: Server):
    (results: seq<Outcome>)
    requires |entries| == |jobs|
    ensures |results| == |jobs|
  {
    seq(|jobs|, i requires 0 <= i < |jobs| =>
      Commit(SlotOf(disk, key(jobs[i])), jobs[i], entries[i], server(jobs[i], entries[i].Sent()), entries[i].Trusted()))
  }

  lemma {:induction false} CommittedOutcome(cache: Cache, jobs: seq<string>, entries: seq<Entry>, key: CacheKey,
                                            server: Server)
    requires |entries| == |jobs| && DistinctKeys(jobs, key) && Unmapped(jobs, cache.urlToLocal)
    ensures var after := Committed(cache, jobs, entries, key, server);
            var results := CommitResults(cache.disk, jobs, entries, key, server);
            && after.localFiles == cache.localFiles
            && DiskOutcome(cache.disk, after.disk, jobs, key, results)
            && after.urlToLocal == MapAfter(cache.urlToLocal, jobs, key, results)
  {
    if jobs != [] {
      hide Commit, DiskOutcome;
      var last := |jobs| - 1;
      var rest := jobs[..last];
      CommittedOutcome(cache, rest, entries[..last], key, server);
      var results := CommitResults(cache.disk, jobs, entries, key, server);
      assert results[..last] == CommitResults(cache.disk, rest, entries[..last], key, server);
      var before := Committed(cache, rest, entries[..last], key, server);
      UntouchedSlot(cache.disk, before.disk, jobs, key, results);
      ExtendDisk(cache.disk, before.disk, jobs, key, results);
    } else {
      assert forall k :: !HasKey(jobs, key, k);
    }
  }

  lemma UntouchedSlot(before: Disk, mid: Disk, jobs: seq<string>, key: CacheKey, results: seq<Outcome>)
    requires jobs != [] && |results| == |jobs| && DistinctKeys(jobs, key)
    requires DiskOutcome(before, mid, jobs[..|jobs| - 1], key, results[..|jobs| - 1])
    ensures SlotOf(mid, key(jobs[|jobs| - 1])) == SlotOf(before, key(jobs[|jobs| - 1]))
  {
  }

  lemma EnsureUnmapped(cache: Cache, url: string, key: CacheKey, server: Server)
    requires url !in cache.urlToLocal
    ensures var (slot, served) := FetchOne(SlotOf(cache.disk, key(url)), url, server);
            EnsureHttp(cache, url, key, server) ==
            Cache(cache.disk[key(url) := slot], cache.localFiles,
                  if served then cache.urlToLocal[url := CachedBody(key(url))] else cache.urlToLocal)
  {
  }

  lemma LastStillUnmapped(before: map<string, Location>, jobs: seq<string>, key: CacheKey, results: seq<Outcome>)
    requires jobs != [] && |results| == |jobs| && DistinctKeys(jobs, key) && Unmapped(jobs, before)
    ensures jobs[|jobs| - 1] !in MapAfter(before, jobs[..|jobs| - 1], key, results[..|jobs| - 1])
  {
    MapAfterAt(before, jobs[..|jobs| - 1], key, results[..|jobs| - 1]);
    JobsSplit(jobs, key);
  }

  lemma {:induction false} EnsureEachOutcome(cache: Cache, jobs: seq<string>, key: CacheKey, server: Server)
    requires DistinctKeys(jobs, key) && Unmapped(jobs, cache.urlToLocal)
    ensures EachOutcome(cache, EnsureEach(cache, jobs, key, server), jobs, key, server)
  {
    if jobs != [] {
      hide EachOutcome, EnsureHttp;
      var rest := jobs[..|jobs| - 1];
      EnsureEachOutcome(cache, rest, key, server);
      EnsureLast(cache, EnsureEach(cache, rest, key, server), jobs, key, server);
    } else {
      assert forall k :: !HasKey(jobs, key, k);
    }
  }

  /** Every job has the outcome that its own files before the first one decide. */
  ghost predicate EachOutcome(cache: Cache, after: Cache, jobs: seq<string>, key: CacheKey, server: Server) {
    var results := SingleResults(cache.disk, jobs, key, server);
    && after.localFiles == cache.localFiles
    && DiskOutcome(cache.disk, after.disk, jobs, key, results)
    && after.urlToLocal == MapAfter(cache.urlToLocal, jobs, key, results)
  }

  lemma EnsureLast(cache: Cache, before: Cache, jobs: seq<string>, key: CacheKey, server: Server)
    requires jobs != [] && DistinctKeys(jobs, key) && Unmapped(jobs, cache.urlToLocal)
    requires EachOutcome(cache, before, jobs[..|jobs| - 1], key, server)
    ensures EachOutcome(cache, EnsureHttp(before, jobs[|jobs| - 1], key, server), jobs, key, server)
  {
    hide FetchOne, DiskOutcome, EnsureHttp, SlotOf, DistinctKeys, Unmapped;
    var last := |jobs| - 1;
    var results := SingleResults(cache.disk, jobs, key, server);
    assert results[..last] == SingleResults(cache.disk, jobs[..last], key, server);
    UntouchedSlot(cache.disk, before.disk, jobs, key, results);
    LastStillUnmapped(cache.urlToLocal, jobs, key, results);
    EnsureUnmapped(before, jobs[last], key, server);
    ExtendDisk(cache.disk, before.disk, jobs, key, results);
  }

  /** The batch over its jobs does to each what `FetchBatched` does on its own files. */
  lemma PrefetchOutcome(cache: Cache, jobs: seq<string>, key: CacheKey, server: Server)
    requires DistinctKeys(jobs, key) && Unmapped(jobs, cache.urlToLocal)
    ensures var entries := Entries(cache.disk, jobs, key);
            var downloaded := Downloaded(Prepared(cache.disk, jobs, key), jobs, entries, key, server);
            var after := Committed(cache.(disk := downloaded), jobs, entries, key, server);
            var results := BatchedResults(cache.disk, jobs, key, server);
            && after.localFiles == cache.localFiles
            && DiskOutcome(cache.disk, after.disk, jobs, key, results)
            && after.urlToLocal == MapAfter(cache.urlToLocal, jobs, key, results)
  {
    hide Commit, AfterFetch, ReadEntry, Committed, Downloaded, Prepared, Entries;
    var entries := Entries(cache.disk, jobs, key);
    var prepared := Prepared(cache.disk, jobs, key);
    var downloaded := Downloaded(prepared, jobs, entries, key, server);
    EntriesAt(cache.disk, jobs, key);
    PreparedAt(cache.disk, jobs, key);
    DownloadedAt(prepared, jobs, entries, key, server);
    CommittedOutcome(cache.(disk := downloaded), jobs, entries, key, server);
    var results := BatchedResults(cache.disk, jobs, key, server);
    assert CommitResults(downloaded, jobs, entries, key, server) == results;
  }

  /** The URLs both forms handle: http, each with a cache key of its own, and either not
      mapped yet or mapped to a file that exists. */
  predicate Suitable(cache: Cache, urls: seq<string>, key: CacheKey) {
    && DistinctKeys(urls, key)
    && forall i :: 0 <= i < |urls| ==>
         IsHttp(urls[i]) && (urls[i] in cache.urlToLocal ==> cache.Exists(cache.urlToLocal[urls[i]]))
  }

  lemma {:induction false} JobsAre(urls: seq<string>, mapped: map<string, Location>, key: CacheKey)
    requires DistinctKeys(urls, key) && forall i :: 0 <= i < |urls| ==> IsHttp(urls[i])
    ensures var jobs := Jobs(urls, mapped);
            && DistinctKeys(jobs, key) && Unmapped(jobs, mapped)
            && (forall u :: u in jobs <==> u in urls && u !in mapped)
  {
    if urls != [] {
      var last := |urls| - 1;
      var rest := urls[..last];
      JobsAre(rest, mapped, key);
      assert forall u :: u in urls <==> u in rest || u == urls[last];
      var before := Jobs(rest, mapped);
      forall i | 0 <= i < |before| ensures key(before[i]) != key(urls[last]) {
        assert before[i] in rest;
        var k :| 0 <= k < last && rest[k] == before[i];
        assert key(urls[k]) != key(urls[last]);
      }
    }
  }

  lemma ExistsStays(cache: Cache, after: Cache, jobs: seq<string>, key: CacheKey, server: Server, location: Location)
    requires cache.Exists(location) && after.localFiles == cache.localFiles
    requires DiskOutcome(cache.disk, after.disk, jobs, key, SingleResults(cache.disk, jobs, key, server))
    ensures after.Exists(location)
  {
  }

  /** The one-at-a-time form passes over mapped URLs, as the batch does. */
  lemma {:induction false} MappedSkipped(cache: Cache, urls: seq<string>, key: CacheKey, server: Server)
    requires Suitable(cache, urls, key)
    ensures EnsureEach(cache, urls, key, server) == EnsureEach(cache, Jobs(urls, cache.urlToLocal), key, server)
  {
    if urls != [] {
      var last := |urls| - 1;
      var rest := urls[..last];
      MappedSkipped(cache, rest, key, server);
      var jobs := Jobs(rest, cache.urlToLocal);
      if urls[last] in cache.urlToLocal {
        JobsAre(rest, cache.urlToLocal, key);
        EnsureEachOutcome(cache, jobs, key, server);
        MapAfterAt(cache.urlToLocal, jobs, key, SingleResults(cache.disk, jobs, key, server));
        ExistsStays(cache, EnsureEach(cache, jobs, key, server), jobs, key, server, cache.urlToLocal[urls[last]]);
      } else {
        assert Jobs(urls, cache.urlToLocal)[..|jobs|] == jobs;
      }
    }
  }

  predicate NoneMisanswered(cache: Cache, jobs: seq<string>, key: CacheKey, server: Server) {
    forall i :: 0 <= i < |jobs| ==> !Misanswered(SlotOf(cache.disk, key(jobs[i])), jobs[i], server)
  }

  /** The batched form leaves the files and the URL map that the one-at-a-time form leaves,
      exactly when no server answers 304 to an unconditional GET of a URL whose metadata
      has a body but no validators. */
  lemma FormsAgree(cache: Cache, urls: seq<string>, key: CacheKey, server: Server)
    requires Suitable(cache, urls, key)
    ensures Prefetch(cache, urls, key, server) == EnsureEach(cache, urls, key, server) <==>
            NoneMisanswered(cache, Jobs(urls, cache.urlToLocal), key, server)
  {
    var jobs := Jobs(urls, cache.urlToLocal);
    JobsAre(urls, cache.urlToLocal, key);
    MappedSkipped(cache, urls, key, server);
    FormsAgreeOnJobs(cache, jobs, key, server);
  }

  lemma FormsAgreeOnJobs(cache: Cache, jobs: seq<string>, key: CacheKey, server: Server)
    requires DistinctKeys(jobs, key) && Unmapped(jobs, cache.urlToLocal)
    ensures var entries := Entries(cache.disk, jobs, key);
            var downloaded := Downloaded(Prepared(cache.disk, jobs, key), jobs, entries, key, server);
            Committed(cache.(disk := downloaded), jobs, entries, key, server) == EnsureEach(cache, jobs, key, server)
            <==> NoneMisanswered(cache, jobs, key, server)
  {
    hide FetchOne, FetchBatched, Misanswered, Committed, Downloaded, Prepared, Entries, EnsureEach, DiskOutcome;
    var entries := Entries(cache.disk, jobs, key);
    var downloaded := Downloaded(Prepared(cache.disk, jobs, key), jobs, entries, key, server);
    var batched := Committed(cache.(disk := downloaded), jobs, entries, key, server);
    var each := EnsureEach(cache, jobs, key, server);
    PrefetchOutcome(cache, jobs, key, server);
    EnsureEachOutcome(cache, jobs, key, server);
    forall i | 0 <= i < |jobs|
      ensures var slot := SlotOf(cache.disk, key(jobs[i]));
              && (FetchOne(slot, jobs[i], server) == FetchBatched(slot, jobs[i], server)
                  <==> !Misanswered(slot, jobs[i], server))
              && (Misanswered(slot, jobs[i], server) ==>
                    FetchOne(slot, jobs[i], server).1 && !FetchBatched(slot, jobs[i], server).1)
    {
      FormsAgreeOnOne(SlotOf(cache.disk, key(jobs[i])), jobs[i], server);
    }
    var one, many := SingleResults(cache.disk, jobs, key, server), BatchedResults(cache.disk, jobs, key, server);
    if NoneMisanswered(cache, jobs, key, server) {
      assert one == many;
      SameDisk(cache.disk, batched.disk, each.disk, jobs, key, one);
    } else {
      var i :| 0 <= i < |jobs| && Misanswered(SlotOf(cache.disk, key(jobs[i])), jobs[i], server);
      assert one[i].1 && !many[i].1;
      MapAfterAt(cache.urlToLocal, jobs, key, one);
      MapAfterAt(cache.urlToLocal, jobs, key, many);
      assert jobs[i] in each.urlToLocal && jobs[i] !in batched.urlToLocal;
    }
  }

  /** Two URLs of one key that are both fetched anew lose the body between them: the first
      takes the temporary file of both, the second removes what the first promoted. The
      first stays mapped to a file that is not there. */
  lemma SharedKeyLosesBody(u: string, v: string, k: string, server: Server)
    requires IsHttp(u) && IsHttp(v) && u != v
    requires server(u, Validators("", "")).Ok? && server(v, Validators("", "")).Ok?
    ensures var after := Prefetch(Cache(map[], {}, map[]), [u, v], _ => k, server);
            after.urlToLocal == map[u := CachedBody(k)] && !after.Exists(CachedBody(k))
  {
    hide Serialize, Parse, IsHttp;
    var key := (_: string) => k;
    var entry := Entry(BLANK, false);
    assert [u, v][..1] == [u] && [u][..0] == [] && [entry, entry][..1] == [entry] && [entry][..0] == [];
    assert Jobs([], map[]) == [] && Jobs([u], map[]) == [u];
    assert Jobs([u, v], map[]) == [u, v];
    var prepared := Prepared(map[], [u, v], key);
    assert Prepared(map[], [u], key) == map[k := EMPTY] && prepared == map[k := EMPTY];
    assert Entries(map[], [u], key) == [entry] && Entries(map[], [u, v], key) == [entry, entry];
    hide Committed, Downloaded, Prepared, Entries, Jobs;
    TwoDownloads(prepared, u, v, k, entry, server);
    TwoCommits(Cache(Downloaded(prepared, [u, v], [entry, entry], key, server), {}, map[]), u, v, k, entry, server);
  }

  lemma TwoDownloads(disk: Disk, u: string, v: string, k: string, entry: Entry, server: Server)
    requires server(u, entry.Sent()).Ok? && server(v, entry.Sent()).Ok?
    ensures SlotOf(Downloaded(disk, [u, v], [entry, entry], _ => k, server), k).bodyTmp.Some?
  {
    assert [u, v][..1] == [u] && [entry, entry][..1] == [entry];
  }

  lemma TwoCommits(cache: Cache, u: string, v: string, k: string, entry: Entry, server: Server)
    requires server(u, entry.Sent()).Ok? && server(v, entry.Sent()).Ok? && SlotOf(cache.disk, k).bodyTmp.Some?
    ensures var after := Committed(cache, [u, v], [entry, entry], _ => k, server);
            after.urlToLocal == cache.urlToLocal[u := CachedBody(k)] && !after.Exists(CachedBody(k))
  {
    hide StoreMeta;
    assert [u, v][..1] == [u] && [u][..0] == [] && [entry, entry][..1] == [entry] && [entry][..0] == [];
    var first := Committed(cache, [u], [entry], _ => k, server);
    assert Committed(cache, [], [], _ => k, server) == cache;
    OkCommit(SlotOf(cache.disk, k), u, entry, server(u, entry.Sent()), entry.Trusted());
    OkCommit(SlotOf(first.disk, k), v, entry, server(v, entry.Sent()), entry.Trusted());
  }

  /** A 200 answer takes the temporary file for the body, or loses the body without one. */
  lemma OkCommit(slot: Slot, url: string, entry: Entry, fetch: Fetch, accept304: bool)
    requires fetch.Ok?
    ensures var (after, served) := Commit(slot, url, entry, fetch, accept304);
            after.body == slot.bodyTmp && after.bodyTmp == None && (served <==> slot.bodyTmp.Some?)
  {
  }
}
