/** The container that serves page assets from the disk cache, updating files and its URL
    map in place. */
module HtmlViewContainer {
  import opened Common
  import opened CacheMeta
  import opened DiskCache

  /** Any URL, as `ensureLocalFile` handles it: mapped, local, or fetched over http. */
  function Ensure(cache: Cache, url: string, hasCacheDir: bool, key: CacheKey, server: Server): Cache {
    if url in cache.urlToLocal && cache.Exists(cache.urlToLocal[url]) then cache
    else if "file://" <= url then MapLocal(cache, url, url[7..])
    else if !IsHttp(url) then MapLocal(cache, url, url)
    else if !hasCacheDir then cache
    else EnsureHttp(cache, url, key, server)
  }

  function MapLocal(cache: Cache, url: string, name: string): Cache {
    if name in cache.localFiles then cache.(urlToLocal := cache.urlToLocal[url := LocalFile(name)]) else cache
  }

  /** What becomes of a URL that is not mapped to a file that is there. A local one is mapped to
      the file of its name, without the scheme if it has one, exactly if that file exists; an
      http one is fetched into the files of its key if there is a cache directory. */
  lemma EnsureExactly(cache: Cache, url: string, hasCacheDir: bool, key: CacheKey, server: Server)
    requires !(url in cache.urlToLocal && cache.Exists(cache.urlToLocal[url]))
    ensures var after := Ensure(cache, url, hasCacheDir, key, server);
            if "http://" <= url || "https://" <= url then
              if hasCacheDir then
                && after.localFiles == cache.localFiles
                && (forall k :: k != key(url) ==> SlotOf(after.disk, k) == SlotOf(cache.disk, k))
                && (after.urlToLocal == cache.urlToLocal
                    || after.urlToLocal == cache.urlToLocal[url := CachedBody(key(url))])
              else after == cache
            else
              var name := if "file://" <= url then url[7..] else url;
              if name in cache.localFiles
              then after == Cache(cache.disk, cache.localFiles, cache.urlToLocal[url := LocalFile(name)])
              else after == cache
    ensures "file://" <= url ==> url == "file://" + url[7..]
  {
    if "file://" <= url { assert url[0] == 'f' && url == "file://" + url[7..]; }
    if IsHttp(url) { assert url[0] == 'h'; }
    hide FetchOne;
  }

  /** A URL that a fetch serves has a body, and one that it does not serve gets none. */
  lemma ServedHasBody(slot: Slot, url: string, server: Server)
    ensures var (after, served) := FetchOne(slot, url, server);
            (served ==> after.body.Some?) && (!served ==> after.body == slot.body || after.body == None)
  {
    hide Parse, Serialize;
  }

  class HtmlViewContainer {
    const key: CacheKey
    const hasCacheDir: bool
    var disk: Disk
    var localFiles: set<string>
    var urlToLocal: map<string, Location>

    function View(): Cache
      reads this
    {
      Cache(disk, localFiles, urlToLocal)
    }

    constructor (key: CacheKey, hasCacheDir: bool, disk: Disk, localFiles: set<string>)
      ensures View() == Cache(disk, localFiles, map[])
      ensures this.key == key && this.hasCacheDir == hasCacheDir
    {
      this.key := key;
      this.hasCacheDir := hasCacheDir;
      this.disk := disk;
      this.localFiles := localFiles;
      urlToLocal := map[];
    }

    /** Takes over the outcome of a fetch: the new body is promoted and its metadata
        written, a 304 refreshes the metadata, a failure leaves body and metadata alone. */
    method CommitFetch(url: string, entry: Entry, fetch: Fetch, accept304: bool) returns (served: bool)
      modifies this`disk, this`urlToLocal
      ensures var (slot, ok) := Commit(SlotOf(old(disk), key(url)), url, entry, fetch, accept304);
              && served == ok && disk == old(disk)[key(url) := slot]
              && urlToLocal == if ok then old(urlToLocal)[url := CachedBody(key(url))] else old(urlToLocal)
    {
      var slot := SlotOf(disk, key(url));
      var meta := entry.meta;
      match fetch {
        case NotModified(etag, lastModified) =>
          served := accept304;
          slot := slot.(bodyTmp := None);
          if accept304 {
            if etag != "" {
              meta := meta.(etag := etag);
            }
            if lastModified != "" {
              meta := meta.(lastModified := lastModified);
            }
            meta := meta.(url := url);
            if meta.HasValidators() {
              slot := StoreMeta(slot, meta);
            }
          }
        case Failed(_) =>
          served := entry.Trusted();
          slot := slot.(bodyTmp := None);
        case Ok(etag, lastModified, contentLength, payload) =>
          slot := slot.(body := slot.bodyTmp, bodyTmp := None);
          served := slot.body.Some?;
          if served {
            meta := CacheMeta(url, etag, lastModified, contentLength);
            if meta.contentLength < 0 {
              meta := meta.(contentLength := |slot.body.value|);
            }
            slot := if meta.HasValidators() then StoreMeta(slot, meta) else slot.(meta := None);
          }
      }
      disk := disk[key(url) := slot];
      if served {
        urlToLocal := urlToLocal[url := CachedBody(key(url))];
      }
    }

    /** Fetches a URL that is not mapped to a file that is there. */
    method FetchHttp(url: string, server: Server) returns (served: bool)
      requires !(url in urlToLocal && View().Exists(urlToLocal[url]))
      modifies this`disk, this`urlToLocal
      ensures View() == EnsureHttp(old(View()), url, key, server)
      ensures served <==> url in urlToLocal && View().Exists(urlToLocal[url])
      ensures served ==> urlToLocal[url] == CachedBody(key(url))
    {
      ServedHasBody(SlotOf(disk, key(url)), url, server);
      hide ReadEntry, AfterFetch, Commit, Entry.Sent;
      var slot := SlotOf(disk, key(url));
      var entry := ReadEntry(slot, url);
      var fetch := server(url, entry.Sent());
      disk := disk[key(url) := AfterFetch(slot.(bodyTmp := None), fetch)];
      served := CommitFetch(url, entry, fetch, entry.haveBody);
    }

    method EnsureLocalFile(url: string, server: Server) returns (location: Option<Location>)
      modifies this
      ensures View() == Ensure(old(View()), url, hasCacheDir, key, server)
      ensures location ==
              if url in urlToLocal && View().Exists(urlToLocal[url]) then Some(urlToLocal[url]) else None
    {
      if url in urlToLocal && View().Exists(urlToLocal[url]) {
        return Some(urlToLocal[url]);
      }
      if "file://" <= url {
        if url[7..] in localFiles {
          urlToLocal := urlToLocal[url := LocalFile(url[7..])];
          return Some(LocalFile(url[7..]));
        }
        return None;
      }
      if !IsHttp(url) {
        if url in localFiles {
          urlToLocal := urlToLocal[url := LocalFile(url)];
          return Some(LocalFile(url));
        }
        return None;
      }
      if !hasCacheDir {
        return None;
      }
      hide EnsureHttp;
      var served := FetchHttp(url, server);
      return if served then Some(CachedBody(key(url))) else None;
    }

    /** Prefetches the http URLs that are not mapped yet: reads every entry, fetches all,
        then commits all. */
    method PrefetchUrls(urls: seq<string>, server: Server)
      modifies this
      ensures View() == if hasCacheDir then Prefetch(old(View()), urls, key, server) else old(View())
    {
      if urls == [] || !hasCacheDir {
        assert urls == [] ==> Jobs(urls, urlToLocal) == [];
        return;
      }
      var jobs, entries := ReadEntries(urls);
      FetchAll(jobs, entries, server);
      CommitAll(jobs, entries, server);
    }

    method ReadEntries(urls: seq<string>) returns (jobs: seq<string>, entries: seq<Entry>)
      modifies this`disk
      ensures jobs == Jobs(urls, urlToLocal) && entries == Entries(old(disk), jobs, key)
      ensures disk == Prepared(old(disk), jobs, key)
    {
      jobs, entries := [], [];
      for i := 0 to |urls|
        invariant jobs == Jobs(urls[..i], urlToLocal) && entries == Entries(old(disk), jobs, key)
        invariant disk == Prepared(old(disk), jobs, key)
      {
        var url := urls[i];
        assert urls[..i + 1][..i] == urls[..i];
        if IsHttp(url) && url !in urlToLocal {
          var slot := SlotOf(disk, key(url));
          ghost var before := jobs;
          jobs := jobs + [url];
          entries := entries + [ReadEntry(slot, url)];
          disk := disk[key(url) := slot.(bodyTmp := None)];
          assert jobs[..|jobs| - 1] == before;
        }
      }
      assert urls[..|urls|] == urls;
    }

    method FetchAll(jobs: seq<string>, entries: seq<Entry>, server: Server)
      requires |entries| == |jobs|
      modifies this`disk
      ensures disk == Downloaded(old(disk), jobs, entries, key, server)
    {
      for i := 0 to |jobs|
        invariant disk == Downloaded(old(disk), jobs[..i], entries[..i], key, server)
      {
        assert jobs[..i + 1][..i] == jobs[..i] && entries[..i + 1][..i] == entries[..i];
        var slot := SlotOf(disk, key(jobs[i]));
        disk := disk[key(jobs[i]) := AfterFetch(slot, server(jobs[i], entries[i].Sent()))];
      }
      assert jobs[..|jobs|] == jobs && entries[..|jobs|] == entries;
    }

    method CommitAll(jobs: seq<string>, entries: seq<Entry>, server: Server)
      requires |entries| == |jobs|
      modifies this`disk, this`urlToLocal
      ensures View() == Committed(old(View()), jobs, entries, key, server)
    {
      for i := 0 to |jobs|
        invariant View() == Committed(old(View()), jobs[..i], entries[..i], key, server)
      {
        assert jobs[..i + 1][..i] == jobs[..i] && entries[..i + 1][..i] == entries[..i];
        var served := CommitFetch(jobs[i], entries[i], server(jobs[i], entries[i].Sent()), entries[i].Trusted());
      }
      assert jobs[..|jobs|] == jobs && entries[..|jobs|] == entries;
    }
  }
}
