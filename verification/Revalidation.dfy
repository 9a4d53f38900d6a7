/** What a request to the disk cache is made with: exactly the validators of the last answer
    for that URL, each in its own place, and none for an answer that cannot be validated. */
module Revalidation {
  import opened Common
  import opened CacheMeta
  import opened DiskCache
  import opened CacheInvariant
  import opened SharedKeys
  import opened DiskCacheRuns

  /** The last 200 answer for a URL, with the validators that later 304 answers repeated. */
  datatype Known = Known(payload: Payload, etag: string, lastModified: string, length: Long)

  type Records = map<string, Known>

  function Bodies(known: Records): Stored { map u | u in known :: known[u].payload }

  /** The answer can be validated: it has a validator, and a body of the length it said. */
  predicate Conditional(k: Known) {
    && (k.etag != "" || k.lastModified != "")
    && k.payload != "" && (k.length <= 0 || k.length == |k.payload|)
  }

  function LengthOf(k: Known): int { if k.length < 0 then |k.payload| else k.length }

  /** What is known once `url` is answered; a 304 counts if it validates a body. */
  function Learnt(known: Records, url: string, validated: bool, fetch: Fetch): Records {
    match fetch
    case Ok(etag, lastModified, length, payload) => known[url := Known(payload, etag, lastModified, length)]
    case NotModified(etag, lastModified) =>
      if validated && url in known
      then known[url := known[url].(etag := if etag != "" then etag else known[url].etag,
                                    lastModified := if lastModified != "" then lastModified
                                                    else known[url].lastModified)]
      else known
    case Failed(_) => known
  }

  lemma LearntBodies(known: Records, url: string, validated: bool, fetch: Fetch)
    ensures Bodies(Learnt(known, url, validated, fetch)) == StoredAfter(Bodies(known), url, fetch)
  {
  }

  /** The metadata repeats what is known of the URL that it names. */
  predicate Repeats(m: CacheMeta, known: Records) {
    && m.url in known && m.etag == known[m.url].etag && m.lastModified == known[m.url].lastModified
    && m.contentLength == LengthOf(known[m.url])
  }

  predicate RecordInv(slot: Slot, known: Records) {
    slot.meta.Some? ==> Parse(slot.meta.value).Some? && Repeats(Parse(slot.meta.value).value, known)
  }

  predicate RecordsInv(disk: Disk, known: Records) { forall k :: k in disk ==> RecordInv(disk[k], known) }

  lemma RecordAt(disk: Disk, known: Records, k: string)
    requires RecordsInv(disk, known)
    ensures RecordInv(SlotOf(disk, k), known)
  {
  }

  /** The validators sent for a URL are those known of it, if its files have its metadata and
      its last answer can be validated, and none otherwise. */
  lemma SentExactly(slot: Slot, url: string, key: CacheKey, known: Records)
    requires SlotInv(slot, key(url), Bodies(known), key) && RecordInv(slot, known)
    ensures var sent := ReadEntry(slot, url).Sent();
            if Owner(slot) == Some(url) && Conditional(known[url])
            then sent.etag == known[url].etag && sent.lastModified == known[url].lastModified
            else sent.etag == "" && sent.lastModified == ""
    ensures ReadEntry(slot, url).Trusted() <==> Owner(slot) == Some(url) && Conditional(known[url])
    ensures Owner(slot) == Some(url) ==> url in known
  {
    hide Parse;
  }

  // ---- one request ----

  function LearntNext(cache: Cache, url: string, key: CacheKey, server: Server, known: Records): Records {
    var slot := SlotOf(cache.disk, key(url));
    if url in cache.urlToLocal && cache.Exists(cache.urlToLocal[url]) then known
    else Learnt(known, url, ReadEntry(slot, url).Trusted(), Answer(slot, url, server))
  }

  lemma FetchKeepsRecord(slot: Slot, url: string, key: CacheKey, server: Server, known: Records)
    requires SlotInv(slot, key(url), Bodies(known), key) && RecordInv(slot, known)
    requires PlainUrl(url) && PlainFetch(Answer(slot, url, server))
    ensures var (files, _) := FetchOne(slot, url, server);
            var now := Learnt(known, url, ReadEntry(slot, url).Trusted(), Answer(slot, url, server));
            && RecordInv(files, now)
            && (Owner(files) == Some(url) <==>
                  if Answer(slot, url, server).Ok? then now[url].etag != "" || now[url].lastModified != ""
                  else Owner(slot) == Some(url))
  {
    hide Serialize, Parse, StoreMeta;
    var entry := ReadEntry(slot, url);
    var fetch := Answer(slot, url, server);
    var fetched := AfterFetch(slot.(bodyTmp := None), fetch);
    match fetch
    case Ok(_, _, _, payload) =>
      StoreMetaReads(fetched.(body := fetched.bodyTmp, bodyTmp := None), FreshMeta(url, fetch, payload));
    case NotModified(_, _) =>
      if entry.haveBody { StoreMetaReads(fetched.(bodyTmp := None), Refreshed(entry.meta, url, fetch)); }
    case Failed(_) =>
  }

  /** What an answer for `url` teaches concerns no metadata of another key. */
  lemma OtherRecord(slot: Slot, k: string, url: string, key: CacheKey, known: Records, validated: bool, fetch: Fetch)
    requires SlotInv(slot, k, Bodies(known), key) && RecordInv(slot, known) && k != key(url)
    ensures RecordInv(slot, Learnt(known, url, validated, fetch))
  {
  }

  lemma EnsureKeepsRecords(cache: Cache, url: string, key: CacheKey, server: Server, known: Records)
    requires DiskInv(cache.disk, Bodies(known), key) && RecordsInv(cache.disk, known)
    requires PlainUrl(url) && PlainFetch(Answer(SlotOf(cache.disk, key(url)), url, server))
    ensures RecordsInv(EnsureHttp(cache, url, key, server).disk, LearntNext(cache, url, key, server, known))
  {
    if !(url in cache.urlToLocal && cache.Exists(cache.urlToLocal[url])) {
      hide SlotInv, RecordInv, FetchOne, Answer, Bodies, Learnt;
      var slot := SlotOf(cache.disk, key(url));
      SlotInvAt(cache.disk, key(url), Bodies(known), key);
      RecordAt(cache.disk, known, key(url));
      FetchKeepsRecord(slot, url, key, server, known);
      var after := EnsureHttp(cache, url, key, server);
      forall k | k in after.disk ensures RecordInv(after.disk[k], LearntNext(cache, url, key, server, known)) {
        if k != key(url) {
          OtherRecord(cache.disk[k], k, url, key, known, ReadEntry(slot, url).Trusted(), Answer(slot, url, server));
        }
      }
    }
  }

  lemma LearntNextBodies(cache: Cache, url: string, key: CacheKey, server: Server, known: Records)
    ensures Bodies(LearntNext(cache, url, key, server, known)) == StoredNext(cache, url, key, server, Bodies(known))
  {
    var slot := SlotOf(cache.disk, key(url));
    LearntBodies(known, url, ReadEntry(slot, url).Trusted(), Answer(slot, url, server));
  }

  // ---- a batch ----

  /** What is known once the jobs of a batch are answered. */
  function LearntBatch(b: Batch, known: Records): Records
    requires b.Ok()
    decreases |b.jobs|
  {
    if b.jobs == [] then known
    else
      var last := |b.jobs| - 1;
      Learnt(LearntBatch(b.Upto(last), known), b.jobs[last], b.entries[last].Trusted(), b.Fetched(last))
  }

  lemma {:induction false} LearntBatchBodies(disk: Disk, jobs: seq<string>, key: CacheKey, server: Server,
                                             known: Records)
    ensures Bodies(LearntBatch(BatchOf(disk, jobs, key, server), known)) ==
            StoredBatch(disk, jobs, key, server, Bodies(known))
  {
    if jobs != [] {
      var last := |jobs| - 1;
      var b := BatchOf(disk, jobs, key, server);
      FetchedIsAnswer(disk, jobs, key, server, last);
      LearntBatchBodies(disk, jobs[..last], key, server, known);
      assert b.Upto(last) == BatchOf(disk, jobs[..last], key, server);
      hide BatchOf, Bodies, Learnt, Answer;
      LearntBodies(LearntBatch(b.Upto(last), known), jobs[last], b.entries[last].Trusted(), b.Fetched(last));
    }
  }

  /** All jobs of a URL have one entry, and so one answer. */
  predicate OneAnswer(b: Batch)
    requires b.Ok()
  {
    forall i, j :: 0 <= i < j < |b.jobs| && b.jobs[i] == b.jobs[j] ==> b.entries[i] == b.entries[j]
  }

  /** What is known of a URL whose jobs are answered with one 304. */
  lemma {:induction false} KeptByRefresh(b: Batch, known: Records, u: string, fetch: Fetch)
    requires b.Ok() && fetch.NotModified? && u in known
    requires forall i :: 0 <= i < |b.jobs| && b.jobs[i] == u ==> b.Fetched(i) == fetch
    ensures var now := LearntBatch(b, known);
            && u in now && now[u].payload == known[u].payload && now[u].length == known[u].length
            && (fetch.etag == "" ==> now[u].etag == known[u].etag)
            && (fetch.lastModified == "" ==> now[u].lastModified == known[u].lastModified)
    decreases |b.jobs|
  {
    if b.jobs != [] {
      var last := |b.jobs| - 1;
      forall i | 0 <= i < last && b.Upto(last).jobs[i] == u ensures b.Upto(last).Fetched(i) == fetch {
        PrefixJob(b, last, i);
      }
      KeptByRefresh(b.Upto(last), known, u, fetch);
    }
  }

  /** The metadata of a key repeats what is known of the URL it names, its length at least if
      the first 200 answer of the key left that URL's payload. */
  predicate KeyRecord(b: Batch, slot: Slot, k: string, tmp: Option<Payload>, known: Records)
    requires b.Ok()
  {
    slot.meta.Some? ==>
      && Parse(slot.meta.value).Some?
      && var m := Parse(slot.meta.value).value;
         && b.key(m.url) == k && m.url in known
         && m.etag == known[m.url].etag && m.lastModified == known[m.url].lastModified
         && ((b.SomeFirstOk(k) ==> tmp == Some(known[m.url].payload)) ==> m.contentLength == LengthOf(known[m.url]))
  }

  /** What was read for a trusted job is what was known before the batch. */
  predicate EntryKnown(e: Entry, url: string, known: Records) {
    e.Trusted() ==>
      && url in known && e.meta.etag == known[url].etag && e.meta.lastModified == known[url].lastModified
      && e.meta.contentLength == LengthOf(known[url])
  }

  predicate EntriesKnown(b: Batch, known: Records)
    requires b.Ok()
  {
    forall i :: 0 <= i < |b.jobs| ==> EntryKnown(b.entries[i], b.jobs[i], known)
  }

  /** A job of another key changes nothing that is known of the URL named. */
  lemma OtherKeyKeeps(b: Batch, before: Slot, k: string, tmp: Option<Payload>, mid: Records)
    requires b.Ok() && b.jobs != [] && b.key(b.jobs[|b.jobs| - 1]) != k
    requires KeyRecord(b.Upto(|b.jobs| - 1), before, k, tmp, mid)
    requires b.SomeFirstOk(k) == b.Upto(|b.jobs| - 1).SomeFirstOk(k)
    ensures var last := |b.jobs| - 1;
            KeyRecord(b, before, k, tmp, Learnt(mid, b.jobs[last], b.entries[last].Trusted(), b.Fetched(last)))
  {
    hide Parse, Batch.SomeFirstOk, Batch.Fetched;
  }

  lemma NewBodyKnown(b: Batch, before: Slot, k: string, tmp: Option<Payload>, mid: Records)
    requires b.Ok() && b.jobs != [] && b.key(b.jobs[|b.jobs| - 1]) == k && b.Fetched(|b.jobs| - 1).Ok?
    requires PlainJob(b, |b.jobs| - 1) && before.bodyTmp == tmp && tmp.Some? && b.SomeFirstOk(k)
    ensures var last := |b.jobs| - 1;
            var after := Commit(before, b.jobs[last], b.entries[last], b.Fetched(last), b.entries[last].Trusted()).0;
            KeyRecord(b, after, k, tmp, Learnt(mid, b.jobs[last], b.entries[last].Trusted(), b.Fetched(last)))
  {
    hide Serialize, Parse, StoreMeta, Plain, Batch.SomeFirstOk;
    var url, fetch := b.jobs[|b.jobs| - 1], b.Fetched(|b.jobs| - 1);
    StoreMetaReads(before.(body := tmp, bodyTmp := None), FreshMeta(url, fetch, tmp.value));
  }

  lemma RefreshKnown(b: Batch, before: Slot, k: string, tmp: Option<Payload>, known: Records, mid: Records)
    requires b.Ok() && b.jobs != [] && b.key(b.jobs[|b.jobs| - 1]) == k && b.Fetched(|b.jobs| - 1).NotModified?
    requires b.entries[|b.jobs| - 1].Trusted() && PlainJob(b, |b.jobs| - 1)
    requires var last := |b.jobs| - 1;
             var u, fetch := b.jobs[last], b.Fetched(last);
             && EntryKnown(b.entries[last], u, known)
             && u in known && u in mid && mid[u].payload == known[u].payload && mid[u].length == known[u].length
             && (fetch.etag == "" ==> mid[u].etag == known[u].etag)
             && (fetch.lastModified == "" ==> mid[u].lastModified == known[u].lastModified)
    ensures var last := |b.jobs| - 1;
            var after := Commit(before, b.jobs[last], b.entries[last], b.Fetched(last), b.entries[last].Trusted()).0;
            KeyRecord(b, after, k, tmp, Learnt(mid, b.jobs[last], b.entries[last].Trusted(), b.Fetched(last)))
  {
    hide Serialize, Parse, StoreMeta, Plain, Batch.SomeFirstOk;
    var last := |b.jobs| - 1;
    StoreMetaReads(before.(bodyTmp := None), Refreshed(b.entries[last].meta, b.jobs[last], b.Fetched(last)));
  }

  lemma NothingNew(b: Batch, before: Slot, k: string, tmp: Option<Payload>, mid: Records)
    requires b.Ok() && b.jobs != [] && !b.Fetched(|b.jobs| - 1).Ok?
    requires b.Fetched(|b.jobs| - 1).NotModified? ==> !b.entries[|b.jobs| - 1].Trusted()
    requires KeyRecord(b.Upto(|b.jobs| - 1), before, k, tmp, mid)
    requires b.SomeFirstOk(k) == b.Upto(|b.jobs| - 1).SomeFirstOk(k)
    ensures var last := |b.jobs| - 1;
            var after := Commit(before, b.jobs[last], b.entries[last], b.Fetched(last), b.entries[last].Trusted()).0;
            KeyRecord(b, after, k, tmp, Learnt(mid, b.jobs[last], b.entries[last].Trusted(), b.Fetched(last)))
  {
    hide Parse, Batch.SomeFirstOk;
  }

  lemma {:induction false} CommitRecord(b: Batch, k: string, slot: Slot, known: Records)
    requires b.Ok() && PlainJobs(b) && OneAnswer(b) && EntriesKnown(b, known)
    requires !b.SomeLaterOk(k) && (b.SomeFirstOk(k) ==> slot.bodyTmp.Some?)
    requires KeyRecord(b.Upto(0), slot, k, slot.bodyTmp, known)
    ensures KeyRecord(b, b.CommitKey(k, slot), k, slot.bodyTmp, LearntBatch(b, known))
    decreases |b.jobs|
  {
    if b.jobs != [] {
      var last := |b.jobs| - 1;
      var rest := b.Upto(last);
      PlainPrefix(b, last);
      LastOk(b, k);
      FirstOrLater(b, last);
      PrefixKnown(b, last, known);
      assert PlainJob(b, last) && rest.Upto(0) == b.Upto(0) && EntryKnown(b.entries[last], b.jobs[last], known);
      hide Batch.SomeFirstOk, Batch.SomeLaterOk, Batch.Has, Batch.Upto, Batch.Fetched, KeyRecord, PlainJob, PlainJobs;
      hide Commit, EntryKnown, EntriesKnown, Learnt;
      CommitRecord(rest, k, slot, known);
      CommitKeyIs(rest, k, slot);
      var before, mid := rest.CommitKey(k, slot), LearntBatch(rest, known);
      if b.key(b.jobs[last]) != k {
        OtherKeyKeeps(b, before, k, slot.bodyTmp, mid);
      } else if b.Fetched(last).Ok? {
        NewBodyKnown(b, before, k, slot.bodyTmp, mid);
      } else if b.Fetched(last).NotModified? && b.entries[last].Trusted() {
        RefreshedBefore(b, known);
        RefreshKnown(b, before, k, slot.bodyTmp, known, mid);
      } else {
        NothingNew(b, before, k, slot.bodyTmp, mid);
      }
    }
  }

  lemma FirstOrLater(b: Batch, i: nat)
    requires b.Ok() && i < |b.jobs|
    ensures b.FirstOk(i) <==> b.Fetched(i).Ok? && !b.Upto(i).Has(b.key(b.jobs[i]))
    ensures b.LaterOk(i) <==> b.Fetched(i).Ok? && b.Upto(i).Has(b.key(b.jobs[i]))
  {
  }

  lemma PrefixKnown(b: Batch, n: nat, known: Records)
    requires b.Ok() && n <= |b.jobs| && OneAnswer(b) && EntriesKnown(b, known)
    ensures OneAnswer(b.Upto(n)) && EntriesKnown(b.Upto(n), known)
  {
    hide EntryKnown;
    forall i | 0 <= i < n ensures EntryKnown(b.Upto(n).entries[i], b.Upto(n).jobs[i], known) {
      assert EntryKnown(b.entries[i], b.jobs[i], known);
    }
  }

  /** The earlier jobs of a URL that is answered 304 were answered so too. */
  lemma RefreshedBefore(b: Batch, known: Records)
    requires b.Ok() && b.jobs != [] && OneAnswer(b) && b.Fetched(|b.jobs| - 1).NotModified?
    requires EntryKnown(b.entries[|b.jobs| - 1], b.jobs[|b.jobs| - 1], known) && b.entries[|b.jobs| - 1].Trusted()
    ensures var last := |b.jobs| - 1;
            var u, fetch, mid := b.jobs[last], b.Fetched(last), LearntBatch(b.Upto(last), known);
            && u in known && u in mid && mid[u].payload == known[u].payload && mid[u].length == known[u].length
            && (fetch.etag == "" ==> mid[u].etag == known[u].etag)
            && (fetch.lastModified == "" ==> mid[u].lastModified == known[u].lastModified)
  {
    var last := |b.jobs| - 1;
    forall i | 0 <= i < last && b.Upto(last).jobs[i] == b.jobs[last]
      ensures b.Upto(last).Fetched(i) == b.Fetched(last)
    {
      PrefixJob(b, last, i);
      assert b.jobs[i] == b.jobs[last] && b.entries[i] == b.entries[last];
    }
    KeptByRefresh(b.Upto(last), known, b.jobs[last], b.Fetched(last));
  }

  lemma {:induction false} LearntElse(b: Batch, known: Records, u: string)
    requires b.Ok() && u !in b.jobs
    ensures var now := LearntBatch(b, known);
            (u in now <==> u in known) && (u in known ==> now[u] == known[u])
    decreases |b.jobs|
  {
    if b.jobs != [] {
      var last := |b.jobs| - 1;
      assert forall v :: v in b.Upto(last).jobs ==> v in b.jobs;
      LearntElse(b.Upto(last), known, u);
    }
  }

  lemma BatchIsKnown(disk: Disk, jobs: seq<string>, key: CacheKey, server: Server, known: Records)
    requires DiskInv(disk, Bodies(known), key) && RecordsInv(disk, known)
    ensures OneAnswer(BatchOf(disk, jobs, key, server)) && EntriesKnown(BatchOf(disk, jobs, key, server), known)
  {
    hide SlotInv, RecordInv, Bodies, ReadEntry, EntryKnown, BatchOf, Answer;
    var b := BatchOf(disk, jobs, key, server);
    forall i | 0 <= i < |jobs| ensures b.entries[i] == ReadEntry(SlotOf(disk, key(jobs[i])), jobs[i]) {
      FetchedIsAnswer(disk, jobs, key, server, i);
    }
    forall i | 0 <= i < |jobs| ensures EntryKnown(b.entries[i], jobs[i], known) {
      SlotInvAt(disk, key(jobs[i]), Bodies(known), key);
      RecordAt(disk, known, key(jobs[i]));
      ReadIsKnown(SlotOf(disk, key(jobs[i])), jobs[i], key, known);
    }
  }

  lemma ReadIsKnown(slot: Slot, url: string, key: CacheKey, known: Records)
    requires SlotInv(slot, key(url), Bodies(known), key) && RecordInv(slot, known)
    ensures EntryKnown(ReadEntry(slot, url), url, known)
  {
    hide Parse;
  }

  lemma StartRecord(b: Batch, slot: Slot, k: string, tmp: Option<Payload>, known: Records)
    requires b.Ok() && SlotInv(slot, k, Bodies(known), b.key) && RecordInv(slot, known)
    ensures KeyRecord(b.Upto(0), slot.(bodyTmp := tmp), k, tmp, known)
  {
    hide Parse;
  }

  /** The files of a key with jobs. The body that is left tells that no job after the first was
      answered 200, and whose payload was promoted. */
  lemma KeyKeepsRecord(b: Batch, slot: Slot, k: string, known: Records, after: Slot)
    requires b.Ok() && PlainJobs(b) && OneAnswer(b) && EntriesKnown(b, known)
    requires SlotInv(slot, k, Bodies(known), b.key) && RecordInv(slot, known)
    requires after == b.CommitKey(k, slot.(bodyTmp := b.Written(k)))
    requires after.body == b.BodyAfter(k, slot.body, b.Written(k))
    requires SlotInv(after, k, Bodies(LearntBatch(b, known)), b.key)
    ensures RecordInv(after, LearntBatch(b, known))
  {
    if after.meta.Some? {
      var tmp := b.Written(k);
      StartRecord(b, slot, k, tmp, known);
      FirstOkWrites(b, k);
      hide Parse, Batch.SomeFirstOk, Batch.SomeLaterOk, Batch.CommitKey, Batch.Written, LearntBatch, PlainJobs;
      hide OneAnswer, EntriesKnown;
      assert !b.SomeLaterOk(k);
      CommitRecord(b, k, slot.(bodyTmp := tmp), known);
    }
  }

  /** A batch that keeps the disk invariant keeps the metadata in step with what is known. */
  lemma BatchKeepsRecords(cache: Cache, jobs: seq<string>, key: CacheKey, server: Server, known: Records)
    requires DiskInv(cache.disk, Bodies(known), key) && RecordsInv(cache.disk, known)
    requires PlainBatch(cache.disk, jobs, key, server)
    requires var now := LearntBatch(BatchOf(cache.disk, jobs, key, server), known);
             DiskInv(AfterBatch(cache, jobs, key, server).disk, Bodies(now), key)
    ensures var now := LearntBatch(BatchOf(cache.disk, jobs, key, server), known);
            RecordsInv(AfterBatch(cache, jobs, key, server).disk, now)
  {
    var b := BatchOf(cache.disk, jobs, key, server);
    var after, now := AfterBatch(cache, jobs, key, server), LearntBatch(b, known);
    hide BatchOf, AfterBatch, SlotInv, RecordInv, Bodies, PlainBatch, LearntBatch, DiskInv, OneAnswer, EntriesKnown;
    hide PlainJobs, Batch.CommitKey, Batch.BodyAfter, Batch.Written, SlotOf;
    BatchIsPlain(cache.disk, jobs, key, server, Bodies(known));
    BatchIsKnown(cache.disk, jobs, key, server, known);
    forall k | k in after.disk ensures RecordInv(SlotOf(after.disk, k), now) {
      SlotInvAt(cache.disk, k, Bodies(known), key);
      SlotInvAt(after.disk, k, Bodies(now), key);
      RecordAt(cache.disk, known, k);
      PrefetchKey(cache, jobs, key, server, k);
      BodyOfKey(cache, jobs, key, server, k);
      if b.Has(k) {
        KeyKeepsRecord(b, SlotOf(cache.disk, k), k, known, SlotOf(after.disk, k));
      } else {
        NoJobRecord(b, SlotOf(cache.disk, k), k, known);
      }
    }
    AllRecords(after.disk, now);
  }

  lemma NoJobRecord(b: Batch, slot: Slot, k: string, known: Records)
    requires b.Ok() && !b.Has(k) && SlotInv(slot, k, Bodies(known), b.key) && RecordInv(slot, known)
    ensures RecordInv(slot, LearntBatch(b, known))
  {
    hide Parse, LearntBatch;
    if slot.meta.Some? { LearntElse(b, known, Parse(slot.meta.value).value.url); }
  }

  lemma AllRecords(disk: Disk, known: Records)
    requires forall k :: k in disk ==> RecordInv(SlotOf(disk, k), known)
    ensures RecordsInv(disk, known)
  {
  }

  // ---- runs ----

  function LearntBy(cache: Cache, r: Request, key: CacheKey, known: Records): Records {
    match r
    case One(url, server) => LearntNext(cache, url, key, server, known)
    case Many(urls, server) => LearntBatch(BatchOf(cache.disk, Jobs(urls, cache.urlToLocal), key, server), known)
    case ForgetMap => known
  }

  lemma LearntByBodies(cache: Cache, r: Request, key: CacheKey, known: Records)
    ensures Bodies(LearntBy(cache, r, key, known)) == StoredBy(cache, r, key, Bodies(known))
  {
    hide Bodies, LearntNext, LearntBatch, StoredBatch, StoredNext, BatchOf;
    match r {
      case One(url, server) => LearntNextBodies(cache, url, key, server, known);
      case Many(urls, server) => LearntBatchBodies(cache.disk, Jobs(urls, cache.urlToLocal), key, server, known);
      case ForgetMap =>
    }
  }

  lemma ServeKeepsRecords(cache: Cache, r: Request, key: CacheKey, known: Records)
    requires DiskInv(cache.disk, Bodies(known), key) && RecordsInv(cache.disk, known) && PlainRequest(cache, r, key)
    requires DiskInv(Serve(cache, r, key).disk, Bodies(LearntBy(cache, r, key, known)), key)
    ensures RecordsInv(Serve(cache, r, key).disk, LearntBy(cache, r, key, known))
  {
    hide Bodies, DiskInv, RecordsInv, EnsureHttp, Committed, Downloaded, LearntNext, LearntBatch, PlainBatch, BatchOf;
    match r {
      case One(url, server) => EnsureKeepsRecords(cache, url, key, server, known);
      case Many(urls, server) => BatchKeepsRecords(cache, Jobs(urls, cache.urlToLocal), key, server, known);
      case ForgetMap =>
    }
  }

  function RunKnown(start: Cache, requests: seq<Request>, key: CacheKey, known: Records): Records {
    if requests == [] then known
    else
      var last := |requests| - 1;
      LearntBy(RunCache(start, requests[..last], key), requests[last], key,
               RunKnown(start, requests[..last], key, known))
  }

  lemma {:induction false} RunKnownBodies(start: Cache, requests: seq<Request>, key: CacheKey, known: Records)
    ensures Bodies(RunKnown(start, requests, key, known)) == RunStored(start, requests, key, Bodies(known))
  {
    if requests != [] {
      hide Bodies, LearntBy, StoredBy, RunCache;
      var last := |requests| - 1;
      RunKnownBodies(start, requests[..last], key, known);
      LearntByBodies(RunCache(start, requests[..last], key), requests[last], key,
                     RunKnown(start, requests[..last], key, known));
    }
  }

  /** At the end of the run the metadata on disk stands beside the body it was stored with, and
      repeats what is known of the URL it names. */
  predicate Current(start: Cache, requests: seq<Request>, key: CacheKey, known: Records) {
    var disk, now := RunCache(start, requests, key).disk, RunKnown(start, requests, key, known);
    DiskInv(disk, Bodies(now), key) && RecordsInv(disk, now)
  }

  lemma {:induction false} RecordsOverRuns(start: Cache, requests: seq<Request>, key: CacheKey, known: Records)
    requires DiskInv(start.disk, Bodies(known), key) && RecordsInv(start.disk, known)
    requires PlainRequests(start, requests, key) && KeptThroughout(start, requests, key, Bodies(known))
    ensures Current(start, requests, key, known)
  {
    hide DiskInv, RecordsInv, Bodies, Serve, LearntBy, PlainRequest, Kept;
    ValidatedBodyIsStored(start, requests, key, Bodies(known));
    ValidAtEnd(start, requests, key, Bodies(known));
    RunKnownBodies(start, requests, key, known);
    if requests != [] {
      var before, last := requests[..|requests| - 1], requests[|requests| - 1];
      RecordsOverRuns(start, before, key, known);
      ServeKeepsRecords(RunCache(start, before, key), last, key, RunKnown(start, before, key, known));
    }
  }

  /** The validators that a request for `u` would be made with now. */
  function Asking(cache: Cache, u: string, key: CacheKey): Validators {
    ReadEntry(SlotOf(cache.disk, key(u)), u).Sent()
  }

  /** Over every run, with any cache key, whose batches keep every key: a URL whose metadata is
      there, and whose last answer can be validated, is asked for with exactly the two
      validators of that answer, each in its own place, and any other URL with none. */
  lemma AskedExactly(start: Cache, requests: seq<Request>, key: CacheKey, known: Records, u: string)
    requires DiskInv(start.disk, Bodies(known), key) && RecordsInv(start.disk, known)
    requires PlainRequests(start, requests, key) && KeptThroughout(start, requests, key, Bodies(known))
    ensures var cache, now := RunCache(start, requests, key), RunKnown(start, requests, key, known);
            var asking := Asking(cache, u, key);
            if Owner(SlotOf(cache.disk, key(u))) == Some(u) then
              && u in now
              && asking.etag == (if Conditional(now[u]) then now[u].etag else "")
              && asking.lastModified == (if Conditional(now[u]) then now[u].lastModified else "")
            else asking.etag == "" && asking.lastModified == ""
  {
    hide DiskInv, SlotInv, RecordsInv, RecordInv, Bodies, RunCache, RunKnown, ReadEntry, Entry.Sent, PlainRequests;
    hide KeptThroughout, Conditional, SlotOf, Owner;
    RecordsOverRuns(start, requests, key, known);
    var cache, now := RunCache(start, requests, key), RunKnown(start, requests, key, known);
    SlotInvAt(cache.disk, key(u), Bodies(now), key);
    RecordAt(cache.disk, now, key(u));
    SentExactly(SlotOf(cache.disk, key(u)), u, key, now);
  }

  // ---- keys that differ ----

  predicate HasTag(k: Known) { k.etag != "" || k.lastModified != "" }

  /** The files of every URL whose last answer had a validator have its metadata. */
  predicate Named(disk: Disk, known: Records, key: CacheKey) {
    forall u :: u in known && HasTag(known[u]) ==> Owner(SlotOf(disk, key(u))) == Some(u)
  }

  /** The state of a disk whose URLs have keys of their own. */
  predicate Sound(disk: Disk, known: Records, key: CacheKey, asked: set<string>) {
    && DiskInv(disk, Bodies(known), key) && RecordsInv(disk, known) && Named(disk, known, key)
    && known.Keys <= asked
  }

  lemma LearntTag(slot: Slot, url: string, key: CacheKey, server: Server, known: Records)
    requires SlotInv(slot, key(url), Bodies(known), key) && RecordInv(slot, known)
    requires url in known && HasTag(known[url]) ==> Owner(slot) == Some(url)
    requires PlainUrl(url) && PlainFetch(Answer(slot, url, server))
    ensures var (files, _) := FetchOne(slot, url, server);
            var now := Learnt(known, url, ReadEntry(slot, url).Trusted(), Answer(slot, url, server));
            && RecordInv(files, now) && now.Keys <= known.Keys + {url}
            && (url in now && HasTag(now[url]) ==> Owner(files) == Some(url))
            && forall u :: u in known && u != url ==> u in now && now[u] == known[u]
  {
    hide FetchOne, SlotInv, RecordInv, Owner, ReadEntry, Answer, Conditional;
    FetchKeepsRecord(slot, url, key, server, known);
    SentExactly(slot, url, key, known);
  }

  lemma EnsureKeepsSound(cache: Cache, url: string, key: CacheKey, server: Server, known: Records, asked: set<string>)
    requires Sound(cache.disk, known, key, asked) && KeysDiffer(asked, key) && url in asked
    requires PlainUrl(url) && PlainFetch(Answer(SlotOf(cache.disk, key(url)), url, server))
    ensures Sound(EnsureHttp(cache, url, key, server).disk, LearntNext(cache, url, key, server, known), key, asked)
  {
    hide SlotInv, RecordInv, FetchOne, Answer, Bodies, Learnt, HasTag, Owner, ReadEntry;
    EnsureKeeps(cache, url, key, server, Bodies(known));
    LearntNextBodies(cache, url, key, server, known);
    EnsureKeepsRecords(cache, url, key, server, known);
    if !(url in cache.urlToLocal && cache.Exists(cache.urlToLocal[url])) {
      SlotInvAt(cache.disk, key(url), Bodies(known), key);
      RecordAt(cache.disk, known, key(url));
      LearntTag(SlotOf(cache.disk, key(url)), url, key, server, known);
    }
  }

  lemma JobLearns(cache: Cache, jobs: seq<string>, key: CacheKey, server: Server, known: Records)
    requires jobs != [] && DistinctKeys(jobs, key) && Unmapped(jobs, cache.urlToLocal)
    ensures var last, b := |jobs| - 1, BatchOf(cache.disk, jobs, key, server);
            var before := EnsureEach(cache, jobs[..last], key, server);
            var mid := LearntBatch(BatchOf(cache.disk, jobs[..last], key, server), known);
            && LearntNext(before, jobs[last], key, server, mid) == LearntBatch(b, known)
            && Answer(SlotOf(before.disk, key(jobs[last])), jobs[last], server) ==
               Answer(SlotOf(cache.disk, key(jobs[last])), jobs[last], server)
  {
    hide EnsureEach, Learnt, Answer, ReadEntry, SlotOf;
    var last, b := |jobs| - 1, BatchOf(cache.disk, jobs, key, server);
    JobFindsItsFiles(cache, jobs, key, server, map[]);
    FetchedIsAnswer(cache.disk, jobs, key, server, last);
    assert b.Upto(last) == BatchOf(cache.disk, jobs[..last], key, server);
  }

  lemma BatchSplits(cache: Cache, jobs: seq<string>, key: CacheKey, server: Server)
    requires jobs != [] && DistinctKeys(jobs, key) && Unmapped(jobs, cache.urlToLocal)
    requires PlainBatch(cache.disk, jobs, key, server)
    ensures var rest, url := jobs[..|jobs| - 1], jobs[|jobs| - 1];
            && DistinctKeys(rest, key) && Unmapped(rest, cache.urlToLocal) && PlainBatch(cache.disk, rest, key, server)
            && PlainUrl(url) && PlainFetch(Answer(SlotOf(cache.disk, key(url)), url, server))
  {
    hide PlainFetch, PlainUrl, Answer, SlotOf;
  }

  lemma {:induction false} EachKeepsSound(cache: Cache, jobs: seq<string>, key: CacheKey, server: Server,
                                          known: Records, asked: set<string>)
    requires DistinctKeys(jobs, key) && Unmapped(jobs, cache.urlToLocal) && PlainBatch(cache.disk, jobs, key, server)
    requires Sound(cache.disk, known, key, asked) && KeysDiffer(asked, key) && forall u :: u in jobs ==> u in asked
    ensures Sound(EnsureEach(cache, jobs, key, server).disk, LearntBatch(BatchOf(cache.disk, jobs, key, server), known),
                  key, asked)
  {
    if jobs != [] {
      BatchSplits(cache, jobs, key, server);
      hide Sound, EnsureHttp, LearntNext, PlainFetch, PlainUrl, Answer, SlotOf, BatchOf, LearntBatch, KeysDiffer;
      hide DistinctKeys, Unmapped, PlainBatch;
      var last := |jobs| - 1;
      EachKeepsSound(cache, jobs[..last], key, server, known, asked);
      JobLearns(cache, jobs, key, server, known);
      EnsureKeepsSound(EnsureEach(cache, jobs[..last], key, server), jobs[last], key, server,
                       LearntBatch(BatchOf(cache.disk, jobs[..last], key, server), known), asked);
    }
  }

  lemma ServeKeepsSound(cache: Cache, r: Request, key: CacheKey, known: Records, asked: set<string>)
    requires Sound(cache.disk, known, key, asked) && KeysDiffer(asked, key) && Asks(r, asked)
    requires PlainRequest(cache, r, key)
    ensures Sound(Serve(cache, r, key).disk, LearntBy(cache, r, key, known), key, asked)
  {
    match r {
      case One(url, server) =>
        hide Sound, EnsureHttp, LearntNext;
        EnsureKeepsSound(cache, url, key, server, known, asked);
      case Many(urls, server) =>
        AskedDistinct(urls, key, asked);
        hide Prefetch, EnsureEach, LearntBatch, PlainBatch, BatchOf, DiskInv, RecordsInv, Named;
        PrefetchIsEach(cache, urls, key, server, Bodies(known));
        EachKeepsSound(cache, Jobs(urls, cache.urlToLocal), key, server, known, asked);
      case ForgetMap =>
    }
  }

  lemma {:induction false} SoundOverRuns(start: Cache, requests: seq<Request>, key: CacheKey, known: Records,
                                         asked: set<string>)
    requires Sound(start.disk, known, key, asked) && KeysDiffer(asked, key) && PlainRequests(start, requests, key)
    requires forall r :: r in requests ==> Asks(r, asked)
    ensures Sound(RunCache(start, requests, key).disk, RunKnown(start, requests, key, known), key, asked)
  {
    if requests != [] {
      hide Sound, Serve, LearntBy, PlainRequest, Asks, KeysDiffer;
      var before, last := requests[..|requests| - 1], requests[|requests| - 1];
      SoundOverRuns(start, before, key, known, asked);
      ServeKeepsSound(RunCache(start, before, key), last, key, RunKnown(start, before, key, known), asked);
    }
  }

  /** If the keys of the URLs asked for differ and no batch has a URL twice, every request is
      made with exactly the validators of the last 200 answer for its URL, those that a 304
      repeated taken over, each in its own place, if that answer can be validated, and with
      none otherwise: such an answer is never asked for unconditionally again. */
  lemma AskedByAnswer(start: Cache, requests: seq<Request>, key: CacheKey, known: Records, asked: set<string>,
                      u: string)
    requires Sound(start.disk, known, key, asked) && KeysDiffer(asked, key) && PlainRequests(start, requests, key)
    requires forall r :: r in requests ==> Asks(r, asked)
    ensures var now := RunKnown(start, requests, key, known);
            var asking := Asking(RunCache(start, requests, key), u, key);
            if u in now && Conditional(now[u])
            then asking.etag == now[u].etag && asking.lastModified == now[u].lastModified
            else asking.etag == "" && asking.lastModified == ""
  {
    SoundOverRuns(start, requests, key, known, asked);
    var cache, now := RunCache(start, requests, key), RunKnown(start, requests, key, known);
    hide DiskInv, SlotInv, RecordsInv, RecordInv, Bodies, RunCache, RunKnown, ReadEntry, Entry.Sent, PlainRequests;
    hide SlotOf, Owner;
    SlotInvAt(cache.disk, key(u), Bodies(now), key);
    RecordAt(cache.disk, now, key(u));
    SentExactly(SlotOf(cache.disk, key(u)), u, key, now);
  }

  /** An empty disk is such a start. */
  lemma EmptyIsSound(key: CacheKey, asked: set<string>)
    ensures Sound(map[], map[], key, asked)
  {
  }
}
