/** Batches in which jobs share a cache key, and with it the temporary file, the body and the
    metadata: what exactly is left of them, and when the disk invariant survives. */
module SharedKeys {
  import opened Common
  import opened CacheMeta
  import opened DiskCache
  import opened CacheInvariant

  /** The jobs of a batch with what was read for them and the server that answers them. */
  datatype Batch = Batch(jobs: seq<string>, entries: seq<Entry>, key: CacheKey, server: Server)
  {
    predicate Ok() { |entries| == |jobs| }

    function Upto(n: nat): (b: Batch)
      requires Ok() && n <= |jobs|
      ensures b.Ok() && |b.jobs| == n
    {
      this.(jobs := jobs[..n], entries := entries[..n])
    }

    function Fetched(i: nat): Fetch
      requires Ok() && i < |jobs|
    {
      server(jobs[i], entries[i].Sent())
    }

    predicate Has(k: string) { HasKey(jobs, key, k) }

    /** Job `i` is answered 200 and is the first of its key. */
    predicate FirstOk(i: nat)
      requires Ok() && i < |jobs|
    {
      Fetched(i).Ok? && !Upto(i).Has(key(jobs[i]))
    }

    /** Job `i` is answered 200 after another job of its key. */
    predicate LaterOk(i: nat)
      requires Ok() && i < |jobs|
    {
      Fetched(i).Ok? && Upto(i).Has(key(jobs[i]))
    }

    /** What the downloads leave in the temporary file of a key. */
    function Written(k: string): Option<Payload>
      requires Ok()
      decreases |jobs|
    {
      if jobs == [] then None
      else
        var last := |jobs| - 1;
        var before := Upto(last).Written(k);
        if key(jobs[last]) != k then before
        else
          match Fetched(last)
          case Ok(_, _, _, payload) => Some(payload)
          case NotModified(_, _) => before
          case Failed(leftover) => if leftover.Some? then leftover else before
    }

    predicate SomeFirstOk(k: string)
      requires Ok()
    {
      exists i :: 0 <= i < |jobs| && key(jobs[i]) == k && FirstOk(i)
    }

    predicate SomeLaterOk(k: string)
      requires Ok()
    {
      exists i :: 0 <= i < |jobs| && key(jobs[i]) == k && LaterOk(i)
    }

    /** The body of a key after its jobs were committed: gone if a job after the first was
        answered 200, what the downloads left if only the first was, and else as it was. */
    function BodyAfter(k: string, body: Option<Payload>, tmp: Option<Payload>): Option<Payload>
      requires Ok()
    {
      if SomeLaterOk(k) then None else if SomeFirstOk(k) then tmp else body
    }

    /** The URL that the metadata of a key names after its jobs were committed. */
    function OwnerAfter(k: string, owner: Option<string>): Option<string>
      requires Ok()
      decreases |jobs|
    {
      if jobs == [] then owner
      else
        var last := |jobs| - 1;
        var before := Upto(last).OwnerAfter(k, owner);
        if key(jobs[last]) != k then before
        else
          match Fetched(last)
          case Ok(etag, lastModified, _, _) =>
            if Upto(last).Has(k) then before
            else if etag != "" || lastModified != "" then Some(jobs[last])
            else None
          case NotModified(_, _) => if entries[last].Trusted() then Some(jobs[last]) else before
          case Failed(_) => before
    }

    /** The files of a key once its jobs are committed one after another. */
    function CommitKey(k: string, slot: Slot): Slot
      requires Ok()
      decreases |jobs|
    {
      if jobs == [] then slot
      else
        var last := |jobs| - 1;
        var before := Upto(last).CommitKey(k, slot);
        if key(jobs[last]) != k then before
        else Commit(before, jobs[last], entries[last], Fetched(last), entries[last].Trusted()).0
    }

    /** Whether job `i` is served when its turn comes. */
    function Served(i: nat, slot: Slot): bool
      requires Ok() && i < |jobs|
    {
      Commit(Upto(i).CommitKey(key(jobs[i]), slot), jobs[i], entries[i], Fetched(i), entries[i].Trusted()).1
    }
  }

  /** Job `i` of a prefix is job `i` of the batch. */
  lemma PrefixJob(b: Batch, n: nat, i: nat)
    requires b.Ok() && i < n <= |b.jobs|
    ensures b.Upto(n).jobs[i] == b.jobs[i] && b.Upto(n).Fetched(i) == b.Fetched(i)
    ensures b.Upto(n).Upto(i) == b.Upto(i)
    ensures b.Upto(n).FirstOk(i) == b.FirstOk(i) && b.Upto(n).LaterOk(i) == b.LaterOk(i)
  {
    assert b.jobs[..n][..i] == b.jobs[..i] && b.entries[..n][..i] == b.entries[..i];
  }

  lemma LastKey(b: Batch, k: string)
    requires b.Ok() && b.jobs != []
    ensures b.Has(k) <==> b.Upto(|b.jobs| - 1).Has(k) || b.key(b.jobs[|b.jobs| - 1]) == k
  {
    var last := |b.jobs| - 1;
    if i :| 0 <= i < |b.jobs| && b.key(b.jobs[i]) == k {
      assert i < last ==> b.Upto(last).jobs[i] == b.jobs[i];
    }
    if i :| 0 <= i < last && b.key(b.Upto(last).jobs[i]) == k { assert b.jobs[i] == b.Upto(last).jobs[i]; }
  }

  lemma LastOk(b: Batch, k: string)
    requires b.Ok() && b.jobs != []
    ensures var last := |b.jobs| - 1;
            && (b.SomeLaterOk(k) <==> b.Upto(last).SomeLaterOk(k) || (b.key(b.jobs[last]) == k && b.LaterOk(last)))
            && (b.SomeFirstOk(k) <==> b.Upto(last).SomeFirstOk(k) || (b.key(b.jobs[last]) == k && b.FirstOk(last)))
  {
    hide Batch.LaterOk, Batch.FirstOk, Batch.Fetched;
    var last := |b.jobs| - 1;
    forall i | 0 <= i < last
      ensures b.Upto(last).jobs[i] == b.jobs[i]
      ensures b.Upto(last).LaterOk(i) == b.LaterOk(i) && b.Upto(last).FirstOk(i) == b.FirstOk(i)
    {
      PrefixJob(b, last, i);
    }
  }

  /** A key with a 200 answer has a job. */
  lemma OkHas(b: Batch, k: string)
    requires b.Ok()
    ensures b.SomeFirstOk(k) || b.SomeLaterOk(k) ==> b.Has(k)
  {
    hide Batch.LaterOk, Batch.FirstOk;
  }

  /** The body and the temporary file of a key after its jobs were committed. */
  lemma {:induction false} CommitKeyIs(b: Batch, k: string, slot: Slot)
    requires b.Ok() && (b.SomeFirstOk(k) ==> slot.bodyTmp.Some?)
    ensures var after := b.CommitKey(k, slot);
            && after.body == b.BodyAfter(k, slot.body, slot.bodyTmp)
            && after.bodyTmp == if b.Has(k) then None else slot.bodyTmp
    decreases |b.jobs|
  {
    if b.jobs != [] {
      var last := |b.jobs| - 1;
      LastOk(b, k);
      LastKey(b, k);
      OkHas(b.Upto(last), k);
      hide Batch.SomeFirstOk, Batch.SomeLaterOk, Batch.Has, Batch.Upto, StoreMeta;
      CommitKeyIs(b.Upto(last), k, slot);
      if b.key(b.jobs[last]) == k { CommitTakes(b, last, b.Upto(last).CommitKey(k, slot)); }
    }
  }

  /** A commit leaves no temporary file; it takes the body from there exactly for a 200. */
  lemma CommitTakes(b: Batch, i: nat, before: Slot)
    requires b.Ok() && i < |b.jobs|
    ensures var (after, served) := Commit(before, b.jobs[i], b.entries[i], b.Fetched(i), b.entries[i].Trusted());
            && after.bodyTmp == None
            && after.body == (if b.Fetched(i).Ok? then before.bodyTmp else before.body)
            && served == (if b.Fetched(i).Ok? then before.bodyTmp.Some? else b.entries[i].Trusted())
  {
  }

  lemma {:induction false} WrittenSome(b: Batch, k: string, i: nat)
    requires b.Ok() && i < |b.jobs| && b.key(b.jobs[i]) == k && b.Fetched(i).Ok?
    ensures b.Written(k).Some?
    decreases |b.jobs|
  {
    var last := |b.jobs| - 1;
    if i < last {
      PrefixJob(b, last, i);
      WrittenSome(b.Upto(last), k, i);
    }
  }

  lemma FirstOkWrites(b: Batch, k: string)
    requires b.Ok()
    ensures b.SomeFirstOk(k) || b.SomeLaterOk(k) ==> b.Written(k).Some?
  {
    if i :| 0 <= i < |b.jobs| && b.key(b.jobs[i]) == k && b.Fetched(i).Ok? { WrittenSome(b, k, i); }
  }

  /** A job is served exactly when it is answered 200 and no earlier job of the batch has its
      key, or it is answered 304 or not at all and its own body was trusted. */
  lemma ServedExactly(b: Batch, i: nat, slot: Slot)
    requires b.Ok() && i < |b.jobs| && slot.bodyTmp == b.Written(b.key(b.jobs[i]))
    ensures b.Served(i, slot) <==>
              if b.Fetched(i).Ok? then !b.Upto(i).Has(b.key(b.jobs[i])) else b.entries[i].Trusted()
  {
    var k := b.key(b.jobs[i]);
    PrefixOk(b, i, k);
    FirstOkWrites(b, k);
    if b.Fetched(i).Ok? { WrittenSome(b, k, i); }
    hide Batch.SomeFirstOk, Batch.Has, Batch.Written;
    CommitKeyIs(b.Upto(i), k, slot);
    CommitTakes(b, i, b.Upto(i).CommitKey(k, slot));
  }

  lemma PrefixOk(b: Batch, n: nat, k: string)
    requires b.Ok() && n <= |b.jobs|
    ensures b.Upto(n).SomeFirstOk(k) ==> b.SomeFirstOk(k)
  {
    hide Batch.FirstOk;
    if i :| 0 <= i < n && b.key(b.Upto(n).jobs[i]) == k && b.Upto(n).FirstOk(i) { PrefixJob(b, n, i); }
  }

  // ---- the phases on one key ----

  lemma {:induction false} PreparedKey(disk: Disk, jobs: seq<string>, key: CacheKey, k: string)
    ensures SlotOf(Prepared(disk, jobs, key), k) ==
            if HasKey(jobs, key, k) then SlotOf(disk, k).(bodyTmp := None) else SlotOf(disk, k)
  {
    if jobs != [] {
      PreparedKey(disk, jobs[..|jobs| - 1], key, k);
      HasLast(jobs, key, k);
      hide HasKey;
    }
  }

  lemma HasLast(jobs: seq<string>, key: CacheKey, k: string)
    requires jobs != []
    ensures var last := |jobs| - 1;
            HasKey(jobs, key, k) <==> HasKey(jobs[..last], key, k) || key(jobs[last]) == k
  {
    var last := |jobs| - 1;
    if i :| 0 <= i < |jobs| && key(jobs[i]) == k { assert i < last ==> jobs[..last][i] == jobs[i]; }
    if i :| 0 <= i < last && key(jobs[..last][i]) == k { assert jobs[i] == jobs[..last][i]; }
  }

  /** Every entry is what was on disk before the batch. */
  lemma {:induction false} EntriesAre(disk: Disk, jobs: seq<string>, key: CacheKey, i: nat)
    requires i < |jobs|
    ensures Entries(disk, jobs, key)[i] == ReadEntry(SlotOf(disk, key(jobs[i])), jobs[i])
    decreases |jobs|
  {
    var last := |jobs| - 1;
    if i < last {
      EntriesAre(disk, jobs[..last], key, i);
    } else {
      PreparedKey(disk, jobs[..last], key, key(jobs[last]));
    }
  }

  lemma {:induction false} DownloadedKey(b: Batch, disk: Disk, k: string)
    requires b.Ok() && (b.Has(k) ==> SlotOf(disk, k).bodyTmp == None)
    ensures SlotOf(Downloaded(disk, b.jobs, b.entries, b.key, b.server), k) ==
            if b.Has(k) then SlotOf(disk, k).(bodyTmp := b.Written(k)) else SlotOf(disk, k)
    decreases |b.jobs|
  {
    if b.jobs != [] {
      var last := |b.jobs| - 1;
      LastKey(b, k);
      hide Batch.Has;
      if !b.Upto(last).Has(k) { NoneWritten(b.Upto(last), k); }
      DownloadedKey(b.Upto(last), disk, k);
    }
  }

  lemma {:induction false} NoneWritten(b: Batch, k: string)
    requires b.Ok() && !b.Has(k)
    ensures b.Written(k) == None
    decreases |b.jobs|
  {
    if b.jobs != [] {
      LastKey(b, k);
      NoneWritten(b.Upto(|b.jobs| - 1), k);
    }
  }

  lemma {:induction false} CommittedKey(b: Batch, cache: Cache, k: string)
    requires b.Ok()
    ensures SlotOf(Committed(cache, b.jobs, b.entries, b.key, b.server).disk, k) ==
            b.CommitKey(k, SlotOf(cache.disk, k))
    decreases |b.jobs|
  {
    if b.jobs != [] {
      hide Commit;
      CommittedKey(b.Upto(|b.jobs| - 1), cache, k);
    }
  }

  // ---- the metadata ----

  /** The files of key `k` have metadata of the owner, with validators, or none. */
  predicate MetaBy(slot: Slot, owner: Option<string>, k: string, key: CacheKey) {
    match slot.meta
    case None => owner == None
    case Some(text) =>
      && Parse(text).Some?
      && var m := Parse(text).value;
         && owner == Some(m.url) && m.url != "" && m.HasValidators() && key(m.url) == k
         && Plain(m.etag) && Plain(m.lastModified)
  }

  /** What was read for a job is plain, and so are its URL and its answer. */
  predicate PlainJob(b: Batch, i: nat)
    requires b.Ok() && i < |b.jobs|
  {
    && PlainUrl(b.jobs[i]) && PlainFetch(b.Fetched(i))
    && (b.entries[i].Trusted() ==> Plain(b.entries[i].meta.etag) && Plain(b.entries[i].meta.lastModified))
  }

  predicate PlainJobs(b: Batch)
    requires b.Ok()
  {
    forall i :: 0 <= i < |b.jobs| ==> PlainJob(b, i)
  }

  lemma PlainPrefix(b: Batch, n: nat)
    requires b.Ok() && n <= |b.jobs| && PlainJobs(b)
    ensures PlainJobs(b.Upto(n))
  {
    hide PlainJob;
    forall i | 0 <= i < n ensures PlainJob(b.Upto(n), i) {
      PrefixJob(b, n, i);
      SamePlain(b, b.Upto(n), i);
    }
  }

  lemma SamePlain(b: Batch, c: Batch, i: nat)
    requires b.Ok() && c.Ok() && i < |b.jobs| && i < |c.jobs| && PlainJob(b, i)
    requires b.jobs[i] == c.jobs[i] && b.entries[i] == c.entries[i] && b.Fetched(i) == c.Fetched(i)
    ensures PlainJob(c, i)
  {
  }

  /** What a commit does to the metadata, with or without a temporary file. */
  lemma CommitMeta(b: Batch, i: nat, before: Slot, owner: Option<string>)
    requires b.Ok() && i < |b.jobs| && PlainJob(b, i)
    requires MetaBy(before, owner, b.key(b.jobs[i]), b.key)
    ensures var after := Commit(before, b.jobs[i], b.entries[i], b.Fetched(i), b.entries[i].Trusted()).0;
            var next :=
              match b.Fetched(i)
              case Ok(etag, lastModified, _, _) =>
                if before.bodyTmp == None then owner
                else if etag != "" || lastModified != "" then Some(b.jobs[i])
                else None
              case NotModified(_, _) => if b.entries[i].Trusted() then Some(b.jobs[i]) else owner
              case Failed(_) => owner;
            MetaBy(after, next, b.key(b.jobs[i]), b.key)
  {
    hide Serialize, Parse, StoreMeta, Plain;
    var url, fetch := b.jobs[i], b.Fetched(i);
    match fetch
    case Ok(_, _, _, _) =>
      if before.bodyTmp.Some? {
        StoreMetaReads(before.(body := before.bodyTmp, bodyTmp := None), FreshMeta(url, fetch, before.bodyTmp.value));
      }
    case NotModified(_, _) =>
      if b.entries[i].Trusted() { StoreMetaReads(before.(bodyTmp := None), Refreshed(b.entries[i].meta, url, fetch)); }
    case Failed(_) =>
  }

  lemma {:induction false} CommitKeyMeta(b: Batch, k: string, slot: Slot, owner: Option<string>)
    requires b.Ok() && PlainJobs(b) && MetaBy(slot, owner, k, b.key) && (b.SomeFirstOk(k) ==> slot.bodyTmp.Some?)
    ensures MetaBy(b.CommitKey(k, slot), b.OwnerAfter(k, owner), k, b.key)
    decreases |b.jobs|
  {
    if b.jobs != [] {
      var last := |b.jobs| - 1;
      PlainPrefix(b, last);
      LastOk(b, k);
      assert PlainJob(b, last);
      hide Batch.SomeFirstOk, Batch.SomeLaterOk, Batch.Has, Batch.Upto, MetaBy, PlainJob, PlainJobs, Commit;
      CommitKeyMeta(b.Upto(last), k, slot, owner);
      CommitKeyIs(b.Upto(last), k, slot);
      if b.key(b.jobs[last]) == k {
        CommitMeta(b, last, b.Upto(last).CommitKey(k, slot), b.Upto(last).OwnerAfter(k, owner));
      }
    }
  }

  // ---- what is stored ----

  function BatchOf(disk: Disk, jobs: seq<string>, key: CacheKey, server: Server): (b: Batch)
    ensures b.Ok() && b.jobs == jobs && b.key == key && b.server == server && b.entries == Entries(disk, jobs, key)
  {
    Batch(jobs, Entries(disk, jobs, key), key, server)
  }

  /** A job is answered for the files as they were before the batch. */
  lemma FetchedIsAnswer(disk: Disk, jobs: seq<string>, key: CacheKey, server: Server, i: nat)
    requires i < |jobs|
    ensures BatchOf(disk, jobs, key, server).Fetched(i) == Answer(SlotOf(disk, key(jobs[i])), jobs[i], server)
    ensures BatchOf(disk, jobs, key, server).entries[i] == ReadEntry(SlotOf(disk, key(jobs[i])), jobs[i])
  {
    hide Entries, ReadEntry;
    EntriesAre(disk, jobs, key, i);
  }

  lemma {:induction false} StoredAtOk(disk: Disk, jobs: seq<string>, key: CacheKey, server: Server, stored: Stored,
                                      i: nat)
    requires i < |jobs| && BatchOf(disk, jobs, key, server).Fetched(i).Ok?
    ensures var after := StoredBatch(disk, jobs, key, server, stored);
            jobs[i] in after && after[jobs[i]] == BatchOf(disk, jobs, key, server).Fetched(i).payload
    decreases |jobs|
  {
    var last := |jobs| - 1;
    FetchedIsAnswer(disk, jobs, key, server, i);
    hide Answer, Entries;
    if i < last {
      FetchedIsAnswer(disk, jobs[..last], key, server, i);
      StoredAtOk(disk, jobs[..last], key, server, stored, i);
    }
  }

  lemma {:induction false} StoredElse(disk: Disk, jobs: seq<string>, key: CacheKey, server: Server, stored: Stored,
                                      u: string)
    requires forall i :: 0 <= i < |jobs| && jobs[i] == u ==> !BatchOf(disk, jobs, key, server).Fetched(i).Ok?
    ensures var after := StoredBatch(disk, jobs, key, server, stored);
            (u in after <==> u in stored) && (u in stored ==> after[u] == stored[u])
  {
    if jobs != [] {
      var last := |jobs| - 1;
      FetchedIsAnswer(disk, jobs, key, server, last);
      forall i | 0 <= i < last && jobs[..last][i] == u
        ensures !BatchOf(disk, jobs[..last], key, server).Fetched(i).Ok?
      {
        FetchedIsAnswer(disk, jobs, key, server, i);
        FetchedIsAnswer(disk, jobs[..last], key, server, i);
        assert jobs[i] == u;
      }
      hide BatchOf, Answer;
      StoredElse(disk, jobs[..last], key, server, stored, u);
    }
  }

  // ---- when a URL has its own body ----

  /** After the batch the body of `k` is the one stored for `u`: no job of the key after the
      first was answered 200, and if the first was, what the downloads left is that body. */
  predicate Own(b: Batch, k: string, stored: Stored, u: string)
    requires b.Ok()
  {
    !b.SomeLaterOk(k) && (b.SomeFirstOk(k) ==> u in stored && b.Written(k) == Some(stored[u]))
  }

  predicate AnsweredOk(b: Batch, u: string)
    requires b.Ok()
  {
    exists i :: 0 <= i < |b.jobs| && b.jobs[i] == u && b.Fetched(i).Ok?
  }

  /** A URL that the batch fetched anew, or whose body was its own before, has its own body
      after the batch exactly in that case. */
  lemma OwnBodyExactly(disk: Disk, jobs: seq<string>, key: CacheKey, server: Server, stored: Stored, u: string,
                       body: Option<Payload>)
    requires var b := BatchOf(disk, jobs, key, server);
             AnsweredOk(b, u) || (u in stored && body == Some(stored[u]))
    ensures var b := BatchOf(disk, jobs, key, server);
            var after := StoredBatch(disk, jobs, key, server, stored);
            && u in after
            && (b.BodyAfter(key(u), body, b.Written(key(u))) == Some(after[u]) <==> Own(b, key(u), after, u))
  {
    var b := BatchOf(disk, jobs, key, server);
    hide BatchOf, StoredBatch, Batch.Written, Batch.Upto;
    if i :| 0 <= i < |jobs| && jobs[i] == u && b.Fetched(i).Ok? {
      StoredAtOk(disk, jobs, key, server, stored, i);
      assert b.FirstOk(i) || b.LaterOk(i);
    } else {
      StoredElse(disk, jobs, key, server, stored, u);
    }
  }

  /** The files of a key after the batch. */
  lemma PrefetchKey(cache: Cache, jobs: seq<string>, key: CacheKey, server: Server, k: string)
    ensures var b := BatchOf(cache.disk, jobs, key, server);
            var after := SlotOf(AfterBatch(cache, jobs, key, server).disk, k);
            && (!b.Has(k) ==> after == SlotOf(cache.disk, k))
            && (b.Has(k) ==> after == b.CommitKey(k, SlotOf(cache.disk, k).(bodyTmp := b.Written(k))))
  {
    var b := BatchOf(cache.disk, jobs, key, server);
    hide BatchOf, Prepared, Downloaded, Committed;
    PreparedKey(cache.disk, jobs, key, k);
    var prepared := Prepared(cache.disk, jobs, key);
    DownloadedKey(b, prepared, k);
    CommittedKey(b, cache.(disk := Downloaded(prepared, jobs, b.entries, key, server)), k);
    if !b.Has(k) { NoneCommitted(b, k, SlotOf(cache.disk, k)); }
  }

  lemma {:induction false} NoneCommitted(b: Batch, k: string, slot: Slot)
    requires b.Ok() && !b.Has(k)
    ensures b.CommitKey(k, slot) == slot
    decreases |b.jobs|
  {
    if b.jobs != [] {
      LastKey(b, k);
      NoneCommitted(b.Upto(|b.jobs| - 1), k, slot);
    }
  }

  /** What a batch makes of the cache, given its jobs. */
  function AfterBatch(cache: Cache, jobs: seq<string>, key: CacheKey, server: Server): Cache {
    var entries := Entries(cache.disk, jobs, key);
    var downloaded := Downloaded(Prepared(cache.disk, jobs, key), jobs, entries, key, server);
    Committed(cache.(disk := downloaded), jobs, entries, key, server)
  }

  // ---- when the invariants survive ----

  /** The URL that the metadata of a slot names. */
  function Owner(slot: Slot): Option<string> {
    if slot.meta.Some? && Parse(slot.meta.value).Some? then Some(Parse(slot.meta.value).value.url) else None
  }

  lemma SlotInvIs(slot: Slot, k: string, stored: Stored, key: CacheKey)
    ensures SlotInv(slot, k, stored, key) <==>
              && MetaBy(slot, Owner(slot), k, key)
              && (Owner(slot).Some? ==> Owner(slot).value in stored && slot.body == Some(stored[Owner(slot).value]))
  {
    hide Parse;
  }

  lemma MetaOwner(slot: Slot, owner: Option<string>, k: string, key: CacheKey)
    requires MetaBy(slot, owner, k, key)
    ensures Owner(slot) == owner && (owner.Some? ==> key(owner.value) == k)
  {
    hide Parse;
  }

  /** A job whose own body was trusted had the body last stored for it. */
  lemma TrustedIsStored(slot: Slot, url: string, k: string, stored: Stored, key: CacheKey)
    requires SlotInv(slot, k, stored, key)
    ensures ReadEntry(slot, url).Trusted() ==>
              && url in stored && slot.body == Some(stored[url])
              && Plain(ReadEntry(slot, url).meta.etag) && Plain(ReadEntry(slot, url).meta.lastModified)
  {
    hide Parse;
  }

  lemma {:induction false} OwnerFrom(b: Batch, k: string, owner: Option<string>)
    requires b.Ok() && b.OwnerAfter(k, owner).Some?
    ensures var u := b.OwnerAfter(k, owner).value;
            || owner == Some(u)
            || exists i :: 0 <= i < |b.jobs| && b.jobs[i] == u && b.key(u) == k
                           && (b.Fetched(i).Ok? || b.entries[i].Trusted())
    decreases |b.jobs|
  {
    if b.jobs != [] {
      var last := |b.jobs| - 1;
      var u := b.OwnerAfter(k, owner).value;
      if b.Upto(last).OwnerAfter(k, owner) == Some(u) {
        OwnerFrom(b.Upto(last), k, owner);
        if i :| 0 <= i < last && b.Upto(last).jobs[i] == u && b.key(u) == k
                && (b.Upto(last).Fetched(i).Ok? || b.Upto(last).entries[i].Trusted()) {
          PrefixJob(b, last, i);
          assert b.jobs[i] == u && b.entries[i] == b.Upto(last).entries[i];
        }
      } else {
        assert b.jobs[last] == u;
      }
    }
  }

  lemma BatchIsPlain(disk: Disk, jobs: seq<string>, key: CacheKey, server: Server, stored: Stored)
    requires DiskInv(disk, stored, key) && PlainBatch(disk, jobs, key, server)
    ensures PlainJobs(BatchOf(disk, jobs, key, server))
  {
    hide SlotInv, Plain, PlainFetch, PlainUrl, Answer, ReadEntry, BatchOf;
    forall i | 0 <= i < |jobs| ensures PlainJob(BatchOf(disk, jobs, key, server), i) {
      FetchedIsAnswer(disk, jobs, key, server, i);
      SlotInvAt(disk, key(jobs[i]), stored, key);
      TrustedIsStored(SlotOf(disk, key(jobs[i])), jobs[i], key(jobs[i]), stored, key);
    }
  }

  lemma SlotInvAt(disk: Disk, k: string, stored: Stored, key: CacheKey)
    requires DiskInv(disk, stored, key)
    ensures SlotInv(SlotOf(disk, k), k, stored, key)
  {
  }

  /** Whoever the metadata of the key names after the batch has its own body then. */
  predicate KeyKept(b: Batch, slot: Slot, k: string, stored: Stored)
    requires b.Ok()
  {
    var owner := b.OwnerAfter(k, Owner(slot));
    owner.Some? ==> Own(b, k, stored, owner.value)
  }

  lemma OwnerHasBody(disk: Disk, jobs: seq<string>, key: CacheKey, server: Server, stored: Stored, k: string)
    requires DiskInv(disk, stored, key)
    requires BatchOf(disk, jobs, key, server).OwnerAfter(k, Owner(SlotOf(disk, k))).Some?
    ensures var b := BatchOf(disk, jobs, key, server);
            var u := b.OwnerAfter(k, Owner(SlotOf(disk, k))).value;
            AnsweredOk(b, u) || (u in stored && SlotOf(disk, k).body == Some(stored[u]))
  {
    var b := BatchOf(disk, jobs, key, server);
    var slot := SlotOf(disk, k);
    hide BatchOf, SlotInv, MetaBy, Owner, ReadEntry, Batch.OwnerAfter;
    SlotInvAt(disk, k, stored, key);
    SlotInvIs(slot, k, stored, key);
    OwnerFrom(b, k, Owner(slot));
    var u := b.OwnerAfter(k, Owner(slot)).value;
    if Owner(slot) != Some(u) {
      var i :| 0 <= i < |jobs| && jobs[i] == u && key(u) == k && (b.Fetched(i).Ok? || b.entries[i].Trusted());
      FetchedIsAnswer(disk, jobs, key, server, i);
      TrustedIsStored(slot, u, k, stored, key);
    }
  }

  /** The files of a key with jobs keep the invariant exactly when whoever their metadata
      names at the end has its own body. */
  lemma KeyExactly(cache: Cache, jobs: seq<string>, key: CacheKey, server: Server, stored: Stored, k: string)
    requires DiskInv(cache.disk, stored, key) && PlainBatch(cache.disk, jobs, key, server)
    requires BatchOf(cache.disk, jobs, key, server).Has(k)
    ensures var b := BatchOf(cache.disk, jobs, key, server);
            var after := StoredBatch(cache.disk, jobs, key, server, stored);
            SlotInv(SlotOf(AfterBatch(cache, jobs, key, server).disk, k), k, after, key)
            <==> KeyKept(b, SlotOf(cache.disk, k), k, after)
  {
    var b := BatchOf(cache.disk, jobs, key, server);
    var slot := SlotOf(cache.disk, k);
    var start := slot.(bodyTmp := b.Written(k));
    var owner := b.OwnerAfter(k, Owner(slot));
    hide BatchOf, AfterBatch, DiskInv, PlainBatch, SlotInv, StoredBatch, Own, AnsweredOk, MetaBy;
    hide Batch.OwnerAfter, Batch.Written, Batch.BodyAfter, Batch.CommitKey, Batch.SomeFirstOk, Batch.SomeLaterOk;
    hide PlainJobs, SlotOf;
    BatchIsPlain(cache.disk, jobs, key, server, stored);
    SlotInvAt(cache.disk, k, stored, key);
    SlotInvIs(slot, k, stored, key);
    FirstOkWrites(b, k);
    SameMeta(slot, start, Owner(slot), k, key);
    CommitKeyIs(b, k, start);
    CommitKeyMeta(b, k, start, Owner(slot));
    PrefetchKey(cache, jobs, key, server, k);
    var final := b.CommitKey(k, start);
    MetaOwner(final, owner, k, key);
    SlotInvIs(final, k, StoredBatch(cache.disk, jobs, key, server, stored), key);
    if owner.Some? {
      OwnerHasBody(cache.disk, jobs, key, server, stored, k);
      OwnBodyExactly(cache.disk, jobs, key, server, stored, owner.value, slot.body);
    }
  }

  lemma SameMeta(slot: Slot, other: Slot, owner: Option<string>, k: string, key: CacheKey)
    requires MetaBy(slot, owner, k, key) && slot.meta == other.meta
    ensures MetaBy(other, owner, k, key)
  {
  }

  /** Files that no job shares stay as good as they were. */
  lemma NoJobKeeps(cache: Cache, jobs: seq<string>, key: CacheKey, server: Server, stored: Stored, k: string)
    requires DiskInv(cache.disk, stored, key) && !BatchOf(cache.disk, jobs, key, server).Has(k)
    ensures SlotInv(SlotOf(AfterBatch(cache, jobs, key, server).disk, k), k,
                    StoredBatch(cache.disk, jobs, key, server, stored), key)
  {
    hide BatchOf, AfterBatch, DiskInv, StoredBatch, SlotInv, MetaBy, SlotOf;
    var slot := SlotOf(cache.disk, k);
    PrefetchKey(cache, jobs, key, server, k);
    SlotInvAt(cache.disk, k, stored, key);
    SlotInvIs(slot, k, stored, key);
    MetaOwner(slot, Owner(slot), k, key);
    SlotInvIs(slot, k, StoredBatch(cache.disk, jobs, key, server, stored), key);
    if Owner(slot).Some? { StoredElse(cache.disk, jobs, key, server, stored, Owner(slot).value); }
  }

  /** Every key that the jobs use is kept. */
  predicate BatchKept(disk: Disk, jobs: seq<string>, key: CacheKey, server: Server, stored: Stored) {
    var b := BatchOf(disk, jobs, key, server);
    forall i :: 0 <= i < |jobs| ==>
      KeyKept(b, SlotOf(disk, key(jobs[i])), key(jobs[i]), StoredBatch(disk, jobs, key, server, stored))
  }

  /** The disk invariant survives a batch, with any cache key, exactly when every key is kept:
      whoever its metadata names at the end has its own body. */
  lemma DiskInvExactly(cache: Cache, jobs: seq<string>, key: CacheKey, server: Server, stored: Stored)
    requires DiskInv(cache.disk, stored, key) && PlainBatch(cache.disk, jobs, key, server)
    ensures DiskInv(AfterBatch(cache, jobs, key, server).disk, StoredBatch(cache.disk, jobs, key, server, stored), key)
            <==> BatchKept(cache.disk, jobs, key, server, stored)
  {
    hide AfterBatch, SlotInv, StoredBatch, KeyKept, PlainBatch, BatchOf;
    var b := BatchOf(cache.disk, jobs, key, server);
    var after, now := AfterBatch(cache, jobs, key, server), StoredBatch(cache.disk, jobs, key, server, stored);
    if DiskInv(after.disk, now, key) {
      forall i | 0 <= i < |jobs| ensures KeyKept(b, SlotOf(cache.disk, key(jobs[i])), key(jobs[i]), now) {
        SlotInvAt(after.disk, key(jobs[i]), now, key);
        KeyExactly(cache, jobs, key, server, stored, key(jobs[i]));
      }
    }
    if BatchKept(cache.disk, jobs, key, server, stored) {
      forall k | k in after.disk ensures SlotInv(after.disk[k], k, now, key) {
        if b.Has(k) {
          KeyExactly(cache, jobs, key, server, stored, k);
        } else {
          NoJobKeeps(cache, jobs, key, server, stored, k);
        }
      }
    }
  }

  // ---- who is served ----

  predicate SomeServed(b: Batch, slot: Slot, u: string)
    requires b.Ok()
  {
    exists i :: 0 <= i < |b.jobs| && b.jobs[i] == u && b.Served(i, slot)
  }

  lemma LastServed(b: Batch, slot: Slot, u: string)
    requires b.Ok() && b.jobs != []
    ensures var last := |b.jobs| - 1;
            SomeServed(b, slot, u) <==> SomeServed(b.Upto(last), slot, u) || (b.jobs[last] == u && b.Served(last, slot))
  {
    hide Commit, Batch.CommitKey;
    var last := |b.jobs| - 1;
    forall i | 0 <= i < last
      ensures b.Upto(last).jobs[i] == b.jobs[i] && b.Upto(last).Served(i, slot) == b.Served(i, slot)
    {
      PrefixJob(b, last, i);
    }
  }

  /** What committing the last job does to the URL map. */
  lemma CommittedLast(b: Batch, cache: Cache)
    requires b.Ok() && b.jobs != []
    ensures var last := |b.jobs| - 1;
            var url := b.jobs[last];
            var before := Committed(cache, b.jobs[..last], b.entries[..last], b.key, b.server).urlToLocal;
            Committed(cache, b.jobs, b.entries, b.key, b.server).urlToLocal ==
            if b.Served(last, SlotOf(cache.disk, b.key(url))) then before[url := CachedBody(b.key(url))] else before
  {
    hide Commit;
    CommittedKey(b.Upto(|b.jobs| - 1), cache, b.key(b.jobs[|b.jobs| - 1]));
  }

  lemma {:induction false} CommittedMap(b: Batch, cache: Cache, u: string)
    requires b.Ok()
    ensures var after := Committed(cache, b.jobs, b.entries, b.key, b.server).urlToLocal;
            var served := SomeServed(b, SlotOf(cache.disk, b.key(u)), u);
            && (u in after <==> u in cache.urlToLocal || served)
            && (served ==> after[u] == CachedBody(b.key(u)))
            && (!served && u in after ==> after[u] == cache.urlToLocal[u])
    decreases |b.jobs|
  {
    if b.jobs != [] {
      CommittedLast(b, cache);
      LastServed(b, SlotOf(cache.disk, b.key(u)), u);
      hide SlotOf, SomeServed, Committed, Batch.Served;
      CommittedMap(b.Upto(|b.jobs| - 1), cache, u);
    }
  }

  /** The URLs mapped after a batch: those mapped before, and the jobs that are served. */
  predicate IsServed(b: Batch, u: string)
    requires b.Ok()
  {
    exists i :: 0 <= i < |b.jobs| && b.jobs[i] == u && ServesJob(b, i)
  }

  predicate ServesJob(b: Batch, i: nat)
    requires b.Ok() && i < |b.jobs|
  {
    if b.Fetched(i).Ok? then b.FirstOk(i) else b.entries[i].Trusted()
  }

  lemma MappedExactly(cache: Cache, jobs: seq<string>, key: CacheKey, server: Server, u: string)
    ensures var b := BatchOf(cache.disk, jobs, key, server);
            var after := AfterBatch(cache, jobs, key, server).urlToLocal;
            && (u in after <==> u in cache.urlToLocal || IsServed(b, u))
            && (IsServed(b, u) ==> after[u] == CachedBody(key(u)))
            && (!IsServed(b, u) && u in after ==> after[u] == cache.urlToLocal[u])
  {
    var b := BatchOf(cache.disk, jobs, key, server);
    var prepared := Prepared(cache.disk, jobs, key);
    var downloaded := Downloaded(prepared, jobs, b.entries, key, server);
    hide BatchOf, Prepared, Downloaded, Committed, Batch.Written, Batch.Served, Batch.CommitKey;
    PreparedKey(cache.disk, jobs, key, key(u));
    DownloadedKey(b, prepared, key(u));
    CommittedMap(b, cache.(disk := downloaded), u);
    forall i | 0 <= i < |jobs| && jobs[i] == u
      ensures b.Served(i, SlotOf(downloaded, key(u))) <==> ServesJob(b, i)
    {
      assert b.Has(key(u));
      ServedExactly(b, i, SlotOf(downloaded, key(u)));
    }
  }

  lemma BodyOfKey(cache: Cache, jobs: seq<string>, key: CacheKey, server: Server, k: string)
    ensures var b := BatchOf(cache.disk, jobs, key, server);
            SlotOf(AfterBatch(cache, jobs, key, server).disk, k).body ==
            b.BodyAfter(k, SlotOf(cache.disk, k).body, b.Written(k))
  {
    var b := BatchOf(cache.disk, jobs, key, server);
    hide BatchOf, AfterBatch, Batch.SomeFirstOk, Batch.SomeLaterOk, Batch.Written, Batch.CommitKey, Batch.Has;
    PrefetchKey(cache, jobs, key, server, k);
    OkHas(b, k);
    FirstOkWrites(b, k);
    if b.Has(k) { CommitKeyIs(b, k, SlotOf(cache.disk, k).(bodyTmp := b.Written(k))); }
  }

  lemma ServedHasBody(disk: Disk, jobs: seq<string>, key: CacheKey, server: Server, stored: Stored, u: string)
    requires DiskInv(disk, stored, key) && IsServed(BatchOf(disk, jobs, key, server), u)
    ensures var b := BatchOf(disk, jobs, key, server);
            AnsweredOk(b, u) || (u in stored && SlotOf(disk, key(u)).body == Some(stored[u]))
  {
    var b := BatchOf(disk, jobs, key, server);
    hide BatchOf, SlotInv, ReadEntry;
    var i :| 0 <= i < |jobs| && jobs[i] == u && ServesJob(b, i);
    FetchedIsAnswer(disk, jobs, key, server, i);
    SlotInvAt(disk, key(u), stored, key);
    TrustedIsStored(SlotOf(disk, key(u)), u, key(u), stored, key);
  }

  /** Every URL mapped after a batch is served the body last stored for it exactly when each
      of them has its own body. */
  lemma MapInvExactly(cache: Cache, jobs: seq<string>, key: CacheKey, server: Server, stored: Stored)
    requires DiskInv(cache.disk, stored, key) && MapInv(cache, stored, key)
    ensures var after, now := AfterBatch(cache, jobs, key, server), StoredBatch(cache.disk, jobs, key, server, stored);
            MapInv(after, now, key)
            <==> forall u :: u in after.urlToLocal ==> Own(BatchOf(cache.disk, jobs, key, server), key(u), now, u)
  {
    var b := BatchOf(cache.disk, jobs, key, server);
    var after, now := AfterBatch(cache, jobs, key, server), StoredBatch(cache.disk, jobs, key, server, stored);
    hide BatchOf, AfterBatch, StoredBatch, Own, DiskInv, IsServed, AnsweredOk, Batch.BodyAfter, SlotOf;
    forall u | u in after.urlToLocal
      ensures after.urlToLocal[u] == CachedBody(key(u)) && u in now
      ensures SlotOf(after.disk, key(u)).body == Some(now[u]) <==> Own(b, key(u), now, u)
    {
      MappedExactly(cache, jobs, key, server, u);
      if IsServed(b, u) { ServedHasBody(cache.disk, jobs, key, server, stored, u); }
      OwnBodyExactly(cache.disk, jobs, key, server, stored, u, SlotOf(cache.disk, key(u)).body);
      BodyOfKey(cache, jobs, key, server, key(u));
    }
  }

  /** A foreign body: `u` is answered 200 without validators and `v`, trusted and of the same
      key, 304. The batch leaves the metadata of `v` beside the body of `u`, and serves `v`
      from it; `v` will be validated with it later. */
  lemma ForeignBody(cache: Cache, u: string, v: string, key: CacheKey, server: Server, stored: Stored)
    requires DiskInv(cache.disk, stored, key) && PlainBatch(cache.disk, [u, v], key, server) && key(u) == key(v)
    requires var b := BatchOf(cache.disk, [u, v], key, server);
             && b.Fetched(0).Ok? && b.Fetched(0).etag == "" && b.Fetched(0).lastModified == ""
             && b.entries[1].Trusted() && b.Fetched(1).NotModified?
    ensures var after := AfterBatch(cache, [u, v], key, server);
            var slot := SlotOf(after.disk, key(v));
            && slot.body == Some(BatchOf(cache.disk, [u, v], key, server).Fetched(0).payload)
            && Owner(slot) == Some(v) && MetaBy(slot, Some(v), key(v), key)
            && v in after.urlToLocal && after.urlToLocal[v] == CachedBody(key(v))
    ensures v in stored && BatchOf(cache.disk, [u, v], key, server).Fetched(0).payload != stored[v] ==>
              !DiskInv(AfterBatch(cache, [u, v], key, server).disk,
                       StoredBatch(cache.disk, [u, v], key, server, stored), key)
  {
    var jobs, k := [u, v], key(v);
    var b := BatchOf(cache.disk, jobs, key, server);
    var slot := SlotOf(cache.disk, k);
    ForeignBatch(b, u, v, k, Owner(slot));
    hide BatchOf, AfterBatch, StoredBatch, DiskInv, PlainBatch, SlotInv, MetaBy, PlainJobs, SlotOf;
    hide Batch.Written, Batch.OwnerAfter, Batch.CommitKey, Batch.SomeFirstOk, Batch.SomeLaterOk, Batch.Has;
    BatchIsPlain(cache.disk, jobs, key, server, stored);
    SlotInvAt(cache.disk, k, stored, key);
    SlotInvIs(slot, k, stored, key);
    var start := slot.(bodyTmp := b.Written(k));
    SameMeta(slot, start, Owner(slot), k, key);
    CommitKeyIs(b, k, start);
    CommitKeyMeta(b, k, start, Owner(slot));
    PrefetchKey(cache, jobs, key, server, k);
    MetaOwner(b.CommitKey(k, start), Some(v), k, key);
    MappedExactly(cache, jobs, key, server, v);
    assert ServesJob(b, 1) && jobs[1] == v;
    if v in stored && b.Fetched(0).payload != stored[v] {
      FetchedIsAnswer(cache.disk, jobs, key, server, 0);
      FetchedIsAnswer(cache.disk, jobs, key, server, 1);
      StoredElse(cache.disk, jobs, key, server, stored, v);
      var after, now := AfterBatch(cache, jobs, key, server), StoredBatch(cache.disk, jobs, key, server, stored);
      SlotInvIs(SlotOf(after.disk, k), k, now, key);
      if DiskInv(after.disk, now, key) { SlotInvAt(after.disk, k, now, key); }
    }
  }

  lemma ForeignBatch(b: Batch, u: string, v: string, k: string, owner: Option<string>)
    requires b.Ok() && b.jobs == [u, v] && b.key(u) == k && b.key(v) == k
    requires b.Fetched(0).Ok? && b.Fetched(0).etag == "" && b.Fetched(0).lastModified == ""
    requires b.entries[1].Trusted() && b.Fetched(1).NotModified?
    ensures b.Has(k) && b.SomeFirstOk(k) && !b.SomeLaterOk(k)
    ensures b.Written(k) == Some(b.Fetched(0).payload) && b.OwnerAfter(k, owner) == Some(v)
  {
    var one := b.Upto(1);
    assert one.jobs == [u] && b.jobs[0] == u && b.jobs[1] == v;
    PrefixJob(b, 1, 0);
    assert one.Upto(0).jobs == [] && !b.Upto(0).Has(k);
    assert one.Written(k) == Some(b.Fetched(0).payload);
    assert b.FirstOk(0);
  }
}
