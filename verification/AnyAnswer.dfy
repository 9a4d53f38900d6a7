/** When a batch keeps the disk cache sound whatever the server answers. */
module AnyAnswer {
  import opened Common
  import opened DiskCache
  import opened CacheInvariant
  import opened SharedKeys

  /** Jobs with keys of their own keep the disk. */
  lemma DistinctIsKept(disk: Disk, jobs: seq<string>, key: CacheKey, server: Server, stored: Stored)
    requires DiskInv(disk, stored, key) && PlainBatch(disk, jobs, key, server) && DistinctKeys(jobs, key)
    ensures BatchKept(disk, jobs, key, server, stored)
  {
    hide DiskInv, EnsureEach, Misanswered, SlotOf, PlainBatch, StoredBatch, BatchKept;
    hide Committed, Downloaded, Prepared, Entries;
    var cache := Cache(disk, {}, map[]);
    FormsAgreeOnJobs(cache, jobs, key, server);
    forall i | 0 <= i < |jobs| ensures !Misanswered(SlotOf(disk, key(jobs[i])), jobs[i], server) {
      NeverMisanswered(disk, jobs[i], key, server, stored);
    }
    EachKeeps(cache, jobs, key, server, stored);
    DiskInvExactly(cache, jobs, key, server, stored);
  }

  /** A server that answers every request alike. */
  function Always(payload: Payload): Server { (_, _) => Ok("tag", "", 1, payload) }

  lemma AlwaysIsPlain(disk: Disk, jobs: seq<string>, key: CacheKey, payload: Payload)
    requires forall i :: 0 <= i < |jobs| ==> PlainUrl(jobs[i])
    ensures PlainBatch(disk, jobs, key, Always(payload))
    ensures forall i :: 0 <= i < |jobs| ==>
              BatchOf(disk, jobs, key, Always(payload)).Fetched(i) == Ok("tag", "", 1, payload)
  {
    hide ReadEntry;
  }

  lemma {:induction false} AlwaysOwned(b: Batch, k: string, owner: Option<string>)
    requires b.Ok() && b.Has(k) && forall i :: 0 <= i < |b.jobs| ==> b.Fetched(i).Ok? && b.Fetched(i).etag == "tag"
    ensures b.OwnerAfter(k, owner).Some?
    decreases |b.jobs|
  {
    var last := |b.jobs| - 1;
    LastKey(b, k);
    forall i | 0 <= i < last ensures b.Upto(last).Fetched(i) == b.Fetched(i) { PrefixJob(b, last, i); }
    if b.Upto(last).Has(k) { AlwaysOwned(b.Upto(last), k, owner); }
  }

  /** A second job of a key that is answered 200 takes the body of the key away. */
  lemma SecondOk(b: Batch, i: nat, j: nat)
    requires b.Ok() && i < j < |b.jobs| && b.key(b.jobs[i]) == b.key(b.jobs[j]) && b.Fetched(j).Ok?
    ensures b.SomeLaterOk(b.key(b.jobs[j])) && b.Has(b.key(b.jobs[j]))
  {
    assert b.Upto(j).jobs[i] == b.jobs[i];
    assert b.LaterOk(j);
  }

  /** The batch keeps the disk invariant whatever it is answered. */
  ghost predicate AlwaysKept(cache: Cache, jobs: seq<string>, key: CacheKey, stored: Stored) {
    forall server: Server :: PlainBatch(cache.disk, jobs, key, server) ==>
      DiskInv(AfterBatch(cache, jobs, key, server).disk, StoredBatch(cache.disk, jobs, key, server, stored), key)
  }

  /** A batch keeps the disk invariant whatever it is answered exactly when no two of its jobs
      share a key. */
  lemma KeptExactly(cache: Cache, jobs: seq<string>, key: CacheKey, stored: Stored)
    requires DiskInv(cache.disk, stored, key) && forall i :: 0 <= i < |jobs| ==> PlainUrl(jobs[i])
    ensures AlwaysKept(cache, jobs, key, stored) <==> DistinctKeys(jobs, key)
  {
    hide DiskInv, AfterBatch, StoredBatch, PlainBatch, PlainUrl, BatchKept;
    if DistinctKeys(jobs, key) {
      forall server: Server | PlainBatch(cache.disk, jobs, key, server)
        ensures DiskInv(AfterBatch(cache, jobs, key, server).disk,
                        StoredBatch(cache.disk, jobs, key, server, stored), key)
      {
        DistinctIsKept(cache.disk, jobs, key, server, stored);
        DiskInvExactly(cache, jobs, key, server, stored);
      }
    } else {
      var i, j :| 0 <= i < j < |jobs| && key(jobs[i]) == key(jobs[j]);
      AlwaysIsPlain(cache.disk, jobs, key, "p");
      SharedIsLost(cache.disk, jobs, key, stored, "p", i, j);
      DiskInvExactly(cache, jobs, key, Always("p"), stored);
    }
  }

  lemma SharedIsLost(disk: Disk, jobs: seq<string>, key: CacheKey, stored: Stored, payload: Payload, i: nat, j: nat)
    requires i < j < |jobs| && key(jobs[i]) == key(jobs[j]) && forall n :: 0 <= n < |jobs| ==> PlainUrl(jobs[n])
    ensures !BatchKept(disk, jobs, key, Always(payload), stored)
  {
    hide StoredBatch, PlainBatch, PlainUrl, Batch.OwnerAfter, Batch.SomeLaterOk, Batch.SomeFirstOk, Batch.Has, BatchOf;
    var b := BatchOf(disk, jobs, key, Always(payload));
    AlwaysIsPlain(disk, jobs, key, payload);
    SecondOk(b, i, j);
    AlwaysOwned(b, key(jobs[j]), Owner(SlotOf(disk, key(jobs[j]))));
  }

  lemma {:induction false} WrittenAlone(b: Batch, i: nat)
    requires b.Ok() && DistinctKeys(b.jobs, b.key) && i < |b.jobs| && b.Fetched(i).Ok?
    ensures b.Written(b.key(b.jobs[i])) == Some(b.Fetched(i).payload)
    decreases |b.jobs|
  {
    var last := |b.jobs| - 1;
    if i < last {
      PrefixJob(b, last, i);
      KeysSplit(b.jobs, b.key);
      WrittenAlone(b.Upto(last), i);
    }
  }

  /** Every URL mapped after the batch is served the body last stored for it, whatever the
      batch is answered. */
  ghost predicate AlwaysServed(cache: Cache, jobs: seq<string>, key: CacheKey, stored: Stored) {
    forall server: Server :: PlainBatch(cache.disk, jobs, key, server) ==>
      MapInv(AfterBatch(cache, jobs, key, server), StoredBatch(cache.disk, jobs, key, server, stored), key)
  }

  /** No job shares its key with another, or with a URL that is mapped already. */
  predicate NoneShared(cache: Cache, jobs: seq<string>, key: CacheKey) {
    && DistinctKeys(jobs, key)
    && forall u, i :: u in cache.urlToLocal && 0 <= i < |jobs| ==> key(u) != key(jobs[i])
  }

  lemma AloneIsFirst(b: Batch, i: nat)
    requires b.Ok() && DistinctKeys(b.jobs, b.key) && i < |b.jobs|
    ensures !b.Upto(i).Has(b.key(b.jobs[i]))
  {
    forall j | 0 <= j < i ensures b.key(b.Upto(i).jobs[j]) != b.key(b.jobs[i]) {
      assert b.Upto(i).jobs[j] == b.jobs[j];
    }
  }

  lemma OwnWhenAlone(cache: Cache, jobs: seq<string>, key: CacheKey, server: Server, stored: Stored, u: string)
    requires NoneShared(cache, jobs, key) && u in AfterBatch(cache, jobs, key, server).urlToLocal
    ensures Own(BatchOf(cache.disk, jobs, key, server), key(u), StoredBatch(cache.disk, jobs, key, server, stored), u)
  {
    var b := BatchOf(cache.disk, jobs, key, server);
    hide BatchOf, StoredBatch, AfterBatch, Batch.Written, Batch.Upto, Batch.Fetched, Batch.Has;
    MappedExactly(cache, jobs, key, server, u);
    forall i | 0 <= i < |jobs| && key(jobs[i]) == key(u) ensures jobs[i] == u && !b.LaterOk(i) {
      AloneIsFirst(b, i);
    }
    if i :| 0 <= i < |jobs| && key(jobs[i]) == key(u) && b.FirstOk(i) {
      WrittenAlone(b, i);
      StoredAtOk(cache.disk, jobs, key, server, stored, i);
    }
  }

  lemma ServedAlways(cache: Cache, jobs: seq<string>, key: CacheKey, server: Server, stored: Stored)
    requires DiskInv(cache.disk, stored, key) && MapInv(cache, stored, key) && NoneShared(cache, jobs, key)
    ensures MapInv(AfterBatch(cache, jobs, key, server), StoredBatch(cache.disk, jobs, key, server, stored), key)
  {
    hide DiskInv, MapInv, NoneShared, AfterBatch, StoredBatch, Own, BatchOf;
    MapInvExactly(cache, jobs, key, server, stored);
    forall u | u in AfterBatch(cache, jobs, key, server).urlToLocal
      ensures Own(BatchOf(cache.disk, jobs, key, server), key(u), StoredBatch(cache.disk, jobs, key, server, stored), u)
    {
      OwnWhenAlone(cache, jobs, key, server, stored, u);
    }
  }

  /** Two jobs of one key that are both answered 200 leave the first mapped to no body. */
  lemma SharedIsUnserved(cache: Cache, jobs: seq<string>, key: CacheKey, stored: Stored, i: nat, j: nat)
    requires DiskInv(cache.disk, stored, key) && MapInv(cache, stored, key)
    requires i < j < |jobs| && key(jobs[i]) == key(jobs[j]) && forall n :: 0 <= n < |jobs| ==> PlainUrl(jobs[n])
    ensures !MapInv(AfterBatch(cache, jobs, key, Always("p")),
                    StoredBatch(cache.disk, jobs, key, Always("p"), stored), key)
  {
    hide DiskInv, MapInv, AfterBatch, StoredBatch, PlainUrl, PlainBatch, BatchOf;
    hide Batch.Has, Batch.SomeLaterOk, Batch.SomeFirstOk;
    var b := BatchOf(cache.disk, jobs, key, Always("p"));
    AlwaysIsPlain(cache.disk, jobs, key, "p");
    SecondOk(b, i, j);
    MapInvExactly(cache, jobs, key, Always("p"), stored);
    var first := FirstOfKey(b, i);
    MappedExactly(cache, jobs, key, Always("p"), jobs[first]);
    assert ServesJob(b, first);
  }

  lemma FirstOfKey(b: Batch, i: nat) returns (first: nat)
    requires b.Ok() && i < |b.jobs|
    ensures first <= i && b.key(b.jobs[first]) == b.key(b.jobs[i]) && !b.Upto(first).Has(b.key(b.jobs[i]))
    decreases i
  {
    first := i;
    if b.Upto(i).Has(b.key(b.jobs[i])) {
      var j :| 0 <= j < i && b.key(b.Upto(i).jobs[j]) == b.key(b.jobs[i]);
      first := FirstOfKey(b, j);
    }
  }

  /** A job that shares the key of a mapped URL replaces its body. */
  lemma MappedIsReplaced(cache: Cache, jobs: seq<string>, key: CacheKey, stored: Stored, u: string, i: nat,
                         payload: Payload)
    requires DiskInv(cache.disk, stored, key) && MapInv(cache, stored, key) && DistinctKeys(jobs, key)
    requires u in cache.urlToLocal && i < |jobs| && key(jobs[i]) == key(u) && u !in jobs
    requires forall n :: 0 <= n < |jobs| ==> PlainUrl(jobs[n])
    requires u in stored && payload != stored[u]
    ensures !MapInv(AfterBatch(cache, jobs, key, Always(payload)),
                    StoredBatch(cache.disk, jobs, key, Always(payload), stored), key)
  {
    hide DiskInv, MapInv, AfterBatch, StoredBatch, PlainUrl, PlainBatch, BatchOf, Batch.Has, Batch.Written;
    var b := BatchOf(cache.disk, jobs, key, Always(payload));
    AlwaysIsPlain(cache.disk, jobs, key, payload);
    StoredElse(cache.disk, jobs, key, Always(payload), stored, u);
    WrittenAlone(b, i);
    MapInvExactly(cache, jobs, key, Always(payload), stored);
    MappedExactly(cache, jobs, key, Always(payload), u);
    assert b.FirstOk(i) || b.LaterOk(i);
  }

  /** A batch serves every mapped URL its own body whatever it is answered exactly when no job
      shares its key with another or with a mapped URL. */
  lemma ServedAlwaysExactly(cache: Cache, jobs: seq<string>, key: CacheKey, stored: Stored)
    requires DiskInv(cache.disk, stored, key) && MapInv(cache, stored, key) && Unmapped(jobs, cache.urlToLocal)
    requires forall i :: 0 <= i < |jobs| ==> PlainUrl(jobs[i])
    ensures AlwaysServed(cache, jobs, key, stored) <==> NoneShared(cache, jobs, key)
  {
    hide DiskInv, AfterBatch, StoredBatch, PlainBatch, PlainUrl;
    if NoneShared(cache, jobs, key) {
      forall server: Server | PlainBatch(cache.disk, jobs, key, server)
        ensures MapInv(AfterBatch(cache, jobs, key, server), StoredBatch(cache.disk, jobs, key, server, stored), key)
      {
        ServedAlways(cache, jobs, key, server, stored);
      }
    } else if i, j :| 0 <= i < j < |jobs| && key(jobs[i]) == key(jobs[j]) {
      AlwaysIsPlain(cache.disk, jobs, key, "p");
      SharedIsUnserved(cache, jobs, key, stored, i, j);
    } else {
      var u, i :| u in cache.urlToLocal && 0 <= i < |jobs| && key(u) == key(jobs[i]);
      var payload: Payload := if stored[u] == "p" then "q" else "p";
      AlwaysIsPlain(cache.disk, jobs, key, payload);
      MappedIsReplaced(cache, jobs, key, stored, u, i, payload);
    }
  }
}
