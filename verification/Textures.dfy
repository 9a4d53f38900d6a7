/** The image textures: a cache by name, its inverse by texture id, the reference counts
    that the cache and the image views share, and the textures the driver holds. */
module Textures {
  import opened Common
  import opened Resources

  /** `live` holds the textures that exist in the driver. */
  datatype Textures = Textures(cache: map<string, int>, loaded: map<int, string>, reg: Registry, live: set<int>)

  /** What a lookup meets outside: whether a URL's file is there or can be fetched, and the
      new texture that loading the file gives, if it does. */
  datatype Supply = Supply(available: bool, texture: Option<int>)

  function WithRelease(t: Textures, id: int, now: Word): Textures {
    t.(reg := Released(t.reg, id, now), live := t.live - ClosedTextures(t.reg, id))
  }

  /** Forgets a cached texture by id and deletes it, whatever its count. */
  function Freed(t: Textures, id: int): Textures {
    if id !in t.loaded then t
    else
      var name := t.loaded[id];
      var t1 := t.(loaded := t.loaded - {id});
      if name !in t.cache then t1
      else t1.(cache := t1.cache - {name}, live := t1.live - {t1.cache[name]})
  }

  /** Takes the old texture of a name out of the cache before a reload: deleted with the
      cache's use if that was the last, and otherwise left to the views that still use it. */
  function DropOld(t: Textures, name: string, now: Word): Textures {
    if name !in t.cache then t
    else
      var id := t.cache[name];
      var t1 := WithRelease(t.(cache := t.cache - {name}, loaded := t.loaded - {id}), id, now);
      if RefsAfter(t.reg, id) != 0 then t1.(reg := HandedOver(t1.reg, id))
      else t1.(live := t1.live - {id})
  }

  function Store(t: Textures, name: string, id: int): Textures {
    Textures(t.cache[name := id], t.loaded[id := name], Managed(t.reg, id, true), t.live + {id})
  }

  /** The textures after a lookup and the id found; `name` is none for a blank source. */
  function GetImage(t: Textures, name: Option<string>, reload: bool, supply: Supply, now: Word): (Textures, int) {
    if name == None || !supply.available then (t, 0)
    else if !reload && name.value in t.cache then (t, t.cache[name.value])
    else
      var dropped := DropOld(t, name.value, now);
      match supply.texture
      case None => (dropped, 0)
      case Some(id) => (Store(dropped, name.value, id), id)
  }

  /** A texture from the driver is one that it does not hold yet. */
  predicate Fresh(t: Textures, name: Option<string>, supply: Supply, now: Word) {
    name.Some? && supply.texture.Some? ==>
      supply.texture.value != 0 && supply.texture.value !in DropOld(t, name.value, now).live
  }

  // ---- the cleanup ----

  const IDLE_US: Word := 10_000_000
  const STALE_US: Word := 60_000_000
  const KEPT: int := 8

  /** A texture used by the cache alone, and released by a view over ten seconds ago. */
  predicate Idle(t: Textures, name: string, now: Word) {
    && name in t.cache && t.cache[name] in t.reg
    && var m := t.reg[t.cache[name]];
       m.refs == 1 && m.lastRelease != 0 && Elapsed(now, m.lastRelease) > IDLE_US
  }

  datatype Victim = Victim(released: Word, name: string)

  /** Ordered by time of release, one for each time. */
  predicate Ascending(victims: seq<Victim>) {
    forall i, j :: 0 <= i < j < |victims| ==> victims[i].released < victims[j].released
  }

  /** Adds a victim in its place unless one has that time. */
  function Insert(victims: seq<Victim>, v: Victim): seq<Victim> {
    if victims == [] then [v]
    else if v.released < victims[0].released then [v] + victims
    else if v.released == victims[0].released then victims
    else [victims[0]] + Insert(victims[1..], v)
  }

  /** The victims among `names`, found in that order. */
  function Victims(t: Textures, names: seq<string>, now: Word): seq<Victim> {
    if names == [] then []
    else
      var before, name := Victims(t, names[..|names| - 1], now), names[|names| - 1];
      if Idle(t, name, now) then Insert(before, Victim(t.reg[t.cache[name]].lastRelease, name)) else before
  }

  function RemoveTexture(t: Textures, name: string, now: Word): Textures {
    if name !in t.cache then t
    else
      var id := t.cache[name];
      var t1 := WithRelease(t.(cache := t.cache - {name}, loaded := t.loaded - {id}), id, now);
      t1.(live := t1.live - {id})
  }

  /** Whether the victim at position `i` goes, in a cache of `n`: more than eight would be
      left, or it is stale. */
  predicate Goes(victims: seq<Victim>, i: nat, n: int, now: Word)
    requires i < |victims|
  {
    n - (i + 1) > KEPT || Elapsed(now, victims[i].released) > STALE_US
  }

  /** The textures after the first `k` victims were looked at. */
  function RemovedUpTo(t: Textures, victims: seq<Victim>, k: nat, now: Word): Textures
    requires k <= |victims|
  {
    if k == 0 then t
    else
      var before := RemovedUpTo(t, victims, k - 1, now);
      if Goes(victims, k - 1, |t.cache|, now) then RemoveTexture(before, victims[k - 1].name, now) else before
  }

  /** The cleanup, given the order in which it walks the cache. */
  function Cleanup(t: Textures, names: seq<string>, now: Word): Textures {
    if |t.cache| < 2 then t
    else
      var victims := Victims(t, names, now);
      RemovedUpTo(t, victims, |victims|, now)
  }

  /** Every name of the cache once. */
  ghost predicate Enumerates(names: seq<string>, cache: map<string, int>) {
    && (forall n :: n in cache <==> n in names)
    && forall i, j :: 0 <= i < j < |names| ==> names[i] != names[j]
  }

  // ---- what every operation keeps ----

  /** The cache and the loaded textures are inverses. */
  ghost predicate Inverse(t: Textures) {
    && (forall n :: n in t.cache ==> t.cache[n] in t.loaded && t.loaded[t.cache[n]] == n)
    && (forall id :: id in t.loaded ==> t.loaded[id] in t.cache && t.cache[t.loaded[id]] == id)
  }

  /** The uses of a texture: the cache's and one for each view that holds it. */
  function Uses(t: Textures, held: multiset<int>, id: int): nat {
    (if id in t.loaded then 1 else 0) + held[id]
  }

  ghost predicate CountedAt(t: Textures, held: multiset<int>, id: int) {
    && (id in t.reg <==> id in t.live)
    && (id in t.reg <==> Uses(t, held, id) > 0)
    && (id in t.reg ==> t.reg[id].refs == Uses(t, held, id) && t.reg[id].texture)
  }

  /** What is registered, what the driver holds and what is in use are the same textures,
      and the counts are the numbers of uses. */
  ghost predicate Counted(t: Textures, held: multiset<int>) {
    && 0 !in t.loaded && 0 !in t.reg && 0 !in t.live
    && forall id :: id != 0 ==> CountedAt(t, held, id)
  }

  ghost predicate Sound(t: Textures, held: multiset<int>) { Inverse(t) && Counted(t, held) }

  lemma SoundIsLive(t: Textures, held: multiset<int>)
    requires Counted(t, held)
    ensures Live(t.reg)
  {
    forall id | id in t.reg ensures t.reg[id].refs > 0 { assert CountedAt(t, held, id); }
  }

  lemma CountedOthers(t: Textures, t1: Textures, held: multiset<int>, held1: multiset<int>, id: int)
    requires Counted(t, held)
    requires forall i :: i != id ==> held[i] == held1[i]
    requires forall i :: i != id ==> (i in t.loaded <==> i in t1.loaded) && (i in t.live <==> i in t1.live)
    requires forall i :: i != id ==> (i in t.reg <==> i in t1.reg) && (i in t.reg ==> t.reg[i] == t1.reg[i])
    requires id != 0 ==> CountedAt(t1, held1, id)
    requires id == 0 ==> 0 !in t1.loaded && 0 !in t1.reg && 0 !in t1.live
    ensures Counted(t1, held1)
  {
    forall i | i != 0 ensures CountedAt(t1, held1, i) {
      if i != id { assert CountedAt(t, held, i); }
    }
  }

  /** A view takes up a texture that is in use. */
  lemma ManageKeeps(t: Textures, held: multiset<int>, id: int)
    requires Sound(t, held) && id in t.reg
    ensures Sound(t.(reg := Managed(t.reg, id, false)), held + multiset{id})
  {
    assert CountedAt(t, held, id);
    CountedOthers(t, t.(reg := Managed(t.reg, id, false)), held, held + multiset{id}, id);
  }

  /** A view gives up the texture it holds. If it was the last use there is nothing left for
      the cache to free. */
  lemma ViewReleaseKeeps(t: Textures, held: multiset<int>, id: int, now: Word)
    requires Sound(t, held) && id != 0 && held[id] > 0
    ensures Sound(WithRelease(t, id, now), held - multiset{id})
    ensures RefsAfter(t.reg, id) == 0 ==> Freed(WithRelease(t, id, now), id) == WithRelease(t, id, now)
  {
    assert CountedAt(t, held, id);
    CountedOthers(t, WithRelease(t, id, now), held, held - multiset{id}, id);
  }

  lemma DropOldKeeps(t: Textures, held: multiset<int>, name: string, now: Word)
    requires Sound(t, held)
    ensures Sound(DropOld(t, name, now), held) && name !in DropOld(t, name, now).cache
  {
    if name in t.cache {
      var id := t.cache[name];
      assert CountedAt(t, held, id);
      CountedOthers(t, DropOld(t, name, now), held, held, id);
    }
  }

  lemma StoreKeeps(t: Textures, held: multiset<int>, name: string, id: int)
    requires Sound(t, held) && name !in t.cache && id != 0 && id !in t.live
    ensures Sound(Store(t, name, id), held)
  {
    assert CountedAt(t, held, id);
    CountedOthers(t, Store(t, name, id), held, held, id);
  }

  /** A lookup keeps the books, and what it finds is in the cache; without a reload a cached
      name is found as it is. */
  lemma GetImageKeeps(t: Textures, held: multiset<int>, name: Option<string>, reload: bool, supply: Supply, now: Word)
    requires Sound(t, held) && Fresh(t, name, supply, now)
    ensures var (t1, id) := GetImage(t, name, reload, supply, now);
            && Sound(t1, held)
            && (id != 0 ==> id in t1.loaded && name == Some(t1.loaded[id]) && id in t1.reg)
            && (name.Some? && name.value in t.cache && !reload && supply.available ==>
                  t1 == t && id == t.cache[name.value])
  {
    hide Counted, Store, DropOld;
    if name.Some? {
      DropOldKeeps(t, held, name.value, now);
      if supply.texture.Some? && supply.available && (reload || name.value !in t.cache) {
        StoreKeeps(DropOld(t, name.value, now), held, name.value, supply.texture.value);
        StoreHas(DropOld(t, name.value, now), held, name.value, supply.texture.value);
      }
      if name.value in t.cache { CachedIsRegistered(t, held, name.value); }
    }
  }

  lemma StoreHas(t: Textures, held: multiset<int>, name: string, id: int)
    requires id != 0
    ensures var t1 := Store(t, name, id); id in t1.loaded && t1.loaded[id] == name && id in t1.reg
  {
  }

  lemma CachedIsRegistered(t: Textures, held: multiset<int>, name: string)
    requires Sound(t, held) && name in t.cache
    ensures t.cache[name] in t.reg && t.cache[name] != 0
  {
    assert CountedAt(t, held, t.cache[name]);
  }

  /** Freeing a texture directly breaks the books exactly when it is cached: it is deleted
      but stays registered, for nothing will release the cache's use. */
  lemma DirectFreeLeaks(t: Textures, held: multiset<int>, id: int)
    requires Sound(t, held)
    ensures Sound(Freed(t, id), held) <==> id !in t.loaded
    ensures id in t.loaded ==> id in Freed(t, id).reg && id !in Freed(t, id).live && id !in Freed(t, id).loaded
  {
    if id in t.loaded {
      assert CountedAt(t, held, id);
      assert !CountedAt(Freed(t, id), held, id);
    }
  }

  // ---- the cleanup removes exactly this ----

  lemma RemoveKeeps(t: Textures, held: multiset<int>, name: string, now: Word)
    requires Sound(t, held) && name in t.cache && t.cache[name] in t.reg && t.reg[t.cache[name]].refs == 1
    ensures Sound(RemoveTexture(t, name, now), held) && held[t.cache[name]] == 0
  {
    var id := t.cache[name];
    assert CountedAt(t, held, id);
    CountedOthers(t, RemoveTexture(t, name, now), held, held, id);
  }

  lemma {:induction false} InsertKeepsAscending(victims: seq<Victim>, v: Victim)
    requires Ascending(victims)
    ensures Ascending(Insert(victims, v))
    ensures forall w :: w in Insert(victims, v) ==> w in victims || w == v
    ensures forall w :: w in victims ==> w in Insert(victims, v)
    ensures exists w :: w in Insert(victims, v) && w.released == v.released
  {
    if victims == [] || v.released < victims[0].released {
      assert Insert(victims, v)[0] == v;
    } else if v.released == victims[0].released {
      assert victims[0] in victims;
    } else {
      InsertKeepsAscending(victims[1..], v);
      var rest := Insert(victims[1..], v);
      assert victims == [victims[0]] + victims[1..];
      forall i | 0 <= i < |rest| ensures victims[0].released < rest[i].released { assert rest[i] in rest; }
      AscendingCons(victims[0], rest);
      var w :| w in rest && w.released == v.released;
      assert w in Insert(victims, v);
    }
  }

  lemma AscendingCons(v: Victim, victims: seq<Victim>)
    requires Ascending(victims) && forall i :: 0 <= i < |victims| ==> v.released < victims[i].released
    ensures Ascending([v] + victims)
  {
  }

  /** The victims come in order of release and are idle names with their times; every idle
      name is one, unless another was released at the very same time. */
  lemma {:induction false} VictimsAreIdle(t: Textures, names: seq<string>, now: Word)
    ensures Ascending(Victims(t, names, now))
    ensures forall v :: v in Victims(t, names, now) ==>
              v.name in names && Idle(t, v.name, now) && v.released == t.reg[t.cache[v.name]].lastRelease
    ensures forall n :: n in names && Idle(t, n, now) ==>
              exists v :: v in Victims(t, names, now) && v.released == t.reg[t.cache[n]].lastRelease
  {
    if names != [] {
      hide Insert;
      var before, name := names[..|names| - 1], names[|names| - 1];
      VictimsAreIdle(t, before, now);
      assert names == before + [name];
      if Idle(t, name, now) {
        InsertKeepsAscending(Victims(t, before, now), Victim(t.reg[t.cache[name]].lastRelease, name));
      }
    }
  }

  lemma VictimNamesDiffer(t: Textures, names: seq<string>, now: Word, i: nat, j: nat)
    requires i < j < |Victims(t, names, now)|
    ensures Victims(t, names, now)[i].name != Victims(t, names, now)[j].name
  {
    hide Victims;
    VictimsAreIdle(t, names, now);
    var victims := Victims(t, names, now);
    assert victims[i] in victims && victims[j] in victims;
  }

  /** The entries below position `k` that go are gone, and nothing else is touched. */
  ghost predicate Swept(t: Textures, victims: seq<Victim>, k: nat, now: Word, after: Textures)
    requires k <= |victims|
  {
    && (forall n :: n in after.cache <==> n in t.cache && !GoneBelow(t, victims, k, now, n))
    && (forall n :: n in after.cache ==> after.cache[n] == t.cache[n])
    && (forall n :: n in after.cache ==> (t.cache[n] in after.reg <==> t.cache[n] in t.reg))
    && (forall n :: n in after.cache && t.cache[n] in t.reg ==> after.reg[t.cache[n]] == t.reg[t.cache[n]])
  }

  /** Some victim below position `k` is this name and goes. */
  ghost predicate GoneBelow(t: Textures, victims: seq<Victim>, k: nat, now: Word, name: string)
    requires k <= |victims|
  {
    exists i :: 0 <= i < k && victims[i].name == name && Goes(victims, i, |t.cache|, now)
  }

  lemma RemoveSweeps(t: Textures, victims: seq<Victim>, k: nat, now: Word, before: Textures, held: multiset<int>)
    requires k < |victims| && Sound(before, held) && Swept(t, victims, k, now, before)
    requires victims[k].name in before.cache && Goes(victims, k, |t.cache|, now)
    ensures Swept(t, victims, k + 1, now, RemoveTexture(before, victims[k].name, now))
  {
    hide Goes, Counted, GoneBelow, Inverse;
    GoneNext(t, victims, k, now);
    IdsDiffer(before, victims[k].name);
  }

  lemma IdsDiffer(t: Textures, name: string)
    requires Inverse(t) && name in t.cache
    ensures forall n :: n in t.cache && n != name ==> t.cache[n] != t.cache[name]
  {
    forall n | n in t.cache && n != name ensures t.cache[n] != t.cache[name] {
      assert t.loaded[t.cache[n]] == n;
    }
  }

  lemma GoneNext(t: Textures, victims: seq<Victim>, k: nat, now: Word)
    requires k < |victims|
    ensures forall n :: GoneBelow(t, victims, k + 1, now, n) <==>
              GoneBelow(t, victims, k, now, n) || (n == victims[k].name && Goes(victims, k, |t.cache|, now))
  {
  }

  lemma KeepSweeps(t: Textures, victims: seq<Victim>, k: nat, now: Word, before: Textures)
    requires k < |victims| && Swept(t, victims, k, now, before) && !Goes(victims, k, |t.cache|, now)
    ensures Swept(t, victims, k + 1, now, before)
  {
  }

  lemma {:induction false} SweepKeeps(t: Textures, held: multiset<int>, names: seq<string>, k: nat, now: Word)
    requires Sound(t, held) && k <= |Victims(t, names, now)|
    ensures var victims := Victims(t, names, now);
            && Sound(RemovedUpTo(t, victims, k, now), held)
            && Swept(t, victims, k, now, RemovedUpTo(t, victims, k, now))
  {
    if k == 0 {
      NothingSwept(t, Victims(t, names, now), now);
    } else {
      hide Victims, Goes, Sound, RemoveTexture, Swept;
      SweepKeeps(t, held, names, k - 1, now);
      SweepStep(t, held, names, k - 1, now, RemovedUpTo(t, Victims(t, names, now), k - 1, now));
    }
  }

  lemma NothingSwept(t: Textures, victims: seq<Victim>, now: Word)
    ensures Swept(t, victims, 0, now, t)
  {
    hide Goes;
  }

  lemma SweepStep(t: Textures, held: multiset<int>, names: seq<string>, k: nat, now: Word, before: Textures)
    requires k < |Victims(t, names, now)| && Sound(before, held) && Swept(t, Victims(t, names, now), k, now, before)
    ensures var victims := Victims(t, names, now);
            var after :=
              if Goes(victims, k, |t.cache|, now) then RemoveTexture(before, victims[k].name, now) else before;
            Sound(after, held) && Swept(t, victims, k + 1, now, after)
  {
    hide Victims, Goes, Sound, RemoveTexture, Swept;
    var victims := Victims(t, names, now);
    if Goes(victims, k, |t.cache|, now) {
      StillThere(t, names, k, now, before);
      RemoveKeeps(before, held, victims[k].name, now);
      RemoveSweeps(t, victims, k, now, before, held);
    } else {
      KeepSweeps(t, victims, k, now, before);
    }
  }

  /** The next victim is still cached, with the cache its only user. */
  lemma StillThere(t: Textures, names: seq<string>, k: nat, now: Word, before: Textures)
    requires k < |Victims(t, names, now)| && Swept(t, Victims(t, names, now), k, now, before)
    ensures var name := Victims(t, names, now)[k].name;
            && name in before.cache && before.cache[name] in before.reg
            && before.cache[name] == t.cache[name]
            && before.reg[before.cache[name]].refs == 1
  {
    hide Victims, Goes;
    var victims := Victims(t, names, now);
    VictimsAreIdle(t, names, now);
    assert victims[k] in victims;
    forall i | 0 <= i < k ensures victims[i].name != victims[k].name { VictimNamesDiffer(t, names, now, i, k); }
  }

  /** The victims that go are the oldest: the first so many as the cache has over nine, and
      any more that are stale. */
  lemma OldestGo(victims: seq<Victim>, i: nat, j: nat, n: int, now: Word)
    requires Ascending(victims) && i <= j < |victims| && Goes(victims, j, n, now)
    requires victims[j].released <= now
    ensures Goes(victims, i, n, now)
  {
  }

  /** A cleanup keeps the books, removes no texture that a view holds, and removes exactly the
      idle textures that come early enough in order of release or are stale. */
  lemma CleanupIsExact(t: Textures, held: multiset<int>, names: seq<string>, now: Word)
    requires Sound(t, held) && |t.cache| >= 2
    ensures var victims, after := Victims(t, names, now), Cleanup(t, names, now);
            && Sound(after, held)
            && (forall n :: n in after.cache <==> n in t.cache && !GoneBelow(t, victims, |victims|, now, n))
            && (forall n :: n in after.cache ==> after.cache[n] == t.cache[n])
            && (forall n :: n in t.cache && held[t.cache[n]] > 0 ==> n in after.cache && after.cache[n] == t.cache[n])
  {
    hide Victims, Goes, Sound;
    var victims := Victims(t, names, now);
    SweepKeeps(t, held, names, |victims|, now);
    forall n | n in t.cache && held[t.cache[n]] > 0 ensures !GoneBelow(t, victims, |victims|, now, n) {
      forall i | 0 <= i < |victims| && victims[i].name == n ensures false {
        VictimHasNoView(t, held, names, now, i);
      }
    }
  }

  lemma VictimHasNoView(t: Textures, held: multiset<int>, names: seq<string>, now: Word, i: nat)
    requires Sound(t, held) && i < |Victims(t, names, now)|
    ensures var name := Victims(t, names, now)[i].name; name in t.cache && held[t.cache[name]] == 0
  {
    hide Victims;
    VictimsAreIdle(t, names, now);
    var v := Victims(t, names, now)[i];
    assert v in Victims(t, names, now);
    assert CountedAt(t, held, t.cache[v.name]);
  }
}
