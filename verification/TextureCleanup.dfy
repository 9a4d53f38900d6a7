/** Which texture a lookup finds, when a texture was last released, and which textures a
    cleanup takes out, from those times. */
module TextureCleanup {
  import opened Common
  import Resources
  import opened Textures
  import opened TextureViews

  // ---- what a lookup finds ----

  /** The lookup asks for a texture that is not there, or is to be loaded again. */
  predicate Loads(t: Textures, l: Lookup) {
    l.key.Some? && l.supply.available && (l.reload || l.key.value !in t.cache)
  }

  lemma InUse(t: Textures, held: multiset<int>, id: int)
    requires Sound(t, held) && id in t.loaded
    ensures id != 0 && id in t.reg && t.reg[id].refs == 1 + held[id]
  {
    assert CountedAt(t, held, id);
  }

  /** A cached name is found as it is; otherwise what is loaded is found and cached, and what
      was cached under the name is gone, from the driver too if no view holds it. */
  lemma FoundExactly(t: Textures, held: multiset<int>, l: Lookup)
    requires Sound(t, held) && Fresh(t, l.key, l.supply, l.now)
    ensures var (t1, id) := Found(t, l);
            var loaded := if l.supply.texture.Some? then l.supply.texture.value else 0;
            && id == (if Loads(t, l) then loaded
                      else if l.key.Some? && l.supply.available then t.cache[l.key.value]
                      else 0)
            && (!Loads(t, l) ==> t1 == t)
            && (Loads(t, l) ==>
                  && (forall n :: n != l.key.value ==>
                        (n in t1.cache <==> n in t.cache) && (n in t.cache ==> t1.cache[n] == t.cache[n]))
                  && (l.key.value in t1.cache <==> loaded != 0)
                  && (loaded != 0 ==> t1.cache[l.key.value] == loaded)
                  && forall i :: TextureAfter(t, held, l.key.value, loaded, t1, i))
  {
    if Loads(t, l) {
      var name := l.key.value;
      var dropped := DropOld(t, name, l.now);
      DropOldKeeps(t, held, name, l.now);
      var loaded := if l.supply.texture.Some? then l.supply.texture.value else 0;
      forall i ensures TextureAfter(t, held, name, loaded, Found(t, l).0, i) {
        DroppedExactly(t, held, name, l.now, i);
        NotThere(dropped, held, loaded);
      }
    } else if l.key.Some? && l.key.value in t.cache {
      InUse(t, held, t.cache[l.key.value]);
    }
  }

  lemma NotThere(t: Textures, held: multiset<int>, id: int)
    requires Sound(t, held) && id !in t.live
    ensures id !in t.reg
  {
    if id != 0 { assert CountedAt(t, held, id); }
  }

  /** The new texture has one use; the one that was replaced has those of its views, under a
      manager that was not released yet, or is deleted; no other changes. */
  predicate TextureAfter(t: Textures, held: multiset<int>, name: string, loaded: int, t1: Textures, i: int) {
    if i != 0 && i == loaded then i in t1.live && i in t1.reg && t1.reg[i] == Resources.Manager(1, 0, true)
    else if name in t.cache && i == t.cache[name] then
      && (i in t1.live <==> held[i] > 0) && (i in t1.reg <==> held[i] > 0)
      && (i in t1.reg ==> t1.reg[i] == Resources.Manager(held[i], 0, true))
    else
      (i in t1.live <==> i in t.live) && (i in t1.reg <==> i in t.reg) && (i in t1.reg ==> t1.reg[i] == t.reg[i])
  }

  lemma DroppedExactly(t: Textures, held: multiset<int>, name: string, now: Word, i: int)
    requires Sound(t, held)
    ensures TextureAfter(t, held, name, 0, DropOld(t, name, now), i)
  {
    if name in t.cache { InUse(t, held, t.cache[name]); }
    if i != 0 { assert CountedAt(t, held, i); }
  }

  /** A view shows what its lookup finds; a view given another name never shows what was cached
      under it, but what is loaded anew. */
  lemma ShowsExactly(s: State, view: nat, name: string, l: Lookup, later: Word)
    requires Inv(s) && view < |s.views| && Fresh(s.t, l.key, l.supply, l.now)
    ensures var after := Step(s, Event.Named(view, name, l, later)).views;
            var again := l.reload || name != s.views[view].name;
            && |after| == |s.views| && after[view].name == name
            && (forall i :: 0 <= i < |after| && i != view ==> after[i] == s.views[i])
            && after[view].image ==
               if l.key == None || !l.supply.available then 0
               else if !again && l.key.value in s.t.cache then s.t.cache[l.key.value]
               else if l.supply.texture.Some? then l.supply.texture.value
               else 0
  {
    FoundExactly(s.t, Held(s.views), l.(reload := l.reload || name != s.views[view].name));
  }

  /** A view that changes page keeps its name, a new one has none yet, and one that goes is the
      only one to go. */
  lemma ViewsExactly(s: State, view: nat, l: Lookup, later: Word)
    requires Inv(s) && view < |s.views| && Fresh(s.t, l.key, l.supply, l.now)
    ensures Step(s, Paged(view, l, later)).views == s.views[view := View(Found(s.t, l).1, s.views[view].name)]
    ensures Step(s, Created(l)).views == s.views + [View(Found(s.t, l).1, "")]
    ensures Step(s, Destroyed(view, later)).views == s.views[..view] + s.views[view + 1..]
  {
  }

  // ---- when a texture was released ----

  /** The lookup of an event, if it has one. */
  function LookupOf(s: State, e: Event): Option<Lookup>
    requires Possible(s, e)
  {
    match e
    case Created(l) => Some(l)
    case Named(_, _, _, _) => Some(LookupFor(s, e))
    case Paged(_, l, _) => Some(l)
    case Destroyed(_, _) => None
    case Cleaned(_, _) => None
  }

  /** The event loads a texture that the driver calls `id`. */
  predicate LoadsAs(s: State, e: Event, id: int)
    requires Possible(s, e)
  {
    var l := LookupOf(s, e);
    l.Some? && Loads(s.t, l.value) && l.value.supply.texture == Some(id)
  }

  /** When a view gives up texture `id` at this event, if one does. */
  function GivenUpAt(s: State, e: Event, id: int): Option<Word>
    requires Possible(s, e)
  {
    match e
    case Named(view, _, _, later) =>
      if s.views[view].image == id && Found(s.t, LookupFor(s, e)).1 != id then Some(later) else None
    case Paged(view, l, later) =>
      if s.views[view].image == id && Found(s.t, l).1 != id then Some(later) else None
    case Destroyed(view, now) => if s.views[view].image == id then Some(now) else None
    case _ => None
  }

  /** The time a view last gave up the texture since it was loaded; zero if none did. */
  function NextRelease(s: State, e: Event, id: int, was: Word): Word
    requires Possible(s, e)
  {
    if LoadsAs(s, e, id) then 0 else if GivenUpAt(s, e, id).Some? then GivenUpAt(s, e, id).value else was
  }

  lemma FoundRelease(t: Textures, held: multiset<int>, l: Lookup, id: int)
    requires Sound(t, held) && Fresh(t, l.key, l.supply, l.now) && id in Found(t, l).0.loaded
    ensures var (t1, _) := Found(t, l);
            && id in t1.reg
            && if Loads(t, l) && l.supply.texture == Some(id) then t1.reg[id].lastRelease == 0 && held[id] == 0
               else id in t.loaded && id in t.reg && t1.reg[id].lastRelease == t.reg[id].lastRelease
  {
    GetImageKeeps(t, held, l.key, l.reload, l.supply, l.now);
    InUse(Found(t, l).0, held, id);
    if id in t.loaded { InUse(t, held, id); }
    if l.key.Some? {
      DropOldKeeps(t, held, l.key.value, l.now);
      assert id != 0 ==> CountedAt(DropOld(t, l.key.value, l.now), held, id);
    }
  }

  lemma ReboundRelease(t: Textures, held: multiset<int>, image: int, img: int, now: Word, id: int)
    requires Sound(t, held) && held[image] > 0 && (img != 0 ==> img in t.loaded) && id in t.loaded
    ensures var t1 := Rebound(t, image, img, now);
            && id in t.reg && id in t1.reg
            && t1.reg[id].lastRelease == if image == id && img != id then now else t.reg[id].lastRelease
  {
    InUse(t, held, id);
    if img != 0 { InUse(t, held, img); }
  }

  lemma SweptRelease(t: Textures, held: multiset<int>, names: seq<string>, now: Word, id: int)
    requires Sound(t, held) && id in Cleanup(t, names, now).loaded
    ensures var t1 := Cleanup(t, names, now);
            id in t.loaded && id in t.reg && id in t1.reg && t1.reg[id].lastRelease == t.reg[id].lastRelease
  {
    if |t.cache| >= 2 {
      hide Victims, RemovedUpTo, GoneBelow, Counted;
      var victims := Victims(t, names, now);
      SweepKeeps(t, held, names, |victims|, now);
      InUse(Cleanup(t, names, now), held, id);
      assert Cleanup(t, names, now).loaded[id] in t.cache;
    }
    InUse(t, held, id);
  }

  /** What an event leaves as the time of a cached texture's last release. */
  lemma StepReleases(s: State, e: Event, id: int, was: Word)
    requires Inv(s) && Possible(s, e) && id in Step(s, e).t.loaded
    requires id in s.t.loaded ==> id in s.t.reg && s.t.reg[id].lastRelease == was
    ensures var t1 := Step(s, e).t;
            id in t1.reg && t1.reg[id].lastRelease == NextRelease(s, e, id, was)
  {
    match e {
      case Created(l) =>
        var held := Held(s.views) + multiset{0};
        ShownRelease(s, l, 0, l.now, id, held);
      case Named(view, name, l, later) =>
        HeldAfter(s.views, view, s.views[view]);
        ShownRelease(s, LookupFor(s, e), s.views[view].image, later, id, Held(s.views));
      case Paged(view, l, later) =>
        HeldAfter(s.views, view, s.views[view]);
        ShownRelease(s, l, s.views[view].image, later, id, Held(s.views));
      case Destroyed(view, now) =>
        HeldAfter(s.views, view, s.views[view]);
        DestroyedRelease(s.t, Held(s.views), s.views[view].image, now, id);
      case Cleaned(names, now) => SweptRelease(s.t, Held(s.views), names, now, id);
    }
  }

  lemma ShownRelease(s: State, l: Lookup, image: int, later: Word, id: int, held: multiset<int>)
    requires Inv(s) && Fresh(s.t, l.key, l.supply, l.now) && held[image] > 0
    requires forall i :: i != 0 ==> held[i] == Held(s.views)[i]
    requires id in Rebound(Found(s.t, l).0, image, Found(s.t, l).1, later).loaded
    ensures var (t, img) := Found(s.t, l);
            var t1 := Rebound(t, image, img, later);
            && id in t1.reg
            && if Loads(s.t, l) && l.supply.texture == Some(id) then t1.reg[id].lastRelease == 0
               else
                 && id in s.t.loaded && id in s.t.reg
                 && t1.reg[id].lastRelease ==
                    if image == id && img != id then later else s.t.reg[id].lastRelease
  {
    var (t, img) := Found(s.t, l);
    hide Counted, Inverse, Rebound, GetImage, Fresh, Held;
    ZeroIsNothing(s.t, Held(s.views), held);
    GetImageKeeps(s.t, held, l.key, l.reload, l.supply, l.now);
    LoadedStays(t, held, image, img, later);
    FoundRelease(s.t, held, l, id);
    ReboundRelease(t, held, image, img, later, id);
    InUse(t, held, id);
  }

  lemma LoadedStays(t: Textures, held: multiset<int>, image: int, img: int, now: Word)
    requires Sound(t, held) && held[image] > 0
    ensures Rebound(t, image, img, now).loaded == t.loaded
  {
    hide GivenUp;
    GivenUpKeeps(t, held, image, now);
  }

  lemma DestroyedRelease(t: Textures, held: multiset<int>, image: int, now: Word, id: int)
    requires Sound(t, held) && held[image] > 0 && id in GivenUp(t, image, now).loaded
    ensures var t1 := GivenUp(t, image, now);
            && id in t.loaded && id in t.reg && id in t1.reg
            && t1.reg[id].lastRelease == if image == id then now else t.reg[id].lastRelease
  {
    GivenUpKeeps(t, held, image, now);
    InUse(t, held, id);
  }

  /** The time of the last release of a texture over a run. */
  ghost function LastRelease(s: State, events: seq<Event>, id: int, was: Word): Word
    requires RunOk(s, events)
    decreases events
  {
    if events == [] then was else LastRelease(Step(s, events[0]), events[1..], id, NextRelease(s, events[0], id, was))
  }

  /** Over every run the registry has, for each cached texture, the time at which a view last
      gave it up since it was loaded, and zero if none has. */
  lemma {:induction false} ReleasesOverRuns(s: State, events: seq<Event>, id: int, was: Word)
    requires Inv(s) && RunOk(s, events)
    requires id in s.t.loaded ==> id in s.t.reg && s.t.reg[id].lastRelease == was
    ensures var t := TextureViews.Run(s, events).t;
            id in t.loaded ==> id in t.reg && t.reg[id].lastRelease == LastRelease(s, events, id, was)
    decreases events
  {
    if events != [] {
      hide Inv, Step, Possible, NextRelease;
      StepKeeps(s, events[0]);
      if id in Step(s, events[0]).t.loaded { StepReleases(s, events[0], id, was); }
      ReleasesOverRuns(Step(s, events[0]), events[1..], id, NextRelease(s, events[0], id, was));
    }
  }

  // ---- which textures a cleanup takes out ----

  /** The time of the last release of the texture cached under a name. */
  function ReleaseOf(t: Textures, name: string): Word {
    if name in t.cache && t.cache[name] in t.reg then t.reg[t.cache[name]].lastRelease else 0
  }

  /** No view holds the texture, and the last to do so gave it up over ten seconds ago. */
  predicate LeftIdle(t: Textures, held: multiset<int>, name: string, now: Word) {
    && name in t.cache && held[t.cache[name]] == 0
    && ReleaseOf(t, name) != 0 && Elapsed(now, ReleaseOf(t, name)) > 10_000_000
  }

  lemma IdleExactly(t: Textures, held: multiset<int>, name: string, now: Word)
    requires Sound(t, held)
    ensures Idle(t, name, now) <==> LeftIdle(t, held, name, now)
  {
    if name in t.cache { InUse(t, held, t.cache[name]); }
  }

  /** Of the idle textures released at one time, the first that the walk over the cache meets. */
  predicate FirstOfTime(t: Textures, names: seq<string>, now: Word, i: nat) {
    && i < |names| && Idle(t, names[i], now)
    && forall k :: 0 <= k < i && Idle(t, names[k], now) ==> ReleaseOf(t, names[k]) != ReleaseOf(t, names[i])
  }

  lemma {:induction false} InsertExactly(victims: seq<Victim>, v: Victim, w: Victim)
    requires Ascending(victims)
    ensures w in Insert(victims, v) <==>
              w in victims || (w == v && forall u :: u in victims ==> u.released != v.released)
  {
    if victims != [] {
      var first, rest := victims[0], victims[1..];
      assert victims == [first] + rest;
      forall u | u in rest ensures first.released < u.released {
        var k :| 0 <= k < |rest| && rest[k] == u;
        assert victims[k + 1] == u;
      }
      if first.released < v.released { InsertExactly(rest, v, w); }
    }
  }

  ghost predicate IsVictim(t: Textures, names: seq<string>, now: Word, v: Victim) {
    exists i: nat :: FirstOfTime(t, names, now, i) && i < |names| && v == Victim(ReleaseOf(t, names[i]), names[i])
  }

  lemma FirstInPrefix(t: Textures, names: seq<string>, now: Word, n: nat, i: nat)
    requires i < n <= |names|
    ensures FirstOfTime(t, names[..n], now, i) == FirstOfTime(t, names, now, i)
  {
    hide Idle, ReleaseOf;
    assert forall k :: 0 <= k < n ==> names[..n][k] == names[k];
  }

  lemma LastVictim(t: Textures, names: seq<string>, now: Word, v: Victim)
    requires names != []
    ensures var last := |names| - 1;
            IsVictim(t, names, now, v) <==>
              || IsVictim(t, names[..last], now, v)
              || (FirstOfTime(t, names, now, last) && v == Victim(ReleaseOf(t, names[last]), names[last]))
  {
    var last := |names| - 1;
    forall i: nat | i < last
      ensures FirstOfTime(t, names[..last], now, i) == FirstOfTime(t, names, now, i) && names[..last][i] == names[i]
    {
      FirstInPrefix(t, names, now, last, i);
    }
    FirstInside(t, names, now);
    FirstInside(t, names[..last], now);
    hide FirstOfTime, ReleaseOf;
    if IsVictim(t, names, now, v) {
      var i: nat :| FirstOfTime(t, names, now, i) && i < |names| && v == Victim(ReleaseOf(t, names[i]), names[i]);
      if i < last { assert FirstOfTime(t, names[..last], now, i); }
    }
    if IsVictim(t, names[..last], now, v) {
      var i: nat :| FirstOfTime(t, names[..last], now, i) && i < last
                    && v == Victim(ReleaseOf(t, names[..last][i]), names[..last][i]);
      assert FirstOfTime(t, names, now, i);
    }
  }

  lemma FirstInside(t: Textures, names: seq<string>, now: Word)
    ensures forall i: nat :: FirstOfTime(t, names, now, i) ==> i < |names|
  {
  }

  /** The victims are idle names with their times, and every idle name has its time among them. */
  lemma VictimTimes(t: Textures, names: seq<string>, now: Word)
    ensures Ascending(Victims(t, names, now))
    ensures forall v :: v in Victims(t, names, now) ==>
              v.name in names && Idle(t, v.name, now) && v.released == ReleaseOf(t, v.name)
    ensures forall n :: n in names && Idle(t, n, now) ==>
              exists v :: v in Victims(t, names, now) && v.released == ReleaseOf(t, n)
  {
    VictimsAreIdle(t, names, now);
    hide Victims;
  }

  /** The victims are the first of each time. */
  lemma {:induction false} VictimsExactly(t: Textures, names: seq<string>, now: Word, v: Victim)
    ensures v in Victims(t, names, now) <==> IsVictim(t, names, now, v)
  {
    if names != [] {
      var before, name := names[..|names| - 1], names[|names| - 1];
      VictimsExactly(t, before, now, v);
      VictimTimes(t, before, now);
      LastVictim(t, names, now, v);
      hide IsVictim;
      if Idle(t, name, now) {
        InsertExactly(Victims(t, before, now), Victim(ReleaseOf(t, name), name), v);
        TimeTaken(t, names, now);
      }
    }
  }

  lemma TimeTaken(t: Textures, names: seq<string>, now: Word)
    requires names != [] && Idle(t, names[|names| - 1], now)
    ensures FirstOfTime(t, names, now, |names| - 1) <==>
              forall u :: u in Victims(t, names[..|names| - 1], now) ==> u.released != ReleaseOf(t, names[|names| - 1])
  {
    hide Victims, Idle, ReleaseOf, FirstOfTime;
    var last := |names| - 1;
    if FirstOfTime(t, names, now, last) {
      forall u | u in Victims(t, names[..last], now) ensures u.released != ReleaseOf(t, names[last]) {
        NotTaken(t, names, now, u);
      }
    } else {
      var u := Taken(t, names, now);
    }
  }

  lemma NotTaken(t: Textures, names: seq<string>, now: Word, u: Victim)
    requires names != [] && FirstOfTime(t, names, now, |names| - 1) && u in Victims(t, names[..|names| - 1], now)
    ensures u.released != ReleaseOf(t, names[|names| - 1])
  {
    hide Victims, Idle, ReleaseOf;
    var before := names[..|names| - 1];
    VictimTimes(t, before, now);
    var k :| 0 <= k < |before| && before[k] == u.name;
    assert names[k] == u.name;
  }

  lemma Taken(t: Textures, names: seq<string>, now: Word) returns (u: Victim)
    requires names != [] && Idle(t, names[|names| - 1], now) && !FirstOfTime(t, names, now, |names| - 1)
    ensures u in Victims(t, names[..|names| - 1], now) && u.released == ReleaseOf(t, names[|names| - 1])
  {
    hide Victims, Idle, ReleaseOf;
    var last := |names| - 1;
    VictimTimes(t, names[..last], now);
    var k :| 0 <= k < last && Idle(t, names[k], now) && ReleaseOf(t, names[k]) == ReleaseOf(t, names[last]);
    assert names[..last][k] == names[k] && names[k] in names[..last];
    u :| u in Victims(t, names[..last], now) && u.released == ReleaseOf(t, names[k]);
  }

  function TimesUpto(victims: seq<Victim>, i: nat): set<Word>
    requires i <= |victims|
  {
    if i == 0 then {} else TimesUpto(victims, i - 1) + {victims[i - 1].released}
  }

  lemma {:induction false} TimeBefore(victims: seq<Victim>, i: nat, r: Word) returns (k: nat)
    requires i <= |victims| && r in TimesUpto(victims, i)
    ensures k < i && victims[k].released == r
  {
    if r == victims[i - 1].released { k := i - 1; } else { k := TimeBefore(victims, i - 1, r); }
  }

  lemma {:induction false} TimeIn(victims: seq<Victim>, i: nat, k: nat)
    requires k < i <= |victims|
    ensures victims[k].released in TimesUpto(victims, i)
  {
    if k < i - 1 { TimeIn(victims, i - 1, k); }
  }

  lemma {:induction false} TimesDiffer(victims: seq<Victim>, i: nat)
    requires Ascending(victims) && i <= |victims|
    ensures |TimesUpto(victims, i)| == i
  {
    if i > 0 {
      TimesDiffer(victims, i - 1);
      if victims[i - 1].released in TimesUpto(victims, i - 1) {
        var k := TimeBefore(victims, i - 1, victims[i - 1].released);
      }
    }
  }

  /** The times before `r` at which textures that are idle now were released. */
  ghost function EarlierTimes(t: Textures, held: multiset<int>, now: Word, r: Word): set<Word> {
    set n | n in t.cache && LeftIdle(t, held, n, now) && ReleaseOf(t, n) < r :: ReleaseOf(t, n)
  }

  lemma VictimIs(t: Textures, names: seq<string>, now: Word, p: nat)
    requires p < |Victims(t, names, now)|
    ensures Ascending(Victims(t, names, now))
    ensures var v := Victims(t, names, now)[p];
            v.name in names && Idle(t, v.name, now) && v.released == ReleaseOf(t, v.name)
  {
    VictimTimes(t, names, now);
    hide Victims, Idle, ReleaseOf;
    assert Victims(t, names, now)[p] in Victims(t, names, now);
  }

  lemma {:induction false} IdleHasVictim(t: Textures, names: seq<string>, now: Word, n: string) returns (v: Victim)
    requires n in names && Idle(t, n, now)
    ensures v in Victims(t, names, now) && v.released == ReleaseOf(t, n)
  {
    var before, name := names[..|names| - 1], names[|names| - 1];
    assert names == before + [name];
    VictimIsAscending(t, before, now);
    hide Insert;
    var next := Victim(ReleaseOf(t, name), name);
    if Idle(t, name, now) { InsertKeepsAscending(Victims(t, before, now), next); }
    if n in before {
      v := IdleHasVictim(t, before, now, n);
    } else {
      v :| v in Insert(Victims(t, before, now), next) && v.released == next.released;
    }
  }

  lemma VictimIsAscending(t: Textures, names: seq<string>, now: Word)
    ensures Ascending(Victims(t, names, now))
  {
    VictimsAreIdle(t, names, now);
  }

  /** A victim's position is the number of earlier times. */
  lemma PositionIs(t: Textures, held: multiset<int>, names: seq<string>, now: Word, p: nat)
    requires Sound(t, held) && Enumerates(names, t.cache) && p < |Victims(t, names, now)|
    ensures |EarlierTimes(t, held, now, Victims(t, names, now)[p].released)| == p
  {
    var victims := Victims(t, names, now);
    VictimIs(t, names, now, p);
    TimesDiffer(victims, p);
    hide Victims, Idle, LeftIdle, ReleaseOf, Sound, TimesUpto, EarlierTimes, Ascending;
    var earlier := EarlierTimes(t, held, now, victims[p].released);
    forall x | x in TimesUpto(victims, p) ensures x in earlier {
      var k := TimeBefore(victims, p, x);
      VictimIsEarlier(t, held, names, now, k, p);
    }
    forall x | x in earlier ensures x in TimesUpto(victims, p) {
      var k := EarlierIsVictim(t, held, names, now, p, x);
      TimeIn(victims, p, k);
    }
    assert TimesUpto(victims, p) == earlier;
  }

  lemma VictimIsEarlier(t: Textures, held: multiset<int>, names: seq<string>, now: Word, k: nat, p: nat)
    requires Sound(t, held) && Enumerates(names, t.cache) && k < p < |Victims(t, names, now)|
    ensures Victims(t, names, now)[k].released in EarlierTimes(t, held, now, Victims(t, names, now)[p].released)
  {
    hide Victims, Idle, LeftIdle, ReleaseOf, Sound;
    VictimIs(t, names, now, k);
    IdleExactly(t, held, Victims(t, names, now)[k].name, now);
  }

  lemma EarlierIsVictim(t: Textures, held: multiset<int>, names: seq<string>, now: Word, p: nat, x: Word)
    returns (k: nat)
    requires Sound(t, held) && Enumerates(names, t.cache) && p < |Victims(t, names, now)|
    requires x in EarlierTimes(t, held, now, Victims(t, names, now)[p].released)
    ensures k < p && Victims(t, names, now)[k].released == x
  {
    var victims := Victims(t, names, now);
    VictimIs(t, names, now, p);
    hide Victims, Idle, LeftIdle, ReleaseOf, Sound;
    var n :| n in t.cache && LeftIdle(t, held, n, now) && ReleaseOf(t, n) < victims[p].released && ReleaseOf(t, n) == x;
    IdleExactly(t, held, n, now);
    var v := IdleHasVictim(t, names, now, n);
    k :| 0 <= k < |victims| && victims[k] == v;
  }

  /** The texture is idle, and the first that the walk meets of those released at its time. */
  predicate FirstLeft(t: Textures, held: multiset<int>, names: seq<string>, now: Word, i: nat) {
    && i < |names| && LeftIdle(t, held, names[i], now)
    && forall k :: 0 <= k < i && LeftIdle(t, held, names[k], now) ==> ReleaseOf(t, names[k]) != ReleaseOf(t, names[i])
  }

  /** A cleanup takes a texture out exactly when there are two or more, no view holds it, it was
      given up over ten seconds ago, no other given up in the same microsecond comes first, and
      more than eight would be left even so or that was over sixty seconds ago. */
  lemma CleanedExactly(t: Textures, held: multiset<int>, names: seq<string>, now: Word, i: nat)
    requires Sound(t, held) && Enumerates(names, t.cache) && i < |names|
    ensures names[i] in t.cache
    ensures names[i] in Cleanup(t, names, now).cache ==> Cleanup(t, names, now).cache[names[i]] == t.cache[names[i]]
    ensures names[i] !in Cleanup(t, names, now).cache <==>
              && |t.cache| >= 2 && FirstLeft(t, held, names, now, i)
              && (|| |t.cache| - 1 - |EarlierTimes(t, held, now, ReleaseOf(t, names[i]))| > 8
                  || Elapsed(now, ReleaseOf(t, names[i])) > 60_000_000)
  {
    assert names[i] in t.cache;
    if |t.cache| < 2 { return; }
    var victims := Victims(t, names, now);
    CleanupIsExact(t, held, names, now);
    FirstIsLeft(t, held, names, now, i);
    hide Victims, Cleanup, Sound, Idle, LeftIdle, ReleaseOf, FirstOfTime, FirstLeft, EarlierTimes;
    if FirstLeft(t, held, names, now, i) {
      var v := Victim(ReleaseOf(t, names[i]), names[i]);
      assert IsVictim(t, names, now, v);
      VictimsExactly(t, names, now, v);
      var p :| 0 <= p < |victims| && victims[p] == v;
      PositionIs(t, held, names, now, p);
      forall q | 0 <= q < |victims| && victims[q].name == names[i] ensures q == p {
        if q < p { VictimNamesDiffer(t, names, now, q, p); }
        if p < q { VictimNamesDiffer(t, names, now, p, q); }
      }
    } else {
      forall q | 0 <= q < |victims| && victims[q].name == names[i] ensures false {
        NoOtherVictim(t, names, now, i, q);
      }
    }
  }

  lemma FirstIsLeft(t: Textures, held: multiset<int>, names: seq<string>, now: Word, i: nat)
    requires Sound(t, held)
    ensures FirstOfTime(t, names, now, i) == FirstLeft(t, held, names, now, i)
  {
    hide Idle, LeftIdle, ReleaseOf, Sound;
    forall n ensures Idle(t, n, now) == LeftIdle(t, held, n, now) { IdleExactly(t, held, n, now); }
  }

  /** A victim of that name is the first of its time. */
  lemma NoOtherVictim(t: Textures, names: seq<string>, now: Word, i: nat, q: nat)
    requires Enumerates(names, t.cache) && i < |names| && q < |Victims(t, names, now)|
    requires Victims(t, names, now)[q].name == names[i]
    ensures FirstOfTime(t, names, now, i)
  {
    hide Victims, Idle, ReleaseOf, FirstOfTime;
    var v := Victims(t, names, now)[q];
    assert v in Victims(t, names, now);
    VictimsExactly(t, names, now, v);
    var k: nat :| FirstOfTime(t, names, now, k) && k < |names| && v == Victim(ReleaseOf(t, names[k]), names[k]);
    assert names[k] == names[i];
  }
}
