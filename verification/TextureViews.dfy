/** Image views that share textures with the cache, over whole runs. */
module TextureViews {
  import opened Common
  import opened Resources
  import opened Textures

  /** A view holds a texture, or zero, and knows the name it last showed. */
  datatype View = View(image: int, name: string)

  datatype State = State(t: Textures, views: seq<View>)

  function ImagesOf(views: seq<View>): (images: seq<int>)
    ensures |images| == |views| && forall i :: 0 <= i < |views| ==> images[i] == views[i].image
  {
    seq(|views|, i requires 0 <= i < |views| => views[i].image)
  }

  /** What the views hold, zeros included. */
  function Held(views: seq<View>): multiset<int> { multiset(ImagesOf(views)) }

  /** A view gives up its texture; the last to do so asks the cache to forget it. */
  function GivenUp(t: Textures, image: int, now: Word): Textures {
    if image == 0 then t
    else if RefsAfter(t.reg, image) == 0 then Freed(WithRelease(t, image, now), image)
    else WithRelease(t, image, now)
  }

  /** A view that holds `image` is given `img`. */
  function Rebound(t: Textures, image: int, img: int, now: Word): Textures {
    if img == image then t
    else
      var t1 := GivenUp(t, image, now);
      if img == 0 then t1 else t1.(reg := Managed(t1.reg, img, false))
  }

  /** A lookup: the cache's name for the source, none if the source is blank, and what is
      found outside. */
  datatype Lookup = Lookup(key: Option<string>, reload: bool, supply: Supply, now: Word)

  function Found(t: Textures, l: Lookup): (Textures, int) { GetImage(t, l.key, l.reload, l.supply, l.now) }

  datatype Event =
    | Created(lookup: Lookup)
    | Named(view: nat, name: string, lookup: Lookup, later: Word)
    | Paged(view: nat, lookup: Lookup, later: Word)
    | Destroyed(view: nat, now: Word)
    | Cleaned(names: seq<string>, now: Word)

  /** A view that is given a new name reloads in any case. */
  function LookupFor(s: State, e: Event): Lookup
    requires e.Named? && e.view < |s.views|
  {
    e.lookup.(reload := e.lookup.reload || e.name != s.views[e.view].name)
  }

  predicate Possible(s: State, e: Event) {
    match e
    case Created(l) => Fresh(s.t, l.key, l.supply, l.now)
    case Named(view, _, l, _) => view < |s.views| && Fresh(s.t, l.key, l.supply, l.now)
    case Paged(view, l, _) => view < |s.views| && Fresh(s.t, l.key, l.supply, l.now)
    case Destroyed(view, _) => view < |s.views|
    case Cleaned(_, _) => true
  }

  function Step(s: State, e: Event): State
    requires Possible(s, e)
  {
    match e
    case Created(l) =>
      var (t, img) := Found(s.t, l);
      State(Rebound(t, 0, img, l.now), s.views + [View(img, "")])
    case Named(view, name, l, later) =>
      var (t, img) := Found(s.t, LookupFor(s, e));
      State(Rebound(t, s.views[view].image, img, later), s.views[view := View(img, name)])
    case Paged(view, l, later) =>
      var (t, img) := Found(s.t, l);
      State(Rebound(t, s.views[view].image, img, later), s.views[view := View(img, s.views[view].name)])
    case Destroyed(view, now) =>
      State(GivenUp(s.t, s.views[view].image, now), s.views[..view] + s.views[view + 1..])
    case Cleaned(names, now) => State(Cleanup(s.t, names, now), s.views)
  }

  ghost predicate Inv(s: State) { Sound(s.t, Held(s.views)) }

  /** Views without a texture do not matter. */
  lemma ZeroIsNothing(t: Textures, held: multiset<int>, held1: multiset<int>)
    requires Sound(t, held) && forall id :: id != 0 ==> held[id] == held1[id]
    ensures Sound(t, held1)
  {
    CountedOthers(t, t, held, held1, 0);
  }

  lemma GivenUpKeeps(t: Textures, held: multiset<int>, image: int, now: Word)
    requires Sound(t, held) && held[image] > 0
    ensures Sound(GivenUp(t, image, now), held - multiset{image})
    ensures GivenUp(t, image, now).loaded == t.loaded && GivenUp(t, image, now).cache == t.cache
  {
    if image == 0 {
      ZeroIsNothing(t, held, held - multiset{0});
    } else {
      ViewReleaseKeeps(t, held, image, now);
    }
  }

  lemma ReboundKeeps(t: Textures, held: multiset<int>, image: int, img: int, now: Word)
    requires Sound(t, held) && held[image] > 0 && (img != 0 ==> img in t.loaded)
    ensures Sound(Rebound(t, image, img, now), held - multiset{image} + multiset{img})
  {
    hide Sound, GivenUp;
    if img == image {
      assert held - multiset{image} + multiset{img} == held;
    } else {
      GivenUpKeeps(t, held, image, now);
      var t1, held1 := GivenUp(t, image, now), held - multiset{image};
      if img == 0 {
        ZeroIsNothing(t1, held1, held1 + multiset{0});
      } else {
        LoadedIsRegistered(t1, held1, img);
        ManageKeeps(t1, held1, img);
      }
    }
  }

  lemma LoadedIsRegistered(t: Textures, held: multiset<int>, id: int)
    requires Sound(t, held) && id in t.loaded
    ensures id in t.reg
  {
    assert CountedAt(t, held, id);
  }

  lemma HeldAfter(views: seq<View>, i: nat, v: View)
    requires i < |views|
    ensures Held(views)[views[i].image] > 0
    ensures Held(views[i := v]) == Held(views) - multiset{views[i].image} + multiset{v.image}
    ensures Held(views[..i] + views[i + 1..]) == Held(views) - multiset{views[i].image}
    ensures Held(views + [v]) == Held(views) + multiset{v.image}
  {
    var images := ImagesOf(views);
    assert images[i] in multiset(images);
    assert ImagesOf(views[i := v]) == images[i := v.image];
    assert images == images[..i] + [images[i]] + images[i + 1..];
    assert ImagesOf(views[..i] + views[i + 1..]) == images[..i] + images[i + 1..];
    assert ImagesOf(views + [v]) == images + [v.image];
  }

  lemma HeldWith(views: seq<View>, v: View)
    ensures Held(views + [v]) == Held(views) + multiset{v.image}
  {
    assert ImagesOf(views + [v]) == ImagesOf(views) + [v.image];
  }

  /** Looking up an image for a view and giving it to the view. */
  lemma ShowKeeps(s: State, view: nat, l: Lookup, name: string, later: Word)
    requires Inv(s) && view < |s.views| && Fresh(s.t, l.key, l.supply, l.now)
    ensures var (t, img) := Found(s.t, l);
            Inv(State(Rebound(t, s.views[view].image, img, later), s.views[view := View(img, name)]))
  {
    hide Sound, Held, Rebound, Fresh, GetImage;
    var (t, img) := Found(s.t, l);
    GetImageKeeps(s.t, Held(s.views), l.key, l.reload, l.supply, l.now);
    HeldAfter(s.views, view, View(img, name));
    ReboundKeeps(t, Held(s.views), s.views[view].image, img, later);
  }

  lemma CreateKeeps(s: State, l: Lookup)
    requires Inv(s) && Fresh(s.t, l.key, l.supply, l.now)
    ensures var (t, img) := Found(s.t, l);
            Inv(State(Rebound(t, 0, img, l.now), s.views + [View(img, "")]))
  {
    hide Sound, Held, Rebound, Fresh, GetImage;
    var (t, img) := Found(s.t, l);
    var held := Held(s.views);
    GetImageKeeps(s.t, held, l.key, l.reload, l.supply, l.now);
    ZeroIsNothing(t, held, held + multiset{0});
    ReboundKeeps(t, held + multiset{0}, 0, img, l.now);
    HeldWith(s.views, View(img, ""));
    assert held + multiset{0} - multiset{0} + multiset{img} == held + multiset{img};
  }

  /** Every event keeps the cache's maps inverse, and the counts, the registered textures,
      the textures in use and the textures in the driver in agreement. */
  lemma StepKeeps(s: State, e: Event)
    requires Inv(s) && Possible(s, e)
    ensures Inv(Step(s, e))
  {
    hide Sound, Held, Rebound, Fresh, GetImage, GivenUp, Cleanup;
    match e {
      case Created(l) => CreateKeeps(s, l);
      case Named(view, name, l, later) => ShowKeeps(s, view, LookupFor(s, e), name, later);
      case Paged(view, l, later) => ShowKeeps(s, view, l, s.views[view].name, later);
      case Destroyed(view, now) => DestroyKeeps(s, view, now);
      case Cleaned(names, now) => CleanKeeps(s, names, now);
    }
  }

  lemma DestroyKeeps(s: State, view: nat, now: Word)
    requires Inv(s) && view < |s.views|
    ensures Inv(State(GivenUp(s.t, s.views[view].image, now), s.views[..view] + s.views[view + 1..]))
  {
    hide Sound, Held, GivenUp;
    HeldAfter(s.views, view, s.views[view]);
    GivenUpKeeps(s.t, Held(s.views), s.views[view].image, now);
  }

  lemma CleanKeeps(s: State, names: seq<string>, now: Word)
    requires Inv(s)
    ensures Inv(State(Cleanup(s.t, names, now), s.views))
  {
    hide Sound, Held, Victims, RemovedUpTo;
    if |s.t.cache| >= 2 { CleanupIsExact(s.t, Held(s.views), names, now); }
  }

  ghost predicate RunOk(s: State, events: seq<Event>)
    decreases events
  {
    events != [] ==> Possible(s, events[0]) && RunOk(Step(s, events[0]), events[1..])
  }

  ghost function Run(s: State, events: seq<Event>): State
    requires RunOk(s, events)
    decreases events
  {
    if events == [] then s else Run(Step(s, events[0]), events[1..])
  }

  const START: State := State(Textures(map[], map[], map[], {}), [])

  lemma StartIsSound()
    ensures Inv(START)
  {
  }

  lemma {:induction false} RunKeeps(s: State, events: seq<Event>)
    requires Inv(s) && RunOk(s, events)
    ensures Inv(Run(s, events))
    decreases events
  {
    if events != [] {
      hide Inv, Step, Possible;
      StepKeeps(s, events[0]);
      RunKeeps(Step(s, events[0]), events[1..]);
    }
  }

  /** Over every run no view holds a texture that was deleted, no texture outlives its last
      use, its count is the number of its uses, and the cache's maps are exact inverses. */
  lemma TexturesOverRuns(events: seq<Event>, id: int)
    requires RunOk(START, events)
    ensures var s := Run(START, events);
            && (forall i :: 0 <= i < |s.views| && s.views[i].image != 0 ==> s.views[i].image in s.t.live)
            && (id in s.t.live <==>
                  id != 0 && (id in s.t.loaded || exists i :: 0 <= i < |s.views| && s.views[i].image == id))
            && (id in s.t.reg <==> id in s.t.live)
            && (id in s.t.reg ==> s.t.reg[id].refs == Uses(s.t, Held(s.views), id))
            && Inverse(s.t)
  {
    hide Run, RunOk, Inverse;
    StartIsSound();
    RunKeeps(START, events);
    var s := Run(START, events);
    UsedIsLive(s, id);
    forall i | 0 <= i < |s.views| && s.views[i].image != 0 ensures s.views[i].image in s.t.live {
      UsedIsLive(s, s.views[i].image);
    }
  }

  lemma UsedIsLive(s: State, id: int)
    requires Inv(s)
    ensures id in s.t.live <==>
              id != 0 && (id in s.t.loaded || exists i :: 0 <= i < |s.views| && s.views[i].image == id)
    ensures id in s.t.reg <==> id in s.t.live
    ensures id in s.t.reg ==> s.t.reg[id].refs == Uses(s.t, Held(s.views), id)
  {
    var images := ImagesOf(s.views);
    assert Held(s.views)[id] > 0 <==> id in images;
    if id in images {
      var i :| 0 <= i < |images| && images[i] == id;
      assert s.views[i].image == id;
    }
    if i :| 0 <= i < |s.views| && s.views[i].image == id { assert images[i] == id; }
    if id != 0 { assert CountedAt(s.t, Held(s.views), id); }
  }

  /** A view's own release deletes its texture exactly when the texture left the cache and no
      other view holds it. */
  lemma LastHolderDeletes(s: State, view: nat, now: Word)
    requires Inv(s) && view < |s.views| && s.views[view].image != 0
    ensures var id := s.views[view].image;
            id !in Step(s, Destroyed(view, now)).t.live
            <==> id !in s.t.loaded && forall i :: 0 <= i < |s.views| && i != view ==> s.views[i].image != id
  {
    hide Sound, GivenUp, Held;
    var id := s.views[view].image;
    var s1 := Step(s, Destroyed(view, now));
    StepKeeps(s, Destroyed(view, now));
    UsedIsLive(s1, id);
    HeldAfter(s.views, view, s.views[view]);
    GivenUpKeeps(s.t, Held(s.views), id, now);
    OthersStay(s.views, view, id);
  }

  lemma OthersStay(views: seq<View>, view: nat, id: int)
    requires view < |views|
    ensures var rest := views[..view] + views[view + 1..];
            (exists i :: 0 <= i < |rest| && rest[i].image == id)
            <==> (exists i :: 0 <= i < |views| && i != view && views[i].image == id)
  {
    var rest := views[..view] + views[view + 1..];
    if i :| 0 <= i < |rest| && rest[i].image == id {
      assert rest[i] == views[if i < view then i else i + 1];
    }
    if i :| 0 <= i < |views| && i != view && views[i].image == id {
      assert rest[if i < view then i else i - 1] == views[i];
    }
  }
}
