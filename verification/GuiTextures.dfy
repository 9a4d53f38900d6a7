/** The textures of the GUI and its image views as objects updated in place. */
module GuiTextures {
  import opened Common
  import opened Resources
  import opened Textures
  import opened TextureViews

  class EditorGui {
    const managers: ResourceManagers
    var cache: map<string, int>
    var loaded: map<int, string>

    function View(): Textures
      reads this, managers
    {
      Textures(cache, loaded, managers.resources, managers.textures)
    }

    constructor ()
      ensures View() == START.t && fresh(managers)
    {
      managers := new ResourceManagers();
      cache := map[];
      loaded := map[];
    }

    method FreeImage(id: int)
      modifies this, managers
      ensures View() == Freed(old(View()), id)
    {
      if id in loaded {
        var name := loaded[id];
        loaded := loaded - {id};
        if name in cache {
          DropTexture(cache[name]);
          cache := cache - {name};
        }
      }
    }

    method DropTexture(id: int)
      modifies managers`textures
      ensures managers.textures == old(managers.textures) - {id}
    {
      managers.textures := managers.textures - {id};
    }

    /** Looks an image up by the cache's name for it, loading or reloading it if need be. */
    method GetImageId(name: Option<string>, reload: bool, supply: Supply, now: Word) returns (id: int)
      requires Live(managers.resources)
      modifies this, managers
      ensures (View(), id) == GetImage(old(View()), name, reload, supply, now)
    {
      if name == None || !supply.available {
        return 0;
      }
      if !reload && name.value in cache {
        return cache[name.value];
      }
      if name.value in cache {
        var oldId := cache[name.value];
        cache := cache - {name.value};
        loaded := loaded - {oldId};
        var refs := managers.Release(oldId, now);
        if refs != 0 {
          managers.Handover(oldId);
        } else {
          DropTexture(oldId);
        }
      }
      if supply.texture == None {
        return 0;
      }
      id := supply.texture.value;
      managers.textures := managers.textures + {id};
      cache := cache[name.value := id];
      loaded := loaded[id := name.value];
      managers.Manage(id, true);
    }

    /** The victims, kept in order of release as they are found. */
    method FindVictims(names: seq<string>, now: Word) returns (victims: seq<Victim>)
      ensures victims == Victims(View(), names, now)
    {
      victims := [];
      for i := 0 to |names|
        invariant victims == Victims(View(), names[..i], now)
      {
        assert names[..i + 1][..i] == names[..i];
        if Idle(View(), names[i], now) {
          victims := Insert(victims, Victim(managers.resources[cache[names[i]]].lastRelease, names[i]));
        }
      }
      assert names[..|names|] == names;
    }

    /** The cleanup, walking the cache in the order `names`. */
    method CleanupTextureCache(names: seq<string>, now: Word, ghost held: multiset<int>)
      requires Sound(View(), held) && Enumerates(names, cache)
      modifies this, managers
      ensures View() == Cleanup(old(View()), names, now)
    {
      if |cache| < 2 {
        return;
      }
      ghost var t := View();
      var victims := FindVictims(names, now);
      var n := |cache|;
      var i := 0;
      while i < |victims|
        invariant i <= |victims| && n == |t.cache| - i
        invariant View() == RemovedUpTo(t, victims, i, now)
      {
        hide Victims, Idle, Sound;
        n := n - 1;
        if n > KEPT || Elapsed(now, victims[i].released) > STALE_US {
          Removable(t, held, names, now, i, View());
          Remove(victims[i].name, now);
        }
        i := i + 1;
      }
    }

    /** The next victim is cached, so looking it up by name finds it. */
    lemma Removable(t: Textures, held: multiset<int>, names: seq<string>, now: Word, i: nat, before: Textures)
      requires Sound(t, held) && i < |Victims(t, names, now)|
      requires before == RemovedUpTo(t, Victims(t, names, now), i, now)
      ensures Victims(t, names, now)[i].name in before.cache && Live(before.reg)
    {
      hide Victims, Swept, RemovedUpTo;
      SweepKeeps(t, held, names, i, now);
      StillThere(t, names, i, now, before);
      SoundIsLive(before, held);
    }

    method Remove(name: string, now: Word)
      requires name in cache && Live(managers.resources)
      modifies this, managers
      ensures View() == RemoveTexture(old(View()), name, now)
    {
      var id := cache[name];
      cache := cache - {name};
      loaded := loaded - {id};
      var _ := managers.Release(id, now);
      DropTexture(id);
    }
  }

  class EditorImageView {
    const gui: EditorGui
    var imageId: int
    var imageName: string

    /** A view of an image that was looked up for it. */
    constructor (gui: EditorGui, image: int)
      modifies gui.managers
      ensures this.gui == gui && imageId == image && imageName == ""
      ensures image != 0 ==> gui.View() == old(gui.View()).(reg := Managed(old(gui.View()).reg, image, false))
      ensures image == 0 ==> gui.View() == old(gui.View())
    {
      this.gui := gui;
      imageId := image;
      imageName := "";
      new;
      if image != 0 {
        gui.managers.Manage(image, false);
      }
    }

    method SetImageName(newName: string, key: Option<string>, reload: bool, supply: Supply, now: Word, later: Word,
                        ghost held: multiset<int>)
      requires Sound(gui.View(), held) && Fresh(gui.View(), key, supply, now)
      requires newName == "" ==> key == None
      modifies this, gui, gui.managers
      ensures imageName == newName
      ensures var l := Lookup(key, reload || newName != old(imageName), supply, now);
              && imageId == Found(old(gui.View()), l).1
              && gui.View() == Rebound(Found(old(gui.View()), l).0, old(imageId), imageId, later)
    {
      GetImageKeeps(gui.View(), held, key, reload || newName != imageName, supply, now);
      SoundIsLive(gui.View(), held);
      hide Sound, Counted, Inverse, Fresh, GetImage, Freed;
      var img := 0;
      if newName != "" {
        img := gui.GetImageId(key, reload || newName != imageName, supply, now);
      } else {
        BlankIsNothing(gui.View(), reload || newName != imageName, supply, now);
      }
      imageName := newName;
      SoundIsLive(gui.View(), held);
      if img != imageId {
        GiveUp(later);
        if img != 0 {
          gui.managers.Manage(img, false);
        }
        imageId := img;
      }
    }

    lemma BlankIsNothing(t: Textures, reload: bool, supply: Supply, now: Word)
      ensures GetImage(t, None, reload, supply, now) == (t, 0)
    {
    }

    /** Also what the destructor does. */
    method GiveUp(now: Word)
      requires Live(gui.managers.resources)
      modifies gui, gui.managers
      ensures gui.View() == GivenUp(old(gui.View()), imageId, now)
    {
      if imageId != 0 {
        var refs := gui.managers.Release(imageId, now);
        if refs == 0 {
          gui.FreeImage(imageId);
        }
      }
    }
  }
}
