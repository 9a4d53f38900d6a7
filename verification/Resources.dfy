/** Reference counts of shared resources, by id. Id zero stands for no resource. */
module Resources {
  import opened Common

  /** `texture` tells whether closing the resource deletes an OpenGL texture: the default
      manager's close does nothing. */
  datatype Manager = Manager(refs: int, lastRelease: Word, texture: bool)

  type Registry = map<int, Manager>

  /** Every manager has a use. */
  ghost predicate Live(reg: Registry) {
    0 !in reg && forall id :: id in reg ==> reg[id].refs > 0
  }

  function Managed(reg: Registry, id: int, texture: bool): Registry {
    if id in reg then reg[id := reg[id].(refs := reg[id].refs + 1)]
    else if id == 0 then reg
    else reg[id := Manager(1, 0, texture)]
  }

  /** The uses left, zero also when nothing was registered. */
  function RefsAfter(reg: Registry, id: int): int {
    if id == 0 || id !in reg then 0 else reg[id].refs - 1
  }

  function Released(reg: Registry, id: int, now: Word): Registry {
    if id == 0 || id !in reg then reg
    else if reg[id].refs == 1 then reg - {id}
    else reg[id := reg[id].(refs := reg[id].refs - 1, lastRelease := now)]
  }

  /** The release that closes the resource. */
  predicate Closes(reg: Registry, id: int) { id != 0 && id in reg && reg[id].refs == 1 }

  /** A texture manager takes over with the same count; nothing registered counts as one. */
  function HandedOver(reg: Registry, id: int): Registry {
    if id in reg then reg[id := Manager(reg[id].refs, 0, true)]
    else if id == 0 then reg
    else reg[id := Manager(1, 0, true)]
  }

  class ResourceManagers {
    var resources: Registry
    /** The textures that the driver holds. */
    var textures: set<int>

    constructor ()
      ensures resources == map[] && textures == {}
    {
      resources := map[];
      textures := {};
    }

    method Manage(id: int, texture: bool)
      modifies this`resources
      ensures resources == Managed(old(resources), id, texture)
    {
      if id in resources {
        resources := resources[id := resources[id].(refs := resources[id].refs + 1)];
      } else if id != 0 {
        resources := resources[id := Manager(1, 0, texture)];
      }
    }

    method Release(id: int, now: Word) returns (refs: int)
      requires Live(resources)
      modifies this
      ensures resources == Released(old(resources), id, now) && refs == RefsAfter(old(resources), id)
      ensures textures == old(textures) - ClosedTextures(old(resources), id)
      ensures Live(resources)
    {
      if id == 0 || id !in resources {
        return 0;
      }
      var manager := resources[id];
      manager := manager.(lastRelease := now, refs := manager.refs - 1);
      if manager.refs == 0 {
        resources := resources - {id};
        if manager.texture {
          textures := textures - {id};
        }
        return 0;
      }
      resources := resources[id := manager];
      return manager.refs;
    }

    method Handover(id: int)
      modifies this`resources
      ensures resources == HandedOver(old(resources), id)
    {
      if id in resources {
        var manager := resources[id];
        resources := resources - {id};
        var refs := manager.refs;
        resources := resources[id := Manager(refs, 0, true)];
      } else if id != 0 {
        resources := resources[id := Manager(1, 0, true)];
      }
    }
  }

  /** The texture that a release deletes. */
  function ClosedTextures(reg: Registry, id: int): set<int> {
    if Closes(reg, id) && reg[id].texture then {id} else {}
  }

  // ---- over a run ----

  datatype Call =
    | ManageCall(id: int, texture: bool)
    | ReleaseCall(id: int, now: Word)
    | HandoverCall(id: int)

  /** The registry with the books of a run: the uses granted and returned, and each time an
      id was registered and closed. */
  datatype Books = Books(reg: Registry, granted: multiset<int>, returned: multiset<int>,
                         openings: multiset<int>, closings: multiset<int>)

  const EMPTY: Books := Books(map[], multiset{}, multiset{}, multiset{}, multiset{})

  function Grant(id: int, unless: bool): multiset<int> { if id == 0 || unless then multiset{} else multiset{id} }

  function After(b: Books, call: Call): Books {
    match call
    case ManageCall(id, texture) =>
      Books(Managed(b.reg, id, texture), b.granted + Grant(id, false), b.returned,
            b.openings + Grant(id, id in b.reg), b.closings)
    case ReleaseCall(id, now) =>
      Books(Released(b.reg, id, now), b.granted, b.returned + Grant(id, id !in b.reg),
            b.openings, b.closings + Grant(id, !Closes(b.reg, id)))
    case HandoverCall(id) =>
      Books(HandedOver(b.reg, id), b.granted + Grant(id, id in b.reg), b.returned,
            b.openings + Grant(id, id in b.reg), b.closings)
  }

  function Run(calls: seq<Call>): Books {
    if calls == [] then EMPTY else After(Run(calls[..|calls| - 1]), calls[|calls| - 1])
  }

  /** A resource is registered exactly while more uses were granted than returned, its count
      is the difference, and it was closed once for every time it was registered but the last. */
  ghost predicate BalancedAt(b: Books, id: int) {
    && b.granted[id] >= b.returned[id]
    && (id in b.reg <==> b.granted[id] > b.returned[id])
    && (id in b.reg ==> id != 0 && b.reg[id].refs == b.granted[id] - b.returned[id])
    && b.openings[id] == b.closings[id] + (if id in b.reg then 1 else 0)
  }

  ghost predicate Balanced(b: Books) { forall id :: BalancedAt(b, id) }

  lemma AfterKeepsBalance(b: Books, call: Call, id: int)
    requires BalancedAt(b, id) && BalancedAt(b, 0) && BalancedAt(b, call.id)
    ensures BalancedAt(After(b, call), id)
  {
  }


  lemma {:induction false} UsesAreCounted(calls: seq<Call>)
    ensures Balanced(Run(calls))
  {
    if calls != [] {
      hide BalancedAt, After;
      UsesAreCounted(calls[..|calls| - 1]);
      var b, call := Run(calls[..|calls| - 1]), calls[|calls| - 1];
      forall id ensures BalancedAt(After(b, call), id) {
        AfterKeepsBalance(b, call, id);
      }
    } else {
      assert Balanced(EMPTY);
    }
  }

  /** When the present manager of a resource was last released, and whether it is a texture's:
      a manager that is new or takes over was not released yet. */
  function ManagerOf(calls: seq<Call>, id: int): (Word, bool) {
    if calls == [] then (0, false)
    else
      var prefix := calls[..|calls| - 1];
      var before := ManagerOf(prefix, id);
      match calls[|calls| - 1]
      case ManageCall(i, texture) => if i == id && id !in Run(prefix).reg then (0, texture) else before
      case ReleaseCall(i, now) => if i == id then (now, before.1) else before
      case HandoverCall(i) => if i == id then (0, true) else before
  }

  lemma {:induction false} ManagersOverRuns(calls: seq<Call>, id: int)
    ensures var reg := Run(calls).reg;
            id in reg ==> (reg[id].lastRelease, reg[id].texture) == ManagerOf(calls, id)
  {
    if calls != [] && id in Run(calls).reg {
      hide Run, Managed, Released, HandedOver;
      var reg := Run(calls[..|calls| - 1]).reg;
      ManagersOverRuns(calls[..|calls| - 1], id);
      NoneIsZero(calls[..|calls| - 1]);
      LastCall(calls);
      match calls[|calls| - 1]
      case ManageCall(i, texture) => ManagedOne(reg, i, texture, id);
      case ReleaseCall(i, now) => ReleasedOne(reg, i, now, id);
      case HandoverCall(i) => HandedOverOne(reg, i, id);
    }
  }

  lemma LastCall(calls: seq<Call>)
    requires calls != []
    ensures var reg := Run(calls[..|calls| - 1]).reg;
            Run(calls).reg ==
            match calls[|calls| - 1]
            case ManageCall(i, texture) => Managed(reg, i, texture)
            case ReleaseCall(i, now) => Released(reg, i, now)
            case HandoverCall(i) => HandedOver(reg, i)
  {
  }

  lemma NoneIsZero(calls: seq<Call>)
    ensures 0 !in Run(calls).reg
  {
    UsesAreCounted(calls);
    assert BalancedAt(Run(calls), 0);
  }

  lemma ManagedOne(reg: Registry, i: int, texture: bool, id: int)
    requires id in Managed(reg, i, texture)
    ensures var m := Managed(reg, i, texture)[id];
            if id in reg then m.lastRelease == reg[id].lastRelease && m.texture == reg[id].texture
            else i == id && m.lastRelease == 0 && m.texture == texture
  {
  }

  lemma ReleasedOne(reg: Registry, i: int, now: Word, id: int)
    requires 0 !in reg && id in Released(reg, i, now)
    ensures var m := Released(reg, i, now)[id];
            && id in reg && m.texture == reg[id].texture
            && m.lastRelease == if i == id then now else reg[id].lastRelease
  {
  }

  lemma HandedOverOne(reg: Registry, i: int, id: int)
    requires id in HandedOver(reg, i)
    ensures var m := HandedOver(reg, i)[id];
            if i == id then m.lastRelease == 0 && m.texture else id in reg && m == reg[id]
  {
  }

  /** A release closes the resource exactly when it returns the last use, and a handover of a
      registered resource grants, returns and closes nothing. */
  lemma LastUseCloses(calls: seq<Call>, id: int, now: Word)
    ensures var b := Run(calls);
            && (Closes(b.reg, id) <==> b.granted[id] == b.returned[id] + 1)
            && (id in b.reg ==> RefsAfter(HandedOver(b.reg, id), id) == RefsAfter(b.reg, id))
            && After(b, ReleaseCall(id, now)).closings[id] ==
               b.closings[id] + (if b.granted[id] == b.returned[id] + 1 then 1 else 0)
  {
    UsesAreCounted(calls);
    assert BalancedAt(Run(calls), id);
  }
}
