// Scene lifecycle: the flags every scene carries and the scene manager's
// two lists (scenes in rotation and scenes waiting to join it).
//
// The scene properties are a bitmask of distinct flags and are modelled as a
// set.  What a scene's own `createScene` reports is passed in, and so is the
// order `std::stable_sort` leaves the scene pointers in, which depends on
// their addresses.

module Scenes {
  import opened SeqSteps

  /** The hash code that identifies a scene type. */
  type TypeId = nat

  datatype SceneFlag = Active | Visible | Priority

  class SceneBase {
    var renderOrder: nat
    var properties: set<SceneFlag>
    var typeId: TypeId

    /** A new scene is drawn first and is both active and visible. */
    constructor()
      ensures renderOrder == 0 && properties == {Active, Visible}
    {
      renderOrder := 0;
      properties := {Active, Visible};
      typeId := 0;
    }

    /** `shutdown`: clears the Active flag and nothing else. */
    method Shutdown()
      modifies this
      ensures properties == old(properties) - {Active}
      ensures renderOrder == old(renderOrder) && typeId == old(typeId)
    {
      if Active in properties {
        properties := properties - {Active};
      }
    }

    /** `show`: sets the Visible flag and nothing else. */
    method Show()
      modifies this
      ensures properties == old(properties) + {Visible}
      ensures renderOrder == old(renderOrder) && typeId == old(typeId)
    {
      properties := properties + {Visible};
    }

    /** `hide`: clears the Visible flag and nothing else. */
    method Hide()
      modifies this
      ensures properties == old(properties) - {Visible}
      ensures renderOrder == old(renderOrder) && typeId == old(typeId)
    {
      if Visible in properties {
        properties := properties - {Visible};
      }
    }

    /** `prioritise`: sets the Priority flag and nothing else. */
    method Prioritise()
      modifies this
      ensures properties == old(properties) + {Priority}
      ensures renderOrder == old(renderOrder) && typeId == old(typeId)
    {
      properties := properties + {Priority};
    }

    /** `deprioritise`: clears the Priority flag and nothing else. */
    method Deprioritise()
      modifies this
      ensures properties == old(properties) - {Priority}
      ensures renderOrder == old(renderOrder) && typeId == old(typeId)
    {
      if Priority in properties {
        properties := properties - {Priority};
      }
    }
  }

  /** A flag change is idempotent: applying it twice is applying it once. */
  lemma FlagChangesIdempotent(p: set<SceneFlag>, f: SceneFlag)
    ensures (p - {f}) - {f} == p - {f}
    ensures (p + {f}) + {f} == p + {f}
    ensures f in p + {f} && f !in p - {f}
  {
  }

  /** The type identifiers of a list of scenes. */
  function TypeIds(scenes: seq<SceneBase>): (r: seq<TypeId>)
    reads scenes
    ensures |r| == |scenes|
    ensures forall i :: 0 <= i < |scenes| ==> r[i] == scenes[i].typeId
  {
    if |scenes| == 0 then [] else [scenes[0].typeId] + TypeIds(scenes[1..])
  }

  /** The highest index holding `id`, or -1 when there is none. */
  function LastIndexOf(ids: seq<TypeId>, id: TypeId): (r: int)
    ensures -1 <= r < |ids|
    ensures r == -1 <==> id !in ids
    ensures r >= 0 ==> ids[r] == id
    ensures forall j :: r < j < |ids| ==> ids[j] != id
  {
    if |ids| == 0 then -1
    else if ids[|ids| - 1] == id then |ids| - 1
    else LastIndexOf(ids[..|ids| - 1], id)
  }

  /** The scenes still flagged Active, in their original order. */
  function ActiveOnly(scenes: seq<SceneBase>): (r: seq<SceneBase>)
    reads scenes
    ensures |r| <= |scenes|
  {
    if |scenes| == 0 then []
    else (if Active in scenes[0].properties then [scenes[0]] else []) + ActiveOnly(scenes[1..])
  }

  /** A scene survives the removal phase exactly when it is still flagged Active. */
  lemma {:induction false} ActiveOnlyMembers(scenes: seq<SceneBase>)
    ensures forall s :: s in ActiveOnly(scenes) ==> s in scenes && Active in s.properties
    ensures forall s :: s in scenes && Active in s.properties ==> s in ActiveOnly(scenes)
  {
    if |scenes| > 0 {
      ActiveOnlyMembers(scenes[1..]);
      assert scenes == [scenes[0]] + scenes[1..];
    }
  }

  /** The scenes no longer flagged Active, last one first: the order they are destroyed in. */
  function InactiveBackwards(scenes: seq<SceneBase>): (r: seq<SceneBase>)
    reads scenes
    ensures |r| + |ActiveOnly(scenes)| == |scenes|
  {
    if |scenes| == 0 then []
    else InactiveBackwards(scenes[1..]) + (if Active in scenes[0].properties then [] else [scenes[0]])
  }

  /** One step of the backwards removal loop: the filters at index i, in terms of those after it. */
  lemma FilterStep(scenes: seq<SceneBase>, i: nat)
    requires i < |scenes|
    ensures ActiveOnly(scenes[i..])
         == (if Active in scenes[i].properties then [scenes[i]] else []) + ActiveOnly(scenes[i + 1..])
    ensures InactiveBackwards(scenes[i..])
         == InactiveBackwards(scenes[i + 1..]) + (if Active in scenes[i].properties then [] else [scenes[i]])
  {
    assert scenes[i..][1..] == scenes[i + 1..];
  }

  /** The removal phase destroys exactly the scenes no longer flagged Active. */
  lemma {:induction false} InactiveBackwardsMembers(scenes: seq<SceneBase>)
    ensures forall s :: s in InactiveBackwards(scenes) ==> s in scenes && Active !in s.properties
    ensures forall s :: s in scenes && Active !in s.properties ==> s in InactiveBackwards(scenes)
  {
    if |scenes| > 0 {
      InactiveBackwardsMembers(scenes[1..]);
      assert scenes == [scenes[0]] + scenes[1..];
    }
  }

  /** The pending scenes whose creation succeeded, in order. */
  function Admitted(pending: seq<SceneBase>, created: seq<bool>): (r: seq<SceneBase>)
    requires |created| == |pending|
    ensures |r| <= |pending|
    ensures forall i :: 0 <= i < |pending| && created[i] ==> pending[i] in r
  {
    if |pending| == 0 then []
    else Admitted(pending[..|pending| - 1], created[..|pending| - 1])
         + (if created[|pending| - 1] then [pending[|pending| - 1]] else [])
  }

  /** The pending scenes whose creation failed, in order. */
  function Rejected(pending: seq<SceneBase>, created: seq<bool>): (r: seq<SceneBase>)
    requires |created| == |pending|
    ensures |r| + |Admitted(pending, created)| == |pending|
    ensures forall i :: 0 <= i < |pending| && !created[i] ==> pending[i] in r
  {
    if |pending| == 0 then []
    else Rejected(pending[..|pending| - 1], created[..|pending| - 1])
         + (if created[|pending| - 1] then [] else [pending[|pending| - 1]])
  }

  /** Every index below `n` appears in `order`, which has exactly `n` entries. */
  predicate IsPermutation(order: seq<nat>, n: nat)
  {
    |order| == n && (forall i :: 0 <= i < n ==> order[i] < n) && (forall k :: 0 <= k < n ==> k in order)
  }

  /** `scenes` rearranged by `order`. */
  function Permuted(scenes: seq<SceneBase>, order: seq<nat>): (r: seq<SceneBase>)
    requires IsPermutation(order, |scenes|)
    ensures |r| == |scenes|
    ensures forall i :: 0 <= i < |scenes| ==> r[i] == scenes[order[i]]
  {
    seq(|scenes|, i requires 0 <= i < |scenes| => scenes[order[i]])
  }

  /** Reordering keeps exactly the scenes it was given. */
  lemma PermutedMembers(scenes: seq<SceneBase>, order: seq<nat>)
    requires IsPermutation(order, |scenes|)
    ensures forall s :: s in Permuted(scenes, order) ==> s in scenes
    ensures forall s :: s in scenes ==> s in Permuted(scenes, order)
  {
    var r := Permuted(scenes, order);
    forall s | s in scenes
      ensures s in r
    {
      var k :| 0 <= k < |scenes| && scenes[k] == s;
      assert k in order;
      var i :| 0 <= i < |order| && order[i] == k;
      assert r[i] == s;
    }
  }

  /** Scene `i` is where the update loop stops: not a priority scene, yet one came before it. */
  predicate CutsAt(scenes: seq<SceneBase>, i: int)
    requires 0 <= i < |scenes|
    reads scenes
  {
    Priority !in scenes[i].properties && exists j :: 0 <= j < i && Priority in scenes[j].properties
  }

  /** The visible scenes, last one first: the order they are rendered in. */
  function RenderOrder(scenes: seq<SceneBase>): (r: seq<SceneBase>)
    reads scenes
    ensures |r| <= |scenes|
  {
    if |scenes| == 0 then []
    else RenderOrder(scenes[1..]) + (if Visible in scenes[0].properties then [scenes[0]] else [])
  }

  /** Exactly the visible scenes are rendered. */
  lemma {:induction false} RenderOrderMembers(scenes: seq<SceneBase>)
    ensures forall s :: s in RenderOrder(scenes) ==> s in scenes && Visible in s.properties
    ensures forall s :: s in scenes && Visible in s.properties ==> s in RenderOrder(scenes)
  {
    if |scenes| > 0 {
      RenderOrderMembers(scenes[1..]);
      assert scenes == [scenes[0]] + scenes[1..];
    }
  }

  /** Rendering runs from the end of the list: the last visible scene is drawn first. */
  lemma {:induction false} RenderOrderStartsAtEnd(scenes: seq<SceneBase>)
    requires |scenes| > 0 && Visible in scenes[|scenes| - 1].properties
    ensures |RenderOrder(scenes)| > 0 && RenderOrder(scenes)[0] == scenes[|scenes| - 1]
  {
    if |scenes| > 1 {
      RenderOrderStartsAtEnd(scenes[1..]);
    }
  }

  /** Where the program's first scene and its type come from. */
  datatype Setup = Setup(initialScreen: SceneBase, initialId: TypeId)

  class SceneManager {
    var setup: Option<Setup>
    var activeScenes: seq<SceneBase>
    var scenesToAdd: seq<SceneBase>
    var running: bool
    /** False once `destroyInterface` has released the manager's data. */
    var hasData: bool

    constructor(initialiser: Option<Setup>)
      ensures setup == initialiser && activeScenes == [] && scenesToAdd == []
      ensures !running && hasData
    {
      setup := initialiser;
      activeScenes := [];
      scenesToAdd := [];
      running := false;
      hasData := true;
    }

    /** `quit`: clears the running flag. */
    method Quit()
      requires hasData
      modifies this
      ensures !running
      ensures activeScenes == old(activeScenes) && scenesToAdd == old(scenesToAdd) && setup == old(setup)
      ensures hasData
    {
      running := false;
    }

    /**
     * `removeScene`: flags for shutdown the highest-index active scene of the
     * given type and reports whether there was one.
     */
    method RemoveScene(id: TypeId) returns (found: bool)
      requires hasData
      modifies activeScenes
      ensures forall s :: s in activeScenes ==> s.typeId == old(s.typeId)
      ensures found <==> id in old(TypeIds(activeScenes))
      ensures found ==> var k := LastIndexOf(old(TypeIds(activeScenes)), id);
                        activeScenes[k].properties == old(activeScenes[k].properties) - {Active}
                        && forall s :: s in activeScenes && s != activeScenes[k] ==> s.properties == old(s.properties)
      ensures !found ==> forall s :: s in activeScenes ==> s.properties == old(s.properties)
    {
      ghost var ids := TypeIds(activeScenes);
      var i := |activeScenes| - 1;
      while i >= 0 && activeScenes[i].typeId != id
        invariant -1 <= i < |activeScenes|
        invariant forall j :: i < j < |activeScenes| ==> ids[j] != id
      {
        i := i - 1;
      }
      if i < 0 {
        assert id !in ids;
        return false;
      }
      assert LastIndexOf(ids, id) == i;
      activeScenes[i].Shutdown();
      found := true;
    }

    /**
     * `removeScenes`: flags for shutdown every active scene of the given type
     * and reports whether there was at least one.
     */
    method RemoveScenes(id: TypeId) returns (found: bool)
      requires hasData
      modifies activeScenes
      ensures found <==> id in old(TypeIds(activeScenes))
      ensures forall s :: s in activeScenes ==> s.typeId == old(s.typeId)
      ensures forall s :: s in activeScenes ==>
        s.properties == if s.typeId == id then old(s.properties) - {Active} else old(s.properties)
    {
      found := ShutdownOfType(activeScenes, id);
    }

    /** The loop of `removeScenes`: from the end of `scenes`, shuts down each scene of type `id`. */
    static method ShutdownOfType(scenes: seq<SceneBase>, id: TypeId) returns (found: bool)
      modifies scenes
      ensures found <==> id in old(TypeIds(scenes))
      ensures forall s :: s in scenes ==> s.typeId == old(s.typeId)
      ensures forall s :: s in scenes ==>
        s.properties == if s.typeId == id then old(s.properties) - {Active} else old(s.properties)
    {
      ghost var ids := TypeIds(scenes);
      found := false;
      var i := |scenes| - 1;
      while i >= 0
        invariant -1 <= i < |scenes|
        invariant found <==> id in ids[i + 1..]
        invariant forall s {:trigger s in scenes} :: s in scenes ==> s.typeId == old(s.typeId)
        invariant forall s {:trigger s in scenes} :: s in scenes ==>
          s.properties == if s.typeId == id && s in scenes[i + 1..] then old(s.properties) - {Active}
                          else old(s.properties)
      {
        assert scenes[i] in scenes && ids[i..] == [ids[i]] + ids[i + 1..];
        assert scenes[i..] == [scenes[i]] + scenes[i + 1..];
        if scenes[i].typeId == id {
          scenes[i].Shutdown();
          found := true;
        }
        i := i - 1;
      }
      assert ids[0..] == ids;
      forall s | s in scenes
        ensures s.properties == if s.typeId == id then old(s.properties) - {Active} else old(s.properties)
      {
        assert s in scenes[0..];
      }
    }

    /**
     * `initialiseScene`: tags the scene with its type and queues it to join
     * the rotation on the next update; it always succeeds.
     */
    method InitialiseScene(scene: SceneBase, id: TypeId) returns (ok: bool)
      requires hasData
      modifies this, scene
      ensures ok
      ensures scene.typeId == id && scene.properties == old(scene.properties)
      ensures scenesToAdd == old(scenesToAdd) + [scene]
      ensures activeScenes == old(activeScenes) && setup == old(setup) && running == old(running) && hasData
    {
      scene.typeId := id;
      scenesToAdd := scenesToAdd + [scene];
      ok := true;
    }

    /**
     * `createInterface`: fails without a setup object; otherwise consumes it,
     * queues the initial scene and starts running.
     */
    method CreateInterface() returns (ok: bool)
      requires hasData
      modifies this, if setup.Some? then {setup.value.initialScreen} else {}
      ensures ok <==> old(setup).Some?
      ensures !ok ==> setup == old(setup) && running == old(running) && scenesToAdd == old(scenesToAdd)
      ensures ok ==> setup == None && running
                     && scenesToAdd == old(scenesToAdd) + [old(setup).value.initialScreen]
                     && old(setup).value.initialScreen.typeId == old(setup).value.initialId
      ensures activeScenes == old(activeScenes) && hasData
    {
      if setup.None? {
        return false;
      }
      var initial := setup.value;
      setup := None;
      var initialised := InitialiseScene(initial.initialScreen, initial.initialId);
      if !initialised {
        return false;
      }
      running := true;
      ok := true;
    }

    /**
     * `destroyInterface`: destroys the waiting scenes and then the active
     * ones, each list from its end, and releases the manager's data.
     */
    method DestroyInterface() returns (destroyed: seq<SceneBase>)
      modifies this
      ensures !hasData
      ensures old(hasData) ==> destroyed == Reversed(old(scenesToAdd)) + Reversed(old(activeScenes))
      ensures !old(hasData) ==> destroyed == []
    {
      destroyed := [];
      if hasData {
        destroyed := Reversed(scenesToAdd) + Reversed(activeScenes);
        scenesToAdd := [];
        activeScenes := [];
        hasData := false;
      }
    }

    /**
     * The first phase of `update`: scenes no longer flagged Active are
     * destroyed, from the end of the list, and removed from it.
     */
    method RemoveInactive() returns (destroyed: seq<SceneBase>)
      requires hasData
      modifies this
      ensures activeScenes == old(ActiveOnly(activeScenes))
      ensures destroyed == old(InactiveBackwards(activeScenes))
      ensures forall s :: s in activeScenes ==> Active in s.properties
      ensures scenesToAdd == old(scenesToAdd) && setup == old(setup) && running == old(running) && hasData
    {
      ActiveOnlyMembers(activeScenes);
      var kept;
      kept, destroyed := SplitInactive(activeScenes);
      activeScenes := kept;
    }

    /** The loop of the removal phase: walks `all` from its end, setting aside each inactive scene. */
    static method SplitInactive(all: seq<SceneBase>) returns (scenes: seq<SceneBase>, destroyed: seq<SceneBase>)
      ensures scenes == ActiveOnly(all) && destroyed == InactiveBackwards(all)
    {
      scenes := all;
      destroyed := [];
      var i := |scenes| - 1;
      while i >= 0
        invariant -1 <= i < |all|
        invariant scenes == all[..i + 1] + ActiveOnly(all[i + 1..])
        invariant destroyed == InactiveBackwards(all[i + 1..])
      {
        ghost var kept := ActiveOnly(all[i + 1..]);
        FilterStep(all, i);
        SplitAt(all, i, kept, scenes);
        if Active !in scenes[i].properties {
          destroyed := destroyed + [scenes[i]];
          scenes := scenes[..i] + scenes[i + 1..];
        }
        i := i - 1;
      }
      assert all[0..] == all;
    }

    /**
     * The second phase of `update`: each waiting scene joins the rotation
     * when its creation succeeds and is destroyed otherwise; the waiting list
     * is emptied.
     */
    method AdmitPending(created: seq<bool>) returns (discarded: seq<SceneBase>)
      requires hasData
      requires |created| == |scenesToAdd|
      modifies this
      ensures activeScenes == old(activeScenes) + Admitted(old(scenesToAdd), created)
      ensures discarded == Rejected(old(scenesToAdd), created)
      ensures scenesToAdd == []
      ensures setup == old(setup) && running == old(running) && hasData
    {
      ghost var pending := scenesToAdd;
      discarded := [];
      if |scenesToAdd| > 0 {
        var i := 0;
        while i < |scenesToAdd|
          invariant 0 <= i <= |pending| && scenesToAdd == pending
          invariant activeScenes == old(activeScenes) + Admitted(pending[..i], created[..i])
          invariant discarded == Rejected(pending[..i], created[..i])
          invariant setup == old(setup) && running == old(running) && hasData
        {
          assert pending[..i + 1][..i] == pending[..i];
          assert created[..i + 1][..i] == created[..i];
          if !created[i] {
            discarded := discarded + [scenesToAdd[i]];
          } else {
            activeScenes := activeScenes + [scenesToAdd[i]];
          }
          i := i + 1;
        }
        assert pending[..i] == pending && created[..i] == created;
        scenesToAdd := [];
      }
    }

    /**
     * The update loop of `update`: scenes are updated from the front and the
     * loop stops at the first non-priority scene that follows a priority one.
     */
    method UpdateCount() returns (count: nat)
      ensures count <= |activeScenes|
      ensures forall i :: 0 <= i < count ==> !CutsAt(activeScenes, i)
      ensures count < |activeScenes| ==> CutsAt(activeScenes, count)
    {
      var priorityFlag := false;
      count := 0;
      while count < |activeScenes|
        invariant count <= |activeScenes|
        invariant priorityFlag <==> exists j :: 0 <= j < count && Priority in activeScenes[j].properties
        invariant forall i :: 0 <= i < count ==> !CutsAt(activeScenes, i)
      {
        if Priority in activeScenes[count].properties {
          priorityFlag := true;
        } else if priorityFlag {
          return;
        }
        count := count + 1;
      }
    }

    /** The render loop of `update`: the visible scenes, from the end of the list. */
    method Rendered() returns (rendered: seq<SceneBase>)
      ensures rendered == RenderOrder(activeScenes)
    {
      rendered := [];
      var i := |activeScenes| - 1;
      while i >= 0
        invariant -1 <= i < |activeScenes|
        invariant rendered == RenderOrder(activeScenes[i + 1..])
      {
        assert activeScenes[i..][1..] == activeScenes[i + 1..];
        if Visible in activeScenes[i].properties {
          rendered := rendered + [activeScenes[i]];
        }
        i := i - 1;
      }
      assert activeScenes[0..] == activeScenes;
    }

    /**
     * `update`: removes inactive scenes, admits the waiting ones, quits when
     * nothing is left, and otherwise reorders the list, updates its leading
     * scenes and renders the visible ones.  `order` is the rearrangement the
     * sort makes of the list it is given.
     */
    method Update(created: seq<bool>, order: seq<nat>) returns (updated: seq<SceneBase>, rendered: seq<SceneBase>)
      requires hasData
      requires |created| == |scenesToAdd|
      requires IsPermutation(order, |ActiveOnly(activeScenes)| + |Admitted(scenesToAdd, created)|)
      modifies this
      ensures scenesToAdd == [] && setup == old(setup) && hasData
      ensures var rotation := old(ActiveOnly(activeScenes)) + Admitted(old(scenesToAdd), created);
              |rotation| == 0 ==> !running && activeScenes == [] && updated == [] && rendered == []
      ensures var rotation := old(ActiveOnly(activeScenes)) + Admitted(old(scenesToAdd), created);
              |rotation| > 0 ==> running == old(running) && activeScenes == Permuted(rotation, order)
      ensures rendered == RenderOrder(activeScenes)
      ensures updated <= activeScenes
      ensures |updated| < |activeScenes| ==> CutsAt(activeScenes, |updated|)
      ensures forall i :: 0 <= i < |updated| ==> !CutsAt(activeScenes, i)
    {
      ghost var rotation := ActiveOnly(activeScenes) + Admitted(scenesToAdd, created);
      var destroyed := RemoveInactive();
      var discarded := AdmitPending(created);
      assert activeScenes == rotation;
      updated, rendered := [], [];
      if |activeScenes| == 0 {
        Quit();
        return;
      }
      activeScenes := Permuted(activeScenes, order);
      ghost var sorted := activeScenes;
      assert sorted == Permuted(rotation, order);
      var count := UpdateCount();
      updated := activeScenes[..count];
      assert count < |activeScenes| ==> CutsAt(activeScenes, |updated|);
      rendered := Rendered();
    }
  }

}
