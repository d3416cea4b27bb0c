// The engine's global interface registry: a singleton that owns one object
// per interface type, keyed by the type's hash code, and drives their
// update and teardown in registration order.
//
// Interface objects are identified by handles; what an interface's own
// `createInterface` reports is passed in as a boolean.

module GlobalsRegistry {

  import opened SeqSteps

  /** The hash code that identifies an interface type. */
  type TypeId = nat

  /** The identity of an interface object. */
  type Handle = nat

  /** A call either returns normally or throws a runtime error. */
  datatype Outcome = Returned | Threw

  /** No identifier occurs twice in the update order. */
  predicate Distinct(order: seq<TypeId>)
  {
    forall i, j :: 0 <= i < j < |order| ==> order[i] != order[j]
  }

  /** The interfaces in the order `update` visits them. */
  function UpdateVisits(interfaces: map<TypeId, Handle>, order: seq<TypeId>): (r: seq<Handle>)
    requires forall i :: 0 <= i < |order| ==> order[i] in interfaces
    ensures |r| == |order|
  {
    seq(|order|, i requires 0 <= i < |order| => interfaces[order[i]])
  }

  class Globals {
    var interfaces: map<TypeId, Handle>
    var updateOrder: seq<TypeId>

    /**
     * The registry is consistent when the map and the update order name
     * the same identifiers and no identifier is ordered twice.
     */
    predicate Valid()
      reads this
    {
      (forall id :: id in updateOrder ==> id in interfaces)
      && (forall id :: id in interfaces ==> id in updateOrder)
      && Distinct(updateOrder)
    }

    constructor()
      ensures interfaces == map[] && updateOrder == []
      ensures Valid()
    {
      interfaces := map[];
      updateOrder := [];
    }

    /** `interfaceExists`: true exactly for registered identifiers. */
    function InterfaceExists(id: TypeId): (b: bool)
      reads this
      ensures b <==> id in interfaces
    {
      id in interfaces
    }

    /** `retrieve`: the registered interface, or nothing for an unknown identifier. */
    function Retrieve(id: TypeId): (r: Option<Handle>)
      reads this
      ensures r.None? <==> !InterfaceExists(id)
      ensures r.Some? ==> interfaces[id] == r.value
    {
      if id in interfaces then Some(interfaces[id]) else None
    }

    /**
     * `introduceInterface`: when the interface's own setup fails it is torn
     * down and nothing is registered; otherwise the identifier maps to it and
     * is appended to the update order.
     */
    method IntroduceInterface(inter: Handle, id: TypeId, setupSucceeds: bool) returns (r: Option<Handle>)
      modifies this
      ensures !setupSucceeds ==> r == None && interfaces == old(interfaces) && updateOrder == old(updateOrder)
      ensures setupSucceeds ==> r == Some(inter) && interfaces == old(interfaces)[id := inter]
                                && updateOrder == old(updateOrder) + [id]
    {
      if !setupSucceeds {
        return None;
      }
      interfaces := interfaces[id := inter];
      updateOrder := updateOrder + [id];
      r := Some(inter);
    }

    /**
     * `addInterface`: refuses a type that is already registered, otherwise
     * introduces the new interface.  This is what keeps the registry valid.
     */
    method AddInterface(inter: Handle, id: TypeId, setupSucceeds: bool) returns (r: Option<Handle>)
      requires Valid()
      modifies this
      ensures Valid()
      ensures old(InterfaceExists(id)) ==> r == None && interfaces == old(interfaces) && updateOrder == old(updateOrder)
      ensures !old(InterfaceExists(id)) ==> r == (if setupSucceeds then Some(inter) else None)
      ensures !old(InterfaceExists(id)) && setupSucceeds ==>
                interfaces == old(interfaces)[id := inter] && updateOrder == old(updateOrder) + [id]
      ensures !setupSucceeds ==> interfaces == old(interfaces) && updateOrder == old(updateOrder)
    {
      if InterfaceExists(id) {
        return None;
      }
      r := IntroduceInterface(inter, id, setupSucceeds);
      if setupSucceeds {
        IntroducePreservesValid(old(interfaces), old(updateOrder), id, inter);
      }
    }

    /** `update`: visits every interface once, in registration order. */
    method Update() returns (visited: seq<Handle>)
      requires Valid()
      ensures visited == UpdateVisits(interfaces, updateOrder)
    {
      visited := [];
      var i := 0;
      while i < |updateOrder|
        invariant 0 <= i <= |updateOrder|
        invariant visited == UpdateVisits(interfaces, updateOrder[..i])
      {
        visited := visited + [interfaces[updateOrder[i]]];
        i := i + 1;
        assert updateOrder[..i] == updateOrder[..i - 1] + [updateOrder[i - 1]];
      }
      assert updateOrder[..i] == updateOrder;
    }

    /** The teardown loop of `destroy`: every interface, last registered first. */
    method TearDown() returns (destroyed: seq<Handle>)
      requires Valid()
      ensures destroyed == Reversed(UpdateVisits(interfaces, updateOrder))
    {
      destroyed := [];
      var i := |updateOrder| - 1;
      while i >= 0
        invariant -1 <= i < |updateOrder|
        invariant destroyed == Reversed(UpdateVisits(interfaces, updateOrder[i + 1..]))
      {
        destroyed := destroyed + [interfaces[updateOrder[i]]];
        assert updateOrder[i..] == [updateOrder[i]] + updateOrder[i + 1..];
        i := i - 1;
      }
      assert updateOrder[0..] == updateOrder;
    }
  }

  lemma IntroducePreservesValid(interfaces: map<TypeId, Handle>, order: seq<TypeId>, id: TypeId, inter: Handle)
    requires (forall k :: k in order <==> k in interfaces) && Distinct(order)
    requires id !in interfaces
    ensures forall k :: k in order + [id] <==> k in interfaces[id := inter]
    ensures Distinct(order + [id])
  {
  }

  /**
   * Registering a new interface appends it to the visiting order and leaves
   * the visits of the earlier interfaces as they were.
   */
  lemma VisitsAfterIntroduce(interfaces: map<TypeId, Handle>, order: seq<TypeId>, id: TypeId, inter: Handle)
    requires forall k :: k in order <==> k in interfaces
    requires id !in interfaces
    ensures forall i :: 0 <= i < |order + [id]| ==> (order + [id])[i] in interfaces[id := inter]
    ensures UpdateVisits(interfaces[id := inter], order + [id]) == UpdateVisits(interfaces, order) + [inter]
  {
    var after := UpdateVisits(interfaces[id := inter], order + [id]);
    var before := UpdateVisits(interfaces, order) + [inter];
    forall i | 0 <= i < |after|
      ensures after[i] == before[i]
    {
      if i < |order| {
        assert order[i] in interfaces;
        assert order[i] != id;
      }
    }
  }

  /** The static singleton slot the registry lives in. */
  class Host {
    var instance: Globals?

    constructor()
      ensures instance == null
    {
      instance := null;
    }

    /** `create`: throws when the singleton exists, otherwise builds an empty registry. */
    method Create() returns (outcome: Outcome)
      modifies this
      ensures old(instance) != null ==> outcome == Threw && instance == old(instance)
      ensures old(instance) == null ==> outcome == Returned && instance != null && fresh(instance)
                                        && instance.interfaces == map[] && instance.updateOrder == []
                                        && instance.Valid()
    {
      if instance != null {
        return Threw;
      }
      instance := new Globals();
      outcome := Returned;
    }

    /**
     * `destroy`: tears the interfaces down in reverse registration order and
     * empties the singleton slot; with no singleton it does nothing.
     */
    method Destroy() returns (destroyed: seq<Handle>)
      requires instance != null ==> instance.Valid()
      modifies this
      ensures instance == null
      ensures old(instance) == null ==> destroyed == []
      ensures old(instance) != null ==>
        destroyed == Reversed(UpdateVisits(old(instance.interfaces), old(instance.updateOrder)))
    {
      destroyed := [];
      if instance != null {
        destroyed := instance.TearDown();
        instance := null;
      }
    }
  }
}
