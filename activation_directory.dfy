/**
 The node-local activation directory: the registry of every live activation and
 system target hosted on this node, with the per-type counters it maintains.
 Each call is modelled as running alone; the per-list locks and the atomicity of
 the concurrent dictionaries are not part of the model.
 */
module Catalog {
  import opened Records
  import opened ListOps
  import opened CounterStore
  import opened ActivationRegistry
  import opened SystemTargetRegistry

  class ActivationDirectory {
    /** Primary index: application activations by identity. */
    var activations: map<ActivationId, Activation>
    /** System targets by identity. */
    var systemTargets: map<ActivationId, SystemTarget>
    /** Secondary index: each grain's activations, in the order they were recorded. */
    var grainToActivationsMap: map<GrainId, seq<Activation>>
    /** Grain-type counters by type name. */
    var grainCounts: Counters
    /** System-target-type counters by type name. */
    var systemTargetCounts: Counters
    /** The runtime's test for system-target types that have one instance per node. */
    const isSingletonSystemTarget: GrainId -> bool
    /** The runtime's resolver from a system target's grain identity to its type name. */
    const systemTargetName: GrainId -> string

    /** The two activation indexes as one value. */
    function Indexes(): Index
      reads this
    {
      Index(activations, grainToActivationsMap)
    }

    /** The system-target index and its counters as one value. */
    function SystemTargetState(): Registry
      reads this
    {
      Registry(systemTargets, systemTargetCounts)
    }

    /**
     The whole directory invariant: the activation indexes agree, and every
     system target is filed under its own identity. The system-target members
     need and keep only the second half.
     */
    ghost predicate Valid()
      reads this
    {
      && Indexes().Valid()
      && FiledUnderOwnId(systemTargets)
    }

    constructor (isSingletonSystemTarget: GrainId -> bool, systemTargetName: GrainId -> string)
      ensures Valid()
      ensures activations == map[] && grainToActivationsMap == map[] && systemTargets == map[]
      ensures grainCounts == map[] && systemTargetCounts == map[]
      ensures this.isSingletonSystemTarget == isSingletonSystemTarget
      ensures this.systemTargetName == systemTargetName
    {
      activations := map[];
      systemTargets := map[];
      grainToActivationsMap := map[];
      grainCounts := map[];
      systemTargetCounts := map[];
      this.isSingletonSystemTarget := isSingletonSystemTarget;
      this.systemTargetName := systemTargetName;
    }

    /** The number of registered activations; it is zero exactly when no grain has a list. */
    function Count(): (n: nat)
      reads this
      requires Valid()
      ensures n == |activations|
      ensures n == 0 <==> grainToActivationsMap == map[]
    {
      NoActivationsIffNoGrains(Indexes());
      |activations|
    }

    /** The record registered under `key`, which is listed under its grain, or None. */
    function FindTarget(key: ActivationId): (r: Option<Activation>)
      reads this
      requires Valid()
      ensures r.Some? <==> key in activations
      ensures r.Some? ==> r.value == activations[key] && r.value.id == key
      ensures r.Some? ==> r.value.grain in grainToActivationsMap && r.value in grainToActivationsMap[r.value.grain]
    {
      if key in activations then
        var a := activations[key];
        assert a in multiset(grainToActivationsMap[a.grain]);
        Some(a)
      else
        None
    }

    /** The system target registered under `key`, or None. */
    function FindSystemTarget(key: ActivationId): (r: Option<SystemTarget>)
      reads this
      requires FiledUnderOwnId(systemTargets)
      ensures r.Some? <==> key in systemTargets
      ensures r.Some? ==> r.value == systemTargets[key] && r.value.id == key
    {
      if key in systemTargets then Some(systemTargets[key]) else None
    }

    /**
     A copy of `key`'s activation list, or None (never an empty list) when the
     grain has no registered activation; the list holds exactly the grain's
     registered records.
     */
    function FindTargets(key: GrainId): (r: Option<seq<Activation>>)
      reads this
      requires Valid()
      ensures r.None? <==> forall id :: id in activations ==> activations[id].grain != key
      ensures r.Some? ==> r.value == grainToActivationsMap[key] && r.value != []
      ensures r.Some? ==> forall a: Activation :: a in r.value <==> a.id in activations && activations[a.id] == a && a.grain == key
    {
      if key in grainToActivationsMap then
        var list := grainToActivationsMap[key];
        assert list[0].id in activations && activations[list[0].id].grain == key;
        assert forall a: Activation :: a.id in activations && activations[a.id] == a && a.grain == key ==> a in multiset(list);
        Some(list)
      else
        assert forall id :: id in activations ==> activations[id].grain in grainToActivationsMap;
        None
    }

    /** The grain-type statistics: exactly the counters whose value is greater than zero. */
    function GetSimpleGrainStatistics(): (r: map<string, int>)
      reads this
      ensures forall n :: n in r <==> n in grainCounts && grainCounts[n] > 0
      ensures forall n :: n in r ==> r[n] == grainCounts[n]
    {
      Positive(grainCounts)
    }

    /** The counter for a grain type, created at zero on first use. */
    method FindGrainCounter(grainTypeName: string) returns (value: int)
      modifies this`grainCounts
      ensures grainCounts == FindOrCreate(old(grainCounts), grainTypeName)
      ensures value == grainCounts[grainTypeName] == ValueOf(old(grainCounts), grainTypeName)
    {
      if grainTypeName in grainCounts {
        return grainCounts[grainTypeName];
      }
      grainCounts := grainCounts[grainTypeName := 0];
      value := 0;
    }

    /** The counter for a system-target type, created at zero on first use. */
    method FindSystemTargetCounter(systemTargetTypeName: string) returns (value: int)
      modifies this`systemTargetCounts
      ensures systemTargetCounts == FindOrCreate(old(systemTargetCounts), systemTargetTypeName)
      ensures value == systemTargetCounts[systemTargetTypeName] == ValueOf(old(systemTargetCounts), systemTargetTypeName)
    {
      if systemTargetTypeName in systemTargetCounts {
        return systemTargetCounts[systemTargetTypeName];
      }
      systemTargetCounts := systemTargetCounts[systemTargetTypeName := 0];
      value := 0;
    }

    /** Adds one to the grain type's counter, creating it first if needed; nothing else changes. */
    method IncrementGrainCounter(grainTypeName: string)
      modifies this`grainCounts
      ensures grainCounts == Adjust(old(grainCounts), grainTypeName, 1)
    {
      var current := FindGrainCounter(grainTypeName);
      grainCounts := grainCounts[grainTypeName := current + 1];
    }

    /** Takes one from the grain type's counter, creating it first if needed; nothing else changes. */
    method DecrementGrainCounter(grainTypeName: string)
      modifies this`grainCounts
      ensures grainCounts == Adjust(old(grainCounts), grainTypeName, -1)
    {
      var current := FindGrainCounter(grainTypeName);
      grainCounts := grainCounts[grainTypeName := current - 1];
    }

    /**
     Registers an activation: a no-op when its identity is already registered;
     otherwise it is filed under its identity and appended to its grain's list.
     */
    method RecordNewTarget(target: Activation)
      requires Valid()
      modifies this`activations, this`grainToActivationsMap
      ensures Valid()
      ensures Indexes() == old(Indexes()).AddTarget(target)
    {
      ghost var expected := Indexes().AddTarget(target);
      AddTargetPreservesValid(Indexes(), target);
      if target.id in activations {
        return;
      }
      activations := activations[target.id := target];
      if target.grain in grainToActivationsMap {
        grainToActivationsMap := grainToActivationsMap[target.grain := grainToActivationsMap[target.grain] + [target]];
      } else {
        assert [] + [target] == [target];
        grainToActivationsMap := grainToActivationsMap[target.grain := [target]];
      }
      assert Indexes() == expected;
    }

    /**
     Unregisters an activation: a no-op when its identity is not registered;
     otherwise it leaves the primary index and its grain's list, and the grain's
     entry is deleted when the list becomes empty. When the caller passes the
     record registered under that identity, as callers are expected to, the
     invariant is kept and the record is left in no list.
     */
    method RemoveTarget(target: Activation)
      requires Valid()
      modifies this`activations, this`grainToActivationsMap
      ensures Indexes() == old(Indexes()).DropTarget(target)
      ensures old(target.id in activations ==> activations[target.id] == target) ==>
        Valid() && forall g :: target !in Indexes().GrainList(g)
    {
      if target.id !in activations {
        DropTargetPreservesValid(Indexes(), target);
        return;
      }
      ghost var consistent := activations[target.id] == target;
      activations := activations - {target.id};
      UnlistTarget(target);
      if consistent {
        DropTargetPreservesValid(old(Indexes()), target);
      }
    }

    /**
     The grain half of RemoveTarget: when the grain has a list, one occurrence
     of the record leaves it, and an emptied list's entry is deleted.
     */
    method UnlistTarget(target: Activation)
      modifies this`grainToActivationsMap
      ensures grainToActivationsMap == Unlisted(old(grainToActivationsMap), target)
    {
      if target.grain in grainToActivationsMap {
        ghost var before := grainToActivationsMap;
        var list := RemoveFirst(grainToActivationsMap[target.grain], target);
        grainToActivationsMap := grainToActivationsMap[target.grain := list];
        if |list| == 0 {
          var list2 := grainToActivationsMap[target.grain];
          grainToActivationsMap := grainToActivationsMap - {target.grain};
          if |list2| > 0 {
            // The re-merge runs only when another call has replaced the
            // grain's entry since the lookup; run alone, list2 is the list
            // just found empty.
            assert false;
          }
          assert grainToActivationsMap == before - {target.grain};
        }
      }
    }

    /**
     Registers a system target (a no-op on the index when its identity is
     taken) and, unless its type is a singleton, adds one to its type's counter.
     */
    method RecordNewSystemTarget(target: SystemTarget)
      requires FiledUnderOwnId(systemTargets)
      modifies this`systemTargets, this`systemTargetCounts
      ensures FiledUnderOwnId(systemTargets)
      ensures SystemTargetState() == old(SystemTargetState()).Register(target, isSingletonSystemTarget, systemTargetName)
    {
      if target.id !in systemTargets {
        systemTargets := systemTargets[target.id := target];
      }
      if !isSingletonSystemTarget(target.grainId) {
        var name := systemTargetName(target.grainId);
        var current := FindSystemTargetCounter(name);
        systemTargetCounts := systemTargetCounts[name := current + 1];
      }
    }

    /**
     Unregisters a system target (a no-op on the index when its identity is not
     registered) and, unless its type is a singleton, takes one from its type's
     counter.
     */
    method RemoveSystemTarget(target: SystemTarget)
      requires FiledUnderOwnId(systemTargets)
      modifies this`systemTargets, this`systemTargetCounts
      ensures FiledUnderOwnId(systemTargets)
      ensures SystemTargetState() == old(SystemTargetState()).Unregister(target, isSingletonSystemTarget, systemTargetName)
    {
      systemTargets := systemTargets - {target.id};
      if !isSingletonSystemTarget(target.grainId) {
        var name := systemTargetName(target.grainId);
        var current := FindSystemTargetCounter(name);
        systemTargetCounts := systemTargetCounts[name := current - 1];
      }
    }
  }
}
