/**
 The system-target registry on values: a separate identity-keyed index for the
 runtime's own actors, and the per-type counters it drives. The singleton test
 and the type-name resolver belong to the runtime's constants and are taken as
 parameters here.
 */
module SystemTargetRegistry {
  import opened Records
  import opened CounterStore

  datatype Registry = Registry(targets: map<ActivationId, SystemTarget>, counts: Counters)
  {
    /**
     RecordNewSystemTarget: the target is filed under its identity unless that
     identity is taken; the counter for its type name goes up by one unless the
     type is a singleton, whether or not the target was filed.
     */
    function Register(t: SystemTarget, isSingleton: GrainId -> bool, typeName: GrainId -> string): (r: Registry)
      ensures t.id in targets ==> r.targets == targets
      ensures t.id !in targets ==> r.targets == targets[t.id := t]
      ensures isSingleton(t.grainId) ==> r.counts == counts
      ensures !isSingleton(t.grainId) ==>
        && typeName(t.grainId) in r.counts
        && r.counts[typeName(t.grainId)] == ValueOf(counts, typeName(t.grainId)) + 1
        && forall n :: n != typeName(t.grainId) ==> ValueOf(r.counts, n) == ValueOf(counts, n)
    {
      var filed := if t.id in targets then targets else targets[t.id := t];
      Registry(filed, if isSingleton(t.grainId) then counts else Adjust(counts, typeName(t.grainId), 1))
    }

    /**
     RemoveSystemTarget: the identity leaves the index if it was there; the
     counter for the type name goes down by one unless the type is a singleton,
     whether or not anything was removed.
     */
    function Unregister(t: SystemTarget, isSingleton: GrainId -> bool, typeName: GrainId -> string): (r: Registry)
      ensures r.targets == targets - {t.id}
      ensures isSingleton(t.grainId) ==> r.counts == counts
      ensures !isSingleton(t.grainId) ==>
        && typeName(t.grainId) in r.counts
        && r.counts[typeName(t.grainId)] == ValueOf(counts, typeName(t.grainId)) - 1
        && forall n :: n != typeName(t.grainId) ==> ValueOf(r.counts, n) == ValueOf(counts, n)
    {
      Registry(targets - {t.id}, if isSingleton(t.grainId) then counts else Adjust(counts, typeName(t.grainId), -1))
    }
  }

  /** The identities of the registered, counted (non-singleton) targets whose type name is `name`. */
  function Live(targets: map<ActivationId, SystemTarget>, name: string, isSingleton: GrainId -> bool, typeName: GrainId -> string): set<ActivationId>
  {
    set id | id in targets && !isSingleton(targets[id].grainId) && typeName(targets[id].grainId) == name
  }

  /** Every registered system target is filed under its own identity. */
  ghost predicate FiledUnderOwnId(targets: map<ActivationId, SystemTarget>)
  {
    forall id :: id in targets ==> targets[id].id == id
  }

  /** Every type's counter equals the number of its registered, counted targets. */
  ghost predicate CountsTrackLive(r: Registry, isSingleton: GrainId -> bool, typeName: GrainId -> string)
  {
    forall name :: ValueOf(r.counts, name) == |Live(r.targets, name, isSingleton, typeName)|
  }

  /** With nothing registered and no counter created the counters track the live targets. */
  lemma EmptyTracksLive(isSingleton: GrainId -> bool, typeName: GrainId -> string)
    ensures CountsTrackLive(Registry(map[], map[]), isSingleton, typeName)
  {
    forall name
      ensures ValueOf(map[], name) == |Live(map[], name, isSingleton, typeName)|
    {
      assert Live(map[], name, isSingleton, typeName) == {};
    }
  }

  /** Registering a target whose identity is new adds it to the live set of its own type name only. */
  lemma RegisterFreshLive(r: Registry, t: SystemTarget, name: string, isSingleton: GrainId -> bool, typeName: GrainId -> string)
    requires t.id !in r.targets
    ensures Live(r.Register(t, isSingleton, typeName).targets, name, isSingleton, typeName) ==
      if !isSingleton(t.grainId) && typeName(t.grainId) == name
      then Live(r.targets, name, isSingleton, typeName) + {t.id}
      else Live(r.targets, name, isSingleton, typeName)
  {
    assert r.Register(t, isSingleton, typeName).targets == r.targets[t.id := t];
  }

  /** Registering a target whose identity is new keeps every counter equal to its live count. */
  lemma RegisterFreshTracksLive(r: Registry, t: SystemTarget, isSingleton: GrainId -> bool, typeName: GrainId -> string)
    requires CountsTrackLive(r, isSingleton, typeName)
    requires t.id !in r.targets
    ensures CountsTrackLive(r.Register(t, isSingleton, typeName), isSingleton, typeName)
  {
    var after := r.Register(t, isSingleton, typeName);
    forall name
      ensures ValueOf(after.counts, name) == |Live(after.targets, name, isSingleton, typeName)|
    {
      RegisterFreshLive(r, t, name, isSingleton, typeName);
    }
  }

  /** Removing a registered target keeps every counter equal to its live count. */
  lemma UnregisterTracksLive(r: Registry, t: SystemTarget, isSingleton: GrainId -> bool, typeName: GrainId -> string)
    requires CountsTrackLive(r, isSingleton, typeName)
    requires t.id in r.targets && r.targets[t.id] == t
    ensures CountsTrackLive(r.Unregister(t, isSingleton, typeName), isSingleton, typeName)
  {
    var after := r.Unregister(t, isSingleton, typeName);
    forall name
      ensures ValueOf(after.counts, name) == |Live(after.targets, name, isSingleton, typeName)|
    {
      var before := Live(r.targets, name, isSingleton, typeName);
      if !isSingleton(t.grainId) && typeName(t.grainId) == name {
        assert t.id in before;
        assert Live(after.targets, name, isSingleton, typeName) == before - {t.id};
      } else {
        assert Live(after.targets, name, isSingleton, typeName) == before;
      }
    }
  }

  /**
   Counters are adjusted even when the index does not change: registering the
   same non-singleton target twice files it once but counts it twice, so the
   counters stop tracking the live targets.
   */
  lemma RegisterTwiceOvercounts(r: Registry, t: SystemTarget, isSingleton: GrainId -> bool, typeName: GrainId -> string)
    requires CountsTrackLive(r, isSingleton, typeName)
    requires t.id !in r.targets && !isSingleton(t.grainId)
    ensures var once := r.Register(t, isSingleton, typeName);
      && once.Register(t, isSingleton, typeName).targets == once.targets
      && !CountsTrackLive(once.Register(t, isSingleton, typeName), isSingleton, typeName)
  {
    var once := r.Register(t, isSingleton, typeName);
    RegisterFreshTracksLive(r, t, isSingleton, typeName);
    var name := typeName(t.grainId);
    assert ValueOf(once.Register(t, isSingleton, typeName).counts, name) == ValueOf(once.counts, name) + 1;
  }

  /**
   The decrement is not floored: removing a non-singleton target that is not
   registered still takes one from its type's counter, which then falls below
   the live count; from the empty registry the counter goes negative.
   */
  lemma UnregisterAbsentUndercounts(r: Registry, t: SystemTarget, isSingleton: GrainId -> bool, typeName: GrainId -> string)
    requires CountsTrackLive(r, isSingleton, typeName)
    requires t.id !in r.targets && !isSingleton(t.grainId)
    ensures var after := r.Unregister(t, isSingleton, typeName);
      && after.targets == r.targets
      && ValueOf(after.counts, typeName(t.grainId)) == |Live(after.targets, typeName(t.grainId), isSingleton, typeName)| - 1
      && !CountsTrackLive(after, isSingleton, typeName)
      && (r.targets == map[] ==> ValueOf(after.counts, typeName(t.grainId)) == -1)
  {
    var after := r.Unregister(t, isSingleton, typeName);
    var name := typeName(t.grainId);
    assert after.targets == r.targets;
    assert ValueOf(r.counts, name) == |Live(r.targets, name, isSingleton, typeName)|;
  }
}
