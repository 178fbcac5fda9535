# Orleans activation directory

This project models the node-local activation directory of the Orleans runtime
(`ActivationDirectory`). It is the in-memory registry of every live activation and
system target hosted on a silo. It keeps five dictionaries:

- the primary index, from activation identity to activation record;
- the secondary multimap, from grain identity to the ordered list of that grain's
  activations; a grain's entry is deleted when its list becomes empty;
- the system-target index, for the runtime's own actors;
- the system-target counters, one per system-target type name, which skip
  singleton types;
- the grain-type counters, created at zero on first use and filtered to the
  positive ones for statistics.

Each call is modelled as running alone. The class `Catalog.ActivationDirectory`
holds the five dictionaries as `map` fields, and its methods update them in place.
Each method is specified by a transition function on values:

- `ActivationRegistry.Index.AddTarget` and `DropTarget` for the two activation indexes;
- `SystemTargetRegistry.Registry.Register` and `Unregister` for the system targets;
- `CounterStore.FindOrCreate` and `Adjust` for the counters.

The directory invariant `ActivationRegistry.Index.Valid` says three things:

- no grain maps to an empty list;
- every registered record is filed under its own identity and occurs exactly once
  in its grain's list;
- every listed record belongs to that grain and is the record registered under its
  identity.

Lemmas prove the following:

- both updates keep the invariant;
- recording a fresh activation and then removing it is the identity;
- a removal and a fresh insertion commute, so no activation is lost;
- the system-target counters track the number of live targets as long as each
  target is registered once and removed once;
- the code does not guarantee that tracking otherwise.

`List.Add` is modelled as appending and `List.Remove` as removing the first
occurrence (`ListOps.RemoveFirst`). Activation and grain identities are opaque
types with equality. Records carry only their identity and their grain. The
runtime's singleton test and its type-name resolver are function-valued parameters
of the constructor.

The counters are meant to stay non-negative and equal to the number of live
targets of their type. The code does not guarantee this, and the model follows
the code:

- A system-target counter moves even when the `TryAdd` or `TryRemove` on the index
  changed nothing.
- Decrements are not floored, so a counter can fall below the live count and below
  zero (`SystemTargetRegistry.RegisterTwiceOvercounts`,
  `SystemTargetRegistry.UnregisterAbsentUndercounts`).

## Model

| member | source | states |
|---|---|---|
| Catalog.ActivationDirectory.constructor | src/OrleansRuntime/Catalog/ActivationDirectory.cs:43-50 | A new directory has all five tables empty, satisfies the invariant, and keeps the given singleton test and type-name resolver |
| Catalog.ActivationDirectory.Count | src/OrleansRuntime/Catalog/ActivationDirectory.cs:52-55 | The count is the size of the primary index, and it is zero exactly when no grain has a list entry |
| Catalog.ActivationDirectory.FindTarget | src/OrleansRuntime/Catalog/ActivationDirectory.cs:62-66 | Some exactly when the identity is registered; the result is the stored record, filed under that identity and listed under its grain |
| Catalog.ActivationDirectory.FindSystemTarget | src/OrleansRuntime/Catalog/ActivationDirectory.cs:68-72 | Some exactly when the identity is registered as a system target; the result is the stored target, filed under its own identity. It needs only the system-target half of the invariant |
| Catalog.ActivationDirectory.IncrementGrainCounter | src/OrleansRuntime/Catalog/ActivationDirectory.cs:74-79 | The named grain counter is created if missing and goes up by exactly one; no other counter changes |
| Catalog.ActivationDirectory.DecrementGrainCounter | src/OrleansRuntime/Catalog/ActivationDirectory.cs:80-85 | The named grain counter is created if missing and goes down by exactly one, with no floor; no other counter changes |
| Catalog.ActivationDirectory.FindGrainCounter | src/OrleansRuntime/Catalog/ActivationDirectory.cs:87-95 | Returns the existing counter's value; a missing counter is created and stored at zero; the store changes only by that creation |
| Catalog.ActivationDirectory.FindSystemTargetCounter | src/OrleansRuntime/Catalog/ActivationDirectory.cs:97-105 | Get-or-create on the system-target counters, with the same guarantees as the grain counters |
| Catalog.ActivationDirectory.RecordNewTarget | src/OrleansRuntime/Catalog/ActivationDirectory.cs:107-114 | The new indexes are exactly `AddTarget` of the old ones, and the invariant is kept |
| Catalog.ActivationDirectory.RecordNewSystemTarget | src/OrleansRuntime/Catalog/ActivationDirectory.cs:116-123 | The new system-target index and counters are exactly `Register` of the old ones; every target stays filed under its own identity. Only the system-target half of the invariant is required, and the activation indexes are not touched |
| Catalog.ActivationDirectory.RemoveSystemTarget | src/OrleansRuntime/Catalog/ActivationDirectory.cs:125-133 | The new system-target index and counters are exactly `Unregister` of the old ones; every target stays filed under its own identity. Only the system-target half of the invariant is required, and the activation indexes are not touched |
| Catalog.ActivationDirectory.RemoveTarget | src/OrleansRuntime/Catalog/ActivationDirectory.cs:135-164 | The new indexes are exactly `DropTarget` of the old ones. When the caller passes the registered record, the invariant is kept and the record occurs in no list |
| Catalog.ActivationDirectory.UnlistTarget | src/OrleansRuntime/Catalog/ActivationDirectory.cs:140-163 | The grain half of removal: the multimap becomes `Unlisted` of the old one. The sequentially unreachable re-merge branch is shown dead by `assert false` |
| Catalog.ActivationDirectory.FindTargets | src/OrleansRuntime/Catalog/ActivationDirectory.cs:166-178 | None exactly when no registered record belongs to the grain, never an empty list. Otherwise the result is the grain's list, and holds exactly the grain's registered records |
| Catalog.ActivationDirectory.GetSimpleGrainStatistics | src/OrleansRuntime/Catalog/ActivationDirectory.cs:180-185 | Exactly the grain counters whose value is greater than zero, with their values |
| ActivationRegistry.Index.AddTarget | src/OrleansRuntime/Catalog/ActivationDirectory.cs:109-113 | A registered identity is a no-op. A fresh one is filed under its identity and appended to its grain's list, or gets a one-element list; no other grain's entry changes |
| ActivationRegistry.Index.DropTarget | src/OrleansRuntime/Catalog/ActivationDirectory.cs:138-163 | An unregistered identity is a no-op. A registered one leaves the primary index and one occurrence leaves its grain's list. The grain keeps an entry exactly when its list is non-empty; no other grain changes |
| ActivationRegistry.Unlisted | src/OrleansRuntime/Catalog/ActivationDirectory.cs:141-161 | A grain with no entry is left alone. Otherwise one occurrence leaves its list, and the entry goes exactly when the list empties; other grains are unchanged |
| ActivationRegistry.Empty | src/OrleansRuntime/Catalog/ActivationDirectory.cs:43-50 | The empty directory satisfies the invariant and has count zero |
| ActivationRegistry.CountAfterAdd | src/OrleansRuntime/Catalog/ActivationDirectory.cs:107-114 | Count goes up by one after recording a fresh identity, and is unchanged otherwise |
| ActivationRegistry.CountAfterDrop | src/OrleansRuntime/Catalog/ActivationDirectory.cs:135-164 | Count goes down by one after removing a registered identity, and is unchanged otherwise |
| ActivationRegistry.NoActivationsIffNoGrains | src/OrleansRuntime/Catalog/ActivationDirectory.cs:146-160 | Under the invariant, the primary index is empty exactly when the multimap is empty (no leftover empty lists) |
| ActivationRegistry.UnregisteredIsUnlisted | src/OrleansRuntime/Catalog/ActivationDirectory.cs:138-139 | A record whose identity is not registered occurs in no grain list, so the early return leaves nothing behind |
| ActivationRegistry.AddTargetKeepsListedRegistered | src/OrleansRuntime/Catalog/ActivationDirectory.cs:111-113 | After a fresh insertion every listed record still belongs to its grain and is registered under its identity |
| ActivationRegistry.AddTargetKeepsRegisteredListedOnce | src/OrleansRuntime/Catalog/ActivationDirectory.cs:111-113 | After a fresh insertion every registered record occurs exactly once in its grain's list |
| ActivationRegistry.AddTargetPreservesValid | src/OrleansRuntime/Catalog/ActivationDirectory.cs:107-114 | RecordNewTarget keeps the directory invariant, for fresh and registered identities alike |
| ActivationRegistry.DropTargetKeepsListedRegistered | src/OrleansRuntime/Catalog/ActivationDirectory.cs:138-161 | After removing a registered record every listed record still belongs to its grain and is registered |
| ActivationRegistry.DropTargetKeepsRegisteredListedOnce | src/OrleansRuntime/Catalog/ActivationDirectory.cs:138-161 | After removing a registered record every remaining record still occurs exactly once in its grain's list |
| ActivationRegistry.DropTargetUnlists | src/OrleansRuntime/Catalog/ActivationDirectory.cs:145 | After removal the record occurs in no grain list |
| ActivationRegistry.DropTargetPreservesValid | src/OrleansRuntime/Catalog/ActivationDirectory.cs:135-164 | RemoveTarget keeps the directory invariant and leaves the record unlisted, for a caller that passes the registered record |
| ActivationRegistry.AddThenDrop | src/OrleansRuntime/Catalog/ActivationDirectory.cs:107-164 | Recording a fresh activation and then removing it gives back exactly the directory it started from |
| ActivationRegistry.AddThenDropUnlisted | src/OrleansRuntime/Catalog/ActivationDirectory.cs:107-164 | The same round trip, for any index without empty lists where the record is not yet listed |
| ActivationRegistry.DropAddCommute | src/OrleansRuntime/Catalog/ActivationDirectory.cs:141-160 | Removing one registered record and recording a fresh one give the same indexes in either order, and the fresh record stays listed: the pruning never loses an activation |
| ActivationRegistry.RecordRemoveScenario | src/OrleansRuntime/Catalog/ActivationDirectory.cs:107-178 | Record A1 and A2 of one grain, and the grain lists [A1, A2]; remove A1 and it lists [A2]; remove A2 and the grain has no entry and nothing is registered |
| ListOps.IndexOf | src/OrleansRuntime/Catalog/ActivationDirectory.cs:145 | The position of the first occurrence: it holds the element, and no earlier position does |
| ListOps.RemoveFirst | src/OrleansRuntime/Catalog/ActivationDirectory.cs:145 | `List.Remove`: an absent element leaves the list unchanged; otherwise exactly one occurrence leaves and the length drops by one |
| ListOps.RemoveFirstAt | src/OrleansRuntime/Catalog/ActivationDirectory.cs:145 | Elements before the removed occurrence keep their positions and later ones shift down by one, so the order is kept |
| ListOps.RemoveFirstAppend | src/OrleansRuntime/Catalog/ActivationDirectory.cs:145 | Removing a listed element commutes with appending another at the end |
| ListOps.RemoveFirstOfAppended | src/OrleansRuntime/Catalog/ActivationDirectory.cs:145 | Appending an element not in the list and then removing it gives back the list |
| CounterStore.FindOrCreate | src/OrleansRuntime/Catalog/ActivationDirectory.cs:87-95 | The existing counter is kept; a missing one is stored at zero; no other counter changes |
| CounterStore.Adjust | src/OrleansRuntime/Catalog/ActivationDirectory.cs:74-85 | The named counter, created if missing, moves by exactly delta; every other counter keeps its value |
| CounterStore.Positive | src/OrleansRuntime/Catalog/ActivationDirectory.cs:180-185 | A name is present exactly when its counter is greater than zero, and it carries that counter's value |
| CounterStore.AdjustUndo | src/OrleansRuntime/Catalog/ActivationDirectory.cs:74-85 | An increment followed by a decrement of the same counter leaves the store as a plain get-or-create would |
| CounterStore.PositiveAfterAdjust | src/OrleansRuntime/Catalog/ActivationDirectory.cs:180-185 | After one adjustment the statistics gain or update the name if its new value is positive, and lose it otherwise |
| SystemTargetRegistry.Registry.Register | src/OrleansRuntime/Catalog/ActivationDirectory.cs:116-123 | The target is filed unless its identity is taken. Unless the type is a singleton, its type's counter goes up by one, even when nothing was filed; other counters are unchanged |
| SystemTargetRegistry.Registry.Unregister | src/OrleansRuntime/Catalog/ActivationDirectory.cs:125-133 | The identity leaves the index. Unless the type is a singleton, its type's counter goes down by one, even when nothing was removed; other counters are unchanged |
| SystemTargetRegistry.EmptyTracksLive | src/OrleansRuntime/Catalog/ActivationDirectory.cs:43-50 | In a new directory every counter equals the number of live counted targets of its type |
| SystemTargetRegistry.RegisterFreshLive | src/OrleansRuntime/Catalog/ActivationDirectory.cs:116-123 | Registering a fresh non-singleton target adds it to the live set of its own type name only |
| SystemTargetRegistry.RegisterFreshTracksLive | src/OrleansRuntime/Catalog/ActivationDirectory.cs:116-123 | Registering a fresh target keeps every counter equal to its type's live count |
| SystemTargetRegistry.UnregisterTracksLive | src/OrleansRuntime/Catalog/ActivationDirectory.cs:125-133 | Removing a registered target keeps every counter equal to its type's live count |
| SystemTargetRegistry.RegisterTwiceOvercounts | src/OrleansRuntime/Catalog/ActivationDirectory.cs:116-123 | Registering the same non-singleton target twice files it once but counts it twice, so counters stop tracking the live count |
| SystemTargetRegistry.UnregisterAbsentUndercounts | src/OrleansRuntime/Catalog/ActivationDirectory.cs:125-133 | Removing an unregistered non-singleton target still decrements its counter below the live count, down to -1 from the empty directory |

## Left out

- Concurrency: the per-list `lock` statements, the atomicity of the concurrent dictionaries' `TryAdd`, `AddOrUpdate` and `TryRemove`, and interleaved calls. Each call runs alone.
- The re-merge at lines 151-158 of `ActivationDirectory.cs` (`AddOrUpdate` with `AddRange`) is not modelled. It runs only when the list removed at line 149 is not the one this call emptied, that is, when another call replaced the grain's entry after this call's lookup at line 141. The lock on the emptied list rules out appends to it. Run alone, the entry looked up is the entry removed, so the model marks the branch unreachable.
- Catalog.ActivationDirectory.RemoveTarget: the invariant and the unlisting are promised only when the caller passes the record registered under its identity, which is the caller contract the directory assumes. With another record the code removes the identity but finds nothing to remove from the list.
- `PrintActivationDirectory`, the logging in the counter methods, and the trace logger: they are diagnostics output only.
- `GetEnumerator` and `AllSystemTargets`: they are live, weakly consistent views whose meaning under concurrent change belongs to the dictionary.
- The global counter registry behind `CounterStatistic.FindOrCreate` and `StatisticName`: a counter is an integer in a map, and a newly created counter starts at zero.
- Counters are unbounded integers; the 64-bit `long` range of the statistics is not modelled.
- `Constants.IsSingletonSystemTarget` and `Constants.SystemTargetName` are not part of this model; they are taken as arbitrary functions.
- `ActivationData` and `SystemTarget` are reduced to their identity and grain; record equality is value equality, where the code compares object references.
- Catalog.ActivationDirectory.GetSimpleGrainStatistics: the model returns a snapshot of the positive counters taken at call time. The code returns an unevaluated query over the live counters, which re-reads every counter each time it is enumerated, so later counter changes show in an earlier result.
- `FindTargets` returns the grain's list as a value, so the snapshot copy (`ToList`) is implicit.
