/**
 The activation registry on values: the primary index (activation identity to
 record) and the secondary multimap (grain identity to the ordered list of that
 grain's activations), the two updates the directory makes to them, and the
 invariant that keeps them in agreement.
 */
module ActivationRegistry {
  import opened Records
  import opened ListOps

  datatype Index = Index(activations: map<ActivationId, Activation>, grains: map<GrainId, seq<Activation>>)
  {
    /** The list held for `g`, or the empty sequence when `g` has no entry. */
    function GrainList(g: GrainId): seq<Activation>
    {
      if g in grains then grains[g] else []
    }

    /**
     The directory invariant: no grain maps to an empty list; every registered
     record is filed under its own identity and occurs exactly once in its
     grain's list; every listed record belongs to that grain and is registered.
     */
    ghost predicate Valid()
    {
      NoEmptyLists(this) && RegisteredListedOnce(this) && ListedRegistered(this)
    }

    /**
     RecordNewTarget: a registered identity leaves everything as it was; a fresh
     one is filed under its identity and appended to its grain's list (a new
     one-element list when the grain had none); no other grain's entry changes.
     */
    function AddTarget(t: Activation): (r: Index)
      ensures t.id in activations ==> r == this
      ensures t.id !in activations ==>
        && r.activations == activations[t.id := t]
        && r.grains.Keys == grains.Keys + {t.grain}
        && r.grains[t.grain] == GrainList(t.grain) + [t]
        && (forall g :: g != t.grain ==> r.GrainList(g) == GrainList(g))
    {
      if t.id in activations then this
      else Index(activations[t.id := t], grains[t.grain := GrainList(t.grain) + [t]])
    }

    /**
     RemoveTarget: an unregistered identity leaves everything as it was; a
     registered one is dropped from the primary index and one occurrence of the
     record leaves its grain's list; the grain keeps an entry exactly when its
     list is still non-empty; no other grain's entry changes.
     */
    function DropTarget(t: Activation): (r: Index)
      ensures t.id !in activations ==> r == this
      ensures t.id in activations ==>
        && r.activations == activations - {t.id}
        && r.GrainList(t.grain) == RemoveFirst(GrainList(t.grain), t)
        && (t.grain in r.grains <==> r.GrainList(t.grain) != [])
        && r.grains.Keys - {t.grain} == grains.Keys - {t.grain}
        && (forall g :: g != t.grain ==> r.GrainList(g) == GrainList(g))
    {
      if t.id !in activations then this
      else
        var listed := Unlisted(grains, t);
        assert listed.Keys - {t.grain} == grains.Keys - {t.grain};
        Index(activations - {t.id}, listed)
    }
  }

  /**
   The grain half of RemoveTarget: one occurrence of `t` leaves its grain's
   list, and the grain's entry goes when that list becomes empty; a grain with
   no entry and every other grain are left as they were.
   */
  function Unlisted(grains: map<GrainId, seq<Activation>>, t: Activation): (r: map<GrainId, seq<Activation>>)
    ensures t.grain !in grains ==> r == grains
    ensures t.grain in grains ==>
      && (t.grain in r <==> RemoveFirst(grains[t.grain], t) != [])
      && (t.grain in r ==> r[t.grain] == RemoveFirst(grains[t.grain], t))
    ensures forall g :: g != t.grain ==> (g in r <==> g in grains) && (g in r ==> r[g] == grains[g])
  {
    if t.grain !in grains then grains
    else
      var rest := RemoveFirst(grains[t.grain], t);
      if rest == [] then grains - {t.grain} else grains[t.grain := rest]
  }

  /** No grain maps to an empty list. */
  ghost predicate NoEmptyLists(ix: Index)
  {
    forall g :: g in ix.grains ==> ix.grains[g] != []
  }

  /** Every registered record is filed under its own identity and occurs exactly once in its grain's list. */
  ghost predicate RegisteredListedOnce(ix: Index)
  {
    forall id :: id in ix.activations ==>
      && ix.activations[id].id == id
      && ix.activations[id].grain in ix.grains
      && multiset(ix.grains[ix.activations[id].grain])[ix.activations[id]] == 1
  }

  /** Every listed record belongs to the grain it is listed under and is the record registered under its identity. */
  ghost predicate ListedRegistered(ix: Index)
  {
    forall g, i :: g in ix.grains && 0 <= i < |ix.grains[g]| ==>
      && ix.grains[g][i].grain == g
      && ix.grains[g][i].id in ix.activations
      && ix.activations[ix.grains[g][i].id] == ix.grains[g][i]
  }

  /** Count after RecordNewTarget: one more for a fresh identity, unchanged otherwise. */
  lemma CountAfterAdd(ix: Index, t: Activation)
    ensures |ix.AddTarget(t).activations| == if t.id in ix.activations then |ix.activations| else |ix.activations| + 1
  {
    if t.id !in ix.activations {
      assert ix.AddTarget(t).activations.Keys == ix.activations.Keys + {t.id};
    }
  }

  /** Count after RemoveTarget: one fewer for a registered identity, unchanged otherwise. */
  lemma CountAfterDrop(ix: Index, t: Activation)
    ensures |ix.DropTarget(t).activations| == if t.id in ix.activations then |ix.activations| - 1 else |ix.activations|
  {
    if t.id in ix.activations {
      assert ix.DropTarget(t).activations.Keys == ix.activations.Keys - {t.id};
    }
  }

  /** Under the invariant nothing is registered exactly when no grain has an entry. */
  lemma NoActivationsIffNoGrains(ix: Index)
    requires ix.Valid()
    ensures |ix.activations| == 0 <==> ix.grains == map[]
  {
    if ix.grains != map[] {
      var g :| g in ix.grains;
      assert ix.grains[g][0].id in ix.activations;
    }
  }

  /** The directory as constructed: both indexes empty. */
  function Empty(): (ix: Index)
    ensures ix.Valid() && |ix.activations| == 0 && ix.grains == map[]
  {
    Index(map[], map[])
  }

  /** A record whose identity is not registered occurs in no list. */
  lemma UnregisteredIsUnlisted(ix: Index, t: Activation)
    requires ListedRegistered(ix) && t.id !in ix.activations
    ensures forall g :: t !in ix.GrainList(g)
  {
    forall g
      ensures t !in ix.GrainList(g)
    {
      if g in ix.grains {
        assert forall i :: 0 <= i < |ix.grains[g]| ==> ix.grains[g][i].id in ix.activations;
      }
    }
  }

  lemma AddTargetKeepsListedRegistered(ix: Index, t: Activation)
    requires ListedRegistered(ix) && t.id !in ix.activations
    ensures ListedRegistered(ix.AddTarget(t))
  {
    var r := ix.AddTarget(t);
    forall g, i | g in r.grains && 0 <= i < |r.grains[g]|
      ensures r.grains[g][i].grain == g && r.grains[g][i].id in r.activations
      ensures r.activations[r.grains[g][i].id] == r.grains[g][i]
    {
      if g == t.grain && i < |ix.GrainList(g)| {
        assert r.grains[g][i] == ix.grains[g][i];
      } else if g != t.grain {
        assert r.grains[g][i] == ix.grains[g][i];
      }
    }
  }

  lemma AddTargetKeepsRegisteredListedOnce(ix: Index, t: Activation)
    requires RegisteredListedOnce(ix) && ListedRegistered(ix) && t.id !in ix.activations
    ensures RegisteredListedOnce(ix.AddTarget(t))
  {
    UnregisteredIsUnlisted(ix, t);
    var r := ix.AddTarget(t);
    forall id | id in r.activations
      ensures r.activations[id].id == id && r.activations[id].grain in r.grains
      ensures multiset(r.grains[r.activations[id].grain])[r.activations[id]] == 1
    {
      var a := r.activations[id];
      if id == t.id {
        assert multiset(r.grains[t.grain]) == multiset(ix.GrainList(t.grain)) + multiset{t};
      } else {
        assert a == ix.activations[id] && a != t;
        if a.grain == t.grain {
          assert multiset(r.grains[a.grain]) == multiset(ix.grains[a.grain]) + multiset{t};
        }
      }
    }
  }

  /** RecordNewTarget keeps the two indexes in agreement. */
  lemma AddTargetPreservesValid(ix: Index, t: Activation)
    requires ix.Valid()
    ensures ix.AddTarget(t).Valid()
  {
    if t.id !in ix.activations {
      AddTargetKeepsListedRegistered(ix, t);
      AddTargetKeepsRegisteredListedOnce(ix, t);
    }
  }

  lemma DropTargetKeepsListedRegistered(ix: Index, t: Activation)
    requires RegisteredListedOnce(ix) && ListedRegistered(ix)
    requires t.id in ix.activations && ix.activations[t.id] == t
    ensures ListedRegistered(ix.DropTarget(t))
  {
    var r := ix.DropTarget(t);
    var list := ix.GrainList(t.grain);
    var rest := r.GrainList(t.grain);
    assert multiset(list)[t] == 1;
    assert multiset(rest)[t] == 0;
    forall g, i | g in r.grains && 0 <= i < |r.grains[g]|
      ensures r.grains[g][i].grain == g && r.grains[g][i].id in r.activations
      ensures r.activations[r.grains[g][i].id] == r.grains[g][i]
    {
      var x := r.grains[g][i];
      if g == t.grain {
        assert x in multiset(rest);
        assert x in multiset(list);
        var j :| 0 <= j < |list| && list[j] == x;
        assert list[j].grain == g && list[j].id in ix.activations;
      } else {
        assert r.grains[g] == ix.grains[g];
      }
    }
  }

  lemma DropTargetKeepsRegisteredListedOnce(ix: Index, t: Activation)
    requires RegisteredListedOnce(ix)
    requires t.id in ix.activations && ix.activations[t.id] == t
    ensures RegisteredListedOnce(ix.DropTarget(t))
  {
    var r := ix.DropTarget(t);
    var list := ix.GrainList(t.grain);
    var rest := r.GrainList(t.grain);
    forall id | id in r.activations
      ensures r.activations[id].id == id && r.activations[id].grain in r.grains
      ensures multiset(r.grains[r.activations[id].grain])[r.activations[id]] == 1
    {
      var a := r.activations[id];
      assert a == ix.activations[id] && a != t;
      if a.grain == t.grain {
        assert multiset(rest)[a] == multiset(list)[a] == 1;
      } else {
        assert r.GrainList(a.grain) == ix.grains[a.grain];
      }
    }
  }

  /** After a registered record is removed it occurs in no list. */
  lemma DropTargetUnlists(ix: Index, t: Activation)
    requires RegisteredListedOnce(ix) && ListedRegistered(ix)
    requires t.id in ix.activations && ix.activations[t.id] == t
    ensures forall g :: t !in ix.DropTarget(t).GrainList(g)
  {
    var r := ix.DropTarget(t);
    assert multiset(r.GrainList(t.grain))[t] == 0;
    forall g | g != t.grain && g in ix.grains
      ensures t !in r.GrainList(g)
    {
      assert forall i :: 0 <= i < |ix.grains[g]| ==> ix.grains[g][i].grain == g;
    }
  }

  /**
   RemoveTarget keeps the two indexes in agreement, for a caller that passes the
   record stored under its identity (or an unregistered one), and leaves the
   record in no list.
   */
  lemma DropTargetPreservesValid(ix: Index, t: Activation)
    requires ix.Valid()
    requires t.id in ix.activations ==> ix.activations[t.id] == t
    ensures ix.DropTarget(t).Valid()
    ensures forall g :: t !in ix.DropTarget(t).GrainList(g)
  {
    if t.id in ix.activations {
      DropTargetKeepsListedRegistered(ix, t);
      DropTargetKeepsRegisteredListedOnce(ix, t);
      DropTargetUnlists(ix, t);
    } else {
      UnregisteredIsUnlisted(ix, t);
    }
  }

  /** Recording a fresh activation and then removing it gives back the directory it started from. */
  lemma AddThenDrop(ix: Index, t: Activation)
    requires ix.Valid() && t.id !in ix.activations
    ensures ix.AddTarget(t).DropTarget(t) == ix
  {
    UnregisteredIsUnlisted(ix, t);
    AddThenDropUnlisted(ix, t);
  }

  lemma AddThenDropUnlisted(ix: Index, t: Activation)
    requires NoEmptyLists(ix) && t.id !in ix.activations && t !in ix.GrainList(t.grain)
    ensures ix.AddTarget(t).DropTarget(t) == ix
  {
    var added := ix.AddTarget(t);
    assert t.id in added.activations;
    var r := added.DropTarget(t);
    assert r.activations == ix.activations;
    RemoveFirstOfAppended(ix.GrainList(t.grain), t);
    assert r.GrainList(t.grain) == ix.GrainList(t.grain);
    forall g
      ensures (g in r.grains <==> g in ix.grains) && r.GrainList(g) == ix.GrainList(g)
    {
      if g != t.grain {
        assert added.GrainList(g) == ix.GrainList(g);
        assert g in r.grains <==> g in added.grains;
      }
    }
    SameIndex(r, ix);
  }

  /**
   The sequential outcomes of a removal racing an insertion for the same or
   another grain agree: removing `a` then recording `b` gives the same indexes
   as recording `b` then removing `a`, so `b` is never lost.
   */
  lemma DropAddCommute(ix: Index, a: Activation, b: Activation)
    requires ix.Valid()
    requires a.id in ix.activations && ix.activations[a.id] == a
    requires b.id !in ix.activations
    ensures ix.DropTarget(a).AddTarget(b) == ix.AddTarget(b).DropTarget(a)
    ensures b in ix.DropTarget(a).AddTarget(b).GrainList(b.grain)
  {
    assert a in ix.GrainList(a.grain) by {
      assert multiset(ix.grains[a.grain])[a] == 1;
    }
    DropAddCommuteListed(ix, a, b);
  }

  lemma DropAddCommuteListed(ix: Index, a: Activation, b: Activation)
    requires a.id in ix.activations && a in ix.GrainList(a.grain)
    requires b.id !in ix.activations
    ensures ix.DropTarget(a).AddTarget(b) == ix.AddTarget(b).DropTarget(a)
  {
    var dropped, added := ix.DropTarget(a), ix.AddTarget(b);
    assert b.id !in dropped.activations;
    assert a.id in added.activations;
    var left, right := dropped.AddTarget(b), added.DropTarget(a);
    RemoveThenUpdate(ix.activations, a.id, b.id, b);
    assert left.activations == right.activations;
    forall g
      ensures left.GrainList(g) == right.GrainList(g)
      ensures g in left.grains <==> g in right.grains
    {
      DropAddCommuteAt(ix, a, b, g);
    }
    SameIndex(left, right);
  }

  lemma DropAddCommuteAt(ix: Index, a: Activation, b: Activation, g: GrainId)
    requires a.id in ix.activations && a in ix.GrainList(a.grain)
    requires b.id !in ix.activations
    ensures ix.DropTarget(a).AddTarget(b).GrainList(g) == ix.AddTarget(b).DropTarget(a).GrainList(g)
    ensures g in ix.DropTarget(a).AddTarget(b).grains <==> g in ix.AddTarget(b).DropTarget(a).grains
  {
    var dropped, added := ix.DropTarget(a), ix.AddTarget(b);
    assert b.id !in dropped.activations;
    assert a.id in added.activations;
    var left, right := dropped.AddTarget(b), added.DropTarget(a);
    var rest := RemoveFirst(ix.GrainList(a.grain), a);
    if g == a.grain && g == b.grain {
      RemoveFirstAppend(ix.GrainList(a.grain), a, b);
      assert right.GrainList(g) == rest + [b];
    } else if g == a.grain {
      assert added.GrainList(g) == ix.GrainList(g);
    } else if g == b.grain {
      assert dropped.GrainList(g) == ix.GrainList(g);
    } else {
      assert left.GrainList(g) == ix.GrainList(g);
    }
  }

  /** Deleting one key and setting another commute. */
  lemma RemoveThenUpdate<K, V>(m: map<K, V>, gone: K, k: K, v: V)
    requires gone != k
    ensures (m - {gone})[k := v] == m[k := v] - {gone}
  {
    assert ((m - {gone})[k := v]).Keys == (m[k := v] - {gone}).Keys;
  }

  /** Two indexes that agree on the primary index, on which grains have entries and on every grain's list are equal. */
  lemma SameIndex(x: Index, y: Index)
    requires x.activations == y.activations
    requires forall g :: (g in x.grains <==> g in y.grains) && x.GrainList(g) == y.GrainList(g)
    ensures x == y
  {
    assert x.grains.Keys == y.grains.Keys;
    forall g | g in x.grains
      ensures x.grains[g] == y.grains[g]
    {
      assert x.GrainList(g) == y.GrainList(g);
    }
  }

  /**
   The end-to-end scenario: record A1 and A2 of one grain, the grain lists them
   in order; remove A1, it lists A2 alone; remove A2, the grain has no entry
   (not an empty list) and nothing is registered.
   */
  lemma RecordRemoveScenario(a1: Activation, a2: Activation)
    requires a1.grain == a2.grain && a1.id != a2.id
    ensures var both := Empty().AddTarget(a1).AddTarget(a2);
      && both.grains[a1.grain] == [a1, a2]
      && both.DropTarget(a1).grains[a1.grain] == [a2]
      && a1.grain !in both.DropTarget(a1).DropTarget(a2).grains
      && |both.DropTarget(a1).DropTarget(a2).activations| == 0
  {
    var first := Empty().AddTarget(a1);
    assert first.grains[a1.grain] == [a1];
    var both := first.AddTarget(a2);
    assert both.grains[a1.grain] == [a1] + [a2] == [a1, a2];
    IndexOfUnique([a1, a2], a1, 0);
    assert RemoveFirst([a1, a2], a1) == [a2];
    var one := both.DropTarget(a1);
    assert one.GrainList(a1.grain) == [a2];
    IndexOfUnique([a2], a2, 0);
    assert RemoveFirst([a2], a2) == [];
    var none := one.DropTarget(a2);
    assert none.GrainList(a1.grain) == [];
    assert none.activations.Keys == {};
  }
}
