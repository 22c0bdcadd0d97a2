/**
 * The store's operations as transitions of the value model: for each
 * operation of dom.h's Universe, the change it makes to the state, the proof
 * that it keeps the invariant, and what it does to the view of every entity
 * and its components.
 */
module UniverseSteps {
  import opened Wrappers
  import opened Bitmask
  import opened ChunkedArrays
  import opened ComponentManagers
  import opened Archetypes
  import opened UniverseModel

  /** The preconditions of a create step: the slot is not live and only it changes. */
  ghost predicate CreateMoves<V>(st: State<V>, st': State<V>, s: Handle, e: EntityHandle)
  {
    && !LiveIn(st.recs, s) && s.index < EntityBlockSize
    && (forall g :: SlotOf(st'.recs, g) == if g == s then Holds(EmptyRecord(st.total)) else SlotOf(st.recs, g))
    && e == EntityHandle(s, Accommodate(st.gens, Id(s))[Id(s)])
    && st' == st.(recs := st'.recs, gens := Accommodate(st.gens, Id(s)), issued := st.issued + {e})
  }

  lemma CreateKeepsIssued<V>(st: State<V>, st': State<V>, s: Handle, e: EntityHandle)
    requires Inv(st) && CreateMoves(st, st', s, e)
    ensures e !in st.issued && IssuedOk(st')
  {
    forall x | x in st.issued
      ensures x != e
    {
      if x.slot == s {
        assert !(x.generation == st.gens[Id(s)]);
      }
    }
  }

  lemma CreateKeepsNewRecord<V>(st: State<V>, st': State<V>, s: Handle, e: EntityHandle)
    requires LinksOk(st) && CreateMoves(st, st', s, e)
    ensures RecordOk(st', s, EmptyRecord(st.total))
  {
    assert s !in st.links;
    EmptyMaskHasNoBits(st.total, st.total);
    assert Placement<Handle>(EmptyMask(st.total), []) == map[];
  }

  lemma CreateKeepsRecords<V>(st: State<V>, st': State<V>, s: Handle, e: EntityHandle)
    requires RecordsOk(st) && LinksOk(st) && CreateMoves(st, st', s, e)
    ensures RecordsOk(st')
  {
    CreateKeepsNewRecord(st, st', s, e);
    forall g | Rec(st', g).Holds? && g != s
      ensures RecordOk(st', g, Rec(st', g).value)
    {
      assert Rec(st', g) == Rec(st, g);
      assert RecordOk(st, g, Rec(st, g).value);
    }
  }

  lemma CreateKeepsOwners<V>(st: State<V>, st': State<V>, s: Handle, e: EntityHandle)
    requires Inv(st) && CreateMoves(st, st', s, e)
    ensures OwnersOk(st') && LinksOk(st')
  {
    forall c | c in st.owner
      ensures st.owner[c] != s
    {
    }
  }

  /**
   * create(): a record slot that is not live gets the empty record, the
   * generation table is accommodated, and the handle carries the slot's
   * current generation. That handle was never returned before, it is
   * current, and it is the only change to the view: a new entity without
   * components.
   */
  lemma CreateStep<V>(st: State<V>, st': State<V>, s: Handle, e: EntityHandle)
    requires Inv(st) && !LiveIn(st.recs, s) && s.index < EntityBlockSize
    requires forall g :: SlotOf(st'.recs, g) == if g == s then Holds(EmptyRecord(st.total)) else SlotOf(st.recs, g)
    requires e == EntityHandle(s, Accommodate(st.gens, Id(s))[Id(s)])
    requires st' == st.(recs := st'.recs, gens := Accommodate(st.gens, Id(s)), issued := st.issued + {e})
    ensures e !in st.issued
    ensures Inv(st') && Current(st', e) && Comps(st', e) == map[]
    ensures ViewOf(st') == ViewOf(st)[e := map[]]
  {
    CreateKeepsInv(st, st', s, e);
    CreateKeepsOthers(st, st', s, e);
    ViewPut(st, st', e);
  }

  lemma CreateKeepsInv<V>(st: State<V>, st': State<V>, s: Handle, e: EntityHandle)
    requires Inv(st) && CreateMoves(st, st', s, e)
    ensures e !in st.issued && Inv(st') && Current(st', e) && Comps(st', e) == map[]
  {
    CreateKeepsIssued(st, st', s, e);
    CreateKeepsRecords(st, st', s, e);
    CreateKeepsOwners(st, st', s, e);
    CreateIsEmpty(st, st', s, e);
  }

  lemma CreateIsEmpty<V>(st: State<V>, st': State<V>, s: Handle, e: EntityHandle)
    requires CreateMoves(st, st', s, e)
    ensures Current(st', e) && Comps(st', e) == map[]
  {
    assert RecordOf(st', e) == EmptyRecord(st.total);
    EmptyMaskHasNoBits(st.total, st.total);
    assert Placement<Handle>(EmptyMask(st.total), []) == map[];
  }

  lemma CreateKeepsOthers<V>(st: State<V>, st': State<V>, s: Handle, e: EntityHandle)
    requires Inv(st) && CreateMoves(st, st', s, e) && Inv(st')
    ensures CurrentElsewhere(st, st', e) && CompsElsewhere(st, st', e)
  {
    forall x | Current(st, x)
      ensures Current(st', x) && Comps(st', x) == Comps(st, x)
    {
      assert x.slot != s;
      assert RecordOf(st', x) == RecordOf(st, x);
    }
  }

  /**
   * assignComponent into a pool slot that holds nothing: no record places
   * that slot, so no entity's components change.
   */
  lemma InstantiateStep<V>(st: State<V>, st': State<V>, t: nat, h: Handle, v: V)
    requires Inv(st) && !CompAt(st.store, t, h).Holds?
    requires forall u, g :: CompAt(st'.store, u, g) == if u == t && g == h then Holds(v) else CompAt(st.store, u, g)
    requires st' == st.(store := st'.store)
    ensures CompRef(t, h) !in st.owner
    ensures Inv(st') && ViewOf(st') == ViewOf(st)
  {
    InstantiateKeepsInv(st, st', t, h, v);
    InstantiateKeepsView(st, st', t, h, v);
  }

  lemma InstantiateKeepsInv<V>(st: State<V>, st': State<V>, t: nat, h: Handle, v: V)
    requires Inv(st) && !CompAt(st.store, t, h).Holds?
    requires forall u, g :: CompAt(st'.store, u, g) == if u == t && g == h then Holds(v) else CompAt(st.store, u, g)
    requires st' == st.(store := st'.store)
    ensures CompRef(t, h) !in st.owner && Inv(st')
  {
    OwnedLive(st);
    assert RecordsOk(st') by {
      forall g | Rec(st', g).Holds?
        ensures RecordOk(st', g, Rec(st', g).value)
      {
        assert RecordOk(st, g, Rec(st, g).value);
      }
    }
  }

  lemma InstantiateKeepsView<V>(st: State<V>, st': State<V>, t: nat, h: Handle, v: V)
    requires Inv(st) && !CompAt(st.store, t, h).Holds?
    requires forall u, g :: CompAt(st'.store, u, g) == if u == t && g == h then Holds(v) else CompAt(st.store, u, g)
    requires st' == st.(store := st'.store)
    ensures ViewOf(st') == ViewOf(st)
  {
    forall x | Current(st, x)
      ensures Comps(st', x) == Comps(st, x)
    {
      var p := Placed(RecordOf(st, x));
      forall u | u in p
        ensures CompAt(st'.store, u, p[u]) == CompAt(st.store, u, p[u])
      {
        assert Held(st, CompRef(u, p[u]), x.slot);
      }
      ValuesFrame(st.store, st'.store, p);
    }
    ViewSame(st, st');
  }

  /**
   * destroy of a live component that no entity holds (a pack component
   * addComponent skipped): no record places it, so the invariant holds and
   * no entity's components change.
   */
  lemma DiscardStep<V>(st: State<V>, st': State<V>, t: nat, h: Handle)
    requires Inv(st) && CompRef(t, h) !in st.owner
    requires forall u, g :: CompAt(st'.store, u, g) == if u == t && g == h then Vacated else CompAt(st.store, u, g)
    requires st' == st.(store := st'.store)
    ensures Inv(st') && ViewOf(st') == ViewOf(st)
  {
    DiscardKeepsInv(st, st', t, h);
    DiscardKeepsView(st, st', t, h);
  }

  lemma DiscardKeepsInv<V>(st: State<V>, st': State<V>, t: nat, h: Handle)
    requires Inv(st) && CompRef(t, h) !in st.owner
    requires forall u, g :: CompAt(st'.store, u, g) == if u == t && g == h then Vacated else CompAt(st.store, u, g)
    requires st' == st.(store := st'.store)
    ensures Inv(st')
  {
    assert RecordsOk(st') by {
      forall g | Rec(st', g).Holds?
        ensures RecordOk(st', g, Rec(st', g).value)
      {
        assert RecordOk(st, g, Rec(st, g).value);
      }
    }
  }

  lemma DiscardKeepsView<V>(st: State<V>, st': State<V>, t: nat, h: Handle)
    requires Inv(st) && CompRef(t, h) !in st.owner
    requires forall u, g :: CompAt(st'.store, u, g) == if u == t && g == h then Vacated else CompAt(st.store, u, g)
    requires st' == st.(store := st'.store)
    ensures ViewOf(st') == ViewOf(st)
  {
    forall x | Current(st, x)
      ensures Comps(st', x) == Comps(st, x)
    {
      var p := Placed(RecordOf(st, x));
      forall u | u in p
        ensures CompAt(st'.store, u, p[u]) == CompAt(st.store, u, p[u])
      {
        assert Held(st, CompRef(u, p[u]), x.slot);
      }
      ValuesFrame(st.store, st'.store, p);
    }
    ViewSame(st, st');
  }

  /** The preconditions of a write to component t of entity e. */
  ghost predicate ModifyMoves<V>(st: State<V>, st': State<V>, e: EntityHandle, t: nat, v: V)
  {
    var p := Placed(RecordOf(st, e));
    && t in p
    && (forall u, g :: CompAt(st'.store, u, g) == if u == t && g == p[t] then Holds(v) else CompAt(st.store, u, g))
    && st' == st.(store := st'.store)
  }

  lemma ModifyKeepsRecords<V>(st: State<V>, st': State<V>, e: EntityHandle, t: nat, v: V)
    requires RecordsOk(st) && ModifyMoves(st, st', e, t, v)
    ensures RecordsOk(st')
  {
    forall g | Rec(st', g).Holds?
      ensures RecordOk(st', g, Rec(st', g).value)
    {
      assert RecordOk(st, g, Rec(st, g).value);
    }
  }

  lemma ModifyKeepsInv<V>(st: State<V>, st': State<V>, e: EntityHandle, t: nat, v: V)
    requires Inv(st) && Current(st, e) && ModifyMoves(st, st', e, t, v)
    ensures Inv(st') && Current(st', e)
  {
    ModifyKeepsRecords(st, st', e, t, v);
  }

  lemma ModifyKeepsOthers<V>(st: State<V>, st': State<V>, e: EntityHandle, t: nat, v: V)
    requires Inv(st) && Current(st, e) && ModifyMoves(st, st', e, t, v)
    ensures CurrentElsewhere(st, st', e) && CompsElsewhere(st, st', e)
  {
    var p := Placed(RecordOf(st, e));
    assert Held(st, CompRef(t, p[t]), e.slot);
    forall x | x != e && Current(st, x)
      ensures Comps(st', x) == Comps(st, x)
    {
      var q := Placed(RecordOf(st, x));
      assert x.slot != e.slot;
      forall u | u in q
        ensures CompAt(st'.store, u, q[u]) == CompAt(st.store, u, q[u])
      {
        assert Held(st, CompRef(u, q[u]), x.slot);
      }
      ValuesFrame(st.store, st'.store, q);
    }
  }

  lemma ModifyComps<V>(st: State<V>, st': State<V>, e: EntityHandle, t: nat, v: V)
    requires Inv(st) && Current(st, e) && ModifyMoves(st, st', e, t, v)
    ensures Comps(st', e) == Comps(st, e)[t := v]
  {
    var p := Placed(RecordOf(st, e));
    assert RecordOf(st', e) == RecordOf(st, e);
    forall u | u in p
      ensures CompAt(st.store, u, p[u]).Holds?
    {
      assert Held(st, CompRef(u, p[u]), e.slot);
    }
    ValuesPut(st.store, st'.store, p, t, v);
  }

  /**
   * getComponent's reference written through: the pool slot that e's record
   * places for type t gets v. Only that component of that entity changes.
   */
  lemma ModifyStep<V>(st: State<V>, st': State<V>, e: EntityHandle, t: nat, h: Handle, v: V)
    requires Inv(st) && Current(st, e)
    requires t in Placed(RecordOf(st, e)) && h == Placed(RecordOf(st, e))[t]
    requires forall u, g :: CompAt(st'.store, u, g) == if u == t && g == h then Holds(v) else CompAt(st.store, u, g)
    requires st' == st.(store := st'.store)
    ensures Inv(st') && Current(st', e)
    ensures e in ViewOf(st) && ViewOf(st') == ViewOf(st)[e := Assigned(ViewOf(st)[e], t, v)]
  {
    assert ModifyMoves(st, st', e, t, v);
    ModifyKeepsInv(st, st', e, t, v);
    ModifyKeepsOthers(st, st', e, t, v);
    ModifyComps(st, st', e, t, v);
    ViewAt(st, e);
    ViewPut(st, st', e);
  }

  /**
   * The components destroyEntity's loop vacates, those e's record places,
   * are exactly the components e's slot holds.
   */
  lemma DestroyDiscards<V>(st: State<V>, store': map<nat, seq<Block<V>>>, e: EntityHandle)
    requires Inv(st) && Current(st, e)
    requires VacatedBelow(store', st.store, Placed(RecordOf(st, e)), st.total)
    ensures Discarded(store', st.store, Owned(st.owner, e.slot))
  {
    var d := RecordOf(st, e);
    var p := Placed(d);
    forall u: nat, g
      ensures (u < st.total && u in p && p[u] == g) <==> CompRef(u, g) in Owned(st.owner, e.slot)
    {
      if u in p {
        PlacedOwned(st, e.slot, u);
      }
      if CompRef(u, g) in Owned(st.owner, e.slot) {
        assert Rec(st, st.owner[CompRef(u, g)]).Holds?;
      }
    }
  }

  /**
   * The change destroyEntity makes once every component of e is destroyed:
   * the pool slots e's record places are vacated, the record slot is
   * vacated, the slot's generation goes up by one, and the record is
   * disconnected from its descriptor and releases its components.
   */
  ghost predicate DestroyMoves<V>(st: State<V>, st': State<V>, e: EntityHandle)
  {
    var s := e.slot;
    var d := RecordOf(st, e);
    var p := Placed(d);
    && Id(s) < |st.gens|
    && (d.meta.Some? ==> d.meta.value in st.table)
    && (forall u, g :: CompAt(st'.store, u, g) == if u in p && p[u] == g then Vacated else CompAt(st.store, u, g))
    && (forall g :: SlotOf(st'.recs, g) == if g == s then Vacated else SlotOf(st.recs, g))
    && st' == st.(recs := st'.recs, store := st'.store, gens := st.gens[Id(s) := st.gens[Id(s)] + 1],
                  table := Detach(st.table, d.meta), links := st.links - {s}, owner := Disown(st.owner, s))
  }

  lemma DestroyKeepsRefCount<V>(st: State<V>, st': State<V>, e: EntityHandle)
    requires RefCountOk(st.table, st.links) && RecordOk(st, e.slot, RecordOf(st, e)) && DestroyMoves(st, st', e)
    ensures RefCountOk(st'.table, st'.links)
  {
    var d := RecordOf(st, e);
    if d.meta.Some? {
      assert st.links[e.slot] == d.mask;
      DisconnectKeepsRefCount(st.table, st.links, e.slot);
    } else {
      assert st.links - {e.slot} == st.links;
    }
  }

  /** A component placed by the record in slot s is owned by s, so it is placed by no other record. */
  lemma PlacedOwned<V>(st: State<V>, s: Handle, u: nat)
    requires RecordsOk(st) && Rec(st, s).Holds? && u in Placed(Rec(st, s).value)
    ensures CompRef(u, Placed(Rec(st, s).value)[u]) in st.owner
    ensures st.owner[CompRef(u, Placed(Rec(st, s).value)[u])] == s
  {
    assert RecordOk(st, s, Rec(st, s).value);
  }

  lemma DestroyKeepsRecords<V>(st: State<V>, st': State<V>, e: EntityHandle)
    requires RecordsOk(st) && Rec(st, e.slot).Holds? && DestroyMoves(st, st', e)
    ensures RecordsOk(st')
  {
    var p := Placed(RecordOf(st, e));
    forall g | Rec(st', g).Holds?
      ensures RecordOk(st', g, Rec(st', g).value)
    {
      var q := Placed(Rec(st, g).value);
      assert RecordOk(st, g, Rec(st, g).value);
      forall u | u in q
        ensures Held(st', CompRef(u, q[u]), g)
      {
        PlacedOwned(st, g, u);
        if u in p && p[u] == q[u] {
          PlacedOwned(st, e.slot, u);
        }
      }
    }
  }

  lemma DestroyKeepsOwners<V>(st: State<V>, st': State<V>, e: EntityHandle)
    requires OwnersOk(st) && LinksOk(st) && DestroyMoves(st, st', e)
    ensures OwnersOk(st') && LinksOk(st')
  {
  }

  lemma DestroyKeepsIssued<V>(st: State<V>, st': State<V>, e: EntityHandle)
    requires IssuedOk(st) && Current(st, e) && DestroyMoves(st, st', e)
    ensures IssuedOk(st') && !Current(st', e)
  {
    forall x | x in st'.issued
      ensures x.generation == st'.gens[Id(x.slot)] ==> Rec(st', x.slot).Holds?
    {
      if x.slot != e.slot {
        IdInjective(x.slot, e.slot);
      }
    }
  }

  lemma DestroyKeepsOthers<V>(st: State<V>, st': State<V>, e: EntityHandle)
    requires Inv(st) && Current(st, e) && DestroyMoves(st, st', e)
    ensures CurrentElsewhere(st, st', e) && CompsElsewhere(st, st', e)
  {
    var p := Placed(RecordOf(st, e));
    forall x | x != e
      ensures Current(st, x) <==> Current(st', x)
    {
      if x.slot != e.slot && x in st.issued {
        IdInjective(x.slot, e.slot);
      }
    }
    forall x | x != e && Current(st, x)
      ensures Comps(st', x) == Comps(st, x)
    {
      var q := Placed(RecordOf(st, x));
      assert x.slot != e.slot;
      assert RecordOf(st', x) == RecordOf(st, x) by {
        IdInjective(x.slot, e.slot);
      }
      forall u | u in q
        ensures CompAt(st'.store, u, q[u]) == CompAt(st.store, u, q[u])
      {
        PlacedOwned(st, x.slot, u);
        if u in p && p[u] == q[u] {
          PlacedOwned(st, e.slot, u);
        }
      }
      ValuesFrame(st.store, st'.store, q);
    }
  }

  /**
   * destroyEntity on a valid handle, with its record disconnected from its
   * descriptor: the invariant holds again, the handle is no longer valid,
   * and the entity leaves the view while every other entity keeps its
   * components.
   */
  lemma DestroyStep<V>(st: State<V>, st': State<V>, e: EntityHandle)
    requires Inv(st) && Current(st, e)
    requires VacatedBelow(st'.store, st.store, Placed(RecordOf(st, e)), st.total)
    requires forall g :: SlotOf(st'.recs, g) == if g == e.slot then Vacated else SlotOf(st.recs, g)
    requires st' == st.(recs := st'.recs, store := st'.store, gens := st.gens[Id(e.slot) := st.gens[Id(e.slot)] + 1],
                        table := Detach(st.table, RecordOf(st, e).meta), links := st.links - {e.slot},
                        owner := Disown(st.owner, e.slot))
    ensures Inv(st') && !Current(st', e)
    ensures ViewOf(st') == ViewOf(st) - {e}
  {
    CompsAt(st, e);
    assert DestroyMoves(st, st', e);
    DestroyKeepsRefCount(st, st', e);
    DestroyKeepsRecords(st, st', e);
    DestroyKeepsOwners(st, st', e);
    DestroyKeepsIssued(st, st', e);
    DestroyKeepsOthers(st, st', e);
    ViewDrop(st, st', e);
  }

  /**
   * The change removeComponent makes for a type t the entity has: t's
   * component is destroyed in its pool and released, and the record becomes
   * Without(d, t), disconnected from the old descriptor and connected to the
   * new mask's.
   */
  ghost predicate RemoveMoves<V>(st: State<V>, st': State<V>, e: EntityHandle, t: nat)
  {
    var s := e.slot;
    var d := RecordOf(st, e);
    var p := Placed(d);
    && t in p && t < |d.mask| && Rank(d.mask, t) < |d.handles|
    && (d.meta.Some? ==> d.meta.value in st.table)
    && (forall u, g :: CompAt(st'.store, u, g) == if u == t && g == p[t] then Vacated else CompAt(st.store, u, g))
    && (forall g :: SlotOf(st'.recs, g) == if g == s then Holds(Without(d, t)) else SlotOf(st.recs, g))
    && st' == st.(recs := st'.recs, store := st'.store, table := Attach(Detach(st.table, d.meta), d.mask[t := false]),
                  links := st.links[s := d.mask[t := false]], owner := Release(st.owner, CompRef(t, p[t])))
  }

  /** A record with a component is linked to a descriptor. */
  lemma PlacedLinked<V>(st: State<V>, s: Handle, d: EntityData, t: nat)
    requires RecordOk(st, s, d) && t in Placed(d)
    ensures d.meta.Some? && s in st.links && st.links[s] == d.mask
  {
  }

  lemma RemoveKeepsRefCount<V>(st: State<V>, st': State<V>, e: EntityHandle, t: nat)
    requires RefCountOk(st.table, st.links) && RecordOk(st, e.slot, RecordOf(st, e)) && RemoveMoves(st, st', e, t)
    ensures RefCountOk(st'.table, st'.links)
  {
    var d := RecordOf(st, e);
    RelinkKeepsRefCount(st.table, st.links, e.slot, d.meta, d.mask[t := false]);
  }

  /** Without(d, t) places what d places, except t. */
  lemma WithoutPlacement(d: EntityData, t: nat)
    requires |d.handles| == Popcount(d.mask) && t in Placed(d)
    ensures t < |d.mask| && Rank(d.mask, t) < |d.handles|
    ensures |Without(d, t).handles| == Popcount(Without(d, t).mask)
    ensures Placed(Without(d, t)) == Placed(d) - {t}
  {
    assert t < |d.mask| && d.mask[t];
    RemovePlacement(d.mask, d.handles, t);
    var r := Rank(d.mask, t);
    assert Without(d, t) == EntityData(d.mask[t := false], Some(d.mask[t := false]), d.handles[..r] + d.handles[r + 1..]);
  }

  /** A component that stays placed stays held by its record. */
  lemma RemoveKeepsHeld<V>(st: State<V>, st': State<V>, e: EntityHandle, t: nat, g: Handle, u: nat)
    requires RecordsOk(st) && Rec(st, e.slot).Holds? && RemoveMoves(st, st', e, t)
    requires Rec(st, g).Holds? && u in Placed(Rec(st, g).value) && (g != e.slot || u != t)
    ensures Held(st', CompRef(u, Placed(Rec(st, g).value)[u]), g)
  {
    var q := Placed(Rec(st, g).value);
    var c := CompRef(u, q[u]);
    PlacedOwned(st, g, u);
    PlacedOwned(st, e.slot, t);
    assert c != CompRef(t, Placed(RecordOf(st, e))[t]);
    assert RecordOk(st, g, Rec(st, g).value);
    assert CompAt(st'.store, u, q[u]) == CompAt(st.store, u, q[u]);
  }

  lemma RemoveKeepsNewRecord<V>(st: State<V>, st': State<V>, e: EntityHandle, t: nat)
    requires RecordsOk(st) && Rec(st, e.slot).Holds? && RemoveMoves(st, st', e, t)
    ensures Placed(Without(RecordOf(st, e), t)) == Placed(RecordOf(st, e)) - {t}
    ensures RecordOk(st', e.slot, Without(RecordOf(st, e), t))
  {
    var d := RecordOf(st, e);
    var p := Placed(d);
    assert RecordOk(st, e.slot, d);
    WithoutPlacement(d, t);
    forall u | u in p - {t}
      ensures Held(st', CompRef(u, p[u]), e.slot)
    {
      RemoveKeepsHeld(st, st', e, t, e.slot, u);
    }
  }

  lemma RemoveKeepsRecords<V>(st: State<V>, st': State<V>, e: EntityHandle, t: nat)
    requires RecordsOk(st) && Rec(st, e.slot).Holds? && RemoveMoves(st, st', e, t)
    ensures RecordsOk(st')
  {
    RemoveKeepsNewRecord(st, st', e, t);
    forall g | Rec(st', g).Holds? && g != e.slot
      ensures RecordOk(st', g, Rec(st', g).value)
    {
      var q := Placed(Rec(st, g).value);
      assert RecordOk(st, g, Rec(st, g).value);
      forall u | u in q
        ensures Held(st', CompRef(u, q[u]), g)
      {
        RemoveKeepsHeld(st, st', e, t, g, u);
      }
    }
  }

  /** An attached component other than the removed one is still placed by its owner. */
  lemma RemoveKeepsOwner<V>(st: State<V>, st': State<V>, e: EntityHandle, t: nat, c: CompRef)
    requires OwnersOk(st) && Rec(st, e.slot).Holds? && t in Placed(RecordOf(st, e))
    requires t < |RecordOf(st, e).mask| && Rank(RecordOf(st, e).mask, t) < |RecordOf(st, e).handles|
    requires Placed(Without(RecordOf(st, e), t)) == Placed(RecordOf(st, e)) - {t}
    requires forall g :: Rec(st', g) == if g == e.slot then Holds(Without(RecordOf(st, e), t)) else Rec(st, g)
    requires st'.owner == Release(st.owner, CompRef(t, Placed(RecordOf(st, e))[t]))
    requires c in st'.owner
    ensures Rec(st', st'.owner[c]).Holds?
    ensures c.id in Placed(Rec(st', st'.owner[c]).value)
    ensures Placed(Rec(st', st'.owner[c]).value)[c.id] == c.handle
  {
    var d := RecordOf(st, e);
    var g := st.owner[c];
    assert st'.owner[c] == g;
    if g == e.slot {
      var p := Placed(d);
      assert c.id in p && p[c.id] == c.handle;
      assert c.id != t;
      assert c.id in p - {t} && (p - {t})[c.id] == c.handle;
      assert Rec(st', g).value == Without(d, t);
    } else {
      assert Rec(st', g) == Rec(st, g);
    }
  }

  lemma RemoveKeepsOwners<V>(st: State<V>, st': State<V>, e: EntityHandle, t: nat)
    requires OwnersOk(st) && Rec(st, e.slot).Holds? && |RecordOf(st, e).handles| == Popcount(RecordOf(st, e).mask)
    requires RemoveMoves(st, st', e, t)
    ensures OwnersOk(st')
  {
    WithoutPlacement(RecordOf(st, e), t);
    forall c | c in st'.owner
      ensures Rec(st', st'.owner[c]).Holds?
      ensures c.id in Placed(Rec(st', st'.owner[c]).value)
      ensures Placed(Rec(st', st'.owner[c]).value)[c.id] == c.handle
    {
      RemoveKeepsOwner(st, st', e, t, c);
    }
  }

  lemma RemoveKeepsOthers<V>(st: State<V>, st': State<V>, e: EntityHandle, t: nat)
    requires Inv(st) && Current(st, e) && RemoveMoves(st, st', e, t)
    ensures CurrentElsewhere(st, st', e) && CompsElsewhere(st, st', e)
  {
    var p := Placed(RecordOf(st, e));
    PlacedOwned(st, e.slot, t);
    forall x | x != e && Current(st, x)
      ensures Comps(st', x) == Comps(st, x)
    {
      var q := Placed(RecordOf(st, x));
      assert x.slot != e.slot;
      forall u | u in q
        ensures CompAt(st'.store, u, q[u]) == CompAt(st.store, u, q[u])
      {
        PlacedOwned(st, x.slot, u);
      }
      ValuesFrame(st.store, st'.store, q);
    }
  }

  lemma RemoveComps<V>(st: State<V>, st': State<V>, e: EntityHandle, t: nat)
    requires Inv(st) && Current(st, e) && RemoveMoves(st, st', e, t)
    ensures Comps(st', e) == Comps(st, e) - {t}
  {
    var p := Placed(RecordOf(st, e));
    RemoveKeepsNewRecord(st, st', e, t);
    assert RecordOf(st', e) == Without(RecordOf(st, e), t);
    ValuesFrame(st.store, st'.store, p - {t});
    ValuesDrop(st.store, p, t);
  }

  lemma RemoveKeepsLinks<V>(st: State<V>, st': State<V>, e: EntityHandle, t: nat)
    requires LinksOk(st) && IssuedOk(st) && Rec(st, e.slot).Holds? && RemoveMoves(st, st', e, t)
    ensures LinksOk(st') && IssuedOk(st')
  {
  }

  lemma RemoveKeepsInv<V>(st: State<V>, st': State<V>, e: EntityHandle, t: nat)
    requires Inv(st) && Current(st, e) && RemoveMoves(st, st', e, t)
    ensures Inv(st') && Current(st', e)
  {
    RemoveKeepsRefCount(st, st', e, t);
    RemoveKeepsRecords(st, st', e, t);
    RemoveKeepsOwners(st, st', e, t);
    RemoveKeepsLinks(st, st', e, t);
  }

  /**
   * removeComponent for a type t the entity has: the invariant holds again,
   * the handle stays valid, and the entity loses exactly its type-t
   * component while every other entity keeps its components.
   */
  lemma RemoveStep<V>(st: State<V>, st': State<V>, e: EntityHandle, t: nat, d: EntityData)
    requires Inv(st) && Current(st, e) && d == RecordOf(st, e)
    requires t in Placed(d) && t < |d.mask| && Rank(d.mask, t) < |d.handles|
    requires d.meta.Some? ==> d.meta.value in st.table
    requires forall u, g :: CompAt(st'.store, u, g) == if u == t && g == Placed(d)[t] then Vacated else CompAt(st.store, u, g)
    requires forall g :: SlotOf(st'.recs, g) == if g == e.slot then Holds(Without(d, t)) else SlotOf(st.recs, g)
    requires st' == st.(recs := st'.recs, store := st'.store, table := Attach(Detach(st.table, d.meta), d.mask[t := false]),
                        links := st.links[e.slot := d.mask[t := false]], owner := Release(st.owner, CompRef(t, Placed(d)[t])))
    ensures Inv(st') && Current(st', e)
    ensures e in ViewOf(st) && ViewOf(st') == ViewOf(st)[e := ViewOf(st)[e] - {t}]
  {
    assert RemoveMoves(st, st', e, t);
    RemoveKeepsInv(st, st', e, t);
    RemoveKeepsOthers(st, st', e, t);
    RemoveComps(st, st', e, t);
    ViewAt(st, e);
    ViewPut(st, st', e);
  }

  /**
   * The change the corrected addComponent makes: the record is disconnected,
   * the kept components (distinct types the entity lacks, each alive and
   * attached to nothing) are attached, and the new record d' has the grown
   * mask, is connected to its descriptor and places the old components and
   * the kept ones.
   */
  ghost predicate AddMoves<V>(st: State<V>, st': State<V>, e: EntityHandle, kept: seq<Pending>, d': EntityData)
  {
    var s := e.slot;
    var d := RecordOf(st, e);
    && IdsIn(kept, |d.mask|) && DistinctIds(kept)
    && (forall i :: 0 <= i < |kept| ==> !d.mask[kept[i].id])
    && (forall i :: 0 <= i < |kept| ==> CompAt(st.store, kept[i].id, kept[i].handle).Holds?)
    && Refs(kept) !! st.owner.Keys
    && d'.meta == Some(d'.mask)
    && |d'.mask| == |d.mask| && (forall j :: 0 <= j < |d.mask| ==> (d'.mask[j] <==> d.mask[j] || j in Types(kept)))
    && |d'.handles| == Popcount(d'.mask) && Placed(d') == AttachAll(Placed(d), kept)
    && (d.meta.Some? ==> d.meta.value in st.table)
    && (forall g :: SlotOf(st'.recs, g) == if g == s then Holds(d') else SlotOf(st.recs, g))
    && st' == st.(recs := st'.recs, table := Attach(Detach(st.table, d.meta), d'.mask),
                  links := st.links[s := d'.mask], owner := Adopt(st.owner, kept, s))
  }

  /** The new placement is the old one plus the kept components, on disjoint types. */
  lemma AddPlacement<V>(st: State<V>, st': State<V>, e: EntityHandle, kept: seq<Pending>, d': EntityData)
    requires RecordOk(st, e.slot, RecordOf(st, e)) && AddMoves(st, st', e, kept, d')
    ensures Placed(RecordOf(st, e)).Keys !! Types(kept)
    ensures Placed(d') == Placed(RecordOf(st, e)) + AttachAll(map[], kept)
    ensures AttachAll(map[], kept).Keys == Types(kept)
    ensures forall i :: 0 <= i < |kept| ==> AttachAll(map[], kept)[kept[i].id] == kept[i].handle
  {
    AttachAllSplit(Placed(RecordOf(st, e)), kept);
    AttachAllLookup(kept);
  }

  lemma AddKeepsRefCount<V>(st: State<V>, st': State<V>, e: EntityHandle, kept: seq<Pending>, d': EntityData)
    requires RefCountOk(st.table, st.links) && RecordOk(st, e.slot, RecordOf(st, e)) && AddMoves(st, st', e, kept, d')
    ensures RefCountOk(st'.table, st'.links)
  {
    RelinkKeepsRefCount(st.table, st.links, e.slot, RecordOf(st, e).meta, d'.mask);
  }

  lemma AddKeepsNewRecord<V>(st: State<V>, st': State<V>, e: EntityHandle, kept: seq<Pending>, d': EntityData)
    requires RecordsOk(st) && Rec(st, e.slot).Holds? && AddMoves(st, st', e, kept, d')
    ensures RecordOk(st', e.slot, d')
  {
    var d := RecordOf(st, e);
    var p := Placed(d);
    assert RecordOk(st, e.slot, d);
    AddPlacement(st, st', e, kept, d');
    forall u | u in Placed(d')
      ensures Held(st', CompRef(u, Placed(d')[u]), e.slot)
    {
      if u in p {
        PlacedOwned(st, e.slot, u);
      } else {
        var i :| 0 <= i < |kept| && kept[i].id == u;
        assert CompRef(u, Placed(d')[u]) in Refs(kept);
      }
    }
  }

  lemma AddKeepsRecords<V>(st: State<V>, st': State<V>, e: EntityHandle, kept: seq<Pending>, d': EntityData)
    requires RecordsOk(st) && Rec(st, e.slot).Holds? && AddMoves(st, st', e, kept, d')
    ensures RecordsOk(st')
  {
    AddKeepsNewRecord(st, st', e, kept, d');
    forall g | Rec(st', g).Holds? && g != e.slot
      ensures RecordOk(st', g, Rec(st', g).value)
    {
      var q := Placed(Rec(st, g).value);
      assert RecordOk(st, g, Rec(st, g).value);
      forall u | u in q
        ensures Held(st', CompRef(u, q[u]), g)
      {
        PlacedOwned(st, g, u);
      }
    }
  }

  lemma AddKeepsOwners<V>(st: State<V>, st': State<V>, e: EntityHandle, kept: seq<Pending>, d': EntityData)
    requires OwnersOk(st) && Rec(st, e.slot).Holds? && RecordOk(st, e.slot, RecordOf(st, e))
    requires AddMoves(st, st', e, kept, d')
    ensures OwnersOk(st')
  {
    AddPlacement(st, st', e, kept, d');
    var d := RecordOf(st, e);
    assert Rec(st', e.slot) == Holds(d');
    forall c | c in st'.owner
      ensures Rec(st', st'.owner[c]).Holds?
      ensures c.id in Placed(Rec(st', st'.owner[c]).value)
      ensures Placed(Rec(st', st'.owner[c]).value)[c.id] == c.handle
    {
      if c in Refs(kept) {
        var i :| 0 <= i < |kept| && c == CompRef(kept[i].id, kept[i].handle);
        assert st'.owner[c] == e.slot;
      } else {
        var s0 := st.owner[c];
        assert st'.owner[c] == s0;
        if s0 == e.slot {
          assert Rec(st, s0) == Holds(d);
        } else {
          assert Rec(st', s0) == Rec(st, s0);
        }
      }
    }
  }

  lemma AddComps<V>(st: State<V>, st': State<V>, e: EntityHandle, kept: seq<Pending>, d': EntityData)
    requires Inv(st) && Current(st, e) && AddMoves(st, st', e, kept, d')
    ensures Comps(st', e) == Comps(st, e) + Values(st.store, AttachAll(map[], kept))
  {
    AddPlacement(st, st', e, kept, d');
    ValuesUnion(st.store, Placed(RecordOf(st, e)), AttachAll(map[], kept));
  }

  lemma AddKeepsLinks<V>(st: State<V>, st': State<V>, e: EntityHandle, kept: seq<Pending>, d': EntityData)
    requires LinksOk(st) && IssuedOk(st) && Rec(st, e.slot).Holds? && AddMoves(st, st', e, kept, d')
    ensures LinksOk(st') && IssuedOk(st')
  {
  }

  lemma AddKeepsInv<V>(st: State<V>, st': State<V>, e: EntityHandle, kept: seq<Pending>, d': EntityData)
    requires Inv(st) && Current(st, e) && AddMoves(st, st', e, kept, d')
    ensures Inv(st') && Current(st', e)
  {
    AddKeepsRefCount(st, st', e, kept, d');
    AddKeepsRecords(st, st', e, kept, d');
    AddKeepsOwners(st, st', e, kept, d');
    AddKeepsLinks(st, st', e, kept, d');
  }

  /**
   * A step that rewrites at most e's record, and keeps the store, the
   * generations and the issued handles, changes no other entity.
   */
  lemma OthersKept<V>(st: State<V>, st': State<V>, e: EntityHandle)
    requires Current(st, e)
    requires st'.total == st.total && st'.store == st.store && st'.gens == st.gens && st'.issued == st.issued
    requires forall g :: g != e.slot ==> SlotOf(st'.recs, g) == SlotOf(st.recs, g)
    ensures CurrentElsewhere(st, st', e) && CompsElsewhere(st, st', e)
  {
    forall x | x != e && Current(st, x)
      ensures Comps(st', x) == Comps(st, x)
    {
      assert x.slot != e.slot;
    }
  }

  /**
   * addComponent with the kept components of a pack: the invariant holds
   * again, the handle stays valid, and the entity gains exactly the kept
   * components while every other entity keeps its components.
   */
  lemma AddStep<V>(st: State<V>, st': State<V>, e: EntityHandle, kept: seq<Pending>, d: EntityData, d': EntityData)
    requires Inv(st) && Current(st, e) && d == RecordOf(st, e)
    requires IdsIn(kept, |d.mask|) && DistinctIds(kept) && forall i :: 0 <= i < |kept| ==> !d.mask[kept[i].id]
    requires forall i :: 0 <= i < |kept| ==> CompAt(st.store, kept[i].id, kept[i].handle).Holds?
    requires Refs(kept) !! st.owner.Keys
    requires d'.meta == Some(d'.mask) && |d'.mask| == |d.mask|
    requires forall j :: 0 <= j < |d.mask| ==> (d'.mask[j] <==> d.mask[j] || j in Types(kept))
    requires |d'.handles| == Popcount(d'.mask) && Placed(d') == AttachAll(Placed(d), kept)
    requires d.meta.Some? ==> d.meta.value in st.table
    requires forall g :: SlotOf(st'.recs, g) == if g == e.slot then Holds(d') else SlotOf(st.recs, g)
    requires st' == st.(recs := st'.recs, table := Attach(Detach(st.table, d.meta), d'.mask),
                        links := st.links[e.slot := d'.mask], owner := Adopt(st.owner, kept, e.slot))
    ensures Inv(st') && Current(st', e)
    ensures e in ViewOf(st)
    ensures ViewOf(st') == ViewOf(st)[e := ViewOf(st)[e] + Values(st.store, AttachAll(map[], kept))]
  {
    assert AddMoves(st, st', e, kept, d');
    AddKeepsInv(st, st', e, kept, d');
    OthersKept(st, st', e);
    AddComps(st, st', e, kept, d');
    ViewAt(st, e);
    ViewPut(st, st', e);
  }

  /** The values of distinct-typed, alive components: one per type, each the value at its handle. */
  lemma KeptValues<V>(store: map<nat, seq<Block<V>>>, kept: seq<Pending>)
    requires DistinctIds(kept)
    requires forall i :: 0 <= i < |kept| ==> CompAt(store, kept[i].id, kept[i].handle).Holds?
    ensures AttachAll(map[], kept).Keys == Values(store, AttachAll(map[], kept)).Keys == Types(kept)
    ensures forall i :: 0 <= i < |kept| ==> AttachAll(map[], kept)[kept[i].id] == kept[i].handle
  {
    var a := AttachAll(map[], kept);
    AttachAllLookup(kept);
    forall t | t in a
      ensures CompAt(store, t, a[t]).Holds?
    {
      var i :| 0 <= i < |kept| && kept[i].id == t;
    }
    assert Values(store, a).Keys == a.Keys;
  }

  /** The types an entity has after the corrected addComponent: its own and those the pack names. */
  lemma AddedKeys<V>(c: map<nat, V>, x: map<nat, V>, mask: Mask, pack: seq<Pending>, kept: seq<Pending>)
    requires forall t :: t in c <==> 0 <= t < |mask| && mask[t]
    requires forall t :: t in Types(pack) ==> t < |mask| && (mask[t] || t in Types(kept))
    requires forall i :: 0 <= i < |kept| ==> kept[i] in pack
    requires x.Keys == Types(kept)
    ensures (c + x).Keys == c.Keys + Types(pack)
  {
    forall t | t in x
      ensures t in Types(pack)
    {
      var i :| 0 <= i < |kept| && kept[i].id == t;
      var j :| 0 <= j < |pack| && pack[j] == kept[i];
    }
  }

  /**
   * What the corrected addComponent gives an entity with components c (the
   * types its mask sets): it has every type it had or the pack names, its
   * existing components keep their values, and a type it lacked gets the
   * component of the first pack entry naming that type.
   */
  lemma AddedValues<V>(store: map<nat, seq<Block<V>>>, c: map<nat, V>, mask: Mask, pack: seq<Pending>)
    requires IdsIn(pack, |mask|) && forall t :: t in c <==> 0 <= t < |mask| && mask[t]
    requires forall i :: 0 <= i < |pack| ==> CompAt(store, pack[i].id, pack[i].handle).Holds?
    ensures var n := c + Values(store, AttachAll(map[], UnpackFresh(mask, pack)));
            && n.Keys == c.Keys + Types(pack)
            && (forall t :: t in c ==> n[t] == c[t])
            && forall i :: 0 <= i < |pack| && pack[i].id !in c && FirstOf(pack, i) ==>
                 Holds(n[pack[i].id]) == CompAt(store, pack[i].id, pack[i].handle)
  {
    var kept := UnpackFresh(mask, pack);
    var x := Values(store, AttachAll(map[], kept));
    forall i | 0 <= i < |kept|
      ensures CompAt(store, kept[i].id, kept[i].handle).Holds?
    {
      var j :| 0 <= j < |pack| && pack[j] == kept[i];
    }
    KeptValues(store, kept);
    AddedKeys(c, x, mask, pack, kept);
    forall i | 0 <= i < |pack| && pack[i].id !in c && FirstOf(pack, i)
      ensures Holds((c + x)[pack[i].id]) == CompAt(store, pack[i].id, pack[i].handle)
    {
      UnpackFreshKeepsFirst(mask, pack, i);
      var j :| 0 <= j < |kept| && kept[j] == pack[i];
    }
  }

  /** Components drawn from a pack of live, unattached components are live and unattached. */
  lemma LooseKept<V>(st: State<V>, pack: seq<Pending>, kept: seq<Pending>)
    requires forall i :: 0 <= i < |pack| ==> CompAt(st.store, pack[i].id, pack[i].handle).Holds?
    requires forall i :: 0 <= i < |pack| ==> CompRef(pack[i].id, pack[i].handle) !in st.owner
    requires forall i :: 0 <= i < |kept| ==> kept[i] in pack
    ensures forall i :: 0 <= i < |kept| ==> CompAt(st.store, kept[i].id, kept[i].handle).Holds?
    ensures Refs(kept) !! st.owner.Keys
  {
    forall i | 0 <= i < |kept|
      ensures CompAt(st.store, kept[i].id, kept[i].handle).Holds? && CompRef(kept[i].id, kept[i].handle) !in st.owner
    {
      var j :| 0 <= j < |pack| && pack[j] == kept[i];
    }
  }

  /**
   * The facts addComponent needs before it rewrites the record: the kept
   * part of a pack of live, unattached components has distinct types the
   * entity lacks, each live and unattached, and the record's descriptor is
   * in the table.
   */
  lemma AddReady<V>(st: State<V>, e: EntityHandle, d: EntityData, pack: seq<Pending>, kept: seq<Pending>)
    requires Inv(st) && Current(st, e) && d == RecordOf(st, e) && IdsIn(pack, st.total)
    requires forall i :: 0 <= i < |pack| ==> CompAt(st.store, pack[i].id, pack[i].handle).Holds?
    requires forall i :: 0 <= i < |pack| ==> CompRef(pack[i].id, pack[i].handle) !in st.owner
    requires kept == UnpackFresh(d.mask, pack)
    ensures |d.handles| == Popcount(d.mask) && IdsIn(kept, |d.mask|) && DistinctIds(kept)
    ensures forall i :: 0 <= i < |kept| ==> !d.mask[kept[i].id]
    ensures forall i :: 0 <= i < |kept| ==> CompAt(st.store, kept[i].id, kept[i].handle).Holds?
    ensures Refs(kept) !! st.owner.Keys
    ensures d.meta.Some? ==> d.meta.value in st.table
    ensures forall t :: t in Comps(st, e) <==> 0 <= t < |d.mask| && d.mask[t]
  {
    CompsAt(st, e);
    assert d.meta.Some? ==> e.slot in st.links && st.links[e.slot] == d.mask;
    LooseKept(st, pack, kept);
  }

  /**
   * Who holds the pack's components once the kept ones are adopted by e's
   * slot: every leftover is still live and held by nobody, and every first
   * entry of a type e lacked is held by e's slot.
   */
  lemma LeftoversLoose<V>(st: State<V>, e: EntityHandle, d: EntityData, pack: seq<Pending>)
    requires Inv(st) && Current(st, e) && d == RecordOf(st, e) && IdsIn(pack, st.total) && DistinctPack(pack)
    requires forall i :: 0 <= i < |pack| ==> CompAt(st.store, pack[i].id, pack[i].handle).Holds?
    requires forall i :: 0 <= i < |pack| ==> CompRef(pack[i].id, pack[i].handle) !in st.owner
    ensures e in ViewOf(st)
    ensures forall c :: c in Leftovers(ViewOf(st)[e].Keys, pack) ==>
              CompAt(st.store, c.id, c.handle).Holds? && c !in Adopt(st.owner, UnpackFresh(d.mask, pack), e.slot)
    ensures forall i :: 0 <= i < |pack| && pack[i].id !in ViewOf(st)[e] && FirstOf(pack, i) ==>
              var o := Adopt(st.owner, UnpackFresh(d.mask, pack), e.slot);
              CompRef(pack[i].id, pack[i].handle) in o && o[CompRef(pack[i].id, pack[i].handle)] == e.slot
  {
    ViewAt(st, e);
    CompsAt(st, e);
    var has := ViewOf(st)[e].Keys;
    LeftoversUnkept(d.mask, has, pack);
    forall c | c in Leftovers(has, pack)
      ensures CompAt(st.store, c.id, c.handle).Holds? && c !in st.owner
    {
      var i :| 0 <= i < |pack| && (pack[i].id in has || !FirstOf(pack, i)) && c == CompRef(pack[i].id, pack[i].handle);
    }
  }

  /**
   * The corrected addComponent as a whole: with the kept part of a pack
   * attached, the invariant holds again, the handle stays valid, only e's
   * entry of the view changes, e has every type it had or the pack names,
   * keeps its existing components, and each new type holds the value of the
   * first pack entry naming it.
   */
  lemma AddComponentStep<V>(st: State<V>, st': State<V>, e: EntityHandle, pack: seq<Pending>, d: EntityData, d': EntityData)
    requires Inv(st) && Current(st, e) && d == RecordOf(st, e) && IdsIn(pack, st.total)
    requires forall i :: 0 <= i < |pack| ==> CompAt(st.store, pack[i].id, pack[i].handle).Holds?
    requires forall i :: 0 <= i < |pack| ==> CompRef(pack[i].id, pack[i].handle) !in st.owner
    requires d'.meta == Some(d'.mask) && |d'.mask| == |d.mask|
    requires forall j :: 0 <= j < |d.mask| ==> (d'.mask[j] <==> d.mask[j] || j in Types(UnpackFresh(d.mask, pack)))
    requires |d'.handles| == Popcount(d'.mask) && Placed(d') == AttachAll(Placed(d), UnpackFresh(d.mask, pack))
    requires d.meta.Some? ==> d.meta.value in st.table
    requires forall g :: SlotOf(st'.recs, g) == if g == e.slot then Holds(d') else SlotOf(st.recs, g)
    requires st' == st.(recs := st'.recs, table := Attach(Detach(st.table, d.meta), d'.mask),
                        links := st.links[e.slot := d'.mask], owner := Adopt(st.owner, UnpackFresh(d.mask, pack), e.slot))
    ensures Inv(st') && Current(st', e) && e in ViewOf(st) && e in ViewOf(st')
    ensures ViewOf(st') == ViewOf(st)[e := ViewOf(st')[e]]
    ensures ViewOf(st')[e].Keys == ViewOf(st)[e].Keys + Types(pack)
    ensures forall t :: t in ViewOf(st)[e] ==> ViewOf(st')[e][t] == ViewOf(st)[e][t]
    ensures forall i :: 0 <= i < |pack| && pack[i].id !in ViewOf(st)[e] && FirstOf(pack, i) ==>
              CompAt(st.store, pack[i].id, pack[i].handle) == Holds(ViewOf(st')[e][pack[i].id])
  {
    var kept := UnpackFresh(d.mask, pack);
    AddReady(st, e, d, pack, kept);
    AddStep(st, st', e, kept, d, d');
    ViewAt(st, e);
    AddedValues(st.store, Comps(st, e), d.mask, pack);
  }
}
