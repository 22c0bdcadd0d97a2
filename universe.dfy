/**
 * The entity store of dom.h (class Universe): entity records in a block
 * pool, a generation per record slot that invalidates stale handles, one
 * component pool per type and the interned archetype descriptors. The
 * object's state abstracts to a UniverseModel.State; every method keeps the
 * store's invariant and says what it does to View(), the current entities
 * with their components.
 */
module Universes {
  import opened Wrappers
  import opened Bitmask
  import opened ChunkedArrays
  import opened ComponentManagers
  import opened Archetypes
  import opened UniverseModel
  import opened UniverseSteps
  import opened Utilities

  /**
   * The placement loop of the corrected addComponent: each kept component's
   * handle is inserted at its type's rank in the mask as it stands, and only
   * then is the type's bit set, so the list stays packed in type order
   * whatever order the pack names the types in. The result places exactly
   * the record's components and the kept ones.
   */
  method Place(d: EntityData, kept: seq<Pending>) returns (mask: Mask, list: seq<Handle>)
    requires |d.handles| == Popcount(d.mask) && IdsIn(kept, |d.mask|) && DistinctIds(kept)
    requires forall i :: 0 <= i < |kept| ==> !d.mask[kept[i].id]
    ensures |mask| == |d.mask| && forall j :: 0 <= j < |d.mask| ==> (mask[j] <==> d.mask[j] || j in Types(kept))
    ensures |list| == Popcount(mask) && Placement(mask, list) == AttachAll(Placed(d), kept)
  {
    mask, list := d.mask, d.handles;
    var i := 0;
    while i < |kept|
      invariant i <= |kept| && |mask| == |d.mask| && |list| == Popcount(mask)
      invariant forall j :: 0 <= j < |d.mask| ==> (mask[j] <==> d.mask[j] || j in Types(kept[..i]))
      invariant AttachAll(Placement(mask, list), kept[i..]) == AttachAll(Placed(d), kept)
    {
      var k := kept[i];
      TypesSnoc(kept, i);
      var pos := Rank(mask, k.id);
      InsertPlacement(mask, list, k.id, k.handle);
      assert kept[i..][1..] == kept[i + 1..];
      list := list[..pos] + [k.handle] + list[pos..];
      mask := mask[k.id := true];
      i := i + 1;
    }
    assert kept[..i] == kept;
  }

  /**
   * A component to instantiate (ComponentInstantiator<C> with its
   * constructor arguments): the type id and the value it constructs.
   */
  datatype Proto<V> = Proto(id: nat, value: V)

  /** The type ids the protos name. */
  function ProtoTypes<V>(protos: seq<Proto<V>>): set<nat>
  {
    set i | 0 <= i < |protos| :: protos[i].id
  }

  /** No proto before position i names the type of protos[i]. */
  predicate FirstProto<V>(protos: seq<Proto<V>>, i: nat)
    requires i < |protos|
  {
    forall j :: 0 <= j < i ==> protos[j].id != protos[i].id
  }

  /**
   * The components of an entity built from protos: every named type, with
   * the value of the first proto that names it.
   */
  function FirstValues<V>(protos: seq<Proto<V>>): (c: map<nat, V>)
    ensures c.Keys == ProtoTypes(protos)
    ensures forall i :: 0 <= i < |protos| && FirstProto(protos, i) ==> c[protos[i].id] == protos[i].value
  {
    if protos == [] then map[]
    else
      var rest := FirstValues(protos[1..]);
      assert ProtoTypes(protos) == {protos[0].id} + ProtoTypes(protos[1..]) by {
        forall t | t in ProtoTypes(protos) ensures t in {protos[0].id} + ProtoTypes(protos[1..]) {
          var i :| 0 <= i < |protos| && protos[i].id == t;
          if i > 0 { assert protos[1..][i - 1].id == t; }
        }
      }
      forall i | 0 < i < |protos| && FirstProto(protos, i)
        ensures rest[protos[0].id := protos[0].value][protos[i].id] == protos[i].value
      {
        assert protos[1..][i - 1] == protos[i];
        assert FirstProto(protos[1..], i - 1) by {
          forall j | 0 <= j < i - 1 ensures protos[1..][j].id != protos[i].id {
            assert protos[1..][j] == protos[j + 1];
          }
        }
      }
      rest[protos[0].id := protos[0].value]
  }

  /**
   * An entry added empty and then given the types ts: the map gains one
   * entry, with exactly those types.
   */
  lemma PutOnEmpty<K, T, W>(v0: map<K, map<T, W>>, v1: map<K, map<T, W>>, v2: map<K, map<T, W>>, e: K, ts: set<T>)
    requires e in v1 && v1 == v0[e := map[]] && e in v2 && v2 == v1[e := v2[e]] && v2[e].Keys == v1[e].Keys + ts
    ensures v2 == v0[e := v2[e]] && v2[e].Keys == ts
  {
  }

  /** The first proto that names a type the protos name. */
  lemma {:induction false} FirstIndex<V>(protos: seq<Proto<V>>, t: nat) returns (i: nat)
    requires t in ProtoTypes(protos)
    ensures i < |protos| && protos[i].id == t && FirstProto(protos, i)
  {
    if protos[0].id == t {
      i := 0;
    } else {
      assert t in ProtoTypes(protos[1..]) by {
        var k :| 0 <= k < |protos| && protos[k].id == t;
        assert protos[1..][k - 1].id == t;
      }
      var k := FirstIndex(protos[1..], t);
      i := k + 1;
      assert protos[i] == protos[1..][k];
      forall j | 0 <= j < i ensures protos[j].id != t {
        if j > 0 { assert protos[j] == protos[1..][j - 1]; }
      }
    }
  }

  /** A pack instantiated from protos, type for type, names the types the protos name. */
  lemma PackTypes<V>(pack: seq<Pending>, protos: seq<Proto<V>>)
    requires |pack| == |protos| && forall i :: 0 <= i < |pack| ==> pack[i].id == protos[i].id
    ensures Types(pack) == ProtoTypes(protos)
  {
    forall t | t in ProtoTypes(protos) ensures t in Types(pack) {
      var i :| 0 <= i < |protos| && protos[i].id == t;
      assert pack[i].id == t;
    }
  }

  /** A pack instantiated from protos, type for type, has its first occurrences where the protos have theirs. */
  lemma PackFirsts<V>(pack: seq<Pending>, protos: seq<Proto<V>>)
    requires |pack| == |protos| && forall i :: 0 <= i < |pack| ==> pack[i].id == protos[i].id
    ensures forall i :: 0 <= i < |pack| ==> (FirstOf(pack, i) <==> FirstProto(protos, i))
  {
  }

  /**
   * FirstValues is the only map with the types the protos name that holds,
   * for each, the value of the first proto naming it.
   */
  lemma FirstValuesUnique<V>(c: map<nat, V>, protos: seq<Proto<V>>)
    requires c.Keys == ProtoTypes(protos)
    requires forall i :: 0 <= i < |protos| && FirstProto(protos, i) ==> protos[i].id in c && c[protos[i].id] == protos[i].value
    ensures c == FirstValues(protos)
  {
    forall t | t in c ensures c[t] == FirstValues(protos)[t] {
      var i := FirstIndex(protos, t);
    }
  }

  /**
   * Components with the types a pack instantiated from protos names, each
   * holding the value of the first proto for its type, are FirstValues.
   */
  lemma BuiltFromPack<V>(c: map<nat, V>, pack: seq<Pending>, protos: seq<Proto<V>>)
    requires |pack| == |protos| && forall i :: 0 <= i < |pack| ==> pack[i].id == protos[i].id
    requires c.Keys == Types(pack)
    requires forall i :: 0 <= i < |pack| && FirstOf(pack, i) ==> pack[i].id in c && c[pack[i].id] == protos[i].value
    ensures c == FirstValues(protos)
  {
    PackTypes(pack, protos);
    PackFirsts(pack, protos);
    FirstValuesUnique(c, protos);
  }

  /**
   * What a batch has done to the view, from v0 to v: the entities made are
   * new, distinct and hold c, and every entity that existed is unchanged.
   */
  ghost predicate Batch<V>(v0: map<EntityHandle, map<nat, V>>, v: map<EntityHandle, map<nat, V>>,
                           made: seq<EntityHandle>, c: map<nat, V>)
  {
    && (forall j, k :: 0 <= j < k < |made| ==> made[j] != made[k])
    && (forall x :: x in v <==> x in v0 || x in made)
    && (forall x :: x in v0 ==> v[x] == v0[x] && x !in made)
    && (forall x :: x in made ==> v[x] == c)
  }

  /** One more entity e, new and holding c, extends a batch. */
  lemma GrowView<V>(v0: map<EntityHandle, map<nat, V>>, v: map<EntityHandle, map<nat, V>>, v': map<EntityHandle, map<nat, V>>,
                    made: seq<EntityHandle>, e: EntityHandle, c: map<nat, V>)
    requires Batch(v0, v, made, c)
    requires e !in v && e in v' && v' == v[e := v'[e]] && v'[e] == c
    ensures Batch(v0, v', made + [e], c)
  {
  }

  /**
   * The first entity of batch create as written sets the pack's bits,
   * connects the full mask's descriptor and places the handles by
   * resize-then-insert. For a pack in ascending type order that list is the
   * one the corrected placement gives: one entry per bit, each type's handle
   * at its dense index.
   */
  lemma BatchFirstPlacement(full: Mask, pack: seq<Pending>)
    requires IdsIn(pack, |full|) && Ascending(pack)
    requires forall t :: 0 <= t < |full| ==> (full[t] <==> t in Types(pack))
    ensures forall i :: 0 <= i < |pack| ==> pack[i].id in Dense(full)
    ensures |ResizeInsert([], pack, Dense(full))| == Popcount(full)
    ensures Placement(full, ResizeInsert([], pack, Dense(full))) == AttachAll(map[], pack)
  {
    var m := EmptyMask(|full|);
    EmptyMaskHasNoBits(|full|, |full|);
    ResizeInsertAscending(m, [], pack, full);
    var none: seq<Handle> := [];
    assert Placement(m, none) == map[];
  }

  /**
   * For a pack with no repeated type whose types are exactly the bits of
   * full, the dense indices of the pack's types number the pack's entries:
   * each is below its length, and no two coincide.
   */
  lemma BatchLoopDense(full: Mask, pack: seq<Pending>)
    requires IdsIn(pack, |full|) && DistinctIds(pack)
    requires forall t :: 0 <= t < |full| ==> (full[t] <==> t in Types(pack))
    ensures Popcount(full) == |pack|
    ensures forall i :: 0 <= i < |pack| ==> pack[i].id in Dense(full) && Dense(full)[pack[i].id] < |pack|
    ensures forall i, j :: 0 <= i < j < |pack| ==> Dense(full)[pack[i].id] != Dense(full)[pack[j].id]
  {
    var dense := Dense(full);
    DenseIsPacking(full);
    RankIsCount(full, |full|);
    assert BitsBelow(full, |full|) == Types(pack);
    DistinctTypesCount(pack);
    forall i | 0 <= i < |pack|
      ensures pack[i].id in dense && dense[pack[i].id] < |pack|
    {
      assert pack[i].id in Types(pack);
    }
    forall i, j | 0 <= i < j < |pack|
      ensures dense[pack[i].id] != dense[pack[j].id]
    {
      assert pack[i].id != pack[j].id;
    }
  }

  /**
   * A list with one entry per bit of full, whose entry at each pack type's
   * dense index is that entry's handle, places exactly the pack, when the
   * pack's types are the bits of full and none repeats.
   */
  lemma PlacementOfPacked(full: Mask, r: seq<Handle>, pack: seq<Pending>)
    requires IdsIn(pack, |full|) && DistinctIds(pack)
    requires forall t :: 0 <= t < |full| ==> (full[t] <==> t in Types(pack))
    requires |r| == Popcount(full)
    requires forall i :: 0 <= i < |pack| ==> Rank(full, pack[i].id) < |r| && r[Rank(full, pack[i].id)] == pack[i].handle
    ensures Placement(full, r) == AttachAll(map[], pack)
  {
    AttachAllLookup(pack);
    var p, q := Placement(full, r), AttachAll(map[], pack);
    forall i | 0 <= i < |pack|
      ensures pack[i].id in p && p[pack[i].id] == q[pack[i].id]
    {
    }
    assert p.Keys == q.Keys;
  }

  /**
   * Every later entity of batch create as written gets a list of one zero
   * handle per pack entry, overwritten at each entry's dense index. For a
   * pack with no repeated type, in any order, that list too is the one the
   * corrected placement gives.
   */
  lemma BatchLoopPlacement(full: Mask, pack: seq<Pending>)
    requires IdsIn(pack, |full|) && DistinctIds(pack)
    requires forall t :: 0 <= t < |full| ==> (full[t] <==> t in Types(pack))
    ensures Popcount(full) == |pack|
    ensures forall i :: 0 <= i < |pack| ==> pack[i].id in Dense(full) && Dense(full)[pack[i].id] < |pack|
    ensures Placement(full, DenseWrite(seq(|pack|, _ => Handle(0, 0)), pack, Dense(full))) == AttachAll(map[], pack)
  {
    BatchLoopDense(full, pack);
    var dense := Dense(full);
    var zeros := seq(|pack|, _ => Handle(0, 0));
    assert |zeros| == |pack|;
    var r := DenseWrite(zeros, pack, dense);
    DenseWriteAt(zeros, pack, dense);
    forall i | 0 <= i < |pack|
      ensures Rank(full, pack[i].id) < |r| && r[Rank(full, pack[i].id)] == pack[i].handle
    {
      assert dense[pack[i].id] == Rank(full, pack[i].id);
    }
    PlacementOfPacked(full, r, pack);
  }

  /**
   * The first |pack| protos instantiated in store: each pack entry has its
   * proto's type, holds its proto's value and is attached to no entity.
   */
  ghost predicate Instantiated<V>(store: map<nat, seq<Block<V>>>, owner: map<CompRef, Handle>,
                                  pack: seq<Pending>, protos: seq<Proto<V>>)
  {
    && |pack| <= |protos|
    && forall i :: 0 <= i < |pack| ==>
         && pack[i].id == protos[i].id
         && CompAt(store, pack[i].id, pack[i].handle) == Holds(protos[i].value)
         && CompRef(pack[i].id, pack[i].handle) !in owner
  }

  /**
   * Instantiating the next proto as a component that was not loose before
   * and changing no other slot extends the instantiated pack.
   */
  lemma InstantiatedNext<V>(store: map<nat, seq<Block<V>>>, store': map<nat, seq<Block<V>>>, owner: map<CompRef, Handle>,
                            pack: seq<Pending>, protos: seq<Proto<V>>, p: Pending)
    requires Instantiated(store, owner, pack, protos) && |pack| < |protos| && p.id == protos[|pack|].id
    requires !(CompAt(store, p.id, p.handle).Holds? && CompRef(p.id, p.handle) !in owner)
    requires CompAt(store', p.id, p.handle) == Holds(protos[|pack|].value) && CompRef(p.id, p.handle) !in owner
    requires forall u, g :: u != p.id || g != p.handle ==> CompAt(store', u, g) == CompAt(store, u, g)
    ensures Instantiated(store', owner, pack + [p], protos)
  {
  }

  /** The references of a pack with one more entry. */
  lemma RefsSnoc(pack: seq<Pending>, p: Pending)
    ensures Refs(pack + [p]) == Refs(pack) + {CompRef(p.id, p.handle)}
  {
    var q := pack + [p];
    forall c | c in Refs(pack) ensures c in Refs(q) {
      var i :| 0 <= i < |pack| && c == CompRef(pack[i].id, pack[i].handle);
      assert q[i] == pack[i];
    }
    assert q[|pack|] == p;
  }

  /**
   * A pack instantiated into c0 (giving c1) and then attached to slot s with
   * its leftovers destroyed (giving c2): a component live in c2 and not in c0
   * is held by s.
   */
  lemma NoLeak<V>(c0: map<nat, seq<Block<V>>>, c1: map<nat, seq<Block<V>>>, c2: map<nat, seq<Block<V>>>,
                  owner: map<CompRef, Handle>, pack: seq<Pending>, s: Handle)
    requires forall u, g :: CompRef(u, g) !in Refs(pack) ==> CompAt(c1, u, g) == CompAt(c0, u, g)
    requires Discarded(c2, c1, Leftovers({}, pack))
    requires forall i :: 0 <= i < |pack| && FirstOf(pack, i) ==>
               CompRef(pack[i].id, pack[i].handle) in owner && owner[CompRef(pack[i].id, pack[i].handle)] == s
    ensures forall u, g :: CompAt(c2, u, g).Holds? && !CompAt(c0, u, g).Holds? ==> CompRef(u, g) in owner && owner[CompRef(u, g)] == s
  {
    forall u, g | CompAt(c2, u, g).Holds? && !CompAt(c0, u, g).Holds?
      ensures CompRef(u, g) in owner && owner[CompRef(u, g)] == s
    {
      assert CompRef(u, g) !in Leftovers({}, pack);
      var i :| 0 <= i < |pack| && CompRef(u, g) == CompRef(pack[i].id, pack[i].handle);
      assert FirstOf(pack, i);
    }
  }

  /** The first write of the callback, done by modifyComponent, leaves the rest of the writes to do. */
  lemma WriteNext<V>(v0: map<EntityHandle, map<nat, V>>, v1: map<EntityHandle, map<nat, V>>,
                     e: EntityHandle, ts: seq<nat>, ws: seq<V>)
    requires ts != [] && ws != [] && e in v0 && HasAll(v0[e], ts)
    requires v1 == v0[e := Assigned(v0[e], ts[0], ws[0])]
    ensures e in v1 && HasAll(v1[e], ts[1..])
  {
  }

  /** With no reference or no value left there is nothing to write. */
  lemma WriteNone<V>(v: map<EntityHandle, map<nat, V>>, e: EntityHandle, ts: seq<nat>, ws: seq<V>)
    requires e in v && (ts == [] || ws == [])
    ensures v == v[e := Writes(v[e], ts, ws)]
  {
  }

  /** The first write followed by the rest of the writes is all of them. */
  lemma WriteRest<V>(v0: map<EntityHandle, map<nat, V>>, v1: map<EntityHandle, map<nat, V>>, v2: map<EntityHandle, map<nat, V>>,
                     e: EntityHandle, ts: seq<nat>, ws: seq<V>)
    requires ts != [] && ws != [] && e in v0 && e in v1
    requires v1 == v0[e := Assigned(v0[e], ts[0], ws[0])]
    requires v2 == v1[e := Writes(v1[e], ts[1..], ws[1..])]
    ensures v2 == v0[e := Writes(v0[e], ts, ws)]
  {
  }

  class Universe<V> {
    /** COMP_TOTAL */
    const total: nat
    /** mEntityData */
    const entities: ChunkedArray<EntityData>
    /** mManagers */
    const components: ComponentManager<V>
    /** mGenerations */
    var generations: seq<nat>
    /** mComponentMetadata */
    var metadata: Table
    /** the descriptor each connected record links to, by slot */
    ghost var links: map<Handle, Mask>
    /** the entity slot that holds each attached component */
    ghost var owner: map<CompRef, Handle>
    /** every entity handle this universe has returned */
    ghost var issued: set<EntityHandle>

    /** The store this object holds. */
    ghost function Abs(): State<V>
      reads this, entities, components, components.Repr
    {
      State(total, entities.blocks, components.contents, generations, metadata, links, owner, issued)
    }

    ghost predicate Valid()
      reads this, entities, components, components.Repr
    {
      && entities !in components.Repr && this !in components.Repr
      && components.Valid() && components.total == total
      && entities.Valid() && entities.blockSize == EntityBlockSize && entities.reuse == EntityReuse
      && Inv(Abs())
    }

    /** Every current entity with its components, by type id. */
    ghost function View(): map<EntityHandle, map<nat, V>>
      reads this, entities, components, components.Repr
    {
      ViewOf(Abs())
    }

    /**
     * An instantiated component (ComponentInstantiator): alive in its pool
     * and attached to no entity yet.
     */
    ghost predicate Loose(p: Pending)
      reads this, components, components.Repr
    {
      components.Live(p.id, p.handle) && CompRef(p.id, p.handle) !in owner
    }

    /** An empty universe: no entity, no pool, no descriptor. */
    constructor (total: nat)
      ensures Valid() && fresh(entities) && fresh(components) && fresh(components.Repr) && this.total == total
      ensures View() == map[] && issued == {} && metadata == map[]
    {
      this.total := total;
      entities := new ChunkedArray<EntityData>(EntityBlockSize, EntityReuse);
      components := new ComponentManager<V>(total);
      generations := [];
      metadata := map[];
      links := map[];
      owner := map[];
      issued := {};
    }

    /**
     * valid(e): the generation table still holds e's generation for its slot.
     * For a handle this universe returned, that is exactly when the entity
     * is in the view, and its record slot is then live.
     */
    function IsValid(e: EntityHandle): (r: bool)
      reads this, entities, components, components.Repr
      ensures Valid() && e in issued ==> (r <==> e in View())
      ensures Valid() && e in issued && r ==> entities.IsLive(e.slot)
    {
      Id(e.slot) < |generations| && generations[Id(e.slot)] == e.generation
    }

    /**
     * hasComponent: a single bit test of the record's mask, which is true
     * exactly when the entity has a component of type t.
     */
    function HasComponent(e: EntityHandle, t: nat): (r: bool)
      reads this, entities, components, components.Repr
      requires Valid() && e in issued && IsValid(e) && t < total
      ensures e in View() && (r <==> t in View()[e])
    {
      ViewAt(Abs(), e);
      CompsAt(Abs(), e);
      entities.Get(e.slot).mask[t]
    }

    /**
     * The lookup of getComponent: t's dense index in the descriptor the
     * record links to, and the handle list entry at that index. It is the
     * handle of the entity's component of type t.
     */
    function HandleOf(e: EntityHandle, t: nat): (h: Handle)
      reads this, entities, components, components.Repr
      requires Valid() && e in issued && IsValid(e) && t < total && HasComponent(e, t)
      ensures h == Placed(RecordOf(Abs(), e))[t]
      ensures components.Comp(t, h) == Holds(View()[e][t])
    {
      ViewAt(Abs(), e);
      CompsAt(Abs(), e);
      HandleAt(Abs(), e, t);
      var d := entities.Get(e.slot);
      d.handles[metadata[d.meta.value].dense[t]]
    }

    /** getComponent: the value of the entity's component of type t. */
    function GetComponent(e: EntityHandle, t: nat): (v: V)
      reads this, entities, components, components.Repr
      requires Valid() && e in issued && IsValid(e) && t < total && HasComponent(e, t)
      ensures v == View()[e][t]
    {
      components.Get(t, HandleOf(e, t))
    }

    /**
     * create(): adds an empty record to the pool, grows the generation table
     * to cover its slot (accommodateEntity) and returns a handle with the
     * slot's current generation. The handle was never returned before, the
     * new entity has no components, and no other entity changes.
     */
    method Create() returns (e: EntityHandle)
      requires Valid()
      modifies this, entities, components.Repr
      ensures Valid() && components.Repr == old(components.Repr)
      ensures e !in old(issued) && issued == old(issued) + {e}
      ensures View() == old(View())[e := map[]]
      ensures owner == old(owner) && components.contents == old(components.contents)
      ensures IsValid(e) && entities.IsLive(e.slot)
    {
      ghost var st := Abs();
      var s := entities.Add(EmptyRecord(total));
      var gens := Accommodate(generations, Id(s));
      e := EntityHandle(s, gens[Id(s)]);
      generations, issued := gens, issued + {e};
      components.Kept();
      forall g
        ensures SlotOf(entities.blocks, g) == if g == s then Holds(EmptyRecord(total)) else SlotOf(st.recs, g)
      {
        assert entities.SlotAt(g) == SlotOf(entities.blocks, g);
      }
      CreateStep(st, Abs(), s, e);
    }

    /**
     * instantiate / the ComponentInstantiator constructor: creates type t's
     * pool if it does not exist yet and adds v to it. The new component is
     * attached to no entity, the view is unchanged, and every component
     * instantiated earlier and not yet attached keeps its value.
     */
    method Instantiate(t: nat, v: V) returns (p: Pending)
      requires Valid() && t < total
      modifies components.Repr
      ensures Valid() && fresh(components.Repr - old(components.Repr))
      ensures p.id == t && !old(Loose(p)) && Loose(p) && components.Comp(t, p.handle) == Holds(v)
      ensures View() == old(View())
      ensures forall u, g :: u != t || g != p.handle ==> CompAt(components.contents, u, g) == CompAt(old(components.contents), u, g)
    {
      ghost var st := Abs();
      var h := components.AssignComponent(t, v);
      p := Pending(h, t);
      forall u, g
        ensures CompAt(components.contents, u, g) == if u == t && g == h then Holds(v) else CompAt(st.store, u, g)
      {
        assert components.Comp(u, g) == CompAt(components.contents, u, g);
      }
      InstantiateStep(st, Abs(), t, h, v);
    }

    /**
     * modifyComponent, followed by a write through the reference it returns:
     * the entity's component of type t becomes v and nothing else changes.
     */
    method ModifyComponent(e: EntityHandle, t: nat, v: V)
      requires Valid() && e in issued && IsValid(e) && t < total && HasComponent(e, t)
      modifies components.Repr
      ensures Valid() && components.Repr == old(components.Repr)
      ensures e in old(View())
      ensures View() == old(View())[e := Assigned(old(View())[e], t, v)]
    {
      ghost var st := Abs();
      var h := HandleOf(e, t);
      components.Set(t, h, v);
      ghost var st' := st.(store := components.contents);
      assert Abs() == st';
      forall u, g
        ensures CompAt(st'.store, u, g) == if u == t && g == h then Holds(v) else CompAt(st.store, u, g)
      {
        assert components.Comp(u, g) == CompAt(components.contents, u, g);
      }
      ModifyStep(st, st', e, t, h, v);
    }

    /**
     * The loop of destroyEntity: for every type id whose bit the record's
     * mask sets, destroys the component at the handle the record indexes for
     * it. Afterwards exactly the components the record places are vacated.
     */
    method DestroyComponents(d: EntityData)
      requires this !in components.Repr && components.Valid() && |d.mask| == total && Indexes(metadata, d)
      requires forall u :: u in Placed(d) <==> 0 <= u < |d.mask| && d.mask[u]
      requires forall u :: u in Placed(d) ==> components.Live(u, Placed(d)[u])
      modifies components.Repr
      ensures components.Valid() && components.Repr == old(components.Repr)
      ensures VacatedBelow(components.contents, old(components.contents), Placed(d), total)
    {
      ghost var p := Placed(d);
      var i := 0;
      while i < total
        invariant i <= total && components.Valid() && components.Repr == old(components.Repr)
        invariant VacatedBelow(components.contents, old(components.contents), p, i)
      {
        ghost var before := components.contents;
        if d.mask[i] {
          var h := d.handles[metadata[d.meta.value].dense[i]];
          assert CompAt(before, i, h) == old(components.Comp(i, h));
          components.Destroy(i, h);
        }
        VacateNext(old(components.contents), before, components.contents, p, i);
        i := i + 1;
      }
    }

    /**
     * The body of destroyEntity for a valid handle whose record is d: every
     * component the record places is destroyed, the record is disconnected
     * from its descriptor and releases its components, its slot is freed and
     * the slot's generation goes up by one.
     */
    method Dismantle(e: EntityHandle, d: EntityData, ghost st: State<V>)
      requires st == Abs() && this !in components.Repr && entities !in components.Repr && components.Valid()
      requires |d.mask| == total && Indexes(metadata, d)
      requires forall u :: u in Placed(d) <==> 0 <= u < |d.mask| && d.mask[u]
      requires forall u :: u in Placed(d) ==> components.Live(u, Placed(d)[u])
      requires entities.Valid() && entities.IsLive(e.slot) && Id(e.slot) < |generations|
      requires d.meta.Some? ==> d.meta.value in metadata
      modifies this, entities, components.Repr
      ensures components.Valid() && components.Repr == old(components.Repr) && entities.Valid()
      ensures Abs() == st.(recs := entities.blocks, store := components.contents,
                           gens := st.gens[Id(e.slot) := st.gens[Id(e.slot)] + 1],
                           table := Detach(st.table, d.meta), links := st.links - {e.slot},
                           owner := Disown(st.owner, e.slot))
      ensures VacatedBelow(components.contents, st.store, Placed(d), total)
      ensures forall g :: SlotOf(entities.blocks, g) == if g == e.slot then Vacated else SlotOf(st.recs, g)
    {
      DestroyComponents(d);
      label vacated:
      var id := Id(e.slot);
      metadata := Detach(metadata, d.meta);
      entities.Destroy(e.slot);
      generations := generations[id := generations[id] + 1];
      links, owner := links - {e.slot}, Disown(owner, e.slot);
      components.Kept@vacated();
      forall g
        ensures SlotOf(entities.blocks, g) == if g == e.slot then Vacated else SlotOf(st.recs, g)
      {
        assert entities.SlotAt(g) == SlotOf(entities.blocks, g);
      }
    }

    /**
     * destroyEntity with the record disconnected from its descriptor: a
     * handle that is no longer valid changes nothing; otherwise every
     * component of the entity is destroyed, the record slot is freed and the
     * slot's generation goes up, so the handle stops being valid and the
     * entity leaves the view while every other entity keeps its components.
     * Exactly the components the entity held are vacated and released; no
     * other component changes.
     */
    method DestroyEntity(e: EntityHandle)
      requires Valid() && e in issued
      modifies this, entities, components.Repr
      ensures Valid() && components.Repr == old(components.Repr)
      ensures !IsValid(e)
      ensures View() == old(View()) - {e}
      ensures old(IsValid(e)) ==>
                && Discarded(components.contents, old(components.contents), Owned(old(owner), e.slot))
                && owner == Disown(old(owner), e.slot)
      ensures !old(IsValid(e)) ==> components.contents == old(components.contents) && owner == old(owner)
    {
      if !IsValid(e) {
        assert View() - {e} == View();
        return;
      }
      ghost var st := Abs();
      CompsAt(st, e);
      IndexesAt(st, e);
      var d := entities.Get(e.slot);
      assert d == RecordOf(st, e);
      assert d.meta.Some? ==> e.slot in links && links[e.slot] == d.mask;
      Dismantle(e, d, st);
      DestroyStep(st, Abs(), e);
      DestroyDiscards(st, components.contents, e);
    }

    /**
     * The body of removeComponent for a type t the record d places: the
     * component is destroyed in its pool, its handle is erased from the list
     * at t's dense index, and the record is disconnected, loses bit t and is
     * connected to the new mask's descriptor.
     */
    method Strip(e: EntityHandle, t: nat, d: EntityData, ghost st: State<V>)
      requires st == Abs() && this !in components.Repr && entities !in components.Repr && components.Valid()
      requires t in Placed(d) && t < |d.mask| && Rank(d.mask, t) < |d.handles|
      requires d.meta.Some? && d.meta.value in metadata && t in metadata[d.meta.value].dense
      requires metadata[d.meta.value].dense[t] == Rank(d.mask, t) && d.handles[Rank(d.mask, t)] == Placed(d)[t]
      requires components.Live(t, Placed(d)[t]) && entities.Valid() && entities.IsLive(e.slot)
      modifies this, entities, components.Repr
      ensures components.Valid() && components.Repr == old(components.Repr) && entities.Valid()
      ensures Abs() == st.(recs := entities.blocks, store := components.contents,
                           table := Attach(Detach(st.table, d.meta), d.mask[t := false]),
                           links := st.links[e.slot := d.mask[t := false]],
                           owner := Release(st.owner, CompRef(t, Placed(d)[t])))
      ensures forall u, g :: CompAt(components.contents, u, g) ==
                if u == t && g == Placed(d)[t] then Vacated else CompAt(st.store, u, g)
      ensures Discarded(components.contents, st.store, {CompRef(t, Placed(d)[t])})
      ensures forall g :: SlotOf(entities.blocks, g) == if g == e.slot then Holds(Without(d, t)) else SlotOf(st.recs, g)
    {
      var pos := metadata[d.meta.value].dense[t];
      var h := d.handles[pos];
      var mask := d.mask[t := false];
      var rec := EntityData(mask, Some(mask), d.handles[..pos] + d.handles[pos + 1..]);
      ErasedIsWithout(d, t, pos);
      Relink(e.slot, d.meta, rec, Release(owner, CompRef(t, h)));
      components.Kept();
      components.Destroy(t, h);
      DiscardedOne(components.contents, st.store, CompRef(t, h));
    }

    /**
     * The record rewrite of removeComponent and addComponent: disconnect
     * from the descriptor meta, connect to the descriptor of the new record's
     * mask, and store the new record in slot s; the components attached to
     * records become owner'. Nothing else changes.
     */
    method Relink(s: Handle, meta: Option<Mask>, rec: EntityData, ghost owner': map<CompRef, Handle>)
      requires entities.Valid() && entities.IsLive(s) && (meta.Some? ==> meta.value in metadata) && rec.meta == Some(rec.mask)
      modifies this, entities
      ensures entities.Valid()
      ensures metadata == Attach(Detach(old(metadata), meta), rec.mask) && links == old(links)[s := rec.mask]
      ensures forall g :: SlotOf(entities.blocks, g) == if g == s then Holds(rec) else SlotOf(old(entities.blocks), g)
      ensures generations == old(generations) && owner == owner' && issued == old(issued)
    {
      metadata := Detach(metadata, meta);
      metadata := Attach(metadata, rec.mask);
      entities.Set(s, rec);
      links, owner := links[s := rec.mask], owner';
      forall g
        ensures SlotOf(entities.blocks, g) == if g == s then Holds(rec) else SlotOf(old(entities.blocks), g)
      {
        assert entities.SlotAt(g) == SlotOf(entities.blocks, g);
      }
    }

    /**
     * removeComponent: when the entity has a component of type t, that
     * component is destroyed and the entity loses exactly it; otherwise
     * nothing changes. The handle stays valid and every other entity keeps
     * its components. The destroyed component is the one the entity held for
     * t, and it is released; no other component changes.
     */
    method RemoveComponent(e: EntityHandle, t: nat)
      requires Valid() && e in issued && IsValid(e) && t < total
      modifies this, entities, components.Repr
      ensures Valid() && components.Repr == old(components.Repr) && IsValid(e)
      ensures e in old(View()) && View() == old(View())[e := old(View())[e] - {t}]
      ensures old(HasComponent(e, t)) ==>
                && Discarded(components.contents, old(components.contents), {CompRef(t, old(HandleOf(e, t)))})
                && owner == old(owner) - {CompRef(t, old(HandleOf(e, t)))}
      ensures !old(HasComponent(e, t)) ==> components.contents == old(components.contents) && owner == old(owner)
    {
      ghost var st := Abs();
      ViewAt(st, e);
      if !HasComponent(e, t) {
        MapKeep(View(), e, t);
        return;
      }
      ghost var h := HandleOf(e, t);
      CompsAt(st, e);
      HandleAt(st, e, t);
      var d := entities.Get(e.slot);
      assert d == RecordOf(st, e) && h == Placed(d)[t];
      WithoutPlacement(d, t);
      assert e.slot in links && links[e.slot] == d.mask;
      Strip(e, t, d, st);
      RemoveStep(st, Abs(), e, t, d);
    }

    /**
     * The body of the corrected addComponent for the record d of a valid
     * handle: the pack is unpacked (UnpackFresh), the kept handles are
     * placed and the mask gains the kept types, and the record is relinked
     * to the new mask's descriptor and becomes the owner of the kept
     * components.
     */
    method Graft(e: EntityHandle, d: EntityData, pack: seq<Pending>, ghost st: State<V>)
      requires st == Abs() && this !in components.Repr && entities !in components.Repr && components.Valid()
      requires Inv(st) && Current(st, e) && d == RecordOf(st, e) && IdsIn(pack, st.total)
      requires forall i :: 0 <= i < |pack| ==> CompAt(st.store, pack[i].id, pack[i].handle).Holds?
      requires forall i :: 0 <= i < |pack| ==> CompRef(pack[i].id, pack[i].handle) !in st.owner
      requires entities.Valid() && entities.IsLive(e.slot)
      modifies this, entities
      ensures components.Valid() && entities.Valid() && Inv(Abs()) && Current(Abs(), e)
      ensures e in ViewOf(st) && e in ViewOf(Abs()) && ViewOf(Abs()) == ViewOf(st)[e := ViewOf(Abs())[e]]
      ensures ViewOf(Abs())[e].Keys == ViewOf(st)[e].Keys + Types(pack)
      ensures forall t :: t in ViewOf(st)[e] ==> ViewOf(Abs())[e][t] == ViewOf(st)[e][t]
      ensures forall i :: 0 <= i < |pack| && pack[i].id !in ViewOf(st)[e] && FirstOf(pack, i) ==>
                CompAt(st.store, pack[i].id, pack[i].handle) == Holds(ViewOf(Abs())[e][pack[i].id])
      ensures owner == Adopt(st.owner, UnpackFresh(d.mask, pack), e.slot)
    {
      var kept := UnpackFresh(d.mask, pack);
      AddReady(st, e, d, pack, kept);
      var mask, list := Place(d, kept);
      var d' := EntityData(mask, Some(mask), list);
      Relink(e.slot, d.meta, d', Adopt(owner, kept, e.slot));
      components.Kept();
      AddComponentStep(st, Abs(), e, pack, d, d');
    }

    /**
     * addComponent as written in what it does with the pack, here with the
     * unpacker its comment describes: the components of the pack whose type
     * the entity lacks are attached, the first one for each type, and placed
     * so that the handle list stays in type order. The entity then has every
     * type it had or the pack names, its existing components keep their
     * values, each new type holds the value of the first pack entry naming
     * it, and no other entity changes. No component is destroyed: the
     * leftovers of the pack stay live and attached to nothing, so they leak.
     */
    method AttachPack(e: EntityHandle, pack: seq<Pending>)
      requires Valid() && e in issued && IsValid(e) && IdsIn(pack, total) && DistinctPack(pack)
      requires forall i :: 0 <= i < |pack| ==> Loose(pack[i])
      modifies this, entities
      ensures Valid() && IsValid(e) && e in old(View()) && e in View()
      ensures View() == old(View())[e := View()[e]]
      ensures View()[e].Keys == old(View())[e].Keys + Types(pack)
      ensures components.contents == old(components.contents) && components.Repr == old(components.Repr)
      ensures forall t :: t in old(View())[e] ==> View()[e][t] == old(View())[e][t]
      ensures forall i :: 0 <= i < |pack| && pack[i].id !in old(View())[e] && FirstOf(pack, i) ==>
                && components.Comp(pack[i].id, pack[i].handle) == Holds(View()[e][pack[i].id])
                && CompRef(pack[i].id, pack[i].handle) in owner && owner[CompRef(pack[i].id, pack[i].handle)] == e.slot
      ensures forall c :: c in Leftovers(old(View())[e].Keys, pack) ==> components.Live(c.id, c.handle) && c !in owner
    {
      ghost var st := Abs();
      var d := entities.Get(e.slot);
      assert d == RecordOf(st, e);
      LeftoversLoose(st, e, d, pack);
      Graft(e, d, pack, st);
    }

    /**
     * destroy of a component no entity holds: its slot is vacated, and no
     * entity and no other component changes.
     */
    method DiscardOne(p: Pending)
      requires Valid() && Loose(p)
      modifies components.Repr
      ensures Valid() && components.Repr == old(components.Repr) && View() == old(View()) && owner == old(owner)
      ensures forall u, g :: CompAt(components.contents, u, g) ==
                if u == p.id && g == p.handle then Vacated else CompAt(old(components.contents), u, g)
    {
      ghost var st := Abs();
      components.Destroy(p.id, p.handle);
      DiscardStep(st, Abs(), p.id, p.handle);
    }

    /**
     * The step the corrected addComponent adds after the attachment: every
     * leftover of the pack (its type was in mask, or an earlier entry names
     * it) is destroyed, in pack order. No entity changes.
     */
    method Discard(pack: seq<Pending>, mask: Mask, ghost has: set<nat>)
      requires Valid() && IdsIn(pack, |mask|) && DistinctPack(pack)
      requires forall i :: 0 <= i < |pack| ==> (mask[pack[i].id] <==> pack[i].id in has)
      requires forall c :: c in Leftovers(has, pack) ==> components.Live(c.id, c.handle) && c !in owner
      modifies components.Repr
      ensures Valid() && components.Repr == old(components.Repr) && View() == old(View()) && owner == old(owner)
      ensures Discarded(components.contents, old(components.contents), Leftovers(has, pack))
    {
      ghost var start := components.contents;
      var i := 0;
      while i < |pack|
        invariant i <= |pack| && Valid() && components.Repr == old(components.Repr)
        invariant View() == old(View()) && owner == old(owner)
        invariant Discarded(components.contents, start, Leftovers(has, pack[..i]))
      {
        ghost var before := components.contents;
        LeftoverUntouched(mask, has, pack, i, start, before);
        if Skipped(mask, pack, i) {
          DiscardOne(pack[i]);
        }
        DiscardLoopStep(mask, has, pack, i, start, before, components.contents);
        i := i + 1;
      }
      assert pack[..i] == pack;
    }

    /**
     * addComponent with the unpacker its comment describes and without the
     * leak: the pack is attached as AttachPack does, then every leftover of
     * the pack is destroyed. Besides what AttachPack promises for the
     * entity, every attached component belongs to it, every leftover is
     * vacated, and no other component changes.
     */
    method AddComponent(e: EntityHandle, pack: seq<Pending>)
      requires Valid() && e in issued && IsValid(e) && IdsIn(pack, total) && DistinctPack(pack)
      requires forall i :: 0 <= i < |pack| ==> Loose(pack[i])
      modifies this, entities, components.Repr
      ensures Valid() && IsValid(e) && e in old(View()) && e in View()
      ensures View() == old(View())[e := View()[e]]
      ensures View()[e].Keys == old(View())[e].Keys + Types(pack)
      ensures components.Repr == old(components.Repr)
      ensures forall t :: t in old(View())[e] ==> View()[e][t] == old(View())[e][t]
      ensures forall i :: 0 <= i < |pack| && pack[i].id !in old(View())[e] && FirstOf(pack, i) ==>
                && old(components.Comp(pack[i].id, pack[i].handle)) == Holds(View()[e][pack[i].id])
                && CompRef(pack[i].id, pack[i].handle) in owner && owner[CompRef(pack[i].id, pack[i].handle)] == e.slot
      ensures Discarded(components.contents, old(components.contents), Leftovers(old(View())[e].Keys, pack))
    {
      ghost var st := Abs();
      var d := entities.Get(e.slot);
      assert d == RecordOf(st, e);
      ViewAt(st, e);
      CompsAt(st, e);
      AttachPack(e, pack);
      Discard(pack, d.mask, ViewOf(st)[e].Keys);
    }

    /**
     * create(ci...): an empty entity, then addComponent with the given
     * instantiated components. The new entity was never returned before, it
     * has exactly the pack's types, each holding the value of the first pack
     * entry naming it, and no other entity changes. Those first entries are
     * attached to the new entity; every later entry repeating a type is
     * destroyed, and no other component changes.
     */
    method CreateWith(pack: seq<Pending>) returns (e: EntityHandle)
      requires Valid() && IdsIn(pack, total) && DistinctPack(pack)
      requires forall i :: 0 <= i < |pack| ==> Loose(pack[i])
      modifies this, entities, components.Repr
      ensures Valid() && components.Repr == old(components.Repr)
      ensures e !in old(View()) && e in View() && View() == old(View())[e := View()[e]]
      ensures View()[e].Keys == Types(pack)
      ensures forall i :: 0 <= i < |pack| && FirstOf(pack, i) ==>
                && old(components.Comp(pack[i].id, pack[i].handle)) == Holds(View()[e][pack[i].id])
                && CompRef(pack[i].id, pack[i].handle) in owner && owner[CompRef(pack[i].id, pack[i].handle)] == e.slot
      ensures Discarded(components.contents, old(components.contents), Leftovers({}, pack))
    {
      ghost var c0, o0 := components.contents, owner;
      assert forall i :: 0 <= i < |pack| ==> CompAt(c0, pack[i].id, pack[i].handle).Holds? && CompRef(pack[i].id, pack[i].handle) !in o0;
      e := Create();
      forall i | 0 <= i < |pack| ensures Loose(pack[i]) {
        assert components.Comp(pack[i].id, pack[i].handle) == CompAt(c0, pack[i].id, pack[i].handle);
      }
      ghost var v1 := View();
      AddComponent(e, pack);
      ghost var v2 := View();
      PutOnEmpty(old(View()), v1, v2, e, Types(pack));
      assert v1[e].Keys == {};
    }

    /**
     * The instantiations of create<C...>() and of each entity of the batch
     * create: one component per proto, in order. Every one is new, unattached
     * and holds its proto's value; they are distinct, no other component
     * changes and no entity changes.
     */
    method InstantiateAll(protos: seq<Proto<V>>) returns (pack: seq<Pending>)
      requires Valid() && forall i :: 0 <= i < |protos| ==> protos[i].id < total
      modifies components.Repr
      ensures Valid() && fresh(components.Repr - old(components.Repr)) && View() == old(View())
      ensures |pack| == |protos| && IdsIn(pack, total) && DistinctPack(pack)
      ensures forall i :: 0 <= i < |pack| ==> pack[i].id == protos[i].id && Loose(pack[i])
      ensures forall i :: 0 <= i < |pack| ==> components.Comp(pack[i].id, pack[i].handle) == Holds(protos[i].value)
      ensures forall u, g :: CompRef(u, g) !in Refs(pack) ==> CompAt(components.contents, u, g) == CompAt(old(components.contents), u, g)
    {
      pack := [];
      while |pack| < |protos|
        invariant Valid() && fresh(components.Repr - old(components.Repr)) && View() == old(View())
        invariant |pack| <= |protos| && Instantiated(components.contents, owner, pack, protos)
        invariant DistinctPack(pack)
        invariant forall u, g :: CompRef(u, g) !in Refs(pack) ==> CompAt(components.contents, u, g) == CompAt(old(components.contents), u, g)
      {
        ghost var c := components.contents;
        var p := Instantiate(protos[|pack|].id, protos[|pack|].value);
        InstantiatedNext(c, components.contents, owner, pack, protos, p);
        RefsSnoc(pack, p);
        pack := pack + [p];
      }
      forall i | 0 <= i < |pack| ensures Loose(pack[i]) {
        assert components.Comp(pack[i].id, pack[i].handle) == Holds(protos[i].value);
      }
    }

    /**
     * create<C...>(): instantiates the protos and creates an entity with
     * them. The new entity holds FirstValues(protos) and no other entity
     * changes. Nothing leaks: every component live now that was not live
     * before is attached to the new entity.
     */
    method CreateFrom(protos: seq<Proto<V>>) returns (e: EntityHandle)
      requires Valid() && forall i :: 0 <= i < |protos| ==> protos[i].id < total
      modifies this, entities, components.Repr
      ensures Valid() && fresh(components.Repr - old(components.Repr))
      ensures e !in old(View()) && e in View() && View() == old(View())[e := View()[e]]
      ensures View()[e] == FirstValues(protos)
      ensures forall u, g :: CompAt(components.contents, u, g).Holds? && !CompAt(old(components.contents), u, g).Holds? ==>
                CompRef(u, g) in owner && owner[CompRef(u, g)] == e.slot
    {
      ghost var c0 := components.contents;
      var pack := InstantiateAll(protos);
      ghost var before := components.contents;
      e := CreateWith(pack);
      forall i | 0 <= i < |pack| && FirstOf(pack, i)
        ensures pack[i].id in View()[e] && View()[e][pack[i].id] == protos[i].value
      {
        assert pack[i].id in Types(pack);
        assert CompAt(before, pack[i].id, pack[i].handle) == Holds(protos[i].value);
      }
      BuiltFromPack(View()[e], pack, protos);
      NoLeak(c0, before, components.contents, owner, pack, e.slot);
    }

    /** One more entity built from protos, appended to a batch. */
    method BuildNext(protos: seq<Proto<V>>, made: seq<EntityHandle>, ghost v0: map<EntityHandle, map<nat, V>>)
      returns (made': seq<EntityHandle>)
      requires Valid() && forall i :: 0 <= i < |protos| ==> protos[i].id < total
      requires Batch(v0, View(), made, FirstValues(protos))
      modifies this, entities, components.Repr
      ensures Valid() && fresh(components.Repr - old(components.Repr))
      ensures |made'| == |made| + 1 && Batch(v0, View(), made', FirstValues(protos))
    {
      ghost var v := View();
      var e := CreateFrom(protos);
      GrowView(v0, v, View(), made, e, FirstValues(protos));
      made' := made + [e];
    }

    /**
     * count entities built from protos, in creation order: each is new and
     * holds FirstValues(protos), and the entities that existed keep their
     * components. Each entity is built with the corrected placement; the
     * lists the batch loop writes itself agree with it for the packs
     * BatchFirstPlacement and BatchLoopPlacement describe.
     */
    method CreateMany(count: nat, protos: seq<Proto<V>>) returns (made: seq<EntityHandle>)
      requires Valid() && forall i :: 0 <= i < |protos| ==> protos[i].id < total
      modifies this, entities, components.Repr
      ensures Valid() && fresh(components.Repr - old(components.Repr))
      ensures |made| == count && Batch(old(View()), View(), made, FirstValues(protos))
    {
      made := [];
      ghost var v0 := View();
      while |made| < count
        invariant Valid() && fresh(components.Repr - old(components.Repr)) && v0 == old(View())
        invariant |made| <= count && Batch(v0, View(), made, FirstValues(protos))
      {
        made := BuildNext(protos, made, v0);
      }
    }

    /**
     * create(n, f) as written: one entity is built before the loop and n
     * more inside it, so n + 1 entities are made (and f is called n + 1
     * times) although n were asked for. The entities are built as
     * CreateMany builds them.
     */
    method CreateBatch(n: nat, protos: seq<Proto<V>>) returns (made: seq<EntityHandle>)
      requires Valid() && forall i :: 0 <= i < |protos| ==> protos[i].id < total
      modifies this, entities, components.Repr
      ensures Valid() && fresh(components.Repr - old(components.Repr))
      ensures |made| == if n == 0 then 0 else n + 1
      ensures Batch(old(View()), View(), made, FirstValues(protos))
    {
      made := [];
      if n > 0 {
        made := CreateMany(n + 1, protos);
      }
    }

    /**
     * The batch create as documented: exactly n new entities, each holding
     * FirstValues(protos), emitted in creation order; the entities that
     * existed keep their components.
     */
    method CreateBatchExact(n: nat, protos: seq<Proto<V>>) returns (made: seq<EntityHandle>)
      requires Valid() && forall i :: 0 <= i < |protos| ==> protos[i].id < total
      modifies this, entities, components.Repr
      ensures Valid() && fresh(components.Repr - old(components.Repr))
      ensures |made| == n && Batch(old(View()), View(), made, FirstValues(protos))
    {
      made := CreateMany(n, protos);
    }

    /**
     * ComponentChecker<C...>::check(e): has<C1>() and then, for more than
     * one type, the check of the remaining types. It holds exactly when the
     * entity has a component of every requested type.
     */
    function CheckComponents(e: EntityHandle, ts: seq<nat>): (r: bool)
      reads this, entities, components, components.Repr
      requires Valid() && e in issued && IsValid(e) && |ts| >= 1 && forall i :: 0 <= i < |ts| ==> ts[i] < total
      ensures e in View() && (r <==> HasAll(View()[e], ts))
      decreases |ts|
    {
      HasAllCons(View()[e], ts);
      BelowTail(ts, total);
      if |ts| == 1 then HasComponent(e, ts[0])
      else HasComponent(e, ts[0]) && CheckComponents(e, ts[1..])
    }

    /** The modify<C>()... references iterate passes: the entity's components of the requested types, in order. */
    function ValuesOf(e: EntityHandle, ts: seq<nat>): (vs: seq<V>)
      reads this, entities, components, components.Repr
      requires Valid() && e in issued && IsValid(e) && forall i :: 0 <= i < |ts| ==> ts[i] < total
      requires HasAll(View()[e], ts)
      ensures vs == Gather(View()[e], ts)
      decreases |ts|
    {
      if ts == [] then [] else HasAllCons(View()[e], ts); BelowTail(ts, total); [GetComponent(e, ts[0])] + ValuesOf(e, ts[1..])
    }

    /**
     * The callback's writes through the references iterate passed: the
     * entity's component of type ts[k] becomes ws[k], in order, and no other
     * entity changes.
     */
    method WriteBack(e: EntityHandle, ts: seq<nat>, ws: seq<V>)
      requires Valid() && e in issued && IsValid(e) && forall i :: 0 <= i < |ts| ==> ts[i] < total
      requires HasAll(View()[e], ts)
      modifies components.Repr
      ensures Valid() && components.Repr == old(components.Repr)
      ensures e in old(View()) && View() == old(View())[e := Writes(old(View())[e], ts, ws)]
      decreases |ts|
    {
      if ts != [] && ws != [] {
        ghost var v0 := View();
        ModifyComponent(e, ts[0], ws[0]);
        ghost var v1 := View();
        WriteNext(v0, v1, e, ts, ws);
        WriteBack(e, ts[1..], ws[1..]);
        WriteRest(v0, v1, View(), e, ts, ws);
      } else {
        WriteNone(View(), e, ts, ws);
      }
    }

    /**
     * The body of iterate for one entity of the list: check it has every
     * requested type, and if so run the callback on its components and write
     * back what the callback leaves. The new view is Visit of the old one.
     */
    method VisitOne(e: EntityHandle, ts: seq<nat>, f: (EntityHandle, seq<V>) -> seq<V>) returns (hit: bool)
      requires Valid() && e in issued && IsValid(e) && |ts| >= 1 && forall i :: 0 <= i < |ts| ==> ts[i] < total
      modifies components.Repr
      ensures Valid() && components.Repr == old(components.Repr)
      ensures hit == (e in old(View()) && HasAll(old(View())[e], ts))
      ensures View() == Visit(old(View()), e, ts, f)
    {
      ghost var v := View();
      hit := CheckComponents(e, ts);
      if hit {
        var ws := f(e, ValuesOf(e, ts));
        WriteBack(e, ts, ws);
        VisitApplies(v, e, ts, f, ws);
      } else {
        VisitSkips(v, e, ts, f);
      }
    }

    /**
     * Utility::iterate<C...>(entities, f): in list order, the callback runs
     * for every entity that has all the requested types and writes through
     * the references it receives. The new view is Run of the old one, and the
     * callback ran for exactly Visits, in order.
     */
    method Iterate(es: seq<EntityHandle>, ts: seq<nat>, f: (EntityHandle, seq<V>) -> seq<V>) returns (visited: seq<EntityHandle>)
      requires Valid() && |ts| >= 1 && forall i :: 0 <= i < |ts| ==> ts[i] < total
      requires forall j :: 0 <= j < |es| ==> es[j] in issued && IsValid(es[j])
      modifies components.Repr
      ensures Valid() && components.Repr == old(components.Repr)
      ensures View() == Run(old(View()), es, ts, f) && visited == Visits(old(View()), es, ts)
    {
      visited := [];
      ghost var v0 := View();
      ghost var v := v0;
      RunFromStart(v0, es, ts, f);
      var i := 0;
      while i < |es|
        invariant Valid() && components.Repr == old(components.Repr) && v == View()
        invariant RunFrom(v0, v, es, i, ts, f, visited)
      {
        ghost var before := visited;
        var hit := VisitOne(es[i], ts, f);
        if hit {
          visited := visited + [es[i]];
        }
        IterateStep(v0, v, es, i, ts, f, hit, before, visited);
        v := Visit(v, es[i], ts, f);
        i := i + 1;
      }
      RunFromEnd(v0, v, es, ts, f, visited);
    }
  }
}
