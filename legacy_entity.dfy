/**
 * The entity of Entity.h, the earlier object-per-entity version of the
 * store: a component mask, a link to a descriptor (EntityData) for that
 * mask, and the handles of its components in the order add appended them.
 * Each instantiation add<C, PARAM...> keeps its own function-local static
 * descriptor table, filled lazily and never shrunk, so two entities with the
 * same mask share a descriptor only when the same instantiation connected
 * them; here the tables form an object of their own.
 */
module LegacyEntities {
  import opened Wrappers
  import opened Bitmask
  import opened ChunkedArrays
  import opened Archetypes
  import opened ComponentManagers
  import opened LegacyMasks

  /** The sEntityData tables of Entity::add, one per instantiation, each keyed by mask. */
  class Descriptors {
    var tables: map<Site, Table>

    constructor ()
      ensures tables == map[]
    {
      tables := map[];
    }
  }

  /**
   * The manager's contents after one component is assigned: slot h of type
   * t's pool was not live and now holds v, and no other slot changed.
   */
  ghost predicate AssignedAt<V>(before: map<nat, seq<Block<V>>>, after: map<nat, seq<Block<V>>>, t: nat, h: Handle, v: V)
  {
    && !CompAt(before, t, h).Holds? && CompAt(after, t, h) == Holds(v)
    && forall u, g :: u != t || g != h ==> CompAt(after, u, g) == CompAt(before, u, g)
  }

  /** Entity: the component mask, the descriptor link and the handle list. */
  class Entity<V> {
    /** COMP_TOTAL */
    const total: nat
    /** mComponentMask */
    var mask: Mask
    /** mMetaData: none until the first add, then the entry for the mask in the table of the last add. */
    var meta: Option<Link>
    /** mComponentHandles */
    var handles: seq<Handle>
    /** The type ids whose handles add appended, in order. */
    ghost var added: seq<nat>
    /** mComponentManager */
    const manager: ComponentManager<V>
    /** The descriptor tables add connects in. */
    const descriptors: Descriptors

    /** The entity's own fields agree with each other and with the descriptor table. */
    ghost predicate Shape()
      reads this, descriptors
    {
      Fields(mask, meta, handles, added, descriptors.tables, total)
    }

    /** Every handle of the list designates a component of its type. */
    ghost predicate Backed()
      reads this, manager
    {
      AllLive(manager.contents, added, handles)
    }

    /** The manager shares the entity's type count and none of its objects is the entity's. */
    ghost predicate Apart()
      reads this, manager
    {
      manager.total == total && this !in manager.Repr && descriptors !in manager.Repr
    }

    ghost predicate Valid()
      reads this, descriptors, manager, manager.Repr
    {
      manager.Valid() && Apart() && Shape() && Backed()
    }

    /** Entity::create: a new entity with no components and no descriptor. */
    constructor (manager: ComponentManager<V>, descriptors: Descriptors)
      requires manager.Valid() && descriptors !in manager.Repr && TablesOk(descriptors.tables)
      ensures Valid() && this.manager == manager && this.descriptors == descriptors
      ensures mask == EmptyMask(manager.total) && meta == None && handles == [] && added == []
    {
      total := manager.total;
      mask := EmptyMask(manager.total);
      meta := None;
      handles := [];
      added := [];
      this.manager := manager;
      this.descriptors := descriptors;
      new;
      EmptyMaskHasNoBits(manager.total, manager.total);
    }

    /** has<C>(): a single bit test, true exactly for the types added. */
    function Has(t: nat): (r: bool)
      reads this, descriptors, manager, manager.Repr
      requires Valid() && t < total
      ensures r <==> t in added
    {
      MaskOfBits(added, total);
      mask[t]
    }

    /**
     * The handle get<C>() and modify<C>() use: the list entry at the dense
     * index the descriptor gives type t. It is t's own handle when the types
     * were added in ascending id order.
     */
    function HandleFor(t: nat): (h: Handle)
      reads this, descriptors, manager, manager.Repr
      requires Valid() && t < total && Has(t)
      ensures h in handles
      ensures IncreasingIds(added) ==> forall k :: 0 <= k < |added| && added[k] == t ==> h == handles[k]
    {
      MaskOfBits(added, total);
      RankMono(mask, t, |mask|);
      RankIsAddOrder(mask, added);
      handles[descriptors.tables[meta.value.site][mask].dense[t]]
    }

    /**
     * get<C>(): the component in type t's pool at HandleFor(t). The caller
     * must make sure that slot holds a component; with ascending adds it is
     * t's own component.
     */
    function Get(t: nat): (v: V)
      reads this, descriptors, manager, manager.Repr
      requires Valid() && t < total && Has(t) && manager.Live(t, HandleFor(t))
      ensures manager.Comp(t, HandleFor(t)) == Holds(v)
      ensures IncreasingIds(added) ==> forall k :: 0 <= k < |added| && added[k] == t ==> manager.Comp(t, handles[k]) == Holds(v)
    {
      manager.Get(t, HandleFor(t))
    }

    /**
     * add<C, PARAM...>(v), where C has id t and args identifies PARAM...:
     * nothing when the entity already has type t. Otherwise the bit is set,
     * the descriptor for the new mask is found or created in this
     * instantiation's table and its count goes up (the old descriptor's count
     * is left as it was), the component is assigned, and its handle is
     * appended to the list.
     */
    method Add(t: nat, args: nat, v: V) returns (ok: bool)
      requires Valid() && t < total
      modifies this, descriptors, manager.Repr
      ensures Valid() && fresh(manager.Repr - old(manager.Repr))
      ensures ok == !old(mask[t])
      ensures !ok ==> mask == old(mask) && meta == old(meta) && handles == old(handles) && added == old(added)
      ensures !ok ==> descriptors.tables == old(descriptors.tables) && manager.contents == old(manager.contents)
      ensures ok ==> mask == old(mask)[t := true] && meta == Some(Link(Site(t, args), mask)) && added == old(added) + [t]
      ensures ok ==> descriptors.tables == Connected(old(descriptors.tables), Site(t, args), mask)
      ensures ok ==> |handles| == old(|handles|) + 1 && handles[..old(|handles|)] == old(handles)
      ensures ok ==> var h := handles[old(|handles|)];
                     && !old(manager.Live(t, h)) && manager.Comp(t, h) == Holds(v)
                     && forall u, g :: u != t || g != h ==> manager.Comp(u, g) == old(manager.Comp(u, g))
      ensures ok && t !in old(manager.pools) ==> handles[old(|handles|)] == Handle(0, 0)
    {
      if mask[t] {
        return false;
      }
      ok := true;
      Extend(Site(t, args), v);
    }

    /**
     * The part of add that runs when the entity lacks type t. The component
     * is assigned before the entity records it; the two steps touch disjoint
     * state, so the end state is the one add reaches.
     */
    method Extend(s: Site, v: V)
      requires Valid() && s.id < total && !mask[s.id]
      modifies this, descriptors, manager.Repr
      ensures Valid() && fresh(manager.Repr - old(manager.Repr))
      ensures mask == old(mask)[s.id := true] && meta == Some(Link(s, mask)) && added == old(added) + [s.id]
      ensures descriptors.tables == Connected(old(descriptors.tables), s, mask)
      ensures |handles| == old(|handles|) + 1 && handles[..old(|handles|)] == old(handles)
      ensures AssignedAt(old(manager.contents), manager.contents, s.id, handles[old(|handles|)], v)
      ensures s.id !in old(manager.pools) ==> handles[old(|handles|)] == Handle(0, 0)
    {
      var h := AssignTracked(s.id, v);
      ghost var stored := manager.contents;
      assert this !in manager.Repr && descriptors !in manager.Repr;
      label Assigned:
      Record(s, h);
      manager.Kept@Assigned();
      assert manager.contents == stored;
      assert Backed();
    }

    /**
     * The manager's side of add: the component is assigned to type t's pool,
     * and the entity's handles, with the new one appended, all stay live.
     */
    method AssignTracked(t: nat, v: V) returns (h: Handle)
      requires Valid() && t < total
      modifies manager.Repr
      ensures manager.Valid() && Apart() && Shape() && fresh(manager.Repr - old(manager.Repr))
      ensures AllLive(manager.contents, added + [t], handles + [h])
      ensures AssignedAt(old(manager.contents), manager.contents, t, h, v)
      ensures t !in old(manager.pools) ==> h == Handle(0, 0)
    {
      ghost var c0 := manager.contents;
      h := manager.AssignComponent(t, v);
      forall u, g | u != t || g != h
        ensures CompAt(manager.contents, u, g) == CompAt(c0, u, g)
      {
        assert manager.Comp(u, g) == CompAt(manager.contents, u, g);
      }
      AllLiveAppend(c0, manager.contents, added, handles, t, h);
    }

    /**
     * The entity's side of add in the instantiation s: the bit of type s.id
     * is set, the entity connects to the descriptor for its new mask in s's
     * table, and the handle is appended.
     */
    method Record(s: Site, h: Handle)
      requires Shape() && s.id < total && !mask[s.id]
      modifies this`mask, this`meta, this`handles, this`added, descriptors
      ensures Shape()
      ensures mask == old(mask)[s.id := true] && meta == Some(Link(s, mask)) && added == old(added) + [s.id]
      ensures handles == old(handles) + [h] && descriptors.tables == Connected(old(descriptors.tables), s, mask)
    {
      FieldsAdd(mask, meta, handles, added, descriptors.tables, total, s, h);
      mask := mask[s.id := true];
      Connect(s);
      handles := handles + [h];
      added := added + [s.id];
    }

    /**
     * The connect step of add in the instantiation s: the descriptor for the
     * current mask in s's own static table, built by the EntityData
     * constructor on first use, gains one sharer, and the entity links to
     * it. The other instantiations' tables are not consulted.
     */
    method Connect(s: Site)
      modifies this`meta, descriptors
      ensures meta == Some(Link(s, mask))
      ensures descriptors.tables == Connected(old(descriptors.tables), s, mask)
    {
      var table := if s in descriptors.tables then descriptors.tables[s] else map[];
      ghost var before := table;
      if mask !in table {
        var d := NewMetaData(mask);
        table := table[mask := d];
      }
      table := table[mask := table[mask].(sharedCount := table[mask].sharedCount + 1)];
      assert table == Attach(before, mask);
      descriptors.tables := descriptors.tables[s := table];
      meta := Some(Link(s, mask));
    }

    /** The write through the reference modify<C>() returns: the component at HandleFor(t) becomes v. */
    method Modify(t: nat, v: V)
      requires Valid() && t < total && Has(t) && manager.Live(t, HandleFor(t))
      modifies manager.Repr
      ensures Valid() && unchanged(this) && manager.Repr == old(manager.Repr)
      ensures manager.Comp(t, old(HandleFor(t))) == Holds(v)
      ensures forall u, g :: u != t || g != old(HandleFor(t)) ==> manager.Comp(u, g) == old(manager.Comp(u, g))
    {
      var h := HandleFor(t);
      ghost var before := manager.contents;
      manager.Set(t, h, v);
      forall u, g | u != t || g != h
        ensures CompAt(manager.contents, u, g) == CompAt(before, u, g)
      {
        assert manager.Comp(u, g) == CompAt(manager.contents, u, g);
      }
      AllLiveOverwrite(before, manager.contents, added, handles, t, h);
    }
  }

  /**
   * A new entity of COMP_TOTAL = 2 whose manager already holds one
   * component, of type 0, at (0, 0), and has no pool for type 1.
   */
  method EntityBesidePrior() returns (e: Entity<int>)
    ensures e.Valid() && fresh(e) && fresh(e.descriptors) && fresh(e.manager.Repr)
    ensures e.total == 2 && e.added == [] && e.handles == [] && e.mask == [false, false]
    ensures 1 !in e.manager.pools && e.manager.Live(0, Handle(0, 0))
    ensures forall g :: e.manager.Comp(1, g) == Unused
  {
    var manager := new ComponentManager<int>(2);
    var prior := manager.AssignComponent(0, 7);
    var descriptors := new Descriptors();
    e := new Entity(manager, descriptors);
  }

  /**
   * An entity of COMP_TOTAL = 2 that was given type 1 by add while its
   * manager already held one component, of type 0, at (0, 0). Type 1's pool
   * was new, so the entity's type-1 handle is (0, 0) too.
   */
  method EntityWithTypeOne() returns (e: Entity<int>)
    ensures e.Valid() && fresh(e) && fresh(e.descriptors) && fresh(e.manager.Repr)
    ensures e.total == 2 && e.added == [1] && e.handles == [Handle(0, 0)] && e.mask == [false, true]
    ensures e.manager.Live(0, Handle(0, 0))
    ensures forall g :: g != Handle(0, 0) ==> e.manager.Comp(1, g) == Unused
  {
    e := EntityBesidePrior();
    var added := e.Add(1, 0, 10);
  }

  /**
   * Descending adds on a real entity: after EntityWithTypeOne, add of type 0
   * leaves the list as (type 1's handle (0, 0), type 0's handle). The
   * lookup get<1>() uses reads position 1, the dense index of type 1, and so
   * finds type 0's handle: not the entity's own type-1 handle, and no
   * type-1 component lives there.
   */
  method DescendingAddsScenario() returns (own: Handle, found: Handle, ghost foundLive: bool)
    ensures own == Handle(0, 0) && found != own && !foundLive
  {
    var e := EntityWithTypeOne();
    own := e.handles[0];
    var added := e.Add(0, 0, 20);
    assert e.mask == [true, true] && e.meta.value.mask == e.mask;
    DescendingAddsMisplaceGet();
    found := e.HandleFor(1);
    assert found == e.handles[1];
    foundLive := e.manager.Live(1, found);
  }


  /** An entity of COMP_TOTAL = 2 given type 0 by add<0>, with a fresh manager and fresh, otherwise empty, tables. */
  method FirstAddsZero() returns (x: Entity<int>)
    ensures x.Valid() && fresh(x) && fresh(x.descriptors) && fresh(x.manager.Repr)
    ensures x.total == 2 && x.mask == [true, false]
    ensures Site(1, 0) !in x.descriptors.tables && [true, true] !in TableOf(x.descriptors.tables, Site(0, 0))
  {
    var manager := new ComponentManager<int>(2);
    var descriptors := new Descriptors();
    x := new Entity(manager, descriptors);
    var ok := x.Add(0, 0, 1);
    assert [true, false] != [true, true];
  }

  /**
   * FirstAddsZero after add<1>: x is linked to the descriptor for {0, 1} in
   * add<1>'s table, the only sharer of it, and add<0>'s table has no
   * descriptor for {0, 1}.
   */
  method FirstAddsAscending() returns (x: Entity<int>)
    ensures x.Valid() && fresh(x) && fresh(x.descriptors) && fresh(x.manager.Repr)
    ensures x.total == 2 && x.meta == Some(Link(Site(1, 0), [true, true]))
    ensures var tables := x.descriptors.tables;
            && Site(1, 0) in tables && [true, true] in tables[Site(1, 0)]
            && tables[Site(1, 0)][[true, true]].sharedCount == 1
            && [true, true] !in TableOf(tables, Site(0, 0))
  {
    x := FirstAddsZero();
    ghost var before := x.descriptors.tables;
    var ok := x.Add(1, 0, 2);
    assert [true, false][1 := true] == [true, true];
    ConnectedTouchesOne(before, Site(1, 0), x.mask, Link(Site(0, 0), [true, true]));
  }

  /** FirstAddsAscending and a second entity y, with no components, over x's manager and tables. */
  method SecondEntity() returns (xLink: Link, y: Entity<int>)
    ensures y.Valid() && fresh(y) && fresh(y.descriptors) && fresh(y.manager.Repr)
    ensures y.total == 2 && y.mask == [false, false]
    ensures xLink == Link(Site(1, 0), [true, true])
    ensures var tables := y.descriptors.tables;
            && Site(1, 0) in tables && [true, true] in tables[Site(1, 0)]
            && tables[Site(1, 0)][[true, true]].sharedCount == 1
            && [true, true] !in TableOf(tables, Site(0, 0))
  {
    var x := FirstAddsAscending();
    xLink := x.meta.value;
    y := new Entity(x.manager, x.descriptors);
    assert EmptyMask(2) == [false, false];
  }

  /**
   * SecondEntity after y's add<1>: x's descriptor in add<1>'s table still
   * counts x alone, and add<0>'s table has no descriptor for {0, 1}.
   */
  method SecondAddsOne() returns (xLink: Link, y: Entity<int>)
    ensures y.Valid() && fresh(y) && fresh(y.descriptors) && fresh(y.manager.Repr)
    ensures y.total == 2 && y.mask == [false, true]
    ensures xLink == Link(Site(1, 0), [true, true])
    ensures var tables := y.descriptors.tables;
            && Site(1, 0) in tables && [true, true] in tables[Site(1, 0)]
            && tables[Site(1, 0)][[true, true]].sharedCount == 1
            && [true, true] !in TableOf(tables, Site(0, 0))
  {
    xLink, y := SecondEntity();
    ghost var before := y.descriptors.tables;
    var ok := y.Add(1, 0, 3);
    assert [false, false][1 := true] == [false, true];
    ConnectedTouchesOne(before, Site(1, 0), y.mask, xLink);
    ConnectedTouchesOne(before, Site(1, 0), y.mask, Link(Site(0, 0), [true, true]));
  }

  /**
   * One table per instantiation of add: x adds types 0 then 1, y adds types
   * 1 then 0, all with the same argument types. Both end with the mask
   * {0, 1}, but x is linked to the descriptor in add<1>'s table and y to the
   * one in add<0>'s table: two descriptors for one mask, each counting one
   * entity, where the EntityData comment promises one shared by both.
   */
  method SplitDescriptorsScenario() returns (xLink: Link, yLink: Link, xCount: nat, yCount: nat)
    ensures xLink.mask == yLink.mask == [true, true] && xLink != yLink
    ensures xCount == 1 && yCount == 1
  {
    var y;
    xLink, y := SecondAddsOne();
    var d := y.descriptors;
    ghost var before := d.tables;
    var ok := y.Add(0, 0, 4);
    assert [false, true][0 := true] == [true, true];
    ConnectedTouchesOne(before, Site(0, 0), y.mask, xLink);
    yLink := y.meta.value;
    xCount := d.tables[xLink.site][xLink.mask].sharedCount;
    yCount := d.tables[yLink.site][yLink.mask].sharedCount;
  }
}
