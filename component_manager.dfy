/**
 * The component store (ComponentManager, and the mManagers array of dom.h's
 * Universe): one block pool per component type id, created the first time a
 * component of that type is assigned. Component values of every type are
 * modelled by one value type V.
 */
module ComponentManagers {
  import opened ChunkedArrays

  /** COMPONENT_BLOCK_SIZE, and the default BLOCK_SIZE of ChunkedArray.h. */
  const ComponentBlockSize: nat := 8192

  /** The slot h of type t's pool, in a store of pools keyed by type id; a missing pool holds nothing. */
  function CompAt<V>(store: map<nat, seq<Block<V>>>, t: nat, h: Handle): Slot<V>
  {
    if t in store then SlotOf(store[t], h) else Unused
  }

  /** Replacing type t's blocks by blocks that differ from them at most at h changes no other component. */
  lemma PutFrame<V>(store: map<nat, seq<Block<V>>>, t: nat, blocks: seq<Block<V>>, h: Handle)
    requires t in store && forall g :: g != h ==> SlotOf(blocks, g) == SlotOf(store[t], g)
    ensures forall u, g :: u != t || g != h ==> CompAt(store[t := blocks], u, g) == CompAt(store, u, g)
  {
  }

  class ComponentManager<V> {
    /** COMP_TOTAL: the number of pool slots. */
    const total: nat
    /** mManagers: the pool of each type id whose pool exists. */
    var pools: map<nat, ChunkedArray<V>>
    /** The blocks of every existing pool, by type id. */
    ghost var contents: map<nat, seq<Block<V>>>
    ghost var Repr: set<object>

    /** Every pool exists once, lies in Repr and is valid; contents has a key per pool. */
    ghost predicate Wired()
      reads this, Repr
    {
      && this in Repr
      && (forall t :: t in pools ==>
            && t < total
            && pools[t] in Repr
            && pools[t].Valid()
            && pools[t].blockSize == ComponentBlockSize && pools[t].reuse == 0)
      && (forall t, u :: t in pools && u in pools && t != u ==> pools[t] != pools[u])
      && contents.Keys == pools.Keys
    }

    ghost predicate Valid()
      reads this, Repr
    {
      Wired() && forall t :: t in pools ==> contents[t] == pools[t].blocks
    }

    /** A manager none of whose objects changed is still valid. */
    twostate lemma Kept()
      requires old(Valid()) && unchanged(this) && unchanged(Repr)
      ensures Valid()
    {
    }

    /** The slot of type t's pool that handle h designates. */
    ghost function Comp(t: nat, h: Handle): Slot<V>
      reads this
    {
      CompAt(contents, t, h)
    }

    ghost predicate Live(t: nat, h: Handle)
      reads this
    {
      Comp(t, h).Holds?
    }

    /** A manager in which no pool exists yet. */
    constructor (total: nat)
      ensures Valid() && fresh(Repr) && this.total == total && pools == map[]
      ensures forall t, h :: Comp(t, h) == Unused
    {
      this.total := total;
      pools := map[];
      contents := map[];
      Repr := {this};
    }

    /**
     * getComponent(h): the value held in type t's pool at h. The caller must
     * name a handle that is live in that pool.
     */
    function Get(t: nat, h: Handle): (v: V)
      reads this, Repr
      requires Valid() && Live(t, h)
      ensures Comp(t, h) == Holds(v)
    {
      pools[t].Get(h)
    }

    /** The lazy creation of type t's pool at the head of assignComponent. */
    method EnsurePool(t: nat)
      requires Valid() && t < total
      modifies this
      ensures Valid() && fresh(Repr - old(Repr))
      ensures pools.Keys == old(pools.Keys) + {t}
      ensures t in old(pools) ==> pools == old(pools) && Repr == old(Repr)
      ensures t !in old(pools) ==> |pools[t].blocks| == 1 && pools[t].freeSlots == [] && pools[t].top == 0
      ensures forall u, g :: Comp(u, g) == old(Comp(u, g))
    {
      if t !in pools {
        var pool := new ChunkedArray<V>(ComponentBlockSize, 0);
        Register(t, pool);
      }
    }

    /** Records a new, empty pool as type t's. */
    method Register(t: nat, pool: ChunkedArray<V>)
      requires Valid() && t < total && t !in pools && pool !in Repr
      requires pool.Valid() && pool.blockSize == ComponentBlockSize && pool.reuse == 0
      requires forall g :: pool.SlotAt(g) == Unused
      modifies this
      ensures Valid() && Repr == old(Repr) + {pool} && pools == old(pools)[t := pool]
      ensures forall u, g :: Comp(u, g) == old(Comp(u, g))
    {
      pools, contents, Repr := pools[t := pool], contents[t := pool.blocks], Repr + {pool};
      forall u, g
        ensures Comp(u, g) == old(Comp(u, g))
      {
        if u == t {
          assert pool.SlotAt(g) == Unused;
        }
      }
    }

    /**
     * assignComponent: creates type t's pool if it does not exist yet, then
     * adds v to it and returns exactly the handle that pool's add returns.
     * No component of any other type or at any other handle changes.
     */
    method AssignComponent(t: nat, v: V) returns (h: Handle)
      requires Valid() && t < total
      modifies Repr
      ensures Valid() && fresh(Repr - old(Repr))
      ensures pools.Keys == old(pools.Keys) + {t}
      ensures t in old(pools) ==> pools[t] == old(pools[t]) && h == old(pools[t].NextSlot())
      ensures t !in old(pools) ==> h == Handle(0, 0)
      ensures !old(Live(t, h)) && Comp(t, h) == Holds(v)
      ensures forall u, g :: u != t || g != h ==> Comp(u, g) == old(Comp(u, g))
    {
      EnsurePool(t);
      h := AddToPool(t, v);
    }

    /** The add on type t's existing pool. */
    method AddToPool(t: nat, v: V) returns (h: Handle)
      requires Valid() && t in pools
      modifies Repr
      ensures Valid() && unchanged(this`pools, this`Repr)
      ensures h == old(pools[t].NextSlot())
      ensures !old(Live(t, h)) && Comp(t, h) == Holds(v)
      ensures forall u, g :: u != t || g != h ==> Comp(u, g) == old(Comp(u, g))
    {
      var pool := pools[t];
      ghost var before := contents;
      h := pool.Add(v);
      Sync(t);
      forall g | g != h
        ensures SlotOf(pool.blocks, g) == SlotOf(before[t], g)
      {
        assert pool.SlotAt(g) == old(pool.SlotAt(g));
      }
      PutFrame(before, t, pool.blocks, h);
    }

    /** Brings contents up to date with type t's pool after that pool changed. */
    method Sync(t: nat)
      requires Wired() && t in pools
      requires forall u :: u in pools && u != t ==> contents[u] == pools[u].blocks
      modifies this
      ensures Valid() && unchanged(this`pools, this`Repr) && contents == old(contents)[t := pools[t].blocks]
    {
      contents := contents[t := pools[t].blocks];
    }

    /** The write through the reference getComponent returns. */
    method Set(t: nat, h: Handle, v: V)
      requires Valid() && Live(t, h)
      modifies Repr
      ensures Valid() && unchanged(this`pools, this`Repr)
      ensures Comp(t, h) == Holds(v)
      ensures forall u, g :: u != t || g != h ==> Comp(u, g) == old(Comp(u, g))
    {
      var pool := pools[t];
      ghost var before := contents;
      pool.Set(h, v);
      Sync(t);
      forall g | g != h
        ensures SlotOf(pool.blocks, g) == SlotOf(before[t], g)
      {
        assert pool.SlotAt(g) == old(pool.SlotAt(g));
      }
      PutFrame(before, t, pool.blocks, h);
    }

    /**
     * destroy(cid, h): destroys the component at h in pool cid and queues h
     * as that pool's newest free slot; every other pool, and every other
     * slot of that pool, is unchanged.
     */
    method Destroy(cid: nat, h: Handle)
      requires Valid() && Live(cid, h)
      modifies Repr
      ensures Valid() && Repr == old(Repr) && pools == old(pools)
      ensures pools[cid].freeSlots == old(pools[cid].freeSlots) + [h] && pools[cid].top == old(pools[cid].top)
      ensures forall u :: u in pools && u != cid ==> pools[u].freeSlots == old(pools[u].freeSlots) && pools[u].top == old(pools[u].top)
      ensures forall u, g :: CompAt(contents, u, g) == if u == cid && g == h then Vacated else CompAt(old(contents), u, g)
    {
      var pool := pools[cid];
      ghost var before := contents;
      pool.Destroy(h);
      Sync(cid);
      forall g | g != h
        ensures SlotOf(pool.blocks, g) == SlotOf(before[cid], g)
      {
        assert pool.SlotAt(g) == old(pool.SlotAt(g));
      }
      PutFrame(before, cid, pool.blocks, h);
    }
  }
}
