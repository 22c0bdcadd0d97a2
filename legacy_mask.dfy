/**
 * The value-level facts behind the Entity.h entity: the mask and the list of
 * type ids in the order add appended their handles, the dense index a
 * descriptor gives each type, the descriptor tables of the instantiations of
 * add, and the liveness of the listed handles.
 */
module LegacyMasks {
  import opened Wrappers
  import opened Bitmask
  import opened ChunkedArrays
  import opened Archetypes
  import opened ComponentManagers

  /** No id occurs twice. */
  predicate Distinct(ids: seq<nat>)
  {
    forall j, k :: 0 <= j < k < |ids| ==> ids[j] != ids[k]
  }

  /** The ids came in ascending order. */
  predicate IncreasingIds(ids: seq<nat>)
  {
    forall j, k :: 0 <= j < k < |ids| ==> ids[j] < ids[k]
  }

  /** The mask of n bits in which exactly the given ids are set. */
  function MaskOf(ids: seq<nat>, n: nat): (m: Mask)
    ensures |m| == n
  {
    if ids == [] then EmptyMask(n)
    else if ids[|ids| - 1] < n then MaskOf(ids[..|ids| - 1], n)[ids[|ids| - 1] := true]
    else MaskOf(ids[..|ids| - 1], n)
  }

  /** The bits set in MaskOf are exactly the ids, when they are all below n. */
  lemma {:induction false} MaskOfBits(ids: seq<nat>, n: nat)
    requires forall k :: 0 <= k < |ids| ==> ids[k] < n
    ensures forall t :: 0 <= t < n ==> (MaskOf(ids, n)[t] <==> t in ids)
    decreases |ids|
  {
    if ids != [] {
      var rest := ids[..|ids| - 1];
      MaskOfBits(rest, n);
      assert ids == rest + [ids[|ids| - 1]];
    }
  }

  /**
   * A mask of n bits and the ids added so far, in order: each id once, each
   * below n, and the mask sets exactly their bits.
   */
  ghost predicate Consistent(mask: Mask, added: seq<nat>, n: nat)
  {
    && Distinct(added) && (forall k :: 0 <= k < |added| ==> added[k] < n)
    && mask == MaskOf(added, n) && Popcount(mask) == |added|
  }

  /** Adding an id whose bit is clear keeps a mask and its id list consistent. */
  lemma ConsistentAdd(mask: Mask, added: seq<nat>, n: nat, t: nat)
    requires Consistent(mask, added, n) && t < n && !mask[t]
    ensures Consistent(mask[t := true], added + [t], n)
  {
    MaskOfBits(added, n);
    assert (added + [t])[..|added|] == added;
    RankUpdate(mask, t, true, |mask|);
  }

  /** Each handle of hs designates a component of the type at the same position of ids. */
  ghost predicate AllLive<V>(c: map<nat, seq<Block<V>>>, ids: seq<nat>, hs: seq<Handle>)
  {
    |ids| == |hs| && forall k :: 0 <= k < |ids| ==> CompAt(c, ids[k], hs[k]).Holds?
  }

  /**
   * Assigning a component to a slot that held none, and touching no other
   * slot, keeps every listed handle live and makes the new one live too.
   */
  lemma AllLiveAppend<V>(c: map<nat, seq<Block<V>>>, c': map<nat, seq<Block<V>>>, ids: seq<nat>, hs: seq<Handle>, t: nat, h: Handle)
    requires AllLive(c, ids, hs) && !CompAt(c, t, h).Holds? && CompAt(c', t, h).Holds?
    requires forall u, g :: u != t || g != h ==> CompAt(c', u, g) == CompAt(c, u, g)
    ensures AllLive(c', ids + [t], hs + [h])
  {
    forall k | 0 <= k < |ids|
      ensures CompAt(c', (ids + [t])[k], (hs + [h])[k]).Holds?
    {
      assert CompAt(c, ids[k], hs[k]).Holds?;
    }
  }

  /** Overwriting a slot with a component, and touching no other slot, keeps every listed handle live. */
  lemma AllLiveOverwrite<V>(c: map<nat, seq<Block<V>>>, c': map<nat, seq<Block<V>>>, ids: seq<nat>, hs: seq<Handle>, t: nat, h: Handle)
    requires AllLive(c, ids, hs) && CompAt(c', t, h).Holds?
    requires forall u, g :: u != t || g != h ==> CompAt(c', u, g) == CompAt(c, u, g)
    ensures AllLive(c', ids, hs)
  {
    forall k | 0 <= k < |ids|
      ensures CompAt(c', ids[k], hs[k]).Holds?
    {
      assert CompAt(c, ids[k], hs[k]).Holds?;
    }
  }

  /**
   * One instantiation add<C, PARAM...>: the id of C and an identifier of the
   * argument types PARAM... deduced at the call. Each instantiation has its
   * own function-local static descriptor table.
   */
  datatype Site = Site(id: nat, args: nat)

  /** What mMetaData points to: the descriptor for a mask in one instantiation's table. */
  datatype Link = Link(site: Site, mask: Mask)

  /** The table of an instantiation; one that never ran has an empty table. */
  function TableOf(tables: map<Site, Table>, s: Site): (r: Table)
    ensures s !in tables ==> r == map[]
  {
    if s in tables then tables[s] else map[]
  }

  /**
   * connect in the instantiation s: its table's descriptor for m is found or
   * created and gains one sharer. The tables of the other instantiations do
   * not change.
   */
  function Connected(tables: map<Site, Table>, s: Site, m: Mask): (r: map<Site, Table>)
    ensures s in r && r[s] == Attach(TableOf(tables, s), m)
    ensures forall x :: x != s ==> (x in r <==> x in tables) && (x in r ==> r[x] == tables[x])
  {
    tables[s := Attach(TableOf(tables, s), m)]
  }

  /**
   * A connect in the instantiation s touches only s's descriptor for m: every
   * other descriptor, in s's table or another instantiation's, exists after
   * it exactly when it existed before, and is the same.
   */
  lemma ConnectedTouchesOne(tables: map<Site, Table>, s: Site, m: Mask, l: Link)
    requires l != Link(s, m)
    ensures var after := TableOf(Connected(tables, s, m), l.site);
            && (l.mask in after <==> l.mask in TableOf(tables, l.site))
            && (l.mask in after ==> after[l.mask] == TableOf(tables, l.site)[l.mask])
  {
    if l.site == s {
      assert l.mask != m;
    }
  }

  /** Every table holds, for each mask, the dense packing of that mask. */
  ghost predicate TablesOk(tables: map<Site, Table>)
  {
    forall s :: s in tables ==> TableOk(tables[s])
  }

  /**
   * The invariant of an entity's own state: its mask and id list are
   * consistent, there is one handle per id, and once anything was added it is
   * linked to the descriptor for its mask in the table of the instantiation
   * of add that ran last, which was for the last id added.
   */
  ghost predicate Fields(mask: Mask, meta: Option<Link>, handles: seq<Handle>, added: seq<nat>, tables: map<Site, Table>, n: nat)
  {
    && Consistent(mask, added, n) && TablesOk(tables) && |handles| == |added|
    && (meta.None? <==> added == [])
    && (meta.Some? ==> var l := meta.value;
          l.mask == mask && l.site.id == added[|added| - 1] && l.site in tables && mask in tables[l.site])
  }

  /** The step of add<C, PARAM...> for a type the entity lacks keeps the invariant. */
  lemma FieldsAdd(mask: Mask, meta: Option<Link>, handles: seq<Handle>, added: seq<nat>, tables: map<Site, Table>, n: nat, s: Site, h: Handle)
    requires Fields(mask, meta, handles, added, tables, n) && s.id < n && !mask[s.id]
    ensures var m := mask[s.id := true];
            Fields(m, Some(Link(s, m)), handles + [h], added + [s.id], Connected(tables, s, m), n)
  {
    ConsistentAdd(mask, added, n, s.id);
    TableOkAttach(TableOf(tables, s), mask[s.id := true]);
  }

  /** Every descriptor of the table holds the dense packing of its own mask. */
  ghost predicate TableOk(table: Table)
  {
    forall m :: m in table ==> table[m].dense == Dense(m)
  }

  /**
   * The rank of an id (what the descriptor stores as its dense index) is its
   * position in the order the ids were added, for every id, exactly when the
   * ids were added in ascending order.
   */
  lemma RankIsAddOrder(mask: Mask, added: seq<nat>)
    requires Distinct(added) && forall k :: 0 <= k < |added| ==> added[k] < |mask|
    requires forall t :: 0 <= t < |mask| ==> (mask[t] <==> t in added)
    ensures (forall k :: 0 <= k < |added| ==> Rank(mask, added[k]) == k) <==> IncreasingIds(added)
  {
    if forall k :: 0 <= k < |added| ==> Rank(mask, added[k]) == k {
      forall j, k | 0 <= j < k < |added|
        ensures added[j] < added[k]
      {
        if added[k] < added[j] {
          RankMono(mask, added[k], added[j]);
        }
      }
    }
    if IncreasingIds(added) {
      AscendingRanks(mask, added);
    }
  }

  /** When every set bit below x has rank below n, so does x. */
  lemma RankBound(m: Mask, x: nat, n: nat)
    requires x <= |m|
    requires forall i :: 0 <= i < x && m[i] ==> Rank(m, i) < n
    ensures Rank(m, x) <= n
  {
    if Rank(m, x) > n {
      var i := RankWitness(m, x, n);
    }
  }

  /** Ids added in ascending order have the ranks 0, 1, 2, ... in that order. */
  lemma {:induction false} AscendingRanks(mask: Mask, added: seq<nat>)
    requires Distinct(added) && IncreasingIds(added) && forall k :: 0 <= k < |added| ==> added[k] < |mask|
    requires forall t :: 0 <= t < |mask| ==> (mask[t] <==> t in added)
    ensures forall k :: 0 <= k < |added| ==> Rank(mask, added[k]) == k
    decreases |added|
  {
    if added != [] {
      var n := |added| - 1;
      var x := added[n];
      var rest := added[..n];
      var below := mask[x := false];
      assert forall t :: 0 <= t < |below| ==> (below[t] <==> t in rest) by {
        forall t | 0 <= t < |below|
          ensures below[t] <==> t in rest
        {
          if t in added && t != x {
            var k :| 0 <= k < |added| && added[k] == t;
            assert rest[k] == t;
          }
        }
      }
      AscendingRanks(below, rest);
      assert below[x := true] == mask;
      forall k | 0 <= k < n
        ensures Rank(mask, added[k]) == k
      {
        assert rest[k] == added[k];
        RankUpdate(below, x, true, added[k]);
      }
      RankUpdate(below, x, true, x);
      if n > 0 {
        RankMono(below, rest[n - 1], x);
      }
      forall i | 0 <= i < x && below[i]
        ensures Rank(below, i) < n
      {
        var k :| 0 <= k < n && rest[k] == i;
      }
      RankBound(below, x, n);
    }
  }

  /**
   * The arithmetic step of LegacyEntities.DescendingAddsScenario. After
   * adding type 1 and then type 0, the descriptor places type 1 at dense
   * index 1, but add appended type 1's handle at position 0, so get of type 1
   * reads type 0's handle.
   */
  lemma DescendingAddsMisplaceGet()
    ensures var mask := [true, true];
            var added := [1, 0];
            Rank(mask, 1) == 1 && added[1] != 1
  {
  }

  /** Connecting to a mask's descriptor keeps every descriptor the packing of its mask. */
  lemma TableOkAttach(table: Table, m: Mask)
    requires TableOk(table)
    ensures TableOk(Attach(table, m))
  {
  }


  /**
   * The sharing the EntityData comment describes, with one table for every
   * instantiation: the connects of x (types 0 then 1) and of y (types 1 then
   * 0) end on a single descriptor for {0, 1}, which counts both entities.
   */
  lemma SharedTableJoinsSharers()
    ensures var both := [true, true];
            var table := Attach(Attach(Attach(Attach(map[], [true, false]), both), [false, true]), both);
            both in table && table[both].sharedCount == 2
  {
    var both := [true, true];
    var t2 := Attach(Attach(map[], [true, false]), both);
    assert [false, true] != both;
    assert Attach(t2, [false, true])[both] == t2[both];
  }

}
