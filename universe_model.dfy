/**
 * The entity store of dom.h's Universe as a value: the entity records (the
 * blocks of mEntityData), the component pools (the blocks of each pool in
 * mManagers), the generation table, the interned descriptors, and three
 * bookkeeping maps that only the proofs use. Inv is the store's invariant;
 * each operation of the store is a transition lemma that keeps Inv and says
 * what the operation does to ViewOf, the entities with their components.
 */
module UniverseModel {
  import opened Wrappers
  import opened Bitmask
  import opened ChunkedArrays
  import opened ComponentManagers
  import opened Archetypes

  /** ENTITY_BLOCK_SIZE */
  const EntityBlockSize: nat := 8192
  /** ENTITY_REUSE_C */
  const EntityReuse: nat := 1024

  /** EntityData: the component mask, the descriptor link (null or the descriptor of a mask) and the handle list. */
  datatype EntityData = EntityData(mask: Mask, meta: Option<Mask>, handles: seq<Handle>)

  /** The record add() value-initialises: no components and no descriptor. */
  function EmptyRecord(total: nat): EntityData
  {
    EntityData(EmptyMask(total), None, [])
  }

  /** The type-to-handle view of a record. */
  function Placed(d: EntityData): map<nat, Handle>
  {
    Placement(d.mask, d.handles)
  }

  /** EntityHandle: the entity's slot in the record pool and the generation it was created in. */
  datatype EntityHandle = EntityHandle(slot: Handle, generation: nat)

  /** The generation-table index of a slot: block * ENTITY_BLOCK_SIZE + index. */
  function Id(s: Handle): nat
  {
    s.block * EntityBlockSize + s.index
  }

  /** Slots inside a block have distinct generation-table indices. */
  lemma IdInjective(a: Handle, b: Handle)
    requires a.index < EntityBlockSize && b.index < EntityBlockSize && a != b
    ensures Id(a) != Id(b)
  {
    if a.block < b.block {
      assert Id(a) < (a.block + 1) * EntityBlockSize <= Id(b);
    } else if b.block < a.block {
      assert Id(b) < (b.block + 1) * EntityBlockSize <= Id(a);
    }
  }

  /** operator==: same block, same index, same generation. */
  function SameEntity(a: EntityHandle, b: EntityHandle): (r: bool)
    ensures r <==> a == b
  {
    a.slot.block == b.slot.block && a.slot.index == b.slot.index && a.generation == b.generation
  }

  /**
   * accommodateEntity: the generation table, grown with zeros when it does
   * not reach id yet. Existing generations are kept.
   */
  function Accommodate(gens: seq<nat>, id: nat): (r: seq<nat>)
    ensures id < |r| && |gens| <= |r|
    ensures forall i :: 0 <= i < |r| ==> r[i] == if i < |gens| then gens[i] else 0
    ensures |gens| > id ==> r == gens
  {
    if |gens| <= id then gens + seq(id + 1 - |gens|, _ => 0) else gens
  }

  /** A component: its type id and its handle in that type's pool. */
  datatype CompRef = CompRef(id: nat, handle: Handle)

  /**
   * The store: COMP_TOTAL, the record blocks, the blocks of each component
   * pool, the generation table and the descriptor table; then, for the
   * proofs, the mask each connected record is linked to, the slot that owns
   * each attached component and every entity handle ever returned.
   */
  datatype State<V> = State(total: nat, recs: seq<Block<EntityData>>, store: map<nat, seq<Block<V>>>,
                            gens: seq<nat>, table: Table,
                            links: map<Handle, Mask>, owner: map<CompRef, Handle>, issued: set<EntityHandle>)

  function Rec<V>(st: State<V>, s: Handle): Slot<EntityData>
  {
    SlotOf(st.recs, s)
  }

  /** A component attached to the entity in slot s, and alive in its pool. */
  ghost predicate Held<V>(st: State<V>, c: CompRef, s: Handle)
  {
    c in st.owner && st.owner[c] == s && CompAt(st.store, c.id, c.handle).Holds?
  }

  /**
   * A live record: a full-width mask, one handle per set bit, each one the
   * live component of its type placed at that type's dense index, and a
   * descriptor link that is either null (nothing ever attached) or the
   * descriptor of the record's own mask.
   */
  ghost predicate RecordOk<V>(st: State<V>, s: Handle, d: EntityData)
  {
    && |d.mask| == st.total && |d.handles| == Popcount(d.mask)
    && s.index < EntityBlockSize && Id(s) < |st.gens|
    && (d.meta.Some? ==> d.meta.value == d.mask)
    && (d.meta.None? ==> d.mask == EmptyMask(st.total))
    && (s in st.links <==> d.meta.Some?)
    && (s in st.links ==> st.links[s] == d.mask)
    && forall t :: t in Placed(d) ==> Held(st, CompRef(t, Placed(d)[t]), s)
  }

  ghost predicate RecordsOk<V>(st: State<V>)
  {
    forall s :: Rec(st, s).Holds? ==> RecordOk(st, s, Rec(st, s).value)
  }

  /** Every attached component belongs to a live record that places it. */
  ghost predicate OwnersOk<V>(st: State<V>)
  {
    forall c :: c in st.owner ==>
      && Rec(st, st.owner[c]).Holds?
      && c.id in Placed(Rec(st, st.owner[c]).value)
      && Placed(Rec(st, st.owner[c]).value)[c.id] == c.handle
  }

  /** Only live records are linked to a descriptor. */
  ghost predicate LinksOk<V>(st: State<V>)
  {
    forall s :: s in st.links ==> Rec(st, s).Holds?
  }

  /**
   * Every handle ever returned names a slot of the generation table, never
   * runs ahead of it, and while it is current its slot is live.
   */
  ghost predicate IssuedOk<V>(st: State<V>)
  {
    forall e :: e in st.issued ==>
      && e.slot.index < EntityBlockSize && Id(e.slot) < |st.gens|
      && e.generation <= st.gens[Id(e.slot)]
      && (e.generation == st.gens[Id(e.slot)] ==> Rec(st, e.slot).Holds?)
  }

  /** The store's invariant. */
  ghost predicate Inv<V>(st: State<V>)
  {
    RefCountOk(st.table, st.links) && RecordsOk(st) && OwnersOk(st) && LinksOk(st) && IssuedOk(st)
  }

  /** valid(e) for a handle the store returned: its generation is the slot's current one. */
  ghost predicate Current<V>(st: State<V>, e: EntityHandle)
  {
    e in st.issued && Id(e.slot) < |st.gens| && st.gens[Id(e.slot)] == e.generation
  }

  /** The record in e's slot (the empty record when the slot is not live). */
  ghost function RecordOf<V>(st: State<V>, e: EntityHandle): (d: EntityData)
    ensures Inv(st) && Current(st, e) ==> Rec(st, e.slot) == Holds(d) && RecordOk(st, e.slot, d)
  {
    if Rec(st, e.slot).Holds? then Rec(st, e.slot).value else EmptyRecord(st.total)
  }

  /** The values a type-to-handle map designates in the store, for the handles that are live. */
  function Values<V>(store: map<nat, seq<Block<V>>>, p: map<nat, Handle>): map<nat, V>
  {
    map t | t in p && CompAt(store, t, p[t]).Holds? :: CompAt(store, t, p[t]).value
  }

  /** The components of an entity, by type id: the live component its record places for each type. */
  ghost function Comps<V>(st: State<V>, e: EntityHandle): map<nat, V>
  {
    Values(st.store, Placed(RecordOf(st, e)))
  }

  /** Components c with type t's component set to v. */
  function Assigned<V>(c: map<nat, V>, t: nat, v: V): map<nat, V>
  {
    c[t := v]
  }

  /** Every current entity with its components. */
  ghost function ViewOf<V>(st: State<V>): map<EntityHandle, map<nat, V>>
  {
    map e | e in st.issued && Current(st, e) :: Comps(st, e)
  }

  /** Every entity other than e is current in both states or in neither. */
  ghost predicate CurrentElsewhere<V>(st: State<V>, st': State<V>, e: EntityHandle)
  {
    forall x :: x != e ==> (Current(st, x) <==> Current(st', x))
  }

  /** Every entity other than e that is current in both states has the same components in both. */
  ghost predicate CompsElsewhere<V>(st: State<V>, st': State<V>, e: EntityHandle)
  {
    forall x :: x != e && Current(st, x) && Current(st', x) ==> Comps(st', x) == Comps(st, x)
  }

  lemma MapDrop<K, W>(v: map<K, W>, v': map<K, W>, e: K)
    requires forall x :: x in v' <==> x in v && x != e
    requires forall x :: x in v' ==> v'[x] == v[x]
    ensures v' == v - {e}
  {
  }

  lemma MapPut<K, W>(v: map<K, W>, v': map<K, W>, e: K)
    requires e in v'
    requires forall x :: x in v' <==> x in v || x == e
    requires forall x :: x in v' && x != e ==> v'[x] == v[x]
    ensures v' == v[e := v'[e]]
  {
  }

  /** Dropping a key an entry lacks, and putting that entry back, leaves a map of maps as it was. */
  lemma MapKeep<K, T, W>(v: map<K, map<T, W>>, e: K, t: T)
    requires e in v && t !in v[e]
    ensures v[e := v[e] - {t}] == v
  {
    assert v[e] - {t} == v[e];
  }

  /** A step that touches only entity e, which is current afterwards, changes only e's entry of the view. */
  lemma ViewPut<V>(st: State<V>, st': State<V>, e: EntityHandle)
    requires Current(st', e)
    requires CurrentElsewhere(st, st', e) && CompsElsewhere(st, st', e)
    ensures ViewOf(st') == ViewOf(st)[e := Comps(st', e)]
  {
    MapPut(ViewOf(st), ViewOf(st'), e);
  }

  /** A step that touches only entity e, which is not current afterwards, removes e from the view. */
  lemma ViewDrop<V>(st: State<V>, st': State<V>, e: EntityHandle)
    requires !Current(st', e)
    requires CurrentElsewhere(st, st', e) && CompsElsewhere(st, st', e)
    ensures ViewOf(st') == ViewOf(st) - {e}
  {
    MapDrop(ViewOf(st), ViewOf(st'), e);
  }


  lemma MapSame<K, W>(v: map<K, W>, v': map<K, W>)
    requires forall x :: x in v' <==> x in v
    requires forall x :: x in v' ==> v'[x] == v[x]
    ensures v' == v
  {
  }

  /** A step that changes no entity's liveness and no current entity's components keeps the view. */
  lemma ViewSame<V>(st: State<V>, st': State<V>)
    requires forall x :: Current(st, x) <==> Current(st', x)
    requires forall x :: Current(st, x) ==> Comps(st', x) == Comps(st, x)
    ensures ViewOf(st') == ViewOf(st)
  {
    MapSame(ViewOf(st), ViewOf(st'));
  }

  /** Two current handles of the same slot are the same handle. */
  lemma CurrentUnique<V>(st: State<V>, a: EntityHandle, b: EntityHandle)
    requires Current(st, a) && Current(st, b) && a.slot == b.slot
    ensures a == b
  {
  }

  /** Values only looks at the slots the map designates. */
  lemma ValuesFrame<V>(store: map<nat, seq<Block<V>>>, store': map<nat, seq<Block<V>>>, p: map<nat, Handle>)
    requires forall u :: u in p ==> CompAt(store', u, p[u]) == CompAt(store, u, p[u])
    ensures Values(store', p) == Values(store, p)
  {
  }

  /** Values of two maps with disjoint keys is the union of their values. */
  lemma ValuesUnion<V>(store: map<nat, seq<Block<V>>>, p: map<nat, Handle>, q: map<nat, Handle>)
    requires p.Keys !! q.Keys
    ensures Values(store, p + q) == Values(store, p) + Values(store, q)
  {
    var l, r := Values(store, p + q), Values(store, p) + Values(store, q);
    assert l.Keys == r.Keys;
  }

  /** The components attached to the record in slot s. */
  function Owned(owner: map<CompRef, Handle>, s: Handle): set<CompRef>
  {
    set c | c in owner && owner[c] == s
  }

  /** The ownership map after every component attached to slot s is released. */
  function Disown(owner: map<CompRef, Handle>, s: Handle): (r: map<CompRef, Handle>)
    ensures forall c :: c in r <==> c in owner && owner[c] != s
    ensures forall c :: c in r ==> r[c] == owner[c]
  {
    map c | c in owner && owner[c] != s :: owner[c]
  }

  /** The ownership map after component c is released. */
  function Release(owner: map<CompRef, Handle>, c: CompRef): (r: map<CompRef, Handle>)
    ensures forall x :: x in r <==> x in owner && x != c
    ensures forall x :: x in r ==> r[x] == owner[x]
  {
    owner - {c}
  }

  /** The components of a pack, as references. */
  function Refs(kept: seq<Pending>): set<CompRef>
  {
    set i | 0 <= i < |kept| :: CompRef(kept[i].id, kept[i].handle)
  }

  /**
   * The components of a pack that addComponent attaches to nothing, for an
   * entity that has the types has: those whose type it has already or an
   * earlier entry names.
   */
  function Leftovers(has: set<nat>, pack: seq<Pending>): set<CompRef>
  {
    set i | 0 <= i < |pack| && (pack[i].id in has || !FirstOf(pack, i)) :: CompRef(pack[i].id, pack[i].handle)
  }

  /**
   * In a pack of distinct components, the leftovers are exactly what the
   * intended unpacker does not keep: none of them is attached, and every
   * other pack component is.
   */
  lemma LeftoversUnkept(mask: Mask, has: set<nat>, pack: seq<Pending>)
    requires IdsIn(pack, |mask|) && DistinctPack(pack)
    requires forall i :: 0 <= i < |pack| ==> (mask[pack[i].id] <==> pack[i].id in has)
    ensures Leftovers(has, pack) !! Refs(UnpackFresh(mask, pack))
    ensures forall i :: 0 <= i < |pack| && pack[i].id !in has && FirstOf(pack, i) ==>
              CompRef(pack[i].id, pack[i].handle) in Refs(UnpackFresh(mask, pack))
  {
    var kept := UnpackFresh(mask, pack);
    forall c | c in Leftovers(has, pack)
      ensures c !in Refs(kept)
    {
      var i :| 0 <= i < |pack| && (pack[i].id in has || !FirstOf(pack, i)) && c == CompRef(pack[i].id, pack[i].handle);
      UnpackFreshSkips(mask, pack, i);
    }
    forall i | 0 <= i < |pack| && pack[i].id !in has && FirstOf(pack, i)
      ensures CompRef(pack[i].id, pack[i].handle) in Refs(kept)
    {
      UnpackFreshKeepsFirst(mask, pack, i);
      var j :| 0 <= j < |kept| && kept[j] == pack[i];
    }
  }

  /** Whether an entry is its type's first depends only on the entries before it. */
  lemma FirstOfPrefix(pack: seq<Pending>, n: nat, j: nat)
    requires j < n <= |pack|
    ensures FirstOf(pack[..n], j) <==> FirstOf(pack, j)
  {
    assert forall k :: 0 <= k < j ==> pack[..n][k] == pack[k];
  }

  /** The leftovers of one more pack entry: the entry joins them when it is skipped. */
  lemma LeftoversSnoc(has: set<nat>, pack: seq<Pending>, i: nat)
    requires i < |pack|
    ensures Leftovers(has, pack[..i + 1]) ==
      Leftovers(has, pack[..i]) + if pack[i].id in has || !FirstOf(pack, i) then {CompRef(pack[i].id, pack[i].handle)} else {}
  {
    var a, b := pack[..i + 1], pack[..i];
    var grown := Leftovers(has, b) + if pack[i].id in has || !FirstOf(pack, i) then {CompRef(pack[i].id, pack[i].handle)} else {};
    forall c | c in Leftovers(has, a)
      ensures c in grown
    {
      var j :| 0 <= j < |a| && (a[j].id in has || !FirstOf(a, j)) && c == CompRef(a[j].id, a[j].handle);
      FirstOfPrefix(pack, i + 1, j);
      if j < i {
        FirstOfPrefix(pack, i, j);
        assert b[j] == a[j];
      }
    }
    forall c | c in grown
      ensures c in Leftovers(has, a)
    {
      if c in Leftovers(has, b) {
        var j :| 0 <= j < |b| && (b[j].id in has || !FirstOf(b, j)) && c == CompRef(b[j].id, b[j].handle);
        FirstOfPrefix(pack, i, j);
        FirstOfPrefix(pack, i + 1, j);
        assert a[j] == b[j];
      } else {
        FirstOfPrefix(pack, i + 1, i);
        assert a[i] == pack[i];
      }
    }
  }

  /**
   * One step of destroying the leftovers in pack order: entry i is skipped
   * exactly when it is a leftover, the leftovers so far grow by it, and, the
   * components being distinct, it is not among the earlier ones.
   */
  lemma LeftoversStep(mask: Mask, has: set<nat>, pack: seq<Pending>, i: nat)
    requires IdsIn(pack, |mask|) && DistinctPack(pack) && i < |pack|
    requires forall k :: 0 <= k < |pack| ==> (mask[pack[k].id] <==> pack[k].id in has)
    ensures Leftovers(has, pack[..i + 1]) ==
      Leftovers(has, pack[..i]) + if Skipped(mask, pack, i) then {CompRef(pack[i].id, pack[i].handle)} else {}
    ensures Skipped(mask, pack, i) ==> CompRef(pack[i].id, pack[i].handle) in Leftovers(has, pack)
    ensures CompRef(pack[i].id, pack[i].handle) !in Leftovers(has, pack[..i])
  {
    LeftoversSnoc(has, pack, i);
    var c := CompRef(pack[i].id, pack[i].handle);
    forall d | d in Leftovers(has, pack[..i])
      ensures d != c
    {
      var j :| 0 <= j < i && (pack[..i][j].id in has || !FirstOf(pack[..i], j)) && d == CompRef(pack[..i][j].id, pack[..i][j].handle);
      assert pack[..i][j] == pack[j] != pack[i];
    }
  }

  /**
   * Before entry i is destroyed, none of the earlier destroys has touched
   * its component: a skipped entry still has the slot the pack started
   * with, and is one of the pack's leftovers.
   */
  lemma LeftoverUntouched<V>(mask: Mask, has: set<nat>, pack: seq<Pending>, i: nat,
                             start: map<nat, seq<Block<V>>>, before: map<nat, seq<Block<V>>>)
    requires IdsIn(pack, |mask|) && DistinctPack(pack) && i < |pack|
    requires forall k :: 0 <= k < |pack| ==> (mask[pack[k].id] <==> pack[k].id in has)
    requires Discarded(before, start, Leftovers(has, pack[..i]))
    ensures CompAt(before, pack[i].id, pack[i].handle) == CompAt(start, pack[i].id, pack[i].handle)
    ensures Skipped(mask, pack, i) ==> CompRef(pack[i].id, pack[i].handle) in Leftovers(has, pack)
  {
    LeftoversStep(mask, has, pack, i);
  }

  /**
   * One step of the destroy loop: entry i's component is vacated when the
   * entry is skipped, and nothing changes otherwise; the store then lacks
   * exactly the leftovers of the first i + 1 entries.
   */
  lemma DiscardLoopStep<V>(mask: Mask, has: set<nat>, pack: seq<Pending>, i: nat,
                           start: map<nat, seq<Block<V>>>, before: map<nat, seq<Block<V>>>, after: map<nat, seq<Block<V>>>)
    requires IdsIn(pack, |mask|) && DistinctPack(pack) && i < |pack|
    requires forall k :: 0 <= k < |pack| ==> (mask[pack[k].id] <==> pack[k].id in has)
    requires Discarded(before, start, Leftovers(has, pack[..i]))
    requires Skipped(mask, pack, i) ==>
               forall u, g :: CompAt(after, u, g) == if u == pack[i].id && g == pack[i].handle then Vacated else CompAt(before, u, g)
    requires !Skipped(mask, pack, i) ==> after == before
    ensures Discarded(after, start, Leftovers(has, pack[..i + 1]))
  {
    LeftoversStep(mask, has, pack, i);
    if Skipped(mask, pack, i) {
      DiscardNext(start, before, after, Leftovers(has, pack[..i]), CompRef(pack[i].id, pack[i].handle));
    }
  }

  /** Vacating one component discards exactly it. */
  lemma DiscardedOne<V>(s1: map<nat, seq<Block<V>>>, s0: map<nat, seq<Block<V>>>, c: CompRef)
    requires forall u, g :: CompAt(s1, u, g) == if u == c.id && g == c.handle then Vacated else CompAt(s0, u, g)
    ensures Discarded(s1, s0, {c})
  {
  }

  /** Vacating one more component extends the discarded set by it. */
  lemma DiscardNext<V>(s0: map<nat, seq<Block<V>>>, s1: map<nat, seq<Block<V>>>, s2: map<nat, seq<Block<V>>>, refs: set<CompRef>, c: CompRef)
    requires Discarded(s1, s0, refs)
    requires forall u, g :: CompAt(s2, u, g) == if u == c.id && g == c.handle then Vacated else CompAt(s1, u, g)
    ensures Discarded(s2, s0, refs + {c})
  {
  }

  /** store' is store with the components refs vacated, and nothing else changed. */
  ghost predicate Discarded<V>(store': map<nat, seq<Block<V>>>, store: map<nat, seq<Block<V>>>, refs: set<CompRef>)
  {
    forall u: nat, g :: CompAt(store', u, g) == if CompRef(u, g) in refs then Vacated else CompAt(store, u, g)
  }

  /** The ownership map after every component of the pack is attached to slot s. */
  function Adopt(owner: map<CompRef, Handle>, kept: seq<Pending>, s: Handle): (r: map<CompRef, Handle>)
    ensures forall c :: c in r <==> c in owner || c in Refs(kept)
    ensures forall c :: c in r ==> r[c] == if c in Refs(kept) then s else owner[c]
  {
    owner + map c | c in Refs(kept) :: s
  }

  predicate DistinctIds(kept: seq<Pending>)
  {
    forall i, j :: 0 <= i < j < |kept| ==> kept[i].id != kept[j].id
  }

  /** Attaching a pack to p is p overridden by the pack attached to nothing. */
  lemma {:induction false} AttachAllSplit(p: map<nat, Handle>, kept: seq<Pending>)
    ensures AttachAll(p, kept) == p + AttachAll(map[], kept)
    decreases |kept|
  {
    if kept != [] {
      var k := kept[0];
      AttachAllSplit(p[k.id := k.handle], kept[1..]);
      AttachAllSplit(map[k.id := k.handle], kept[1..]);
      assert AttachAll(map[], kept) == AttachAll(map[k.id := k.handle], kept[1..]);
    }
  }

  /** A pack of distinct types attached to nothing maps each type to its own handle, and nothing else. */
  lemma {:induction false} AttachAllLookup(kept: seq<Pending>)
    requires DistinctIds(kept)
    ensures AttachAll(map[], kept).Keys == Types(kept)
    ensures forall i :: 0 <= i < |kept| ==> AttachAll(map[], kept)[kept[i].id] == kept[i].handle
    decreases |kept|
  {
    if kept != [] {
      var k := kept[0];
      var rest := kept[1..];
      assert DistinctIds(rest) by {
        forall i, j | 0 <= i < j < |rest|
          ensures rest[i].id != rest[j].id
        {
          assert rest[i] == kept[i + 1] && rest[j] == kept[j + 1];
        }
      }
      AttachAllLookup(rest);
      AttachAllSplit(map[k.id := k.handle], rest);
      TypesCons(kept);
      assert k.id !in Types(rest);
      forall i | 0 <= i < |kept|
        ensures AttachAll(map[], kept)[kept[i].id] == kept[i].handle
      {
        if i > 0 {
          assert kept[i] == rest[i - 1];
        }
      }
    }
  }

  /** Writing v into the slot a map designates for type t changes only t's value. */
  lemma ValuesPut<V>(store: map<nat, seq<Block<V>>>, store': map<nat, seq<Block<V>>>, p: map<nat, Handle>, t: nat, v: V)
    requires t in p && CompAt(store', t, p[t]) == Holds(v)
    requires forall u :: u in p ==> CompAt(store, u, p[u]).Holds?
    requires forall u :: u in p && u != t ==> CompAt(store', u, p[u]) == CompAt(store, u, p[u])
    ensures Values(store', p) == Values(store, p)[t := v]
  {
  }

  /** Every attached component is alive in its pool. */
  lemma OwnedLive<V>(st: State<V>)
    requires Inv(st)
    ensures forall c :: c in st.owner ==> CompAt(st.store, c.id, c.handle).Holds?
  {
    forall c | c in st.owner
      ensures CompAt(st.store, c.id, c.handle).Holds?
    {
      assert RecordOk(st, st.owner[c], Rec(st, st.owner[c]).value);
    }
  }

  /** Values of a map without key t is the values without t. */
  lemma ValuesDrop<V>(store: map<nat, seq<Block<V>>>, p: map<nat, Handle>, t: nat)
    ensures Values(store, p - {t}) == Values(store, p) - {t}
  {
  }

  /**
   * The record removeComponent leaves: bit t cleared, linked to the
   * descriptor of the new mask, and the handle at t's old dense index erased.
   * What it means for placement, that every type but t keeps its handle, is
   * proved in UniverseSteps.WithoutPlacement.
   */
  function Without(d: EntityData, t: nat): (r: EntityData)
    requires t < |d.mask| && Rank(d.mask, t) < |d.handles|
    ensures r.mask == d.mask[t := false] && r.meta == Some(r.mask)
  {
    var m := d.mask[t := false];
    var r := Rank(d.mask, t);
    EntityData(m, Some(m), d.handles[..r] + d.handles[r + 1..])
  }

  /** Erasing the handle at t's dense index and clearing bit t, linked to the new mask, is Without(d, t). */
  lemma ErasedIsWithout(d: EntityData, t: nat, pos: nat)
    requires t < |d.mask| && pos == Rank(d.mask, t) && pos < |d.handles|
    ensures EntityData(d.mask[t := false], Some(d.mask[t := false]), d.handles[..pos] + d.handles[pos + 1..]) == Without(d, t)
  {
  }

  /** The view's entry for a current entity is its components. */
  lemma ViewAt<V>(st: State<V>, e: EntityHandle)
    requires Current(st, e)
    ensures e in ViewOf(st) && ViewOf(st)[e] == Comps(st, e)
  {
  }

  /**
   * The components of a current entity are exactly the types whose bits its
   * mask sets, each the value alive at the handle its record places for it.
   */
  lemma CompsAt<V>(st: State<V>, e: EntityHandle)
    requires Inv(st) && Current(st, e)
    ensures var d := RecordOf(st, e);
            && |d.mask| == st.total && |d.handles| == Popcount(d.mask)
            && (forall t :: t in Comps(st, e) <==> 0 <= t < |d.mask| && d.mask[t])
            && (forall t :: t in Placed(d) <==> 0 <= t < |d.mask| && d.mask[t])
            && forall t :: t in Placed(d) ==> CompAt(st.store, t, Placed(d)[t]) == Holds(Comps(st, e)[t])
  {
    var d := RecordOf(st, e);
    PlacementKeys(d.mask, d.handles);
  }

  /**
   * getComponent's lookup: a current entity with a component of type t is
   * linked to the descriptor of its mask, and the handle list entry at the
   * dense index that descriptor stores for t is the handle placed for t.
   */
  lemma HandleAt<V>(st: State<V>, e: EntityHandle, t: nat)
    requires Inv(st) && Current(st, e) && t in Placed(RecordOf(st, e))
    ensures var d := RecordOf(st, e);
            && d.meta.Some? && d.meta.value in st.table && t in st.table[d.meta.value].dense
            && st.table[d.meta.value].dense[t] < |d.handles|
            && d.handles[st.table[d.meta.value].dense[t]] == Placed(d)[t]
  {
    var d := RecordOf(st, e);
    assert e.slot in st.links;
  }

  /**
   * The lookup destroyEntity and getComponent make: for every type the
   * record places, the record is linked to a descriptor in the table, and
   * the handle list entry at the dense index that descriptor stores for the
   * type is the placed handle.
   */
  ghost predicate Indexes(table: Table, d: EntityData)
  {
    forall u :: u in Placed(d) ==>
      && d.meta.Some? && d.meta.value in table && u in table[d.meta.value].dense
      && table[d.meta.value].dense[u] < |d.handles|
      && d.handles[table[d.meta.value].dense[u]] == Placed(d)[u]
  }

  /** The record of a current entity indexes its handles through the table. */
  lemma IndexesAt<V>(st: State<V>, e: EntityHandle)
    requires Inv(st) && Current(st, e)
    ensures Indexes(st.table, RecordOf(st, e))
  {
    forall u | u in Placed(RecordOf(st, e))
      ensures var d := RecordOf(st, e);
              && d.meta.Some? && d.meta.value in st.table && u in st.table[d.meta.value].dense
              && st.table[d.meta.value].dense[u] < |d.handles|
              && d.handles[st.table[d.meta.value].dense[u]] == Placed(d)[u]
    {
      HandleAt(st, e, u);
    }
  }

  /** store' is store with the components p places for the types below n vacated, and nothing else changed. */
  ghost predicate VacatedBelow<V>(store': map<nat, seq<Block<V>>>, store: map<nat, seq<Block<V>>>, p: map<nat, Handle>, n: nat)
  {
    forall u: nat, g :: CompAt(store', u, g) == if u < n && u in p && p[u] == g then Vacated else CompAt(store, u, g)
  }

  /** Vacating type i's placed component extends the vacated prefix by one type. */
  lemma VacateNext<V>(store: map<nat, seq<Block<V>>>, s1: map<nat, seq<Block<V>>>, s2: map<nat, seq<Block<V>>>,
                      p: map<nat, Handle>, i: nat)
    requires VacatedBelow(s1, store, p, i)
    requires i in p ==> forall u, g :: CompAt(s2, u, g) == if u == i && g == p[i] then Vacated else CompAt(s1, u, g)
    requires i !in p ==> s2 == s1
    ensures VacatedBelow(s2, store, p, i + 1)
  {
  }
}
