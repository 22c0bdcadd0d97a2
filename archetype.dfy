/**
 * Archetype descriptors (MetaData): for one component mask, the dense index
 * of every attached type in an entity's handle list, plus the number of
 * entities that share the descriptor. Descriptors are interned in a table
 * keyed by mask; connect and disconnect keep their counts.
 */
module Archetypes {
  import opened Wrappers
  import opened Bitmask
  import opened ChunkedArrays

  /** MetaData: mMetaData (type id -> dense index) and mSharedCount. */
  datatype MetaData = MetaData(dense: map<nat, nat>, sharedCount: nat)

  /** mComponentMetadata: the interned descriptors, keyed by mask. */
  type Table = map<Mask, MetaData>

  /**
   * The MetaData(mask) constructor: walks the bits in order with a counter
   * bitc, giving each set bit the current counter value. The result is the
   * dense packing of the mask, shared by nobody yet.
   */
  method NewMetaData(mask: Mask) returns (meta: MetaData)
    ensures meta.dense == Dense(mask) && meta.sharedCount == 0
  {
    var dense: map<nat, nat> := map[];
    var bitc: nat := 0;
    var i: nat := 0;
    while i < |mask|
      invariant i <= |mask|
      invariant bitc == Rank(mask, i)
      invariant dense == map j: nat | j < i && mask[j] :: Rank(mask, j)
    {
      if mask[i] {
        dense := dense[i := bitc];
        bitc := bitc + 1;
      }
      i := i + 1;
    }
    meta := MetaData(dense, 0);
  }

  /**
   * connect, on the table: the descriptor for m is found or created, and its
   * count goes up by one. No other entry changes.
   */
  function Attach(table: Table, m: Mask): (r: Table)
    ensures m in r && r[m].dense == (if m in table then table[m].dense else Dense(m))
    ensures r[m].sharedCount == (if m in table then table[m].sharedCount else 0) + 1
    ensures forall x :: x != m ==> (x in r <==> x in table) && (x in r ==> r[x] == table[x])
  {
    if m in table then table[m := table[m].(sharedCount := table[m].sharedCount + 1)]
    else table[m := MetaData(Dense(m), 1)]
  }

  /**
   * disconnect, on the table: nothing while the record has no descriptor;
   * otherwise the count goes down by one and the entry is erased once the
   * count reaches zero. No other entry changes.
   */
  function Detach(table: Table, meta: Option<Mask>): (r: Table)
    requires meta.Some? ==> meta.value in table
    ensures meta.None? ==> r == table
    ensures meta.Some? ==> var m := meta.value;
              && (m in r <==> table[m].sharedCount > 1)
              && (m in r ==> r[m] == table[m].(sharedCount := table[m].sharedCount - 1))
              && forall x :: x != m ==> (x in r <==> x in table) && (x in r ==> r[x] == table[x])
  {
    if meta.None? then table
    else
      var m := meta.value;
      if table[m].sharedCount <= 1 then table - {m}
      else table[m := table[m].(sharedCount := table[m].sharedCount - 1)]
  }

  /** The number of records linked to the descriptor of m. */
  function Tally<K>(links: map<K, Mask>, m: Mask): nat
  {
    |set k | k in links && links[k] == m|
  }

  /**
   * The table agrees with the records linked to it: every linked mask has an
   * entry, every entry is the dense packing of its mask, and its count is the
   * number of records linked to it, never zero.
   */
  ghost predicate RefCountOk<K>(table: Table, links: map<K, Mask>)
  {
    && (forall k :: k in links ==> links[k] in table)
    && (forall m :: m in table ==>
          table[m].dense == Dense(m) && table[m].sharedCount == Tally(links, m) && table[m].sharedCount > 0)
  }

  lemma TallyRemove<K>(links: map<K, Mask>, k: K, x: Mask)
    ensures Tally(links - {k}, x) + (if k in links && links[k] == x then 1 else 0) == Tally(links, x)
  {
    var a := set j | j in links - {k} && (links - {k})[j] == x;
    var b := set j | j in links && links[j] == x;
    if k in links && links[k] == x {
      assert b == a + {k};
    } else {
      assert b == a;
    }
  }

  lemma TallyAdd<K>(links: map<K, Mask>, k: K, m: Mask, x: Mask)
    requires k !in links
    ensures Tally(links[k := m], x) == Tally(links, x) + (if x == m then 1 else 0)
  {
    var a := set j | j in links && links[j] == x;
    var grown := links[k := m];
    var b := set j | j in grown && grown[j] == x;
    if x == m {
      assert b == a + {k};
    } else {
      assert b == a;
    }
  }

  /** connect keeps the table in step with the records linked to it. */
  lemma ConnectKeepsRefCount<K>(table: Table, links: map<K, Mask>, k: K, m: Mask)
    requires RefCountOk(table, links) && k !in links
    ensures RefCountOk(Attach(table, m), links[k := m])
  {
    var r := Attach(table, m);
    forall x | x in r
      ensures r[x].sharedCount == Tally(links[k := m], x)
    {
      TallyAdd(links, k, m, x);
    }
  }

  /** disconnect keeps the table in step with the records linked to it. */
  lemma DisconnectKeepsRefCount<K>(table: Table, links: map<K, Mask>, k: K)
    requires RefCountOk(table, links) && k in links
    ensures RefCountOk(Detach(table, Some(links[k])), links - {k})
  {
    var m := links[k];
    var r := Detach(table, Some(m));
    forall x | x in table
      ensures Tally(links - {k}, x) == table[x].sharedCount - (if x == m then 1 else 0)
    {
      TallyRemove(links, k, x);
    }
    forall j | j in links - {k}
      ensures (links - {k})[j] in r
    {
      var y := links[j];
      if y == m {
        assert j in (set i | i in links - {k} && (links - {k})[i] == m);
      }
    }
  }

  /**
   * disconnect followed by connect to mask m, for a record whose descriptor
   * link is meta (null exactly when it is not linked): the table stays in
   * step with the records, now with the record linked to m.
   */
  lemma RelinkKeepsRefCount<K>(table: Table, links: map<K, Mask>, k: K, meta: Option<Mask>, m: Mask)
    requires RefCountOk(table, links)
    requires meta.Some? <==> k in links
    requires meta.Some? ==> meta.value == links[k]
    ensures meta.Some? ==> meta.value in table
    ensures RefCountOk(Attach(Detach(table, meta), m), links[k := m])
  {
    if meta.Some? {
      DisconnectKeepsRefCount(table, links, k);
      ConnectKeepsRefCount(Detach(table, meta), links - {k}, k, m);
      assert (links - {k})[k := m] == links[k := m];
    } else {
      ConnectKeepsRefCount(table, links, k, m);
    }
  }

  /**
   * A record that stops being linked while the table keeps its count (what
   * dom.h's destroyEntity does, which never disconnects) leaves the table
   * counting one record too many: the invariant is lost.
   */
  lemma DestroyWithoutDisconnectBreaksRefCount<K>(table: Table, links: map<K, Mask>, k: K)
    requires RefCountOk(table, links) && k in links
    ensures links[k] in table && table[links[k]].sharedCount == Tally(links - {k}, links[k]) + 1
    ensures !RefCountOk(table, links - {k})
  {
    TallyRemove(links, k, links[k]);
  }

  /** std::pair<ComponentHandle, CINDEX>: an instantiated component and its type id. */
  datatype Pending = Pending(handle: Handle, id: nat)

  predicate IdsIn(pack: seq<Pending>, n: nat)
  {
    forall i :: 0 <= i < |pack| ==> pack[i].id < n
  }

  /** The type ids of a pack. */
  function Types(pack: seq<Pending>): set<nat>
  {
    set i | 0 <= i < |pack| :: pack[i].id
  }

  /** A prefix of a pack of distinct types grows by one type, one it did not name yet. */
  lemma TypesSnoc(pack: seq<Pending>, i: nat)
    requires i < |pack| && forall a, b :: 0 <= a < b < |pack| ==> pack[a].id != pack[b].id
    ensures Types(pack[..i + 1]) == Types(pack[..i]) + {pack[i].id}
    ensures pack[i].id !in Types(pack[..i])
  {
    assert pack[..i + 1] == pack[..i] + [pack[i]];
  }

  /**
   * ComponentUnpacker::unpack as dom.h writes it: walks the pack left to
   * right and keeps components while their type is absent from the mask, but
   * stops at the first type the entity already has, so nothing after it is
   * kept. The mask is not updated during the walk, so a repeated type is kept
   * twice.
   */
  function Unpack(mask: Mask, pack: seq<Pending>): (kept: seq<Pending>)
    requires IdsIn(pack, |mask|)
    ensures |kept| <= |pack| && kept == pack[..|kept|]
    ensures forall i :: 0 <= i < |kept| ==> !mask[kept[i].id]
    ensures |kept| < |pack| ==> mask[pack[|kept|].id]
  {
    if pack == [] || mask[pack[0].id] then []
    else [pack[0]] + Unpack(mask, pack[1..])
  }

  /**
   * An entity holding type 0 and asked for types 0 and 1 gets neither: the
   * walk stops at type 0, and type 1's instantiated component is never
   * attached.
   */
  lemma UnpackStopsAtPresentType()
    ensures var pack := [Pending(Handle(0, 0), 0), Pending(Handle(0, 0), 1)];
            var mask := [true, false];
            && !mask[1] && 1 in Types(pack)
            && Unpack(mask, pack) == []
  {
    var pack := [Pending(Handle(0, 0), 0), Pending(Handle(0, 0), 1)];
    assert pack[1].id == 1;
  }

  /** A pack naming the same absent type twice is kept whole by Unpack. */
  lemma UnpackKeepsDuplicates()
    ensures var pack := [Pending(Handle(0, 0), 0), Pending(Handle(0, 1), 0)];
            Unpack([false], pack) == pack
  {
    var pack := [Pending(Handle(0, 0), 0), Pending(Handle(0, 1), 0)];
    assert pack[1..] == [Pending(Handle(0, 1), 0)];
  }

  /**
   * The unpacker as its comment intends ("do not add if such a component is
   * already assigned"): every component whose type is neither on the entity
   * nor earlier in the pack is kept, in pack order; the others are skipped
   * and the walk goes on.
   */
  function UnpackFresh(mask: Mask, pack: seq<Pending>): (kept: seq<Pending>)
    requires IdsIn(pack, |mask|)
    ensures IdsIn(kept, |mask|)
    ensures forall i :: 0 <= i < |kept| ==> !mask[kept[i].id]
    ensures forall i, j :: 0 <= i < j < |kept| ==> kept[i].id != kept[j].id
    ensures forall i :: 0 <= i < |kept| ==> kept[i] in pack
    ensures forall t :: t in Types(pack) ==> t < |mask| && (mask[t] || t in Types(kept))
    decreases |pack|
  {
    if pack == [] then []
    else if mask[pack[0].id] then
      var rest := UnpackFresh(mask, pack[1..]);
      assert Types(pack) == {pack[0].id} + Types(pack[1..]) by {
        TypesCons(pack);
      }
      rest
    else
      var rest := UnpackFresh(mask[pack[0].id := true], pack[1..]);
      var kept := [pack[0]] + rest;
      assert Types(pack) == {pack[0].id} + Types(pack[1..]) by {
        TypesCons(pack);
      }
      assert Types(kept) == {pack[0].id} + Types(rest) by {
        TypesCons(kept);
        assert kept[1..] == rest;
      }
      kept
  }

  /** No type earlier in the pack than position i is the type of pack[i]. */
  predicate FirstOf(pack: seq<Pending>, i: nat)
    requires i < |pack|
  {
    forall j :: 0 <= j < i ==> pack[j].id != pack[i].id
  }

  /**
   * The intended unpacker keeps the first component the pack offers for
   * every type the entity lacks.
   */
  lemma {:induction false} UnpackFreshKeepsFirst(mask: Mask, pack: seq<Pending>, i: nat)
    requires IdsIn(pack, |mask|) && i < |pack| && !mask[pack[i].id] && FirstOf(pack, i)
    ensures pack[i] in UnpackFresh(mask, pack)
    decreases |pack|
  {
    if i > 0 {
      var m := if mask[pack[0].id] then mask else mask[pack[0].id := true];
      assert pack[1..][i - 1] == pack[i];
      assert pack[i].id != pack[0].id;
      assert FirstOf(pack[1..], i - 1) by {
        forall j | 0 <= j < i - 1
          ensures pack[1..][j].id != pack[1..][i - 1].id
        {
          assert pack[1..][j] == pack[j + 1];
        }
      }
      UnpackFreshKeepsFirst(m, pack[1..], i - 1);
    }
  }

  /** No component appears twice in the pack (each instantiator holds its own component). */
  predicate DistinctPack(pack: seq<Pending>)
  {
    forall i, j :: 0 <= i < j < |pack| ==> pack[i] != pack[j]
  }

  /**
   * An entry the entity already has the type of, or whose type an earlier
   * entry names: the unpacker attaches it to nothing.
   */
  predicate Skipped(mask: Mask, pack: seq<Pending>, i: nat)
    requires IdsIn(pack, |mask|) && i < |pack|
  {
    mask[pack[i].id] || !FirstOf(pack, i)
  }

  /**
   * In a pack of distinct components, the intended unpacker keeps no
   * skipped entry: the component of a skipped entry is never attached.
   */
  lemma {:induction false} UnpackFreshSkips(mask: Mask, pack: seq<Pending>, i: nat)
    requires IdsIn(pack, |mask|) && DistinctPack(pack) && i < |pack| && Skipped(mask, pack, i)
    ensures pack[i] !in UnpackFresh(mask, pack)
    decreases |pack|
  {
    var m := if mask[pack[0].id] then mask else mask[pack[0].id := true];
    var rest := UnpackFresh(m, pack[1..]);
    assert UnpackFresh(mask, pack) == if mask[pack[0].id] then rest else [pack[0]] + rest;
    DistinctTail(pack);
    if i == 0 {
      assert mask[pack[0].id];
      assert pack[0] !in rest;
    } else {
      assert pack[1..][i - 1] == pack[i];
      SkippedTail(mask, m, pack, i);
      UnpackFreshSkips(m, pack[1..], i - 1);
    }
  }

  /** The tail of a pack of distinct components is one, and holds no copy of the head. */
  lemma DistinctTail(pack: seq<Pending>)
    requires DistinctPack(pack) && pack != []
    ensures DistinctPack(pack[1..]) && pack[0] !in pack[1..]
  {
    forall a, b | 0 <= a < b < |pack[1..]| ensures pack[1..][a] != pack[1..][b] {
      assert pack[1..][a] == pack[a + 1] && pack[1..][b] == pack[b + 1];
    }
    forall k | 0 <= k < |pack[1..]| ensures pack[1..][k] != pack[0] {
      assert pack[1..][k] == pack[k + 1];
    }
  }

  /** A skipped entry past the head stays skipped in the tail, once the head's type is in the mask. */
  lemma SkippedTail(mask: Mask, m: Mask, pack: seq<Pending>, i: nat)
    requires IdsIn(pack, |mask|) && 0 < i < |pack| && Skipped(mask, pack, i)
    requires m == if mask[pack[0].id] then mask else mask[pack[0].id := true]
    ensures IdsIn(pack[1..], |m|) && Skipped(m, pack[1..], i - 1)
  {
    assert pack[1..][i - 1] == pack[i];
    if !mask[pack[i].id] && !m[pack[i].id] {
      var j :| 0 <= j < i && pack[j].id == pack[i].id;
      assert j > 0;
      assert pack[1..][j - 1] == pack[j];
    }
  }

  lemma TypesCons(pack: seq<Pending>)
    requires pack != []
    ensures Types(pack) == {pack[0].id} + Types(pack[1..])
  {
    forall t | t in Types(pack)
      ensures t in {pack[0].id} + Types(pack[1..])
    {
      var i :| 0 <= i < |pack| && pack[i].id == t;
      if i > 0 {
        assert pack[1..][i - 1].id == t;
      }
    }
    forall t | t in Types(pack[1..])
      ensures t in Types(pack)
    {
      var i :| 0 <= i < |pack[1..]| && pack[1..][i].id == t;
      assert pack[i + 1].id == t;
    }
  }

  /**
   * dom.h's placement loop after connect: each kept component goes to the
   * position the new mask's descriptor gives its type, and when that position
   * is past the end the list is first resized to position + 1 with zero
   * handles.
   */
  function ResizeInsert(list: seq<Handle>, kept: seq<Pending>, dense: map<nat, nat>): (r: seq<Handle>)
    requires forall i :: 0 <= i < |kept| ==> kept[i].id in dense
    decreases |kept|
  {
    if kept == [] then list
    else
      var pos := dense[kept[0].id];
      var padded := if pos > |list| then list + seq(pos + 1 - |list|, _ => Handle(0, 0)) else list;
      ResizeInsert(padded[..pos] + [kept[0].handle] + padded[pos..], kept[1..], dense)
  }

  /**
   * Adding types 1 and then 0 to an entity with no components: the list
   * ends up with four entries for a mask of two bits.
   */
  lemma ResizeInsertBreaksListLength()
    ensures var kept := [Pending(Handle(0, 7), 1), Pending(Handle(0, 5), 0)];
            var mask := [true, true];
            && Popcount(mask) == 2
            && |ResizeInsert([], kept, Dense(mask))| == 4
  {
    var mask := [true, true];
    var kept := [Pending(Handle(0, 7), 1), Pending(Handle(0, 5), 0)];
    assert Rank(mask, 1) == 1 && Rank(mask, 0) == 0 && Rank(mask, 2) == 2;
    assert 0 in Dense(mask) && 1 in Dense(mask);
    var l1 := [Handle(0, 0)] + [Handle(0, 7)] + [Handle(0, 0)];
    assert seq(2, _ => Handle(0, 0)) == [Handle(0, 0), Handle(0, 0)];
    assert ResizeInsert([], kept, Dense(mask)) == ResizeInsert(l1, kept[1..], Dense(mask));
    assert kept[1..][1..] == [];
  }

  /**
   * The placement loop of batch create for every entity after the first:
   * the list, resized to one zero handle per pack entry, gets each entry's
   * handle written at the dense index of its type, a later entry of a type
   * overwriting an earlier one.
   */
  function DenseWrite(list: seq<Handle>, pack: seq<Pending>, dense: map<nat, nat>): (r: seq<Handle>)
    requires forall i :: 0 <= i < |pack| ==> pack[i].id in dense && dense[pack[i].id] < |list|
    ensures |r| == |list|
    decreases |pack|
  {
    if pack == [] then list
    else DenseWrite(list[dense[pack[0].id] := pack[0].handle], pack[1..], dense)
  }

  /**
   * When the entries' positions are distinct, the dense write leaves each
   * entry's handle at its position and every other position as it was.
   */
  lemma {:induction false} DenseWriteAt(list: seq<Handle>, pack: seq<Pending>, dense: map<nat, nat>)
    requires forall i :: 0 <= i < |pack| ==> pack[i].id in dense && dense[pack[i].id] < |list|
    requires forall i, j :: 0 <= i < j < |pack| ==> dense[pack[i].id] != dense[pack[j].id]
    ensures forall i :: 0 <= i < |pack| ==> DenseWrite(list, pack, dense)[dense[pack[i].id]] == pack[i].handle
    ensures forall k :: 0 <= k < |list| && (forall i :: 0 <= i < |pack| ==> dense[pack[i].id] != k) ==>
              DenseWrite(list, pack, dense)[k] == list[k]
    decreases |pack|
  {
    if pack != [] {
      var pos := dense[pack[0].id];
      var list' := list[pos := pack[0].handle];
      var rest := pack[1..];
      forall i, j | 0 <= i < j < |rest| ensures dense[rest[i].id] != dense[rest[j].id] {
        assert rest[i] == pack[i + 1] && rest[j] == pack[j + 1];
      }
      DenseWriteAt(list', rest, dense);
      var r := DenseWrite(list, pack, dense);
      assert r == DenseWrite(list', rest, dense);
      assert r[pos] == pack[0].handle by {
        forall i | 0 <= i < |rest| ensures dense[rest[i].id] != pos {
          assert rest[i] == pack[i + 1];
        }
      }
      forall i | 0 < i < |pack| ensures r[dense[pack[i].id]] == pack[i].handle {
        assert pack[i] == rest[i - 1];
      }
      forall k | 0 <= k < |list| && (forall i :: 0 <= i < |pack| ==> dense[pack[i].id] != k)
        ensures r[k] == list[k]
      {
        forall i | 0 <= i < |rest| ensures dense[rest[i].id] != k {
          assert rest[i] == pack[i + 1];
        }
        assert dense[pack[0].id] != k;
      }
    }
  }

  /**
   * A pack naming type 0 twice: the batch loop's list has two entries for a
   * one-bit mask, the first entry's handle is overwritten by the second (its
   * component is attached to nothing), and the second entry is zero.
   */
  lemma DenseWriteDuplicateLeaks()
    ensures var pack := [Pending(Handle(0, 1), 0), Pending(Handle(0, 2), 0)];
            var mask := [true];
            var r := DenseWrite(seq(|pack|, _ => Handle(0, 0)), pack, Dense(mask));
            && Popcount(mask) == 1 && |r| == 2
            && r == [Handle(0, 2), Handle(0, 0)] && Handle(0, 1) !in r
  {
    var pack := [Pending(Handle(0, 1), 0), Pending(Handle(0, 2), 0)];
    var mask := [true];
    assert Rank(mask, 0) == 0 && 0 in Dense(mask) && Dense(mask)[0] == 0;
    var zeros := seq(|pack|, _ => Handle(0, 0));
    assert zeros == [Handle(0, 0), Handle(0, 0)];
    var l1 := zeros[0 := Handle(0, 1)];
    assert DenseWrite(zeros, pack, Dense(mask)) == DenseWrite(l1, pack[1..], Dense(mask));
    assert pack[1..][1..] == [];
    assert DenseWrite(l1, pack[1..], Dense(mask)) == l1[0 := Handle(0, 2)];
  }

  /** A pack of distinct types names as many types as it has entries. */
  lemma {:induction false} DistinctTypesCount(pack: seq<Pending>)
    requires forall a, b :: 0 <= a < b < |pack| ==> pack[a].id != pack[b].id
    ensures |Types(pack)| == |pack|
    decreases |pack|
  {
    if pack != [] {
      var rest := pack[1..];
      forall a, b | 0 <= a < b < |rest| ensures rest[a].id != rest[b].id {
        assert rest[a] == pack[a + 1] && rest[b] == pack[b + 1];
      }
      DistinctTypesCount(rest);
      TypesCons(pack);
      forall i | 0 <= i < |rest| ensures rest[i].id != pack[0].id {
        assert rest[i] == pack[i + 1];
      }
      assert pack[0].id !in Types(rest);
    }
  }

  predicate Ascending(kept: seq<Pending>)
  {
    forall i, j :: 0 <= i < j < |kept| ==> kept[i].id < kept[j].id
  }

  /** The type-to-handle view p with every kept component attached. */
  function AttachAll(p: map<nat, Handle>, kept: seq<Pending>): map<nat, Handle>
    decreases |kept|
  {
    if kept == [] then p else AttachAll(p[kept[0].id := kept[0].handle], kept[1..])
  }

  lemma {:induction false} RankAgree(a: Mask, b: Mask, i: nat)
    requires i <= |a| && i <= |b|
    requires forall t :: 0 <= t < i ==> a[t] == b[t]
    ensures Rank(a, i) == Rank(b, i)
    decreases i
  {
    if i > 0 {
      RankAgree(a, b, i - 1);
    }
  }

  /**
   * When the new types come in ascending id order, dom.h's placement loop is
   * right: no position is ever past the end, and the list ends up holding
   * every old and every new handle where the full mask's descriptor looks
   * for it. (The mask m is the one the list is laid out for so far.)
   */
  lemma {:induction false} ResizeInsertAscending(m: Mask, list: seq<Handle>, kept: seq<Pending>, full: Mask)
    requires |list| == Popcount(m) && |full| == |m|
    requires IdsIn(kept, |m|) && Ascending(kept)
    requires forall i :: 0 <= i < |kept| ==> !m[kept[i].id]
    requires forall t :: 0 <= t < |m| ==> (full[t] <==> m[t] || t in Types(kept))
    ensures forall i :: 0 <= i < |kept| ==> kept[i].id in Dense(full)
    ensures |ResizeInsert(list, kept, Dense(full))| == Popcount(full)
    ensures Placement(full, ResizeInsert(list, kept, Dense(full))) == AttachAll(Placement(m, list), kept)
    decreases |kept|
  {
    forall i | 0 <= i < |kept|
      ensures kept[i].id in Dense(full)
    {
      assert kept[i].id in Types(kept);
    }
    if kept == [] {
      assert forall t :: 0 <= t < |m| ==> full[t] == m[t];
      assert full == m;
    } else {
      var t := kept[0].id;
      var h := kept[0].handle;
      TypesCons(kept);
      assert forall u :: 0 <= u < t ==> full[u] == m[u];
      RankAgree(full, m, t);
      RankMono(m, t, |m|);
      var pos := Dense(full)[t];
      assert pos == Rank(m, t) <= |list|;
      var list' := list[..pos] + [h] + list[pos..];
      InsertPlacement(m, list, t, h);
      var m' := m[t := true];
      forall i | 0 <= i < |kept[1..]|
        ensures !m'[kept[1..][i].id]
      {
        assert kept[1..][i] == kept[i + 1];
      }
      ResizeInsertAscending(m', list', kept[1..], full);
      assert ResizeInsert(list, kept, Dense(full)) == ResizeInsert(list', kept[1..], Dense(full));
    }
  }
}
