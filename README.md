# dom: a verified model of an entity-component store

This project models the core of **dom**, a small C++ Entity-Component-System
storage engine, and proves properties of that model in Dafny.

- Entities are handles (a record slot plus a generation).
- Components are values kept in per-type block pools.
- Each entity's record holds three things:
  - a component bitmask;
  - a link to an interned archetype descriptor (`MetaData`), which maps each set bit to a dense index;
  - a handle list laid out in that dense order.

The model covers both versions in the repository:

- **The consolidated `dom.h`.** Covered: `ChunkedArray`, `ComponentTraits`, `MetaData`, `Universe`, `ComponentUnpacker` and `Utility::iterate`.
- **The earlier split version.** Covered: `ChunkedArray.h`, `ComponentTraits.h`, `ComponentManager.h`, `Entity.h` and `Utility.h`.

Modules, one per file:

| file | module | models |
|---|---|---|
| `wrappers.dfy` | `Wrappers` | `Option` and `Result` |
| `bitmask.dfy` | `Bitmask` | `std::bitset` masks as `seq<bool>`; the rank of a bit (its dense index); the type-to-handle view `Placement` of a handle list |
| `chunked_array.dfy` | `ChunkedArrays` | the block pool as a class: blocks of slots with a `contentCount`, the FIFO free queue, and the reuse threshold `REUSE_C` |
| `component_traits.dfy` | `ComponentTraits` | the type-id counter and the ids it remembers, as a `TypeRegistry` class |
| `component_manager.dfy` | `ComponentManagers` | `ComponentManager` / `Universe::mManagers`: one pool per type id, created lazily |
| `archetype.dfy` | `Archetypes` | the `MetaData` constructor; connect and disconnect on the interned table; the unpacker; the resize-then-insert placement loop |
| `universe_model.dfy` | `UniverseModel` | the store as a value `State` with its invariant `Inv`, and `ViewOf`: every valid entity with its components by type id |
| `universe_steps.dfy` | `UniverseSteps` | one transition lemma per `Universe` operation: it keeps `Inv` and says what the operation does to the view |
| `universe.dfy` | `Universes` | `class Universe`, whose methods mutate the pools, generations and descriptor table, and are proved against `View()` |
| `legacy_mask.dfy` | `LegacyMasks` | value-level facts about the `Entity.h` entity: its mask, the order of its handle list, and the descriptor tables of the instantiations of `add` |
| `legacy_entity.dfy` | `LegacyEntities` | the `Entity.h` entity as a class: `has`, `add`, `get`, `modify`, and the function-local static descriptor table of each `add<C, PARAM...>` instantiation |
| `utility.dfy` | `Utilities` | `Utility::iterate` and `ComponentChecker` as functions over entities and their components |

Component types are represented by their ids. Component values of every type share one type parameter `V`.

## Model

| member | source | states |
|---|---|---|
| Bitmask.EmptyMask | dom.h:306 | a default bitset has `COMP_TOTAL` bits, none set |
| Bitmask.DenseIsPacking | dom.h:654-663 | the dense indices of a mask number exactly its set bits: distinct, increasing with the bit, and covering 0 .. popcount-1 |
| Bitmask.InsertPlacement | dom.h:801-808 | inserting a new type's handle at its rank keeps every other type's handle where the grown mask's descriptor looks for it, and the list length equals the popcount |
| Bitmask.RemovePlacement | dom.h:836-838 | erasing type t's entry and clearing bit t keeps every other type's handle at the right dense index |
| Bitmask.PlacementKeys | dom.h:823-826 | a list with one entry per set bit places a handle for exactly the set bits |
| Bitmask.RankIsCount | dom.h:654-663 | the dense index of bit i is the number of set bits below i |
| ChunkedArrays.ChunkedArray.constructor | dom.h:482-487 | a new pool has exactly one empty block and an empty free queue; its first add returns (0, 0) |
| ChunkedArrays.ChunkedArray.BlockCount | dom.h:541-545 | blockCount is at least 1 for every valid pool |
| ChunkedArrays.ChunkedArray.Add | dom.h:490-518 | add picks the front of the queue when the queue is longer than REUSE_C; otherwise it opens a new block when the last is used up, or the next slot of the last block. The picked slot is never live, it now holds v, its block's count goes up by one, and no other slot changes |
| ChunkedArrays.ChunkedArray.AddReused | ChunkedArray.h:114-118 | the reuse branch returns the front of the free queue and removes it (FIFO) |
| ChunkedArrays.ChunkedArray.AddFresh | ChunkedArray.h:119-131 | with a used-up last block, a block is appended and (newLast, 0) is returned; otherwise (last, next unused index) |
| ChunkedArrays.ChunkedArray.Get | ChunkedArray.h:138-148 | get returns the value that the add returning h constructed there, while h is live |
| ChunkedArrays.ChunkedArray.Set | dom.h:520-524 | a write through get's reference changes that slot only |
| ChunkedArrays.ChunkedArray.Destroy | ChunkedArray.h:150-156 | destroy decrements the block's count, vacates the slot and queues it. With no threshold and an empty queue, the next add returns that handle |
| ChunkedArrays.PickIsFree | dom.h:494-512 | the intended choice never hands out a live slot |
| ChunkedArrays.SourcePickAgreesWithoutThreshold | ChunkedArray.h:114-131 | with REUSE_C = 0, the contentCount-based choice of the code equals the intended choice, so ChunkedArray.h and the component pools are correct |
| ChunkedArrays.SourcePickCanReturnLiveSlot | dom.h:499-510 | with REUSE_C > 0 the code's choice can be a live slot (concrete state) |
| ChunkedArrays.BlockSizeTwoScenario | ChunkedArray.h:109-136 | with block size 2, three adds return (0,0), (0,1), (1,0) and leave exactly two blocks; after a destroy the next add reuses the freed slot |
| ChunkedArrays.ReuseThresholdScenario | dom.h:490-518 | with block size 4 and REUSE_C = 1, adds return (0,0) and (0,1); after destroying (0,0), the code's choice for the next add is (0,1) while that slot is live, and the corrected add returns (0,2) |
| ComponentTraits.TypeRegistry.NewID | ComponentTraits.h:69-81 | newID returns the counter and increments it, or throws ComponentCountError once COMP_TOTAL ids exist and leaves the counter unchanged |
| ComponentTraits.TypeRegistry.GetID | ComponentTraits.h:83-88 | a type's first request gets the next id, which is remembered; later requests return it without touching the counter. Ids are distinct and below COMP_TOTAL; a refused type is refused again |
| ComponentTraits.RegisterKeepsInv | dom.h:558-577 | registering a new type keeps all issued ids distinct and below the counter, which stays at most COMP_TOTAL |
| ComponentTraits.RegistryScenario | ComponentTraits.h:90-91 | with COMP_TOTAL = 2: ids 0 and 1, the same id again, and a third type refused twice with the error message |
| ComponentManagers.ComponentManager.constructor | ComponentManager.h:47 | a new manager holds no pool and no component |
| ComponentManagers.ComponentManager.EnsurePool | ComponentManager.h:72-77 | type t's pool is created (one empty block) only when it does not exist; an existing pool is kept |
| ComponentManagers.ComponentManager.AssignComponent | ComponentManager.h:70-80 | the pool is created on first use, and the result is exactly the handle that pool's add returns. That slot was not live and now holds v; nothing else changes |
| ComponentManagers.ComponentManager.Get | ComponentManager.h:82-96 | getComponent returns the value live in type t's pool at h |
| ComponentManagers.ComponentManager.Destroy | ComponentManager.h:98-102 | destroy(cid, h) vacates that one slot and queues h as the newest free slot of that pool; the set of pools, every other pool's queue and top, and every other slot are unchanged |
| ComponentManagers.PutFrame | ComponentManager.h:98-102 | rewriting one pool at one handle changes no other component |
| Archetypes.NewMetaData | dom.h:654-663 | the counter loop gives every set bit the number of set bits below it; the shared count starts at 0 (the EntityData constructor of Entity.h is the same loop) |
| Archetypes.Attach | dom.h:856-866 | connect finds or creates the descriptor for the mask and increments its count; no other entry changes |
| Archetypes.Detach | dom.h:868-880 | disconnect does nothing for a null link; otherwise it decrements the count and erases the entry when the count reaches 0 |
| Archetypes.ConnectKeepsRefCount | dom.h:856-866 | connect keeps every count equal to the number of records linked to its mask |
| Archetypes.DisconnectKeepsRefCount | dom.h:868-880 | disconnect keeps every count equal to the number of records linked to its mask |
| Archetypes.RelinkKeepsRefCount | dom.h:838-843 | disconnect then connect keeps the counts right, whether or not the record was linked |
| Archetypes.DestroyWithoutDisconnectBreaksRefCount | dom.h:761-776 | dropping a record without disconnect leaves its descriptor counting one record too many |
| Archetypes.Unpack | dom.h:426-443 | the unpacker as written keeps a prefix of the pack and stops at the first type already present |
| Archetypes.UnpackStopsAtPresentType | dom.h:436-442 | an entity with type 0 that is given types 0 and 1 gets neither |
| Archetypes.UnpackKeepsDuplicates | dom.h:436-442 | a pack naming an absent type twice keeps both entries |
| Archetypes.UnpackFresh | dom.h:436 | the intended unpacker keeps distinct types the entity lacks, and skips the rest without stopping |
| Archetypes.UnpackFreshKeepsFirst | dom.h:436 | the intended unpacker keeps the first pack entry for every type the entity lacks |
| Archetypes.UnpackFreshSkips | dom.h:436-442 | in a pack of distinct components, an entry whose type the entity has, or that repeats an earlier type, is not kept by the intended unpacker |
| Archetypes.DistinctTypesCount | dom.h:748-754 | a pack with no repeated type names exactly as many types as it has entries |
| Archetypes.ResizeInsertBreaksListLength | dom.h:801-808 | adding types 1 then 0 to an empty entity leaves four list entries for two bits |
| Archetypes.ResizeInsertAscending | dom.h:801-808 | with ascending type ids the resize never fires; the list length equals the popcount and every type sits at its dense index |
| Archetypes.DenseWriteAt | dom.h:748-754 | the batch loop's dense write leaves, for a pack whose types have distinct dense indices, each entry's handle at its type's index and every other position untouched |
| Archetypes.DenseWriteDuplicateLeaks | dom.h:748-754 | a batch pack naming type 0 twice gives a list of two handles for one bit, with the first component in no position (it leaks) |
| UniverseModel.SameEntity | dom.h:202-204 | handle == holds exactly when block, index and generation are all equal |
| UniverseModel.Accommodate | dom.h:847-853 | the generation table grows with zeros to cover the slot's index and keeps existing generations |
| UniverseModel.IdInjective | dom.h:668 | distinct slots have distinct generation-table indices |
| UniverseModel.RecordOf | dom.h:820-826 | the record of a valid entity is live and satisfies the record invariant: list length equals popcount, each type's live component sits at its dense index, and the link is null or to its own mask |
| UniverseModel.CompsAt | dom.h:780-784 | a valid entity has a component exactly for the types whose bits are set |
| UniverseModel.HandleAt | dom.h:820-826 | getComponent's lookup through the linked descriptor finds the handle placed for the type |
| UniverseModel.IndexesAt | dom.h:765-771 | every set bit of a valid record indexes its placed handle through the table |
| UniverseSteps.WithoutPlacement | dom.h:830-844 | the record removeComponent leaves (bit t cleared, t's dense entry erased, linked to the new mask) places exactly what the old record placed except t, with one handle per set bit |
| UniverseModel.LeftoversUnkept | dom.h:436-442 | the components the intended unpacker skips are exactly the pack entries it does not keep |
| UniverseSteps.CreateStep | dom.h:673-679 | create adds a new handle, never returned before, that is valid and has no components; the view gains only it |
| UniverseSteps.InstantiateStep | dom.h:893-906 | instantiating a component into a free slot changes no entity |
| UniverseSteps.ModifyStep | dom.h:812-817 | a write through modifyComponent changes only that component of that entity |
| UniverseSteps.DestroyStep | dom.h:761-776 | destroying a valid entity, disconnected, keeps the invariant, invalidates the handle and removes only that entity from the view |
| UniverseSteps.RemoveStep | dom.h:830-844 | removing a present type keeps the invariant; the entity loses exactly that component |
| UniverseSteps.AddStep | dom.h:788-809 | attaching kept components keeps the invariant; the entity gains exactly their values |
| UniverseSteps.AddComponentStep | dom.h:788-809 | the corrected addComponent gives the entity every type it had or the pack names, keeps old values, and gives each new type its first pack value |
| UniverseSteps.AddedValues | dom.h:436-442 | with the intended unpacker, each new type gets the value of the first pack entry naming it |
| UniverseSteps.DiscardStep | dom.h:436-442 | destroying a live component no entity owns keeps the invariant and changes no entity |
| UniverseSteps.LeftoversLoose | dom.h:788-809 | after attaching the kept components, every skipped component is still live and owned by no entity, and every kept one is owned by the entity |
| UniverseSteps.DestroyDiscards | dom.h:765-772 | the destroy loop vacates exactly the components the entity owns and no other slot |
| Universes.Place | dom.h:801-808 | the corrected placement loop sets exactly the kept bits and keeps the list packed with every type at its dense index, whatever the pack order |
| Universes.NoLeak | dom.h:684-697 | a component created during create<C...>() that is still live afterwards belongs to the new entity |
| Universes.FirstValues | dom.h:692-697 | the components built from a list of instantiators: every named type, with its first value |
| Universes.FirstValuesUnique | dom.h:692-697 | FirstValues is the only such map |
| Universes.Universe.constructor | dom.h:334 | an empty universe has no entity, no pool and no descriptor |
| Universes.Universe.IsValid | dom.h:665-669 | valid(e) holds exactly when e is in the view, and then its record slot is live |
| Universes.Universe.HasComponent | dom.h:780-784 | hasComponent holds exactly when the entity has a component of the type |
| Universes.Universe.HandleOf | dom.h:822-826 | the dense-index lookup returns the handle of the entity's component of that type |
| Universes.Universe.GetComponent | dom.h:819-827 | getComponent returns the entity's component of that type |
| Universes.Universe.Create | dom.h:673-679 | create returns a handle never returned before, valid, with no components; no other entity changes |
| Universes.Universe.Instantiate | dom.h:893-906 | the instantiator creates the pool lazily and adds an unattached component; the view is unchanged |
| Universes.Universe.ModifyComponent | dom.h:812-817 | the entity's component of type t becomes v, and nothing else changes |
| Universes.Universe.DestroyComponents | dom.h:765-772 | the loop vacates exactly the components the record places |
| Universes.Universe.DestroyEntity | dom.h:761-776 | an invalid handle changes nothing, components and ownership included. Otherwise exactly the entity's own components are vacated and every other slot keeps its contents, the entity owns nothing, the slot is freed and its generation incremented, so the handle is invalid; only that entity leaves the view |
| Universes.Universe.RemoveComponent | dom.h:830-844 | an absent type is a no-op, components and ownership included; otherwise the entity loses exactly that component, whose slot alone is vacated and which no entity owns any more; the handle stays valid and other entities are unchanged |
| Universes.Universe.Relink | dom.h:838-843 | the record is disconnected from its old descriptor and connected to its new mask's descriptor |
| Universes.Universe.AttachPack | dom.h:788-809 | addComponent with the intended unpacker but without destroying skipped components: the entity gains each new type with its first pack value, and every skipped component stays live, owned by no entity |
| Universes.Universe.DiscardOne | dom.h:436-442 | destroying one unowned component vacates that slot alone and changes no entity |
| Universes.Universe.Discard | dom.h:436-442 | the skipped components of a pack, and only they, are vacated; no entity changes |
| Universes.Universe.AddComponent | dom.h:788-809 | corrected addComponent: the entity has every type it had or the pack names, old components keep their values, each new type gets its first pack value and is owned by the entity, every skipped pack component is destroyed and no other slot changes, and no other entity changes |
| Universes.Universe.CreateWith | dom.h:692-697 | create(ci...) returns a new entity with exactly the pack's types and first values, each owned by it; the repeated-type components are destroyed and no other slot or entity changes |
| Universes.Universe.InstantiateAll | dom.h:684-688 | one new unattached component per instantiator, holding its value |
| Universes.Universe.CreateFrom | dom.h:684-688 | create<C...>() returns a new entity holding FirstValues of the instantiators; every component it created that is still live belongs to that entity |
| Universes.Universe.CreateMany | dom.h:730-755 | count new, distinct entities, each holding FirstValues, in creation order; existing entities are unchanged |
| Universes.Universe.CreateBatch | dom.h:700-758 | batch create as written makes n + 1 entities for n > 0 |
| Universes.Universe.CreateBatchExact | dom.h:347-349 | batch create as documented makes exactly n new entities, each holding FirstValues |
| Universes.BatchFirstPlacement | dom.h:717-733 | for a pack in ascending type order, the first batch entity's resize-then-insert list has one entry per bit with each type's handle at its dense index |
| Universes.BatchLoopPlacement | dom.h:748-754 | for a pack with no repeated type, in any order, the loop entities' dense-write list has one entry per bit with each type's handle at its dense index |
| Universes.Universe.CheckComponents | dom.h:942-960 | ComponentChecker holds exactly when the entity has every requested type |
| Universes.Universe.ValuesOf | dom.h:937 | the references iterate passes are the entity's components of the requested types, in order |
| Universes.Universe.WriteBack | dom.h:937 | the callback's writes through those references update the entity's components in order; no other entity changes |
| Universes.Universe.VisitOne | dom.h:933-938 | one loop step checks the entity and, on a hit, applies the callback's writes |
| Universes.Universe.Iterate | dom.h:927-938 | iterate yields Run of the old view, and the callback ran exactly for Visits, in list order |
| Utilities.Gather | Utility.h:59 | the callback receives one value per requested type, that type's component |
| Utilities.WritesLast | Utility.h:59 | the writes keep the entity's types; unnamed types keep their values, and a type gets its last write |
| Utilities.HasAllCons | Utility.h:64-82 | the check is has of the first type and the check of the rest |
| Utilities.RunKeepsKeys | Utility.h:55-61 | iterate adds and removes no entity and no component |
| Utilities.RunUntouched | Utility.h:57-59 | an entity not in the list, or one lacking a requested type, is not touched |
| Utilities.RunVisitsOnce | Utility.h:55-61 | an entity listed once that has every requested type ends with the callback's writes applied |
| Utilities.VisitsExactly | Utility.h:57 | the callback runs for an entity exactly when it is listed and has every requested type |
| Utilities.VisitsAfterVisit | Utility.h:55-61 | a visit changes no entity's types, so later checks see the same entities |
| Utilities.IterateStep | Utility.h:55-61 | each loop step advances the single in-order pass by one entity |
| LegacyEntities.Entity.constructor | Entity.h:194-202 | Entity::create gives an entity with no bits, no handles and no descriptor |
| LegacyEntities.Entity.Has | Entity.h:147-152 | has holds exactly for the types added |
| LegacyEntities.Entity.HandleFor | Entity.h:177-183 | the lookup returns a handle of the list; it is the type's own handle when types were added in ascending id order |
| LegacyEntities.Entity.Get | Entity.h:177-183 | get returns the component at that handle, which is the type's own component with ascending adds |
| LegacyEntities.Entity.Modify | Entity.h:186-192 | a write through modify changes that one component |
| LegacyEntities.Entity.Add | Entity.h:155-174 | add on a present type returns false and changes nothing. Otherwise it returns true, sets the bit, and links the entity to the descriptor for the new mask in the static table of this `add<C, PARAM...>` instantiation (created on first use, count + 1); the other instantiations' tables are unchanged. It appends exactly one fresh handle holding v, which is (0, 0) when the type's pool did not exist yet |
| LegacyEntities.Entity.Connect | Entity.h:159-168 | the descriptor for the mask in the calling instantiation's own static table is found or created, gains one sharer, and is linked; no other instantiation's table changes |
| LegacyEntities.Entity.Record | Entity.h:162-170 | the entity's own side of add keeps mask, descriptor link and list consistent |
| LegacyEntities.Entity.AssignTracked | Entity.h:169 | the manager side of add keeps every listed handle live and adds the new one |
| LegacyMasks.MaskOfBits | Entity.h:160-162 | the mask holds exactly the types added |
| LegacyMasks.ConsistentAdd | Entity.h:160-170 | adding an absent type keeps mask, popcount and added list consistent |
| LegacyMasks.FieldsAdd | Entity.h:159-170 | add keeps the entity's fields consistent with the descriptor tables, linked to the new mask's descriptor in the table of the instantiation that ran |
| LegacyMasks.Connected | Entity.h:159-168 | a connect in one instantiation attaches the mask in that instantiation's table (empty if it never ran) and leaves every other table as it was |
| LegacyMasks.ConnectedTouchesOne | Entity.h:159-168 | a connect changes only its own descriptor: every other descriptor, in any table, exists afterwards exactly when it did before, with the same contents |
| LegacyMasks.SharedTableJoinsSharers | Entity.h:42-44 | with one table for all instantiations, the connects of two entities that reach {0, 1} in different orders end on a single descriptor counting both |
| LegacyEntities.SplitDescriptorsScenario | Entity.h:155-174 | x adds types 0 then 1 and y adds types 1 then 0: both end with mask {0, 1}, yet they are linked to two different descriptors, each with count 1 |
| LegacyMasks.RankIsAddOrder | Entity.h:170-181 | the descriptor's dense index of each added type equals its list position exactly when the types were added in ascending id order |
| LegacyMasks.DescendingAddsMisplaceGet | Entity.h:170 | the arithmetic step of DescendingAddsScenario: after adding type 1 then type 0, type 1's dense index is 1 while its handle sits at position 0 |
| LegacyEntities.DescendingAddsScenario | Entity.h:155-183 | on an entity whose manager already holds a type-0 component, add of type 1 and then of type 0 makes get<1>()'s lookup return type 0's handle: not the entity's own type-1 handle (0, 0), and no type-1 component lives there |

## Left out

- Raw memory is not modelled: allocation, placement construction and destruction, allocation hints and destructors. Blocks are sequences of slots that are unused, hold a value or were vacated.
- Fixed-width integers are unbounded here. The `unsigned short` generations and handle fields and the `CINDEX` counter do not wrap.
- Descriptor tables are keyed by the mask itself. The code computes `bitset::to_ullong` and stores it in an `unordered_map` keyed by `unsigned long` (dom.h:414), so the key is narrowed to `unsigned long`. With a 32-bit `long`, two masks that differ only in bits 32 and above share one descriptor, and `to_ullong` throws `std::overflow_error` when COMP_TOTAL > 64 and a high bit is set. Neither the narrowing, the overflow nor the hashing is modelled.
- Component payloads are one opaque type `V`. Types are ids below COMP_TOTAL, and a registry's type names are strings.
- The `std::function` callbacks of iterate and batch create are modelled as pure Dafny functions (iterate) or left out (batch create emits the handles as a list instead of calling f).
- Universes.Universe.Iterate: requires every listed handle to be valid, because `modify` on a destroyed entity reads freed memory.
- The operations below require `IsValid(e)`. In the code only destroyEntity checks validity (dom.h:764); the others read `mEntityData.get(e.mHandle)` directly (dom.h:781-844). With a stale handle whose record slot was reused, the code acts on the new entity in that slot; with a vacated slot it reads a destroyed record. Neither case is modelled.
- Universes.Universe.HasComponent: requires `IsValid(e)`; the code does not check it (dom.h:781-784).
- Universes.Universe.HandleOf: requires `IsValid(e)`; the code does not check it (dom.h:822-823).
- Universes.Universe.GetComponent: requires `IsValid(e)`; the code does not check it (dom.h:820-827).
- Universes.Universe.ModifyComponent: requires `IsValid(e)`; the code does not check it (dom.h:813-816).
- Universes.Universe.RemoveComponent: requires `IsValid(e)`; the code does not check it (dom.h:831-844).
- Universes.Universe.AttachPack: requires `IsValid(e)`; the code does not check it (dom.h:789-809).
- Universes.Universe.AddComponent: requires `IsValid(e)`; the code does not check it (dom.h:789-809).
- Universes.Universe.CheckComponents: requires `IsValid(e)`; the code does not check it (through hasComponent, dom.h:781-784).
- Universes.Universe.ValuesOf: requires `IsValid(e)`; the code does not check it (through getComponent, dom.h:820-827).
- Universes.Universe.WriteBack: requires `IsValid(e)`; the code does not check it (through modifyComponent, dom.h:813-816).
- Universes.Universe.VisitOne: requires `IsValid(e)`; the code does not check it (through hasComponent and modifyComponent).
- Universes.Universe.Iterate: requested types are assumed distinct in effect. With a repeated type, the callback's references alias; the model applies its writes in order, so the last write wins.
- LegacyEntities.Entity.Get: requires `has` and a live slot. The doc comment promises a "No-Component-Found" error, but the code has no such check and its behaviour is undefined.
- LegacyEntities.Entity.Modify: the same precondition as Get.
- LegacyEntities.Entity.HandleFor: promises the type's own handle only for ascending adds, because the code appends in add order (Finding 8).
- LegacyEntities.Entity.Add: an instantiation `add<C, PARAM...>` is identified by the id of C and an opaque number for the argument types PARAM...; the model does not derive that number from C++ types, so it is the caller's to choose. Each instantiation keeps its own table, as the code does (Finding 9).
- LegacyEntities.Entity.Extend: assigns the component before recording the bit and the descriptor, whereas the code records first. The two steps touch disjoint state, so the end state is the same.
- Entity.create leaves `mMetaData` uninitialised; the model starts it as null (`None`). The `~Entity` destructor is a TODO in the code and is not modelled.
- Universe::create leaves the record's descriptor link null until the first add; the model follows the code.
- Universes.Universe.DestroyEntity: models the corrected destroy, which disconnects the record (Finding 4). The code's version is captured by Archetypes.DestroyWithoutDisconnectBreaksRefCount.
- Universes.Universe.AddComponent: models the corrected unpacker and placement and destroys the skipped components (Findings 2, 3 and 6). The code's versions are Archetypes.Unpack, Archetypes.ResizeInsert and Universes.Universe.AttachPack.
- Universes.Universe.HandleOf: requires `HasComponent(e, t)`. The doc comment (dom.h:375-384) promises a "No-Component-Found" error when has<C>() is false, but the code does not check: the descriptor's dense array is written only for set bits (dom.h:654-663), so the lookup reads an indeterminate index, and for an entity with no component yet it dereferences a null descriptor (dom.h:822-823).
- Universes.Universe.GetComponent: requires `HasComponent(e, t)`. The doc comment (dom.h:375-384) promises a "No-Component-Found" error when has<C>() is false, but the code does not check: the descriptor's dense array is written only for set bits (dom.h:654-663), so the lookup reads an indeterminate index, and for an entity with no component yet it dereferences a null descriptor (dom.h:820-827).
- Universes.Universe.ModifyComponent: requires `HasComponent(e, t)`. The doc comment (dom.h:375-384) promises a "No-Component-Found" error when has<C>() is false, but the code does not check: the descriptor's dense array is written only for set bits (dom.h:654-663), so the lookup reads an indeterminate index, and for an entity with no component yet it dereferences a null descriptor (dom.h:813-816).
- Universes.Universe.AttachPack, Universes.Universe.AddComponent and Universes.Universe.CreateWith: require every pack entry to be a live component that no entity owns (`Loose`). A ComponentInstantiator is a copyable struct with a public handle (dom.h:170-179), so the same one can be passed to two adds; the code then attaches one component to two entities and destroying both frees it twice. The model assumes every instantiator is used once.
- Universes.Universe.AddComponent: requires the pack's components to be pairwise distinct, as AttachPack and CreateWith do. Each ComponentInstantiator holds a component of its own (dom.h:893-906), so a real pack never repeats one.
- Universes.Universe.CreateWith: create<C...>(ci...) is create() followed by addComponent (dom.h:684-697). The model uses the corrected unpacker and placement of AddComponent and destroys repeated components (Findings 2, 3 and 6), so it promises FirstValues for packs in any order. The code's version is Archetypes.Unpack with Archetypes.ResizeInsert: a pack naming a higher id before a lower one leaves the list [h_low, 0, h_high, 0], as Archetypes.ResizeInsertBreaksListLength shows, and a repeated type keeps both handles, as Archetypes.UnpackKeepsDuplicates shows.
- Universes.Universe.CreateFrom: built on CreateWith, so the same correction applies; the code's version breaks in the same two cases.
- Universes.Universe.CreateMany: builds every entity with the corrected placement. The code builds the first entity by resize-then-insert (dom.h:726-733, Archetypes.ResizeInsert) and the others by a dense write into a list of `handles.size()` zero handles (dom.h:748-754, Archetypes.DenseWrite). Universes.BatchFirstPlacement and Universes.BatchLoopPlacement show they agree with the corrected placement for ascending, duplicate-free packs and for duplicate-free packs respectively; otherwise they break (Findings 2 and 7).
- Universes.Universe.CreateBatch: the same as CreateMany for how each entity is built; only the entity count is as written.
- Universes.Universe.CreateBatch: states the count and contents of the entities made, but not that all of them share one descriptor.
- The entity pool of Universe uses the corrected fresh-slot choice (Finding 1). ChunkedArray.h and the component pools (REUSE_C = 0) are shown equal to it.
- main.cpp, domTest.cpp, CreateAtOnce.h and ComponentUnpacker.h are not part of this model. They are a benchmark, a test runner, and stale code against classes that no longer exist.
- Concurrency is out of scope: nothing in the core is concurrent.

## Findings

| source | as written | input that shows it | evidently intended | confidence | as-written member | corrected member |
|---|---|---|---|---|---|---|
| dom.h:499-510 | the fresh path indexes the last block by `contentCount`, which `destroy` decrements; with REUSE_C > 0 the freed slot stays queued | block size 4, REUSE_C = 1: add, add, destroy((0,0)), add returns (0,1), which is live | hand out the first never-used slot of the last block | high, not executed | ChunkedArrays.SourcePickCanReturnLiveSlot | ChunkedArrays.ChunkedArray.Add |
| dom.h:801-808 | each handle is inserted at the full new mask's dense index, after resizing with zero handles when that index is past the end | empty entity, add types 1 then 0: the list has 4 entries for 2 bits | list length = popcount, type i at its dense index | high, not executed | Archetypes.ResizeInsertBreaksListLength | Universes.Place |
| dom.h:436-442 | the unpacker stops at the first type the entity already has, and does not filter duplicates in the pack | entity with type 0, pack (0, 1): type 1 is dropped and its component leaks | skip present or repeated types and keep going | high, not executed | Archetypes.UnpackStopsAtPresentType | Archetypes.UnpackFresh |
| dom.h:761-776 | destroyEntity never disconnects the record from its descriptor | create an entity with one component, destroy it: the descriptor's count stays 1 with no entity using it | disconnect before freeing the record | high, not executed | Archetypes.DestroyWithoutDisconnectBreaksRefCount | Universes.Universe.DestroyEntity |
| dom.h:712-756 | one entity is built before the loop and n more inside it | create(1, f) makes 2 entities and calls f twice | exactly n entities, as documented | high, not executed | Universes.Universe.CreateBatch | Universes.Universe.CreateBatchExact |
| dom.h:788-809 | addComponent never destroys the components the unpacker (dom.h:436-442) does not keep | entity with type 0, addComponent of an instantiated type-0 component: that component stays live and no entity owns it | destroy every component not attached | high, not executed | Universes.Universe.AttachPack | Universes.Universe.AddComponent |
| dom.h:748-754 | the batch loop sizes the list by the number of pack entries and writes each at its dense index, so a repeated type leaves the list longer than the popcount and overwrites the first component | batch pack naming type 0 twice: the list is [second handle, zero handle] for one bit, and the first component leaks | skip repeated types as the intended unpacker does | high, not executed | Archetypes.DenseWriteDuplicateLeaks | Universes.Universe.CreateMany |
| Entity.h:170 | add appends each handle, while get and modify look it up at the descriptor's dense index | add type 1, then type 0: get of type 1 reads position 1, which holds type 0's handle | insert each handle at its dense index | high, not executed | LegacyEntities.DescendingAddsScenario | Bitmask.InsertPlacement |
| Entity.h:159 | the descriptor table is a function-local static of the member template `add<C, PARAM...>`, so every instantiation has a table of its own | x adds types 0 then 1, y adds types 1 then 0: both have mask {0, 1}, but x is linked to the descriptor in add<1>'s table and y to the one in add<0>'s table, each with count 1 | one table for all entities, so all entities with the same mask share one descriptor, as the EntityData comment (Entity.h:42-44) says and as dom.h's single table does | high, not executed | LegacyEntities.SplitDescriptorsScenario | LegacyMasks.SharedTableJoinsSharers |
