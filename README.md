# ECS core in Dafny

This project models the core of a small C++ entity-component system (ECS). Components of
any type are attached to entities, which are plain 64-bit ids. Each component type has
its own columnar store: a sorted vector of owner ids that ends in the sentinel `max_id`,
and a vector of components of the same length minus one. Systems iterate jointly over
several types with a merge join ("leapfrog") across those id columns. All entities share
one static, type-erased ledger of "removers" (entity_base.h:158). Each record erases one
entity's component of one type when the record is destroyed.

Modules and files:

- `ecs_impl.dfy` (`EcsImpl`) has the id type and `max_id`, as in ecs_impl.h.
- `wrappers.dfy` (`Wrappers`) has `Option`. It models an `.at` that throws, a type missing from a type list, a remover with no effect, and an as-written loop that runs out of fuel.
- `utility.dfy` (`Utility`) models utility.h:
  - `remove_cvr` on a small type descriptor;
  - `Type_list` (`size`, `get_index`, `has`);
  - `Move_only_pointer` as a class;
  - `RAII` as a class.
- `sorted_ids.dfy` (`SortedIds`) holds the sorted-column vocabulary:
  - `std::lower_bound` as `LowerBound`;
  - the linear `while (ids.at(i) < target) i++` scan as `FirstAtLeast`;
  - vector insert/erase at a position as `Inserted`/`Without`.
- `join.dfy` (`Join`) is the pure specification of the join cursor:
  - one scan over all slots (`PassFrom`/`Pass`);
  - the retry loop (`Settle`/`Advance`);
  - the set of joint ids (`JointIds`);
  - the lemmas that the loop stops exactly on the next joint id.
- `system_base.dfy` (`SystemBase`) models system_base.h:
  - class `System` holds the per-slot `ids` and `components` stores and the two system lists;
  - what one tick does, written as a trace of callback events.
- `system_iterator.dfy` (`SystemIterator`) models `System_iterator` as class `Cursor`. The `current_indexes` array is kept, and each method is proved equal to the `Join` functions.
- `system.dfy` (`SystemRange`) models system.h: `range()`, `Range::begin()` and `component_to_entity_handle`.
- `runner.dfy` (`Runner`) models the loop bodies of `run_systems` and of the closures built by `add_system`. It proves that a tick produces exactly `System.TickTrace()`.
- `entity_base.dfy` (`EntityBase`) models entity_base.h. It has:
  - the `Remover` value with its move operations and its order;
  - the static `removers` ledger as class `Ledger`;
  - class `Entity` with `emplace`, `add`, `get`, `remove` and `is_valid`.
- `findings.dfy` (`Findings`) models four places where the code, as written, does something other than what it intends.

Modelling choices:

- Component types are `Utility.TypeRef` values. Their storage slot is the base type after `remove_cvr` (`SystemBase.SlotOf`).
- A store that was never touched reads as `[max_id]` ids and no components. This models the static initialisers at system_base.h:105-108.
- The source's `assert_fast` checks are fatal contract violations, so they are `requires` clauses.
- A callback's effect is opaque, so running systems yields a trace of events:
  - which system was called;
  - for which entity;
  - with which precomputed value, identified by the run it came from.
- The function pointer inside a `Remover` is modelled as `Dummy` (the moved-from state) or `EraseFrom(slot)`. Pointers are ordered `Dummy` first, then by slot.

In four places the code does not do what the surrounding code shows it means to do. These
are the findings below. Each has an as-written model with an input that shows the
problem, and the rest of the project uses the corrected behaviour.

- `get_entity_handle` builds the handle from a row index (system_iterator.h:58). `component_to_entity_handle` reads the id at the row (system.h:17), so the model returns the id.
- The iterator exists to walk the entities holding all queried types (system_base.h:31), and the retry loop of `advance(target)` exists to put every slot on one entity. As written, the loop passes indexes where ids are meant and stops early on `max_id`. The model passes ids and runs the loop to its fixpoint.
- `remove<T>()` indexes the ledger with a position in `ids<T>`. The model looks up the entity's own record for the type's store.

## Model

| member | source | states |
|---|---|---|
| Utility.RemoveCvrSameSlot | utility.h:18-19 | two types share a store iff their base types agree; stripping twice equals stripping once |
| Utility.Size | utility.h:82 | `sizeof...(T)`, a compile-time constant, written as a count over the list; it is proved to equal the number of listed types |
| Utility.GetIndexFrom | utility.h:85-93 | a result is the first position at or after `from` holding `U`; none means `U` is absent from there on |
| Utility.GetIndex | utility.h:85-93 | a result exists iff `U` is listed; it is the first position holding `U` |
| Utility.HasFrom | utility.h:94-104 | `has<U, i>()`: its meaning is stated by `HasFromIffListed` |
| Utility.HasFromIffListed | utility.h:94-104 | `has<U, i>()` is true iff `U` occurs at some position at or after `i` |
| Utility.HasIffGetIndex | utility.h:85-104 | `has<U>()` agrees with `get_index<U>()` finding a position |
| Utility.MoveOnlyPointer.Empty | utility.h:51-52 | a default pointer is null and tests false |
| Utility.MoveOnlyPointer.FromRaw | utility.h:53-54 | holds the given raw pointer |
| Utility.MoveOnlyPointer.MoveFrom | utility.h:55-58 | takes the other's pointer and leaves the other null |
| Utility.MoveOnlyPointer.MoveAssign | utility.h:60-63 | swaps the two pointers; self-assignment changes nothing |
| Utility.MoveOnlyPointer.AssignRaw | utility.h:65-68 | afterwards holds the assigned raw pointer |
| Utility.MoveOnlyPointer.Arrow | utility.h:69-71 | `operator->` yields the held pointer, stated through the constructors and assignments above |
| Utility.MoveOnlyPointer.IsSet | utility.h:72-74 | `operator bool` is true iff a pointer is held; `Empty` and `MoveFrom` state it false |
| Utility.Raii.constructor | utility.h:36-37 | stores the function and has not run it |
| Utility.Raii.Destroy | utility.h:38-40 | destruction calls the stored function exactly once |
| SortedIds.FirstAtLeast | system_iterator.h:72-74 | the walk stops at the first position at or after `from` whose id is at least the target; it stays in range when the last id reaches the target |
| SortedIds.LowerBound | entity_base.h:38 | on a sorted column ending in `max_id`, the first position whose id is not below `x`; always in range |
| SortedIds.LowerBoundFinds | entity_base.h:60-61 | `x` is in the column iff the lower bound lands on `x`, and that is its only position |
| SortedIds.InsertedAt | entity_base.h:42-46 | inserting at a position shifts the tail up by one and holds exactly the old elements plus the new one |
| SortedIds.WithoutAt | entity_base.h:89-90 | erasing at a position shifts the tail down by one |
| SortedIds.InsertKeepsColumn | entity_base.h:38-48 | inserting an absent id at its lower bound keeps the column strictly sorted with the sentinel last |
| SortedIds.EraseKeepsColumn | entity_base.h:86-91 | erasing a non-sentinel row keeps the column strictly sorted and removes exactly that id |
| Join.PassFrom | system_iterator.h:62-79 | one scan from slot k: indexes only grow, earlier slots are untouched, every later slot stands on an id between the target and the result, and the result is the last slot's id |
| Join.PassSkipsNoJoint | system_iterator.h:62-79 | a scan jumps over no joint id: nothing between the target and the result is held by every slot |
| Join.Settle | system_iterator.h:30-35 | the retry loop keeps every index in range |
| Join.Advance | system_iterator.h:26-36 | `advance(target)` keeps every index in range |
| Join.SettleCorrect | system_iterator.h:26-36 | the retry loop ends with all slots on one id, which is the least joint id not below the original target, or on the sentinel when there is none |
| Join.AdvanceCorrect | system_iterator.h:26-36 | from a cursor below the target, `advance(target)` lands on the next joint id at or after the target, skipping none |
| Join.SingleTypeIsLinearWalk | system_iterator.h:27-28 | with one queried type, advancing is the plain linear walk to the first id at or after the target |
| Join.SettledIsBelowNext | system_iterator.h:22-25 | a settled, live cursor is below its current id plus one, the precondition of the next advance |
| Join.JointFromSpec | system_base.h:50-52 | filtering a sorted id list to the joint ids keeps it sorted and keeps exactly the joint ids |
| Join.JointIdsSpec | system_base.h:50-52 | the joint ids are strictly increasing and are exactly the ids every queried store holds |
| Join.SortedSameElements | system_base.h:50-52 | two strictly sorted lists with the same elements are equal, so the visiting order is forced |
| Join.VisitStep | system_base.h:50-52 | visiting the current joint id and jumping to the next one keeps "visited = all joint ids below the cursor, in order" |
| Join.VisitedAllIsJointIds | system_base.h:50-52 | once the cursor reaches `max_id`, the visited ids are exactly the joint ids |
| SystemBase.PlainCalls | system_base.h:38-41 | one call per function-pointer system, in registration order |
| SystemBase.CallsFor | system_base.h:50-52 | one call of `f` per entity of the list, in list order |
| SystemBase.CallsWith | system_base.h:60-62 | one call of `f` per entity, each with the value precomputed in this run |
| SystemBase.System.Ids | system_base.h:27-30 | `get_ids<T>()`: the id store of `T`'s slot |
| SystemBase.System.Components | system_base.h:23-26 | `get_components<T>()`: the component store of `T`'s slot |
| SystemBase.SameStoreIffSameBase | system_base.h:23-30 | two spellings of a type share a slot iff their base types agree, and then see the same ids and the same components, so `T`, `const T&` and `T&&` reach one store |
| SystemBase.ColumnsIn | system_base.h:27-30 | one id column per queried type, each the store of that type's slot |
| SystemBase.System.constructor | system_base.h:105-108 | every store starts as ids `[max_id]` and no components, with no systems registered |
| SystemBase.System.ColumnsValid | system_base.h:84-86 | the queried columns are sorted, end in `max_id` and are non-empty |
| SystemBase.System.AddToSystem | system_base.h:90-97 | a closure convertible to `void(*)()` is appended to the pointer systems, any other to the `std::function` systems; stores unchanged |
| SystemBase.System.AddSystem | system_base.h:47-54 | appends a capturing joined closure for `f` to the `std::function` systems |
| SystemBase.System.AddSystemPrecompute | system_base.h:56-64 | appends a joined closure that first runs `pf` |
| SystemBase.System.AddIndependentSystem | system_base.h:67-70 | forwards the callable to `add_to_system`, which picks a list by convertibility |
| SystemBase.ClosureEventsSnoc | system_base.h:42-44 | running one more `std::function` system appends exactly its events |
| SystemBase.TickRunsPointerSystemsFirst | system_base.h:38-45 | a tick first calls every pointer system once, in order, then runs the `std::function` systems |
| SystemBase.JoinedSystemVisitsJointIds | system_base.h:47-54 | a joined system calls `f` once for each entity holding all queried types, for no other, in increasing id order |
| SystemBase.PrecomputeRunsOnceFirst | system_base.h:56-64 | `pf` runs once, before every call of `f`, and every call of `f` gets that run's value |
| SystemIterator.Cursor.constructor | system_iterator.h:88 | all indexes start at zero on valid columns |
| SystemIterator.Cursor.IsLive | system_iterator.h:37-39 | the cursor tests true iff its first slot is not on `max_id`; a settled live cursor stands on a joint id |
| SystemIterator.Cursor.WalkSlot | system_iterator.h:66-74 | walks one slot to the first id at or after the target and leaves every other slot alone |
| SystemIterator.Cursor.GetAdvancedIndex | system_iterator.h:62-79 | the in-place scan equals the `Join.Pass` specification, indexes and returned id |
| SystemIterator.Cursor.AdvanceTo | system_iterator.h:26-36 | the in-place retry loop equals `Join.Advance` |
| SystemIterator.Cursor.Advance | system_iterator.h:22-25 | `advance()` equals `Join.Advance` to the current id plus one; from a settled cursor it lands on the next joint id |
| SystemIterator.Cursor.Get | system_iterator.h:44-51 | returns the `U` store's component at `U`'s index, or nothing when that index is on the sentinel; on a settled live cursor it is the current entity's component |
| SystemIterator.Cursor.GetEntityHandle | system_iterator.h:57-59 | (corrected) the handle names the current id, which is joint when the cursor is settled and live |
| SystemRange.Range | system.h:20-25 | `range()` lands on the first joint id, with no joint id before it, or is exhausted |
| SystemRange.RangeBegin | system.h:32-37 | `Range::begin()` does the same as `range()` |
| SystemRange.EmptyJoinIsExhausted | system.h:20-25 | when a queried store is empty there are no joint ids, and the fresh cursor is exhausted |
| SystemRange.ComponentToEntityHandle | system.h:10-18 | the component's offset in its store gives the owner id at that row, which is a real entity holding that type |
| Runner.VisitJoint | system_base.h:50-52 | the `for (sit = range(); sit; sit.advance())` loop visits exactly the joint ids, in order |
| Runner.VisitRest | system_base.h:50-52 | from any settled cursor with no joint id skipped, the rest of the loop visits exactly the remaining joint ids |
| Runner.RunClosure | system_base.h:49-63 | running a registered closure produces its specified events |
| Runner.RunPointerSystems | system_base.h:39-41 | the first loop of `run_systems` calls each pointer system once, in order |
| Runner.RunFunctionSystems | system_base.h:42-44 | the second loop runs each `std::function` system once, in order |
| Runner.RunSystems | system_base.h:38-45 | one tick produces exactly `System.TickTrace()` |
| EntityBase.Less | entity_base.h:134-136 | `std::tie(id, f) <`; its order properties are stated by `LessIsStrictOrder` |
| EntityBase.IdBelow | entity_base.h:137-139 | `remover < id` compares ids only |
| EntityBase.IdAbove | entity_base.h:161-163 | `id < remover`, written through `remover > id`, compares ids only |
| EntityBase.LessIsStrictOrder | entity_base.h:134-142 | `std::tie(id, f) <` is a strict order that is total on (id, f), and the id-only comparisons are consistent with it |
| EntityBase.MoveConstruct | entity_base.h:115-120 | the new remover takes over the erase it will do; the moved-from one becomes the dummy and erases nothing |
| EntityBase.MoveAssign | entity_base.h:121-127 | swapping keeps the two pending erases, only exchanged |
| EntityBase.KeyLowerBoundFrom | entity_base.h:97 | the linear search stops at the first record not below the probe |
| EntityBase.KeyLowerBound | entity_base.h:97 | on a sorted ledger, records before the result are below the probe and records from it on are not |
| EntityBase.InsertKeepsKeySorted | entity_base.h:94-100 | inserting a new (id, slot) record at its lower bound keeps the ledger sorted and adds exactly that record |
| EntityBase.EraseKeepsKeySorted | entity_base.h:102-105 | erasing a record keeps the ledger sorted and removes exactly that record |
| EntityBase.RecordsOfOneEntityContiguous | entity_base.h:134-136 | in a sorted ledger one entity's records are contiguous |
| EntityBase.KeyLowerBoundFinds | entity_base.h:134-136 | an entity's record for a slot is found by lower bound on (id, remover) |
| EntityBase.Get | entity_base.h:57-67 | no component iff the id is absent; `max_id` hits the sentinel and `.at` fails; otherwise the row holding the id and its component |
| EntityBase.GetAfterInsert | entity_base.h:38-49 | after inserting, `get` finds the new component at the insert position |
| EntityBase.GetAfterInsertOther | entity_base.h:38-49 | inserting for one entity leaves every other entity's lookup unchanged in kind and value |
| EntityBase.GetAfterErase | entity_base.h:84-92 | after the remover erases, `get` finds nothing for that entity |
| EntityBase.GetAfterEraseOther | entity_base.h:84-92 | erasing one entity's row leaves every other entity's lookup unchanged in kind and value |
| EntityBase.SyncedAfterInsert | entity_base.h:33-50 | inserting a component and its remover keeps "store holds (id, type) iff the ledger has a remover for it" |
| EntityBase.SyncedAfterErase | entity_base.h:128-133 | erasing a record and running its remover keeps that correspondence |
| EntityBase.EraseComponent | entity_base.h:84-92 | the static remover erases the id's row from both vectors and keeps the store sorted |
| EntityBase.InsertComponent | entity_base.h:36-46 | inserts the id and the component at the id's lower bound, after which `get` finds them |
| EntityBase.DestroyRemover | entity_base.h:128-133 | a dummy remover does nothing; a live one erases its entity's row from its store |
| EntityBase.Ledger.constructor | entity_base.h:158 | the ledger starts empty |
| EntityBase.Ledger.ShiftToBack | entity_base.h:104 | `vector::erase` moves the erased remover to the back by successive swaps and keeps the rest in order |
| EntityBase.Ledger.EraseAt | entity_base.h:102-105 | erasing a record removes exactly it, runs its remover and keeps ledger and stores in step |
| EntityBase.Entity.constructor | entity_base.h:21-22 | the entity holds the given id |
| EntityBase.Entity.MoveFrom | entity_base.h:23-26 | takes the other's id; the other becomes `max_id` and is no longer valid |
| EntityBase.Entity.MoveAssign | entity_base.h:27-30 | swaps the two ids |
| EntityBase.Entity.IsValid | entity_base.h:77-79 | `is_valid()` is false exactly for `max_id`; `MoveFrom` states that a moved-from entity is invalid |
| EntityBase.Entity.AddRemover | entity_base.h:94-100 | inserts the entity's remover for the type at its lower bound and keeps the ledger sorted |
| EntityBase.Entity.Emplace | entity_base.h:33-50 | inserts the component at the id's position in both vectors, `get` then returns it, the ledger gains its remover, and ledger and stores stay in step |
| EntityBase.Entity.Add | entity_base.h:52-55 | `add` is `emplace` with the given component: the same store, `get` and ledger results |
| EntityBase.Entity.Remove | entity_base.h:69-75 | (corrected) erases the entity's remover for the type, which erases its row; `get` then finds nothing |
| Findings.PassAsWritten | system_iterator.h:62-79 | (as written) the scan as written keeps indexes in range and only lets them grow |
| Findings.LoopAsWritten | system_iterator.h:30-34 | (as written) the retry loop around the as-written scan, with its `max_id` exit |
| Findings.AdvanceAsWritten | system_iterator.h:26-36 | (as written) `advance(target)` exactly as written; its behaviour is stated by the finding lemmas below |
| Findings.IndexAsTargetStopsUnsettled | system_iterator.h:76 | (as written) on A=[1,3], B=[2,3] the loop stops with A on entity 3 and B still on entity 2, so the slots disagree |
| Findings.IntendedScansOnFinding1 | system_iterator.h:62-79 | the intended scans on the same columns reach 2, then 3 |
| Findings.IntendedJoinSettlesOnThree | system_iterator.h:26-36 | the intended join on the same columns settles on joint id 3 |
| Findings.LoopEarlyExit | system_iterator.h:31 | (as written) the `max_id` exit alone, around the intended scan |
| Findings.MaxIdExitStopsTooEarly | system_iterator.h:31 | (as written) on A=[1], B=[] both `advance(0)` as written and the `max_id` exit alone stop with a live cursor on entity 1, which holds no B |
| Findings.FixpointLoopIsExhausted | system_iterator.h:26-36 | the intended loop on the same columns ends exhausted |
| Findings.EntityHandleAsWritten | system_iterator.h:58 | (as written) the handle is the first slot's index |
| Findings.HandleFromIndexNamesWrongEntity | system_iterator.h:58 | (as written) with entity 7 the only holder, the handle built from the index names entity 0 |
| Findings.RemoveAsWrittenIndex | entity_base.h:72-74 | (as written) the ledger position used is the id's lower bound in `ids<T>` |
| Findings.RemoveErasesWrongRecord | entity_base.h:72-74 | (as written) removing B from entity 2 erases ledger record 0, entity 1's A; the lookup by (id, remover) finds record 1 |

## Left out

- Logging (log.h, the `Log::log_debug` calls) and the `std::cout` tracing in system_iterator.h are output only. They are not modelled.
- `Utility::type_name` (demangling) and `typeid(...).name()` are foreign calls. A remover's type name is an opaque string that takes no part in comparisons.
- `Utility::element_count` and `return_type` are compile-time only and have no runtime behaviour.
- `ON_SCOPE_EXIT` is a macro and `create_RAII` a function template, both of which only build a `RAII`. Only `RAII` itself is modelled.
- The debug-only `component_state` counters (system_base.h:73-79) are not modelled.
- Mutation during a traversal is not modelled. The cursor is a snapshot over unchanged stores.
- The iterator's `operator++` is the same as `advance()` and is not modelled separately.
- The private `get_ids`, `operator==` and `operator<` of System_iterator refer to members that do not exist and would not compile if instantiated. They are left out.
- `System::get_range` and `Range::end()` return an empty struct and `nullptr`. They are left out.
- Entity_handle (entity_handle.h) is not part of this model. A handle is its id.
- common_components.h, the `id_counter` allocation of fresh ids and the `Entity` destructor are not modelled.
- Callbacks are opaque. Their effects on stores are not modelled, only which callback runs, for which entity and with which precomputed value.
- A function pointer's address order is modelled as `Dummy` first, then by slot. The real order of addresses is unspecified.
- EntityBase.RemoverFn: a remover's function is keyed by the store's slot, not by the type as written. In the source, `add_remover<Component>` stores `remover<Component>` (entity_base.h:96). An lvalue passed to `add` deduces `Component = A&` (entity_base.h:53-54), so `remover<A&>` and `remover<A>` are two functions that erase from one store. The model merges them. Nothing observable changes while `emplace` admits one row per entity and store. A lookup by the source's exact `(id, remover<T>)` key would miss a record added with `add(lvalue)` and removed with `remove<A>()`. The corrected `Entity.Remove` therefore looks up by slot, that is, by `(id, remover<remove_cvr<T>>)`.
- Vector reallocation and the references that `emplace` and `get` return are not modelled. Rows are returned as positions.
- EntityBase.EraseComponent: requires `id != max_id` as well as `id` being present. The source only asserts presence, and erasing the sentinel would break every later lookup.
- EntityBase.Entity.Emplace: requires the id to be absent from the store, so `max_id` is excluded. The source asserts the same, because `*insert_position` is `max_id` for an invalid entity.
- SystemBase.PlainCalls: function pointers are identified by a tag, so two registrations of the same function are two tags.
- Findings.LoopAsWritten: the as-written loop is bounded by a fuel count, because the as-written scan has no decreasing measure.

## Findings

| source | as written | input that shows it | evidently intended | confidence | as-written member | corrected member |
|---|---|---|---|---|---|---|
| system_iterator.h:76 | the next slot's scan receives `current_indexes[index]`, an index, as its target, and the result is `max` of that index and the next slot's id | A held by entities 1 and 3, B by 2 and 3, `advance(0)`: the second scan moves A to entity 3 but hands B the index 1, so B stays on entity 2; the result 2 equals the target and the loop stops, leaving a live cursor on entity 3 whose B index points at entity 2's component | pass `ids.at(current_indexes[index])` on and return the last slot's id | not executed | Findings.IndexAsTargetStopsUnsettled | Join.AdvanceCorrect |
| system_iterator.h:31 | the retry loop also stops when the new target is `max_id`, before the other slots have moved there | A held by entity 1, no B, `advance(0)`: B reaches `max_id`, the loop stops, the cursor tests true and stands on entity 1, which has no B | retry until the target is stable, so every slot reaches the sentinel | not executed | Findings.MaxIdExitStopsTooEarly | Join.SettleCorrect |
| system_iterator.h:58 | the entity handle is built from `current_indexes[0]`, a row index | entity 7 is the only holder of A: `range<A>()` stands on row 0 and the handle names entity 0 | the id at that row, as `component_to_entity_handle` does at system.h:17 | not executed | Findings.HandleFromIndexNamesWrongEntity | SystemIterator.Cursor.GetEntityHandle |
| entity_base.h:74 | `remove<T>()` erases the ledger record at the id's position in `ids<T>` | entity 1 has an A, entity 2 a B; `remove<B>()` on entity 2 erases record 0, entity 1's A, and entity 2 keeps its B | erase the record found by lower bound on (id, `remover<remove_cvr<T>>`), that is, the entity's record for the type's store | not executed | Findings.RemoveErasesWrongRecord | EntityBase.Entity.Remove |
