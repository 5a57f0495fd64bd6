# secs — a verified model of the generated ECS

secs is an entity–component–system library for Rust. A build-time generator
reads a declaration of components, resources, systems and stages and emits a
component store, an entity builder, a command buffer and an ECS struct. Its
`run` calls every system stage by stage and flushes the command buffer after
each stage. A small runtime library supplies the entity handle, the storage
wrappers systems receive, the join iterator over their bitsets, and a
single-threaded executor for futures.

This project models the code the generator emits, at the level of what that
code does at run time, and proves properties of it:

- `Entities` covers the entity handle and its order.
- `Components` covers the storage kinds and the read, write, remove and clear
  code each kind emits.
- `Registry` covers the generator's lookups of components and resources by
  name.
- `Builders` covers the entity builder.
- `Allocation` covers the shared id counter and free-id channel.
- `Store` covers the component store: a class over an abstract state, with the
  intended and the as-emitted `kill` and `reset`.
- `Storages` covers the access wrappers and their masks.
- `Joins` covers the bitset `and` tree, `Join::get` and `JoinIter`.
- `Systems` covers accessors, the code generated for a for-each system (its
  mask and initialisers, and the panics that stop generation), parameter
  binding, and the for-each loop.
- `Commands` covers the command buffer and its flush.
- `Scheduling` covers grouping by stage, the run plan, and the ECS struct with
  its `run`.
- `Executor` covers `run_all`.
- `Example` covers the hand-written store of the example application.

Mutable objects are classes whose methods are proved against functions of
the old state. Those functions carry the lemmas. A Rust panic
(`assert!`, `unwrap`, `expect`, an index out of bounds) is an `Err` with a
`Fault` that names it.

## Model

| member | source | states |
|---|---|---|
| Entities.New | lib/src/lib.rs:16-22 | the handle built from an index reports that index |
| Entities.NewInjective | lib/src/lib.rs:12-18 | two handles are equal exactly when their indices are |
| Entities.LessIsTotalStrictOrder | lib/src/lib.rs:12-13 | the derived order on handles is irreflexive, transitive and total |
| Components.AsType | codegen/src/component.rs:209-232 | a Null kind (seen through any Flagged wrappers) of a component with lifetimes is refused with a panic naming it; otherwise the type has one Flagged layer per Flagged wrapper |
| Components.Effective | codegen/src/component.rs:141-159 | Flagged delegates to its inner kind: the delegated kind is the kind under every Flagged wrapper, a plain one, Null exactly when the kind wraps Null, and there is none exactly when that kind is DenseVec |
| Components.Init | codegen/src/component.rs:46-55 | Vec, HashMap, BTreeMap and Null initialise to an empty container of their shape; DenseVec and Flagged have no initialiser |
| Components.ReadOptional | codegen/src/component.rs:72-109 | the optional read panics only on a Vec shorter than the index; it otherwise returns the stored payload, and for Null `Some(default)` exactly when the bit is set |
| Components.Read | codegen/src/component.rs:72-109 | the plain read unwraps the optional read: it yields `v` exactly when the optional read yields `Some(v)`, panics on a short Vec as that does, and otherwise panics on `None` |
| Components.Write | codegen/src/component.rs:111-132 | a Vec is first resized to hold the index; the index then holds the value and every other index keeps its payload |
| Components.Drop | codegen/src/component.rs:142-145 | the index holds no payload afterwards; every other index is unchanged; a Vec keeps its length |
| Components.Take | codegen/src/component.rs:134-161 | returns the payload the index held (Null: the default exactly when the bit was set) and leaves the backend dropped at the index |
| Components.TakeAsWritten | codegen/src/component.rs:142 | the unguarded Vec index panics exactly when the Vec is no longer than the index; otherwise it agrees with Take |
| Components.Clear | codegen/src/component.rs:163-190 | the intended clear keeps the backend's shape (see Findings) |
| Components.WriteKeepsCoherent | codegen/src/store.rs:216-222 | setting the bit and writing the payload keeps bitset and payloads coherent |
| Components.DropKeepsCoherent | codegen/src/store.rs:225-234 | clearing the bit and removing the payload keeps them coherent |
| Components.ReadAfterWrite | codegen/src/component.rs:72-132 | a read after a write returns the written value |
| Components.ReadAfterTake | codegen/src/component.rs:72-161 | remove returns a payload exactly when the bit was set, and a later read finds nothing |
| Components.NullIsPresence | codegen/src/component.rs:97-100 | a Null component's read and remove yield the default exactly when the bit is set; writes store nothing |
| Components.ReadSucceedsIffPresent | codegen/src/store.rs:291-296 | under coherence, a non-optional read succeeds exactly when the bit is set |
| Components.ClearRemovesComponent | codegen/src/component.rs:163-190 | the intended clear leaves no payload and no bit at the index, changes no other index, and keeps coherence |
| Components.ClearAsWritten | codegen/src/component.rs:170-177 | the emitted clear panics exactly when a Vec's length equals the index; otherwise it clears the bit, except on a Vec shorter than the index, which only grows |
| Components.ClearAsWrittenFailsOnlyAtLength | codegen/src/component.rs:170-177 | the emitted clear panics exactly when a Vec's length equals the index; otherwise it equals the intended clear |
| Components.ClearAsWrittenPanicsOnEmptyVec | codegen/src/component.rs:171-172 | clearing index 0 of an empty Vec panics, where the intended clear grows the Vec |
| Registry.FirstNamed | codegen/src/lib.rs:388-396 | the position of the first name equal to the one looked up, or none when no name is |
| Registry.FindComponent | codegen/src/lib.rs:388-396 | the first component with that name; a panic naming it when there is none |
| Registry.FindResource | codegen/src/lib.rs:398-406 | the first resource with that name; a panic naming it when there is none |
| Registry.FirstMatchWins | codegen/src/lib.rs:389-393 | a later duplicate name is never the one found |
| Builders.EntityBuilder.With | codegen/src/entity.rs:36-45 | the setter fills the component's slot and keeps the entity and every other slot |
| Builders.EntityBuilder.Without | codegen/src/entity.rs:48-51 | the remover empties the slot and keeps everything else |
| Builders.NewBuilder | codegen/src/entity.rs:64-69 | a new builder targets the entity and has every slot empty |
| Builders.Apply | codegen/src/command.rs:103-104 | a closure's setter calls keep the builder's entity and width |
| Builders.LastWriteWins | codegen/src/entity.rs:36-51 | setting a slot twice keeps the last value; set then remove is remove |
| Builders.SettersCommute | codegen/src/entity.rs:36-45 | setters on different components commute |
| Builders.ApplyLastEdit | codegen/src/command.rs:103-104 | after any sequence of setter calls, each slot holds the last value set or removed for it |
| Builders.BuilderCell.constructor | codegen/src/entity.rs:64-69 | the lent builder starts as a new builder |
| Builders.BuilderCell.Add | codegen/src/entity.rs:42-45 | `add_*` through `&mut` is the setter |
| Builders.BuilderCell.Del | codegen/src/entity.rs:48-51 | `del_*` through `&mut` is the remover |
| Allocation.WrappingInc | codegen/src/store.rs:163 | `fetch_add(1)` adds one and wraps to 0 past the largest u32 |
| Allocation.ReserveS | codegen/src/store.rs:159-165 | the handed-out id is the counter or a queued id, and a queued id is consumed when there is one |
| Allocation.ReserveIsFresh | codegen/src/store.rs:159-165 | while the counter does not wrap, a reserved id is not alive, not queued, and below the new counter; the discipline is kept |
| Allocation.SuccessiveReservationsDiffer | codegen/src/store.rs:159-165 | two reservations in a row hand out different entities |
| Allocation.KillQueuesId | codegen/src/store.rs:179-187 | killing an alive entity queues its id and keeps the discipline |
| Allocation.BuildReservedKeepsDiscipline | codegen/src/store.rs:173-175 | building a reserved id keeps the discipline |
| Allocation.FreedIdsComeBackFirst | codegen/src/store.rs:160-161 | freed ids are handed out oldest first and leave the counter alone |
| Allocation.CounterWraps | codegen/src/store.rs:163 | after 2^32 fresh ids the counter hands out id 0 again, which can clash with a live entity |
| Allocation.Allocator.constructor | codegen/src/store.rs:129-131 | the counter starts at 0 with an empty channel |
| Allocation.Allocator.Reserve | codegen/src/store.rs:159-165 | `next` is the reservation function on the counter and channel |
| Allocation.Allocator.Free | codegen/src/store.rs:181 | sending an id appends it to the channel |
| Store.Empty | codegen/src/store.rs:128-151 | a new store has nothing alive and no component anywhere, and meets the invariant |
| Store.KillS | codegen/src/store.rs:179-187 | the intended kill keeps the store's shape |
| Store.KillAsWritten | codegen/src/store.rs:179-187 | the emitted kill panics exactly when an alive entity has a Vec component shorter than its index |
| Store.View | codegen/src/store.rs:291-296 | a getter yields nothing for a dead entity or a missing bit; a Null component yields the default exactly when both hold; another yields the stored payload, and under coherence yields one exactly when both hold |
| Store.BuildComponent | codegen/src/store.rs:101-111 | a filled slot sets the bit and stores its payload, an empty one clears the bit and (under coherence) leaves no payload; no other index or bit changes, and coherence is kept |
| Store.BuildS | codegen/src/store.rs:85-112 | build keeps the store's shape |
| Store.ResetS | codegen/src/store.rs:60-68 | the intended reset keeps the store's shape |
| Store.ResetAsWritten | codegen/src/store.rs:168-171 | the emitted reset panics exactly when some component's emitted clear does, and otherwise equals the intended reset |
| Store.AddS | codegen/src/store.rs:216-222 | adding a component to a dead entity is refused; otherwise only that component changes |
| Store.DelS | codegen/src/store.rs:225-234 | removing from a dead entity is refused; removing an absent component returns None and changes nothing |
| Store.EmptyShowsNothing | codegen/src/store.rs:128-138 | a new store shows no component for any entity |
| Store.ViewIsPresence | codegen/src/store.rs:291-296 | under the invariant a getter finds a payload exactly when the entity is alive and has the bit |
| Store.KillKeepsInv | codegen/src/store.rs:179-187 | kill keeps the store invariant |
| Store.KillRemovesEverything | codegen/src/store.rs:179-187 | the killed entity is dead with no bit and no payload; every other entity is unchanged |
| Store.KillIdempotent | codegen/src/store.rs:179-187 | killing twice is killing once |
| Store.BuildKeepsInv | codegen/src/store.rs:173-175 | build keeps the store invariant |
| Store.BuildInstallsBuilder | codegen/src/store.rs:85-112 | the built entity is alive and has exactly the builder's components with its payloads; others are unchanged |
| Store.BuildTwiceReplaces | codegen/src/store.rs:101-110 | a second build of the same entity replaces the first entirely |
| Store.BuildThenKill | codegen/src/store.rs:173-187 | building then killing an entity looks as if it had only been killed |
| Store.ResetKeepsInv | codegen/src/store.rs:168-171 | the intended reset keeps the store invariant |
| Store.ResetClears | codegen/src/store.rs:167-171 | after reset the entity is alive with no component; other entities are unchanged |
| Store.AddKeepsInv | codegen/src/store.rs:216-222 | add keeps the store invariant |
| Store.DelReturnsAdded | codegen/src/store.rs:216-234 | deleting right after adding returns the added payload (the default for Null) and leaves nothing |
| Store.DelKeepsInv | codegen/src/store.rs:225-234 | delete keeps the store invariant |
| Store.DelReturnsView | codegen/src/store.rs:225-234 | delete returns what the getter showed and hides it afterwards |
| Store.KillView | codegen/src/store.rs:179-187 | seen through the getters, kill hides exactly the killed entity |
| Store.AddView | codegen/src/store.rs:216-222 | seen through the getters, add shows the payload for that entity and component and changes nothing else |
| Store.DelView | codegen/src/store.rs:225-234 | seen through the getters, delete hides that entity's component and changes nothing else |
| Store.KillAsWrittenAgrees | codegen/src/store.rs:179-187 | when the emitted kill does not panic it equals the intended kill |
| Store.KillAsWrittenPanicsAfterEmptyBuild | codegen/src/store.rs:70-83 | building an entity with no Vec payload and then killing it panics |
| Store.ResetAsWrittenPanicsOnFreshStore | codegen/src/store.rs:168-171 | resetting id 0 on a fresh store with a Vec component panics |
| Store.ComponentStore.constructor | codegen/src/store.rs:128-151 | `new` and `with_capacity` give the empty store over a fresh allocator |
| Store.ComponentStore.Alive | codegen/src/store.rs:154-156 | `alive` is membership of the alive set |
| Store.ComponentStore.Next | codegen/src/store.rs:159-165 | `next` reserves from the shared allocator; under the discipline the id is not alive |
| Store.ComponentStore.Get | codegen/src/store.rs:291-306 | the getter returns a payload exactly when the entity is alive and has the bit, and it is the stored payload |
| Store.ComponentStore.Has | codegen/src/store.rs:249-251 | the Null getter is true exactly when the entity is alive and has the bit |
| Store.ComponentStore.Kill | codegen/src/store.rs:179-187 | returns whether the entity was alive; the new state is the intended kill; the id is queued exactly when it was alive |
| Store.ComponentStore.Build | codegen/src/store.rs:173-175 | the new state is build of the old |
| Store.ComponentStore.Reset | codegen/src/store.rs:168-171 | the new state is the intended reset of the old |
| Store.ComponentStore.Add | codegen/src/store.rs:216-222 | refused exactly for a dead entity, with nothing changed; otherwise the new state is the add of the old |
| Store.ComponentStore.Del | codegen/src/store.rs:225-234 | refused exactly for a dead entity; otherwise the new state and the result are those of the delete |
| Storages.Mask | lib/src/storage.rs:73-75 | a wrapper's mask is its bitset, and the complement of it for the Not wrappers |
| Storages.Probe | lib/src/storage.rs:173-179 | the optional lookup panics only on a short Vec and otherwise returns the stored payload |
| Storages.Deref | lib/src/storage.rs:77-83 | the unwrapped lookup succeeds exactly when a payload is stored, and returns a reference to it |
| Storages.Opt | lib/src/storage.rs:91-96 | `opt` turns Read into ReadOpt and Write into WriteOptRef |
| Storages.Not | lib/src/storage.rs:98-102 | `not` keeps only the bitset |
| Storages.ProbeIsOptionalRead | lib/src/storage.rs:173-179 | the wrapper's optional lookup is the store's optional read |
| Storages.Get | lib/src/storage.rs:77-373 | Read and Write yield a reference exactly when a payload is stored; the optional wrappers panic only on a short Vec and yield the optional lookup; the Not wrappers yield unit and Entities the handle |
| Storages.GetNeedsPresence | lib/src/storage.rs:77-83 | Read and Write `get` succeed exactly when a payload is stored and yield it |
| Storages.OptGetIsLookup | lib/src/storage.rs:173-179 | the optional wrappers' `get` panics only on a short Vec and otherwise yields the optional lookup |
| Storages.OptNotKeepStorage | lib/src/storage.rs:86-103 | `opt` keeps the mask, `not` complements it and yields unit, and an optional get returns what the plain get does |
| Storages.EntitiesYieldHandles | lib/src/storage.rs:356-373 | the Entities wrapper's mask is the alive set and it yields the entity's handle |
| Storages.MaskedGetIsSafe | lib/src/storage.rs:77-83 | on a sound storage, `get` at a masked index does not panic, and yields the stored payload |
| Joins.AndAll | lib/src/join.rs:201-236 | `BitAnd::and` builds an `and` tree over the masks |
| Joins.AndTreeIsIntersection | lib/src/join.rs:224-236 | whatever the split points, an index is in the tree exactly when it is in every mask |
| Joins.JoinMaskIsIntersection | lib/src/join.rs:161-168 | the opened mask of a tuple is the intersection of its parts' masks |
| Joins.JoinGet | lib/src/join.rs:71-73 | `get` of a storage is its element; `get` of a tuple is a tuple of the same arity |
| Joins.MaskedJoinIsSafe | lib/src/join.rs:170-176 | on sound storages, an index in the opened mask can be read in every storage without a panic |
| Joins.NextMember | lib/src/join.rs:128-130 | the next key is at or past the position and in the mask |
| Joins.NextMemberIsLeast | lib/src/join.rs:128-130 | no mask index is skipped before the next key, and none remains once there is none |
| Joins.KeysAscend | lib/src/join.rs:125-131 | the keys are indices of the mask, strictly ascending |
| Joins.KeysAreComplete | lib/src/join.rs:125-131 | every mask index at or past the start is among the keys |
| Joins.JoinIter.constructor | lib/src/join.rs:85-93 | `new` opens the join and starts before index 0 |
| Joins.JoinIter.GetUnchecked | lib/src/join.rs:112-119 | a value comes back exactly when the mask holds the index, and it is the joined get there |
| Joins.JoinIter.Get | lib/src/join.rs:96-103 | the same lookup at the entity's index |
| Joins.JoinIter.Next | lib/src/join.rs:125-131 | yields the joined values at the next mask index, or nothing past the last; the remaining keys are the old keys minus the one yielded |
| Systems.Base | codegen/src/system.rs:121-123 | the accessor under every Option is not an Option |
| Systems.IsMut | codegen/src/system.rs:127-133 | only a read is immutable, looking through Option |
| Systems.IsOpt | codegen/src/system.rs:135-140 | an accessor is optional exactly when it is an Option |
| Systems.WrapperInit | codegen/src/system.rs:103-125 | a bare read is borrowed, a bare write mutably borrowed, others as is; Mutex and RwLock are wrapped |
| Systems.OptionWrapsLikeBase | codegen/src/system.rs:121-123 | an Option accessor wraps like its base, is as mutable, and is optional |
| Systems.FirstFaultIsFirst | codegen/src/system.rs:292-331 | of a sequence of lookups that may panic, generation panics exactly when one does, with the fault of the first that does |
| Systems.GenerableIff | codegen/src/system.rs:284-345 | a for-each system's code is generated exactly when every component and resource it names is declared, it has no command buffer parameter, and some component parameter is required |
| Systems.Resolve | codegen/src/system.rs:172-222 | an initialiser that does not panic reads only a declared component |
| Systems.RequiredOf | codegen/src/system.rs:292-312 | the mask's components are declared ones |
| Systems.CodeOf | codegen/src/system.rs:284-345 | generated code has a non-empty mask, one initialiser per parameter, and reads only declared components |
| Systems.MaskComponents | codegen/src/system.rs:290-312 | the mask loop panics exactly when a required component is undeclared, with the first such fault; otherwise it lists the required components in signature order |
| Systems.Initialisers | codegen/src/system.rs:165-224 | the initialisers panic exactly when some element's lookup fails or it is a command buffer, with the first fault; otherwise one resolved initialiser per element, in order |
| Systems.Generate | codegen/src/system.rs:284-345 | `make_run` panics exactly when the code cannot be generated, with the fault of the first failing step (mask loop, initialisers, then an empty mask); otherwise it yields the generated code |
| Systems.RequiredOfEmpty | codegen/src/system.rs:304-314 | once every required component is declared, the mask is empty exactly when no parameter is required |
| Systems.UnknownResourceFailsGeneration | codegen/src/lib.rs:398-406 | a signature with an undeclared resource is refused while generating, naming it |
| Systems.BindOne | codegen/src/system.rs:204-220 | only a component initialiser can panic; a component binds to a payload, optional exactly when the parameter is, with the parameter's wrapping; the entity parameter binds to the handle of the index |
| Systems.BindIsPointwise | codegen/src/system.rs:328-338 | (the properties of `Systems.Bind`, the initialisers run in order) binding the signature succeeds exactly when every parameter binds, and binds each one in order |
| Systems.ChainIsIntersection | codegen/src/system.rs:304-309 | the `BitSetAnd` chain holds an index exactly when every bitset in it does |
| Systems.RequiredOfIsRequired | codegen/src/system.rs:292-312 | every bitset of the mask holds an index exactly when the bitset of every required component parameter does |
| Systems.GeneratedMaskIsForEach | codegen/src/system.rs:290-314 | the generated mask holds exactly the alive indices that have every required component |
| Systems.Ends | codegen/src/system.rs:316-326 | an error reply ends the loop only with `result`, a halt only with `control_flow` |
| Systems.StepEnding | codegen/src/system.rs:335-343 | one loop step panics exactly when binding fails, and goes on exactly when binding succeeds and the reply does not end the loop |
| Systems.VisitIsPrefix | codegen/src/system.rs:335-344 | (the properties of `Systems.Visit`, the loop over the keys) the loop visits a prefix of the keys, completes exactly when it visits all of them, and otherwise ends at the first step that ends it |
| Systems.VisitStep | codegen/src/system.rs:335-344 | the scan index by index: skipping an index outside the mask changes nothing; a visited index either ends or continues the run |
| Systems.RunForEach | codegen/src/system.rs:335-344 | the loop over the mask is the visit over its keys in ascending order |
| Systems.BoundComponentIsView | codegen/src/system.rs:204-219 | at a visited entity, a component initialiser binds to what the store's getter shows: the payload for a required parameter, the optional payload for an optional one |
| Systems.MaskedBindSucceeds | codegen/src/system.rs:328-343 | at every index of the generated mask, the generated initialisers all bind without a panic, provided each optional Vec component reaches the index |
| Systems.OptionalVecReadPanicsWhenShort | codegen/src/component.rs:86 | an optional Vec parameter of an alive entity whose Vec is short panics |
| Systems.PlainSystemVisitsAll | codegen/src/system.rs:316-326 | without `result` and `control_flow` the loop visits every key and completes |
| Commands.AliveIds | codegen/src/store.rs:179-181 | the ids queued by a sequence of kills are alive ids of the killed entities |
| Commands.KillAll | codegen/src/command.rs:113 | the kill phase keeps the store's shape |
| Commands.BuildAll | codegen/src/command.rs:116 | the build phase keeps the store's shape |
| Commands.AddAll | codegen/src/command.rs:60-64 | the additions keep the shape and the alive set |
| Commands.DelAll | codegen/src/command.rs:66-70 | the removals keep the shape and the alive set |
| Commands.EditAll | codegen/src/command.rs:119 | the component edits keep the shape and the alive set |
| Commands.FlushS | codegen/src/command.rs:111-120 | the flush keeps the store's shape |
| Commands.KillAllEffect | codegen/src/command.rs:113 | after the kills, exactly the listed entities are dead and show nothing; the invariant holds |
| Commands.KillStep | codegen/src/command.rs:113 | killing one more, not yet killed entity is the single kill of the store after the earlier kills, and it frees that id exactly when the entity was alive |
| Commands.BuildAllEffect | codegen/src/command.rs:116 | after the builds, the built entities are alive; the invariant holds |
| Commands.AddAllEffect | codegen/src/command.rs:60-64 | an alive listed entity shows its scheduled payload; dead ones and other components are unchanged |
| Commands.DelAllEffect | codegen/src/command.rs:66-70 | an alive listed entity shows nothing for the component; others are unchanged |
| Commands.EditAllEffect | codegen/src/command.rs:55-72 | per component, a listed removal hides the component, else a listed addition to an alive entity shows it, else it is unchanged |
| Commands.FlushAlive | codegen/src/command.rs:111-120 | after a flush the alive set is the old one minus the deleted plus the created |
| Commands.DeleteBeatsAdd | codegen/src/command.rs:111-120 | a deleted entity the buffer does not create ends dead with no component, whatever additions were scheduled |
| Commands.CreationSurvivesDeletes | codegen/src/command.rs:111-120 | an entity created in the buffer is alive after the flush even if deleted, and a scheduled removal still hides its component |
| Commands.AddReachesAliveOnly | codegen/src/command.rs:59-64 | a scheduled addition shows after the flush exactly when its entity is then alive and no removal is scheduled |
| Commands.RunClosure | codegen/src/command.rs:103-104 | the closure's setter calls on the lent builder leave the builder the edits produce |
| Commands.CommandBuffer.constructor | codegen/src/command.rs:85-93 | a new buffer shares the store's allocator and has nothing pending |
| Commands.CommandBuffer.NewEntity | codegen/src/command.rs:96-108 | reserves from the shared allocator and queues the builder the closure fills; nothing else changes |
| Commands.CommandBuffer.Delete | codegen/src/command.rs:123-126 | schedules a kill; nothing else changes |
| Commands.CommandBuffer.Set | codegen/src/command.rs:42-45 | schedules an addition, replacing any earlier one for the entity; nothing else changes |
| Commands.CommandBuffer.Unset | codegen/src/command.rs:48-51 | schedules a removal; nothing else changes |
| Commands.CommandBuffer.KillPending | codegen/src/command.rs:113 | drains the deletions in some order into kills, and queues the ids of those that were alive |
| Commands.CommandBuffer.BuildPending | codegen/src/command.rs:116 | drains the builders in queue order into builds |
| Commands.CommandBuffer.AddPending | codegen/src/command.rs:60-64 | drains one component's additions in some order, each only for an alive entity |
| Commands.CommandBuffer.DelPending | codegen/src/command.rs:66-70 | drains one component's removals in some order, each only for an alive entity |
| Commands.CommandBuffer.EditPending | codegen/src/command.rs:119 | every component's additions then removals, in some drain order |
| Commands.CommandBuffer.Flush | codegen/src/command.rs:111-120 | the new store is the flush of the old over some drain orders, the freed ids are queued, and the buffer is empty afterwards |
| Commands.ScheduleTwice | codegen/src/command.rs:42-51 | scheduling an addition twice keeps the last value; a removal twice is once |
| Commands.EnumerationCounts | codegen/src/command.rs:113 | a drain order lists as many entities as the set holds |
| Commands.NothingToEnumerate | codegen/src/command.rs:113 | an empty set drains to nothing |
| Commands.EditAllOfNothing | codegen/src/command.rs:55-72 | with nothing scheduled the component edits change nothing |
| Commands.FlushOfNothing | codegen/src/command.rs:111-120 | flushing an empty buffer leaves the store as it is and frees nothing |
| Executor.Poll | lib/src/executor.rs:39-47 | a future is ready once its work is done; otherwise one unit of work is done |
| Executor.PollOnce | lib/src/executor.rs:50-62 | the future comes back exactly when it is still pending |
| Executor.Work | lib/src/executor.rs:24-35 | a non-empty buffer still owes polls |
| Executor.WorkUpdate | lib/src/executor.rs:28 | replacing one future changes the owed polls by the difference |
| Executor.SwapRemove | lib/src/executor.rs:29 | `swap_remove` drops one element and moves the last one into its place |
| Executor.WorkSwapRemove | lib/src/executor.rs:29 | removing a future drops exactly the polls it owed |
| Executor.AccountedSwapRemove | lib/src/executor.rs:28-30 | the bookkeeping of which input is where and how often it was polled survives a `swap_remove` |
| Executor.AccountedPoll | lib/src/executor.rs:28-33 | polling the future at one position keeps the bookkeeping, whether it is swap-removed when ready or advanced when pending |
| Executor.FutureBuffer.constructor | lib/src/executor.rs:6 | the work buffer starts empty |
| Executor.PollInput | lib/src/executor.rs:11-22 | every input future is polled once, and those still pending are kept in input order |
| Executor.PollAt | lib/src/executor.rs:28-33 | a ready future is swap-removed, a pending one advanced; either way one poll of work is done |
| Executor.Sweep | lib/src/executor.rs:25-34 | a pass over a non-empty buffer strictly reduces the owed polls |
| Executor.RunAll | lib/src/executor.rs:6-36 | `run_all` ends with an empty buffer, having polled every future until ready, each exactly its work plus one times |
| Scheduling.StageMembersInOrder | codegen/src/lib.rs:112-126 | a stage's group holds exactly the systems registered for it, in registration order, and is empty exactly when none is |
| Scheduling.StageMembersExact | codegen/src/lib.rs:112-126 | a system is in a stage's group exactly when it is registered for that stage |
| Scheduling.StageMembersAscend | codegen/src/lib.rs:121-125 | a stage's group lists its systems in strictly ascending registration order |
| Scheduling.GroupStep | codegen/src/lib.rs:121-125 | appending a system to its stage's list, created at the stage's first system, keeps every list the stage's members so far |
| Scheduling.GroupByStage | codegen/src/lib.rs:112-126 | panics exactly when some system's stage is undeclared, naming the first; otherwise maps each used stage to its systems in order |
| Scheduling.Runs | codegen/src/lib.rs:131-133 | one run statement per system, in order |
| Scheduling.RunsStep | codegen/src/lib.rs:131-133 | the runs of one more system end with that system's run |
| Scheduling.AppendRuns | codegen/src/lib.rs:131-133 | appends one run per system of a stage, in order |
| Scheduling.PlanStep | codegen/src/lib.rs:128-139 | the plan of one more stage ends with that stage's segment |
| Scheduling.SegmentShape | codegen/src/lib.rs:130-138 | a stage with systems contributes their runs, the last of them, then exactly one flush at the end |
| Scheduling.PlanRuns | codegen/src/lib.rs:128-139 | the statements of `run` are the plan of the stages over the grouping |
| Scheduling.PlanGenerable | codegen/src/lib.rs:128-139 | (definition) every run statement names a system whose code can be generated |
| Scheduling.GenerateRuns | codegen/src/lib.rs:128-139 | `make_run` over the plan's run statements in order panics exactly when some system's code cannot be generated, with the fault of the first such statement |
| Scheduling.Schedule | codegen/src/lib.rs:112-139 | panics exactly when a stage is undeclared (naming the first system's) or a system's code cannot be generated (with the first fault in plan order); otherwise the plan over the grouping, with every system generable |
| Scheduling.PlanConcat | codegen/src/lib.rs:129-139 | the plan of two stage lists is the concatenation of their plans |
| Scheduling.FlushesConcat | codegen/src/lib.rs:135-137 | flushes of a concatenation add up |
| Scheduling.RunsHaveNoFlush | codegen/src/lib.rs:131-133 | system runs contain no flush |
| Scheduling.OneFlushPerStage | codegen/src/lib.rs:128-139 | there is exactly one flush per declared stage that has systems |
| Scheduling.NoEmptyFlush | codegen/src/lib.rs:128-139 | with non-empty groups, every flush follows a system run and the plan ends with a flush |
| Scheduling.FlushesFollowRunsConcat | codegen/src/lib.rs:128-139 | two plans in which every flush follows a run and which end with a flush make such a plan when joined |
| Scheduling.SegmentFlushesFollowRuns | codegen/src/lib.rs:130-138 | the segment of a stage with at least one system has every flush after a run and ends with a flush |
| Scheduling.PlannedRunsAreGrouped | codegen/src/lib.rs:128-139 | a system runs exactly when it is in the group of some declared stage |
| Scheduling.RunInSegment | codegen/src/lib.rs:130-133 | a stage's segment runs a system exactly when it is in that stage's group |
| Scheduling.GroupedSnoc | codegen/src/lib.rs:129 | a system belongs to one of the stages plus one more exactly when it belongs to one of the stages or to the added one |
| Scheduling.EverySystemRuns | codegen/src/lib.rs:112-139 | over the grouping, a system runs exactly when its stage is declared |
| Scheduling.StagesRunInOrder | codegen/src/lib.rs:129 | all of an earlier stage's runs come before a later stage's |
| Scheduling.StageRunsInRegistrationOrder | codegen/src/lib.rs:121-125 | within a stage, systems run in registration order |
| Scheduling.Failure | codegen/src/system.rs:316-326 | `run` goes on exactly after a run that completed or stopped under `control_flow`; an error returned through `?` is returned, a panic ends everything |
| Scheduling.RaisedNeedsResult | codegen/src/system.rs:316-320 | a system run ends with an error only if the system returns a result |
| Scheduling.KindsOf | codegen/src/store.rs:28-34 | the store's kinds are the declared components' kinds, in order |
| Scheduling.World.constructor | codegen/src/lib.rs:293-312 | `build` gives an empty store over a fresh allocator and a command buffer sharing it with nothing pending; it keeps the declarations, system functions and plan it was given |
| Scheduling.World.Run | codegen/src/lib.rs:160-166 | runs the plan's statements in order: every system run before `steps` went on, each over the store as it was before or after the first flush; on an error, the run at `steps` failed with that error; until the first flush nothing changes, and after it the pending commands have been applied |
| Scheduling.World.FlushStep | codegen/src/lib.rs:135-137 | the first flush applies the pending commands; a later one finds nothing pending and changes nothing |
| Scheduling.World.RunSystemStep | codegen/src/system.rs:335-344 | the outcome is the visit of the generated mask over the store with the generated initialisers, and the failure reported is what `run` makes of that outcome; a system error comes only from a system that returns a result |
| Scheduling.World.Next | codegen/src/lib.rs:169-171 | a new builder for an id reserved from the store |
| Scheduling.World.Build | codegen/src/lib.rs:173-175 | the store's `build` |
| Example.CoherentClear | example/src/ecs.rs:108-116 | emptying a slot and clearing its bit keeps a Vec and its bitset coherent |
| Example.CoherentFill | example/src/ecs.rs:97-106 | filling a slot and setting its bit keeps them coherent |
| Example.CoherentGrow | example/src/ecs.rs:58-66 | appending an empty slot keeps them coherent |
| Example.PhysicsMask | example/src/ecs.rs:24-35 | the system visits exactly the alive entities that are enabled and have a velocity and a position |
| Example.Moved | example/src/ecs.rs:36-54 | the positions after the system keep their length |
| Example.MyEcs.constructor | example/src/ecs.rs:203-233 | `build` and `with_capacity` give a store with nothing in it |
| Example.MyEcs.Push | example/src/ecs.rs:58-66 | the entity is the counter truncated to 32 bits, now alive with an empty slot in every Vec; the counter advances |
| Example.MyEcs.Delete | example/src/ecs.rs:68-95 | true exactly when the entity was alive; it is then dead with every slot and bit cleared, and otherwise nothing changes |
| Example.MyEcs.Check | example/src/ecs.rs:98-102 | the setters' two assertions: an id past the counter fails the range assertion, a dead one the alive one |
| Example.MyEcs.CompPosition | example/src/ecs.rs:97-106 | refused as the assertions say; otherwise the slot holds the value and the bit is set; nothing else changes |
| Example.MyEcs.RemoveCompPosition | example/src/ecs.rs:108-116 | refused as the assertions say; otherwise returns the slot's payload, present exactly when the bit was set, and clears both |
| Example.MyEcs.CompVelocity | example/src/ecs.rs:118-127 | as for position, on the velocity Vec |
| Example.MyEcs.RemoveCompVelocity | example/src/ecs.rs:129-137 | as for position, on the velocity Vec |
| Example.MyEcs.CompAcceleration | example/src/ecs.rs:139-152 | as for position, on the acceleration Vec |
| Example.MyEcs.RemoveCompAcceleration | example/src/ecs.rs:154-165 | as for position, on the acceleration Vec |
| Example.MyEcs.CompEnabled | example/src/ecs.rs:167-176 | refused as the assertions say; otherwise only the bit is set |
| Example.MyEcs.RemoveCompEnabled | example/src/ecs.rs:178-191 | refused as the assertions say; otherwise returns the default exactly when the bit was set, and clears it |
| Example.MyEcs.Run | example/src/ecs.rs:22-56 | visits exactly the indices of the physics mask in ascending order and replaces each visited position by the system's result; everything else is unchanged |

## Left out

- The token generation itself (`quote!` output, identifiers, doc strings), `load`, `run_rustfmt`, `config.rs`, `builder.rs`, `resource.rs`, `main.rs` and `build.rs` are left out: they produce or format text. They define nothing the generated code does at run time.
- The DenseVec kind and the Flagged kind's storage type and initialiser are `todo!()` in the source. Only Flagged's delegation of remove and clear is modelled.
- Every component of a store shares one payload type `T`, and a Null component's default is one store constant. Rust gives each component its own type.
- The `_mut` getters are the same as the plain getters: mutable references and the raw-pointer casts in `Write::get` have no counterpart here.
- Aliasing through `unsafe`, `Pin`, the waker, thread parking, and the lock semantics of `Mutex`/`RwLock` are not modelled. Those accessors are only told apart by how they wrap.
- `Entities::is_alive` discards its result. It has no effect, so it is not modelled.
- The ReadOpt mask is the component's bitset, as the code has it. The optional parameters of a for-each system are left out of its mask (system.rs:294-296).
- `HashMap`/`HashSet` drain order is unspecified. The flush is proved for every possible drain order, which its methods return as ghost values.
- A system's parameters and its replies are bound by value. A system's writes to its payloads, to its state and to resources are not propagated back into the store.
- The `CommandBuffer` system parameter is `todo!()` in the source, so systems never enqueue commands. In the model, every flush after the first of a run finds the buffer empty.
- Function, async and async-for-each systems are `todo!()` in `make_run`; only for-each systems are modelled.
- The generated `make_run` and `remove_function` calls in `lib.rs`/`store.rs` pass arguments the definitions do not take, and the example's `physics_system` is called with three arguments but declared with two. The model follows the definitions and the example's call site.
- `BitIter` skips empty layers of the hierarchical bitset. The model scans index by index, which yields the same keys in the same order.
- A future is a countdown of pending polls; futures that never complete are not modelled. In the model every future completes, so `RunAll` always terminates.
- Panics while the code is generated (an undeclared stage, component or resource, a command buffer parameter, a Null component with lifetimes) are `Err` results of the generation members (`Scheduling.Schedule`, `Systems.Generate`, `Components.AsType`), checked once per system. A mask with no component is refused there as well (`NoRequiredComponent`), since its emitted expression does not compile. The generated code then reads only declared components, and its only panics are the ones it raises at run time.
- `make_run` is called while the plan is built, one stage at a time. The model first builds the plan, then generates each run statement in plan order. Building the plan cannot fail once the grouping succeeded, so the first fault is the same.
- A `Const` parameter's expression and the system's function path are parsed with `syn::parse_str(..).expect(..)`. These parse failures are not modelled: the model takes every path and expression to parse.
- `with_capacity` only reserves memory, so it is modelled as `new`.
- The World's plan is a constructor argument. `Scheduling.Schedule` computes it from the declarations, and nothing ties the two together inside the class.
- The resources' and system states' builder setters and `expect` on unset values (lib.rs:205-277) are not modelled.
- Store.ComponentStore.Next: the counter's wrap-around is modelled, but freshness is proved only under the allocator discipline, which a wrap breaks (Allocation.CounterWraps).
- Example.MyEcs.Push: `index` is an unbounded counter. The `usize` overflow of the source is not modelled; only the truncation of the id to 32 bits is.

## Findings

| source | as written | input that shows it | evidently intended | confidence | as-written member | corrected member |
|---|---|---|---|---|---|---|
| codegen/src/component.rs:170-177 | the Vec clear tests `index <= len` and then writes `vec[index]` | `reset` of id 0 on a fresh store with one Vec component: the Vec is empty, the test passes and the write is out of bounds | test `index < len`, and grow the Vec otherwise | not executed | Store.ResetAsWrittenPanicsOnFreshStore | Store.ResetClears |
| codegen/src/component.rs:142 | `kill` removes a Vec payload with an unchecked `vec[index].take()` | build entity 0 with no payload on a fresh store with one Vec component (the Vec stays empty), then kill it | take the slot only when it exists, as the getters' `get(index)` does | not executed | Store.KillAsWrittenPanicsAfterEmptyBuild | Store.KillRemovesEverything |
