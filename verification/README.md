# protoregistry: a verified model

protoregistry keeps protobuf schemas per namespace.  Clients publish schema versions, promote them,
roll them back and rebase them; namespaces form a hierarchy whose types children may import.  A
client library mirrors a namespace into local descriptor registries, refreshes them by difference
and caches them on disk.

This project models the parts that carry the correctness of that design and proves what they
promise.  `dafny verify dfyconfig.toml` checks all of it.

| part | modules |
|---|---|
| descriptors as trees, dotted names | Descriptors, Names |
| hierarchical file registry | FileIndex, FileHistory, PackageChains, Stranded, FileLookup, FileRegistry |
| type registry | TypeIndex, TypeRegistry |
| client: compiling, aggregate, name index, refresh, lookups | SchemaTypes, Aggregate, Snapshot, SchemaBuild, NameIndex, ServerState, Refresh, Resolver, Collisions, DroppedSchema, Stuck |
| client: disk cache, listing | DiskCache, Paging |
| registry state machine, pins | Lifecycle, Pins, RolledBack, Registry |
| compatibility checker | Compat, CompatRules, PackageMove |
| namespace hierarchy | Hierarchy |
| import order, loader, import resolution, fingerprint | ImportOrder, Loader, SourceTiers, Fingerprint, Ordering |

How the model is built:

- Code that changes things in place is a class or a method with loops (`NamespacedFiles`,
  `NamespacedTypes`, `Resolver`, `Registry`, `NamespaceStore`, `CacheDirectory`, `Result`).  Each
  method is proved equal to a function on values, and what the system promises is proved about
  those functions over every history.
- A full name is the sequence of its components; module Names shows that this loses nothing
  against dotted strings.
- Where Go ranges over a map, the order is arbitrary: the methods pick any element, and results are
  proved for every order.
- Calls into libraries are inputs: what the compiler yields for a Publish, which versions a server
  can deliver, whether a store call fails.  `Linked`, `UniqueNames` and `WellFormed` state what the
  protobuf library guarantees of descriptors it has accepted.

Where the code and its documentation differ, the model follows the code:

- The disk cache describes the chain in its manifest as nearest first; the ancestors are stored
  farthest first, so a reload keeps the lookup order exactly for chains with at most one ancestor
  (`DiskCache.PersistAndReload`, `DiskCache.ReloadChangesAnswers`).
- A restart loads current versions only, while the store still promotes every staged row
  (`Lifecycle.RestoreExact`, `Lifecycle.RestartSkipsTheCheck`).
- Pruning package nodes ignores sub-packages, after which the conflict check misses a clash; it
  judges every file rightly exactly while the nodes are complete
  (`PackageChains.RightExactlyWhenComplete`, `FileHistory.UnregisterKeepsChains`,
  `PackageChains.UpdateKeepsChains`, `FileHistory.PrunedParentLetsClashIn`).
- An update that panics on a clash of its package has already dropped the former file, and names that
  both versions of the file declare outlive it (`FileHistory.SoundExactly`,
  `Stranded.NameOutlivesFile`).
- The cycle check of the hierarchy walks 64 namespaces (`Hierarchy.SetParentExact`,
  `Hierarchy.DepthBoundIsExact`).  Creating a namespace is checked by the foreign key alone, which
  lets a namespace be its own parent (`Hierarchy.CreateKeepsAcyclic`).
- An extension that changes its number stays reachable under the old one
  (`TypeIndex.UpdateExact`, `TypeIndex.RenumberLeavesStale`).
- The name index checks neither paths nor extension numbers nor the names of enum values.  Dropping
  a schema takes away what it shares with the others, and a rebuild would have it
  (`Collisions.DropKeepsExactly`, `DroppedSchema.DropRun`, `DroppedSchema.LosesOneOfEach`).
- Such a loss stops the client: once a path of a schema is missing from the aggregate, every refresh
  that drops or replaces the schema fails and keeps the old snapshot (`Stuck.StuckRun`,
  `Stuck.DropThenReplace`).
- The loader goes on only while a pass loads something, so a file can be left neither loaded nor
  failed although an import of it has failed (`Loader.FailedExactly`, `Loader.WaitsUnreported`).
- Files may move to other packages unnoticed, exactly when nothing in the whole snapshot refers to a
  type that moves (`PackageMove.MovePassesExactly`, `PackageMove.MovesBothWays`).
- A rebase becomes available not only when an ancestor moves on: promoting a rolled-back version
  whose pins are behind does it too (`Pins.RebaseAvailableExactly`, `RolledBack.StoryFallsBehind`).
- A same-namespace dependency overrides the submitted source of the same file
  (`SourceTiers.OwnSourceWinsExactly`).

## Model

| member | source | states |
|---|---|---|
| `Resolver.RunEqualsRebuild` | client/refresh.go:38-191 | after any number of refreshes, failed ones in between, the incrementally patched aggregate answers every read as an aggregate rebuilt from scratch out of the state it follows, in whatever order the rebuild meets the files |
| `Resolver.RunKeepsStep` | client/refresh.go:38-191 | by induction over the run: snapshot, name index and aggregate all describe the last server state taken over |
| `Resolver.RefreshKeepsStep` | client/refresh.go:38-169 | one refresh either changes neither snapshot nor aggregate, or leaves both in step with the new state; the aggregate never fails halfway on clean states |
| `Resolver.CleanStateFollowed` | client/refresh.go:64-169 | a clean state that arrives whole is always taken over, never reported as a collision |
| `Resolver.LookupsAgree` | client/client.go:380-458 | for every name and kind the fast path through the name index gives the answer of the aggregate with the same registries above |
| `Resolver.Resolver.Refresh` | client/refresh.go:38-169 | which of the seven outcomes occurs and the state it leaves: snapshot, index and aggregate, also the half-patched aggregate of a patch that breaks off, and stale resolvers and failed lists and fetches |
| `Resolver.Resolver.Plan` | client/refresh.go:50-114 | the lists to remove and to apply lead to the wanted versions, or a fetch fails; empty lists mean equal versions |
| `Resolver.Resolver.Patch` | client/refresh.go:120-149 | in place, from any state: removals of the gone, removals of the outdated and applications, in this order, up to the first failure |
| `Resolver.Resolver.Populate` | client/snapshot.go:475-512 | the first fetch ends as a refresh of an empty resolver would |
| `Resolver.Resolver.RefreshLoop` | client/refresh.go:174-191 | the polling loop produces a run: each tick starts where the former one ended, failures included |
| `Resolver.Resolver.FindTypeByName` | client/client.go:380-419 | a name in the index is answered by its schema and that schema's parents, any other by the aggregate, which answers all names while there is no snapshot |
| `Resolver.Resolver.FindDescriptorByName` | client/client.go:447-458 | the same for descriptors of any kind |
| `Refresh.Diff` | client/refresh.go:50-97 | succeeds exactly when every changed version can be fetched and compiled; kept schemas are reused, changed ones are listed for removal and for application, each once |
| `Refresh.Gone` | client/refresh.go:99-109 | lists exactly the schemas the server no longer has |
| `Refresh.DiffLeads` | client/refresh.go:58-144 | dropping the removed and outdated schemas and adding the fetched ones turns the old version map into the new one |
| `Refresh.RemoveSchemas` | client/refresh.go:128-137 | in place, from any state: the fingerprints of the listed schemas are removed one after the other up to the first failure |
| `Refresh.ApplySchemas` | client/refresh.go:139-149 | in place, from any state: the files of the listed schemas are folded in schema by schema, each schema in some order, up to the first failure |
| `Refresh.RemovesInStep` | client/refresh.go:128-137 | from a clean state, removing the listed schemas succeeds and leaves the aggregate of the rest |
| `Refresh.AppliesInStep` | client/refresh.go:139-149 | applying the listed schemas to a state that stays clean never fails and yields the aggregate of all |
| `Refresh.PatchedInStep` | client/refresh.go:120-149 | between clean states the whole patch never fails, and the aggregate goes from the one to the other |
| `Refresh.RebuildAgrees` | client/snapshot.go:475-512 | an aggregate in step with a clean state cannot be told apart from a rebuild in any file order |
| `Refresh.CleanExportsApart` | client/snapshot.go:208-261 | clean states have no name collision |
| `Collisions.DropKeepsExactly` | client/snapshot.go:92-140 | two schemas that pass the index are folded into one aggregate in any order: dropping the one never fails, and every path, extension number and top-level name of the other stays in place exactly when they share none |
| `DroppedSchema.DropRun` | client/refresh.go:99-137 | populate with any state, then refresh to the state without one schema: the refresh goes through, and the aggregate has every path, extension number and top-level name of the schemas that stay exactly when the dropped one shares none |
| `Collisions.AggKeeps` | client/snapshot.go:92-106 | the aggregate of a clean set of files has all of their paths, extension numbers and top-level names |
| `DroppedSchema.RebuildKeeps` | client/snapshot.go:475-512 | so has every rebuild from the schemas that stay, in whatever order it meets the files |
| `DroppedSchema.PairRun` | client/snapshot.go:208-261 | for all pairs of schemas in the root package that pass the index: populate and drop both go through, and the second schema is left whole exactly when the two share nothing |
| `DroppedSchema.LosesOneOfEach` | client/snapshot.go:208-261 | three runs of the resolver, with a shared path, a shared extension number and a shared enum value, after which the schema that stays has lost it |
| `Collisions.RemovePrintExact` | client/snapshot.go:118-140 | for a fingerprint without repeats, from any state: removal succeeds exactly when every listed path is registered and every listed name is registered with its kind |
| `Collisions.RemovePrintStops` | client/snapshot.go:118-123 | removal stops at the first missing path with an error: the paths before it are gone, those after it and all types stay |
| `Stuck.RefusedOnce` | client/refresh.go:128-149 | a refresh that drops or replaces a schema with a path missing from the aggregate fails, on the aggregate when the state can be listed, fetched and indexed; the snapshot is kept and the path stays missing |
| `Stuck.StuckRun` | client/refresh.go:38-191 | so over every run of refreshes that all drop or replace that schema: each fails and the snapshot never moves |
| `Stuck.SharedPathTaken` | client/refresh.go:99-149 | a refresh that drops or replaces a schema takes a shared path from every schema that keeps it, unless something fetched has it |
| `Stuck.PairStuck` | client/refresh.go:99-149 | for all pairs that share a path: populate and drop go through, and the next version of the schema that stays is refused on the aggregate |
| `Stuck.DropThenReplace` | client/refresh.go:128-137 | the concrete run: populate, drop, and a new version that ends in an aggregate error with the old snapshot kept |
| `Refresh.FetchSchema` | client/snapshot.go:308-322 | yields a snapshot that describes exactly the files of that version, or fails exactly when they cannot be fetched or compiled |
| `NameIndex.BuildNameIndex` | client/snapshot.go:208-261 | succeeds exactly when no two schemas export a name, and then points every exported name at its one owner and no other name anywhere |
| `NameIndex.RecordSchema` | client/snapshot.go:223-243 | after a schema the index has its names, first owners keep theirs, and exactly the names owned before by another schema are clashes |
| `NameIndex.IndexedNamesExact` | client/snapshot.go:266-304 | the walk records the names of messages, enums, extensions, services and methods at any depth, and no others |
| `ServerState.FastTypeAgrees` | client/client.go:380-391 | type lookups through the index and through the aggregate agree for every name and kind |
| `ServerState.FastDescriptorAgrees` | client/client.go:447-458 | descriptor lookups through the index and through the aggregate agree for every name |
| `ServerState.RemoveOne` | client/snapshot.go:118-140 | removing one schema leaves the aggregate of all other schemas |
| `ServerState.ApplyOne` | client/snapshot.go:92-106 | applying one schema gives the aggregate of the larger state |
| `Aggregate.RemoveUndoesApply` | client/snapshot.go:92-140 | removing a schema right after applying it restores the aggregate whenever its contributions were fresh |
| `Aggregate.ApplyAdds` | client/snapshot.go:92-106 | fresh contributions go in whole, in any order of the files, and files and types both describe the union |
| `Aggregate.RemoveSubtracts` | client/snapshot.go:118-140 | unregistering the fingerprint never fails and leaves files and types of the remaining files |
| `Aggregate.PrintExact` | client/snapshot.go:384-414 | the fingerprint lists every path and every type name that applying the schema registers, once, and nothing else |
| `Aggregate.NamesUnique` | client/snapshot.go:86-92 | in a clash-free state a full name is declared once across all files, at any depth |
| `Snapshot.ApplyToAggregate` | client/snapshot.go:92-106 | visits every file of the schema once and stops at the first file that does not go in |
| `Snapshot.RemoveFromAggregate` | client/snapshot.go:118-140 | unregisters files, messages, enums and extensions of the fingerprint and stops at the first that is missing |
| `Snapshot.RegisterFileTypesUpdate` | client/snapshot.go:147-192 | upserts the types of a file in the order of the recursive walk |
| `Snapshot.RegisterMessageTypesUpdate` | client/snapshot.go:169-192 | upserts a message and everything nested in it in the order of the recursive walk |
| `SchemaTypes.FileTypesMembers` | client/snapshot.go:147-192 | the walk meets exactly the messages, enums and extensions declared at any depth |
| `SchemaTypes.RegisterAllExact` | client/snapshot.go:421-466 | strict registration succeeds exactly for new names, each listed once, with free extension numbers, and then adds exactly them |
| `SchemaBuild.CompileSchema` | client/snapshot.go:334-377 | succeeds exactly when the files list each type once and share no extension number; the registries and the fingerprint then describe exactly these files |
| `SchemaBuild.CompiledExact` | client/snapshot.go:334-377 | the same for every order in which the files are visited |
| `SchemaBuild.RegisterFileTypes` | client/snapshot.go:421-466 | registers the types of a file in walk order up to the first that is taken |
| `SchemaBuild.Collect` | client/snapshot.go:384-414 | appends the path and, kind by kind, the type names of a file |
| `SchemaBuild.CollectMessage` | client/snapshot.go:400-414 | appends, kind by kind, the names of a message and everything nested in it |
| `SchemaBuild.RegisterMessageTypes` | client/snapshot.go:443-466 | registers a message and everything nested in it up to the first type that is taken |
| `FileHistory.HistoryRepresents` | nsregistry/namespace.go:109-274 | after any clash-free history of register, update and unregister all indexes are those of the plain path-to-file map |
| `FileHistory.UpdateIsUnregisterThenRegister` | nsregistry/namespace.go:148-198 | updating a registered path gives the state of unregistering and registering it |
| `FileHistory.UpdateReplaces` | nsregistry/namespace.go:152-198 | in any state whatsoever an update that does not panic equals removal followed by insertion, index by index |
| `FileHistory.RegisterExact` | nsregistry/namespace.go:109-146 | while the package nodes are complete, a registration is accepted exactly when path and names are free of clashes, and a refusal changes nothing |
| `PackageChains.RightExactlyWhenComplete` | nsregistry/namespace.go:121-142 | registration judges every file rightly exactly when the package nodes are complete |
| `PackageChains.MissingNodeLetsClashIn` | nsregistry/namespace.go:121-142 | in every state with a missing node some clashing file is accepted |
| `PackageChains.UpdateKeepsChains` | nsregistry/namespace.go:148-198 | updating keeps the package nodes complete exactly when it orphans no package |
| `PackageChains.HistoryKeepsChains` | nsregistry/namespace.go:109-274 | so they stay complete over every history that orphans nothing |
| `PackageChains.RegisterExactOverHistories` | nsregistry/namespace.go:109-146 | after every such history registration accepts a file exactly when it clashes with nothing registered |
| `FileHistory.UnregisterKeepsChains` | nsregistry/namespace.go:260-274 | unregistering keeps the package nodes complete exactly when it empties no package above another file's package |
| `FileHistory.RegisterKeepsChains` | nsregistry/namespace.go:234-258 | registering keeps the package nodes complete |
| `FileHistory.PrunedParentLetsClashIn` | nsregistry/namespace.go:263-274 | a concrete history after which a clashing file is accepted that was refused before |
| `FileHistory.HistorySound` | nsregistry/namespace.go:109-258 | after every history that leaves no name behind in a panic, clashes or not, each indexed descriptor is declared by a registered file |
| `FileHistory.StepSound` | nsregistry/namespace.go:109-258 | one operation keeps the index sound exactly when it is not a panicking update that keeps a name no other file declares |
| `FileHistory.SoundExactly` | nsregistry/namespace.go:109-258 | the index is sound throughout a history exactly when no panic in it leaves such a name |
| `FileHistory.UpdatePanicsExactly` | nsregistry/namespace.go:148-258 | in any state, an update outside the root package panics exactly when a descriptor has the name of the new package, unless the replaced file declared it and the new one does not |
| `FileHistory.NoPanicNothingStranded` | nsregistry/namespace.go:234-258 | a history without a panic leaves no such name |
| `Stranded.NameOutlivesFile` | nsregistry/namespace.go:148-258 | a concrete history after which a lookup finds a descriptor whose file is not registered any more |
| `FileHistory.StepRepresents` | nsregistry/namespace.go:109-230 | each operation has the outcome and the effect of the same operation on the plain map |
| `FileIndex.RegisterRepresents` | nsregistry/namespace.go:109-146 | a fitting file is accepted and the indexes become those of the larger map |
| `FileIndex.RemoveRepresents` | nsregistry/namespace.go:203-230 | removal leaves the indexes of the map without the file |
| `FileIndex.FitsExactly` | nsregistry/namespace.go:121-142 | a file keeps the map clash-free exactly when its names are new and it neither names nor sits below a package clash |
| `FileIndex.CleanupEffect` | nsregistry/namespace.go:260-274 | cleanup deletes only empty package nodes on the way up and leaves everything else |
| `FileLookup.FindExact` | nsregistry/namespace.go:280-337 | a name resolves to a descriptor exactly when some registered file declares it under that name, at any depth |
| `FileLookup.FindSound` | nsregistry/namespace.go:280-337 | after every history that leaves no name behind in a panic, a found descriptor has the requested name and is declared by a registered file |
| `FileLookup.InMessageComplete` | nsregistry/helpers.go:66-94 | the search in a message finds every declaration nested in it |
| `FileLookup.InMessageSound` | nsregistry/helpers.go:66-94 | what the search in a message finds is declared in it |
| `FileLookup.SameMapSameView` | nsregistry/namespace.go:280-481 | two registries of the same clash-free files answer names, paths, packages and counts alike, whatever their histories |
| `FileRegistry.LevelsExact` | nsregistry/namespace.go:276-294 | the nearest registry on the parent chain that declares a name answers, so children shadow ancestors |
| `FileRegistry.FileInLevelsExact` | nsregistry/namespace.go:343-360 | a path has a file, an ambiguity or no answer exactly as the first level with a file at the path has one file, several, or there is no such level |
| `FileRegistry.NamespacedFiles.RegisterFile` | nsregistry/namespace.go:109-146 | in place: the effect and outcome of registration, or a refusal that changes nothing |
| `FileRegistry.NamespacedFiles.UpdateFile` | nsregistry/namespace.go:148-198 | in place: the effect of an upsert |
| `FileRegistry.NamespacedFiles.UnregisterFile` | nsregistry/namespace.go:200-230 | in place: the effect of removal, or not found |
| `FileRegistry.NamespacedFiles.InsertFileLocked` | nsregistry/namespace.go:232-258 | in place: package nodes, names, path tables and counter after an insertion |
| `FileRegistry.NamespacedFiles.CleanupPackages` | nsregistry/namespace.go:260-274 | in place: the pruned index |
| `FileRegistry.NamespacedFiles.DisplaceFile` | nsregistry/namespace.go:160-195 | in place: an update first drops the names the new file lacks and leaves the old package |
| `FileRegistry.NamespacedFiles.RemoveFromPackage` | nsregistry/namespace.go:215-224 | in place: the file leaves the node of its package, and empty nodes go if asked |
| `FileRegistry.NamespacedFiles.PackageConflicts` | nsregistry/namespace.go:121-130 | a conflict exactly when a descriptor has the name of the package or of a parent of it |
| `FileRegistry.CutFile` | nsregistry/namespace.go:483-490 | the list without its first file of that path |
| `FileRegistry.NamespacedFiles.FindDescriptorByName` | nsregistry/namespace.go:280-337 | the answer of the nearest level that has one |
| `FileRegistry.NamespacedFiles.FindFileByPath` | nsregistry/namespace.go:343-360 | the nearest level that has the path answers: with its file, or with an error when it has several |
| `FileRegistry.NamespacedFiles.RangeFilesAll` | nsregistry/namespace.go:396-442 | visits every visible path once, with the file that a lookup of the path gives, up to the file at which the callback stops |
| `FileRegistry.RangeTopLevelDescriptors` | nsregistry/helpers.go:41-64 | the order in which the top-level descriptors are visited |
| `TypeIndex.HistoryConsistent` | nsregistry/namespace.go:532-704 | over every steady history the by-number and by-name tables are inverse and the counters equal the entry counts |
| `TypeIndex.UpdateExact` | nsregistry/namespace.go:548-678 | an update keeps that exactly when it changes neither kind nor slot of a name and takes no slot of another |
| `TypeIndex.RegisterConsistent` | nsregistry/namespace.go:532-655 | registration is accepted exactly for a new name with a free slot, and a refusal changes nothing |
| `TypeIndex.UnregisterConsistent` | nsregistry/namespace.go:564-704 | unregistering removes exactly the name from both tables and the counter |
| `TypeIndex.ConsistentDetermined` | nsregistry/namespace.go:496-517 | a consistent registry is determined by its table of names |
| `TypeIndex.RenumberLeavesStale` | nsregistry/namespace.go:658-678 | every renumbered extension stays reachable under its former number with its former descriptor |
| `TypeRegistry.NumberAgreesWithName` | nsregistry/namespace.go:803-821 | an extension found by number extends that message with that number, and it is found by name in the level that answered, which is the first that has the number |
| `TypeRegistry.FindKindExact` | nsregistry/namespace.go:706-801 | a type is found exactly when the first level that has the name holds it with that kind, refused exactly when that level holds another kind, and missing exactly when no level has the name |
| `TypeRegistry.NumberMissingExactly` | nsregistry/namespace.go:803-821 | a lookup by number finds nothing exactly when no level has the number for that message |
| `TypeRegistry.NamespacedTypes.RegisterMessage` | nsregistry/namespace.go:531-546 | in place: the message under its name and the message counter, or a refusal that changes nothing |
| `TypeRegistry.NamespacedTypes.UpdateMessage` | nsregistry/namespace.go:548-562 | in place: the upserted message, counted only when the name is new |
| `TypeRegistry.NamespacedTypes.UnregisterMessage` | nsregistry/namespace.go:564-578 | in place: the name is gone, or not found when it is absent or not a message |
| `TypeRegistry.NamespacedTypes.RegisterEnum` | nsregistry/namespace.go:580-595 | in place: the enum under its name and the enum counter, or a refusal that changes nothing |
| `TypeRegistry.NamespacedTypes.UpdateEnum` | nsregistry/namespace.go:597-611 | in place: the upserted enum, counted only when the name is new |
| `TypeRegistry.NamespacedTypes.UnregisterEnum` | nsregistry/namespace.go:613-627 | in place: the name is gone, or not found when it is absent or not an enum |
| `TypeRegistry.NamespacedTypes.RegisterExtension` | nsregistry/namespace.go:629-655 | in place: both tables and the counter after registration, or a refusal that changes nothing |
| `TypeRegistry.NamespacedTypes.UpdateExtension` | nsregistry/namespace.go:657-678 | in place: both tables and the counter after an upsert |
| `TypeRegistry.NamespacedTypes.UnregisterExtension` | nsregistry/namespace.go:680-704 | in place: both tables and the counter after removal |
| `TypeRegistry.NamespacedTypes.FindByName` | nsregistry/namespace.go:706-801 | the nearest level that knows the name answers, even with a type of the wrong kind |
| `TypeRegistry.NamespacedTypes.FindExtensionByNumber` | nsregistry/namespace.go:807-821 | the extension of the nearest level that has the slot |
| `Lifecycle.CurrentVersionsCompatible` | registry.go:335-373 | in every admitted run from any healthy state each version that became current is backward compatible with every version current before it in that run |
| `Lifecycle.RunKeeps` | registry.go:174-446 | over every admitted run from any healthy state, store failures included, store and memory agree and every staged rollback is safe to promote unchecked |
| `Lifecycle.StepKeeps` | registry.go:174-704 | every single operation keeps that invariant |
| `Lifecycle.BootHealthy` | registry.go:82-125 | every valid store with nothing staged, whatever its past, boots into a healthy state |
| `Lifecycle.FreshHealthy` | registry.go:58-72 | the empty registry is such a start, and healthy |
| `Lifecycle.CurrentSinceBoot` | registry.go:335-373 | over every admitted run since such a start, the version that is current is compatible with the one that was current then |
| `Lifecycle.PromoteAtomic` | registry.go:335-373 | Promote moves all staged schemas of one namespace in store and memory or none, and touches no other namespace |
| `Lifecycle.PromoteExact` | registry.go:335-373 | however many schemas are staged: Promote goes through exactly when the namespace exists, the store call succeeds and every staged version newer than its current one is compatible with it; it is incompatible or not found exactly otherwise |
| `Lifecycle.ProposedAgrees` | namespace/namespace.go:188-202 | in every admitted run from any healthy state the proposed view in memory is the proposed state loaded from the store |
| `Lifecycle.RestoreExact` | registry.go:82-125 | a restart makes memory and store agree exactly when nothing is staged |
| `Lifecycle.RestoreLoads` | registry.go:82-125 | from any store: a restart is refused exactly when a parent is no namespace, and else every schema has its current version in memory, nothing staged, and the stored parents |
| `Lifecycle.RestartSkipsTheCheck` | registry.go:109-123 | for every state with something staged: after a restart Promote makes it current in the store unchecked while memory keeps the former version |
| `Lifecycle.PublishShape` | registry.go:174-325 | Publish touches one row and there only what is staged, with a number above all on record |
| `Lifecycle.RollbackSafe` | registry.go:406-446 | an unforced rollback stages only what is compatible with the current version |
| `Lifecycle.RollbackExact` | registry.go:406-446 | a rollback goes through exactly when the version exists, the store call succeeds and it is forced, or nothing is current, or the version is compatible with the current one |
| `Pins.RebasedIsUpToDate` | registry.go:583-682 | after a rebase, through every run that promotes no pinned namespace, re-parenting included, all cross-namespace pins of the rebased version are current, and whenever it is the current version no rebase is available |
| `Pins.RebaseAvailableExactly` | registry.go:583-620 | one step makes a rebase available exactly if it is a successful Promote that makes a staged version with a pin that is behind current, or that raises a pinned schema above its pin |
| `Pins.RebaseThenPromote` | registry.go:648-682 | rebase and promote make the rebased version current, with no rebase available |
| `Pins.RollbackOutdates` | registry.go:406-446 | for all states: promoting a staged rollback whose pins are behind makes a rebase available while no other namespace changes |
| `RolledBack.StoryFallsBehind` | registry.go:406-446 | from the empty registry, whatever two schemas publish: create, publish, promote, rebase and roll back, and the last Promote, of the child namespace alone, makes a rebase available that was not before |
| `RolledBack.RolledBackFallsBehind` | registry.go:583-620 | that story with concrete files |
| `Pins.PublishPinsCurrent` | registry.go:778-813 | a published version pins nothing but what is current in its ancestors |
| `Pins.PublishPinsExact` | registry.go:734-813 | a file is recorded as a dependency of a published version exactly when another schema of the namespace proposes it, or it is current in one of the first 63 ancestors |
| `Pins.NamespaceDepsExact` | registry.go:734-762 | from the same namespace exactly the files of each other schema at its staged version, else at its current one |
| `Pins.PublishExact` | registry.go:174-325 | the exact condition of each outcome of Publish: no sources, shadowing, compile error, no change, store failure, or the next version number |
| `Pins.PublishRecords` | registry.go:260-325 | a publish that goes through appends one version with the compiled tree and the submitted files, leaves all earlier ones, and stages it in row and slot |
| `Pins.RebaseExact` | registry.go:648-682 | a rebase is not found exactly without the namespace, refused exactly without a current version, and else never reports no change: what it publishes has the files of the current version |
| `Pins.GetRebaseStatus` | registry.go:583-620 | not found without the namespace or without a current version; else one status per cross-namespace pin of the current version with the version current now, and whether any is behind |
| `Pins.NoChangeExact` | registry.go:246-258 | Publish reports no change exactly when files and hashes equal those of the staged, else current, version |
| `Pins.NoChangeWithoutNewlines` | registry.go:246-258 | the same whenever no file name has a newline |
| `Pins.CurrentMovesOnlyByPromote` | registry.go:335-446 | no operation but a Promote of its namespace changes what is current for a schema |
| `RegistryObject.Registry.Publish` | registry.go:174-325 | in place: the publish step of the state machine with its error cases |
| `RegistryObject.Registry.IsUnchanged` | registry.go:872-902 | true exactly when the fingerprints of the submitted and the proposed version are equal |
| `RegistryObject.Registry.Promote` | registry.go:335-373 | in place: all checks first, then rows and slots |
| `Lifecycle.DiscardClears` | registry.go:376-384 | on success no row and no slot of the namespace stages anything, what is current stays, and no other namespace changes; on failure nothing does |
| `Lifecycle.DiscardUndoesPublish` | registry.go:376-384 | where nothing was staged, publishing and discarding restores every row and every slot |
| `RegistryObject.Registry.DiscardSlots` | namespace/namespace.go:164-171 | in place: the loop over the slots of a namespace leaves each with its current version and nothing staged |
| `RegistryObject.Registry.Rollback` | registry.go:406-446 | in place: a checked older version becomes staged |
| `RegistryObject.Registry.Rebase` | registry.go:648-682 | in place: the current files are published again unconditionally |
| `Lifecycle.ReparentExact` | registry.go:688-704 | re-parenting is done exactly when both namespaces exist and the bounded walk from the new parent does not meet the namespace; then column and pointer change together and no schema does, else nothing changes |
| `Lifecycle.CreateExact` | registry.go:514-541 | a namespace is created exactly when it is new; it gets its parent exactly when that exists and the second store call goes through, and no schema changes |
| `RegistryObject.Registry.Restore` | registry.go:82-125 | in place: memory rebuilt from current versions, or refused on an unknown parent |
| `RegistryObject.Registry.GatherDeps` | registry.go:734-762 | the files of the other schemas of the namespace, staged before current |
| `RegistryObject.Registry.GatherChainTiers` | registry.go:778-813 | the current files of all ancestors on the chain |
| `RegistryObject.Registry.GatherTier` | registry.go:786-811 | the current files of one ancestor |
| `Lifecycle.EnsureShape` | registry.go:708-732 | afterwards namespace and schema exist, no reader of rows, slots or parents sees a change, and a second call changes nothing |
| `Lifecycle.StageShape` | registry.go:298-318 | row and slot of the schema stage the same version and keep what is current; no other row or slot changes |
| `RegistryObject.Registry.PromoteSlots` | namespace/namespace.go:150-162 | in place: every staged slot of the namespace becomes current, the others stay |
| `RegistryObject.Registry.LoadCurrent` | registry.go:109-123 | in place: exactly the current versions on record are in memory |
| `Compat.CheckExact` | compat/compat.go:59-279 | no violation is reported exactly when every fact the old tree states is stated by the new one |
| `Compat.CheckPreorder` | compat/compat.go:59-279 | the checker is reflexive and transitive on all trees the protobuf library admits |
| `CompatRules.ReportExact` | compat/compat.go:59-279 | for all fifteen rules: a violation with its rule and position is in the report exactly when it holds of the two trees, said by matching files by path, messages, enums, services and methods by name, and fields and enum values by number |
| `CompatRules.CheckReports` | compat/compat.go:59-81 | so for what Check returns; without an old snapshot it reports nothing |
| `Compat.Check` | compat/compat.go:59-81 | the violations of the whole comparison in order; none without an old snapshot |
| `PackageMove.MovePassesExactly` | compat/compat.go:59-279 | for every snapshot and every choice of files that move to other packages, with all references following them: the check passes exactly when no message or enum field and no method of any file of the snapshot has a type that moves |
| `PackageMove.OneMovePassesExactly` | compat/compat.go:59-279 | for one file that moves: nothing in the snapshot, the file included, refers to a type it declares |
| `PackageMove.MovesBothWays` | compat/compat.go:181-190 | one file whose move passes, one whose move is reported for a reference of its own, and one whose move is reported for a reference in another file |
| `Compat.Result.CheckMessage` | compat/compat.go:101-142 | appends exactly the violations of a message and everything nested in it |
| `Compat.Result.CheckField` | compat/compat.go:144-209 | appends exactly the violations of a field: removal, name, kind, type and cardinality |
| `Compat.Result.CheckEnum` | compat/compat.go:211-236 | appends exactly the violations of an enum and its values |
| `Compat.Result.CheckService` | compat/compat.go:238-279 | appends exactly the violations of a service and its methods |
| `Compat.Result.CheckFile` | compat/compat.go:83-99 | appends exactly the violations of a file: messages, then enums, then services |
| `Compat.Result.CheckMethod` | compat/compat.go:250-278 | appends exactly the violations of a method: removal, input type and output type |
| `Hierarchy.SetParentExact` | store/postgres/sqlc/namespaces.sql.go:141-158 | a new parent keeps the hierarchy acyclic exactly when the namespace is not an ancestor that the bounded walk misses |
| `Hierarchy.ShortChainsAreSafe` | store/postgres/sqlc/namespaces.sql.go:141-158 | a new parent whose chain has at most 64 namespaces never closes a cycle |
| `Hierarchy.DepthBoundIsExact` | store/postgres/sqlc/namespaces.sql.go:141-158 | a chain of 64 is refused the cycle that a chain of 65 is granted |
| `Hierarchy.ShallowRunsStayAcyclic` | store/postgres/postgres.go:103-160 | no run of the store whose new parents stay within the bound creates a cycle |
| `Hierarchy.LogReplays` | store/postgres/postgres.go:103-160 | in every run the audit log replays to the parent column and its entries link up |
| `Hierarchy.NamespaceStore.SetNamespaceParent` | store/postgres/postgres.go:103-160 | in place: the guarded update and its audit row, or neither |
| `Hierarchy.NamespaceStore.CreateNamespace` | store/postgres/postgres.go:37-43 | in place: a new namespace with the parent that is asked for, refused when it exists or the parent does not; acyclicity is kept exactly when it is not its own parent |
| `Hierarchy.CreateKeepsAcyclic` | migrations/002_namespace_hierarchy.sql:12 | under the foreign key, creation keeps the hierarchy acyclic exactly when the namespace is not its own parent |
| `Hierarchy.ChainExact` | namespace/namespace.go:102-113 | the chain starts at the namespace, follows parents, and is the whole path exactly when that has at most 64 namespaces |
| `Hierarchy.ChainMembers` | namespace/namespace.go:102-113 | on every pointer graph, cyclic ones included, the chain has exactly the namespace and its first 63 ancestors |
| `Hierarchy.WalkChain` | namespace/namespace.go:102-113 | the loop terminates on every pointer graph, cyclic ones included, and yields that chain |
| `ImportOrder.ListFiles` | compiler/compiler.go:239-259 | every reachable file once, roots included, closed under imports, and imports before importers exactly when the graph is acyclic |
| `ImportOrder.AddFile` | compiler/compiler.go:239-259 | one descent keeps the walk invariant, lists what it is given and closes what it opened |
| `ImportOrder.AddImports` | compiler/compiler.go:248-253 | afterwards all imports of the file are seen, and listed if the graph is acyclic |
| `Loader.RunLoad` | internal/ctl/load.go:87-158 | terminates, tries each file at most once and only after its in-set imports were published, leaves every other file failed or with an unloaded import, and has a reason for each failed file |
| `Loader.Pass` | internal/ctl/load.go:93-157 | one pass keeps the loading invariant, and without progress every file is settled |
| `Loader.Visit` | internal/ctl/load.go:95-153 | one file is skipped, failed, left waiting or tried, and is settled relative to the files loaded so far |
| `Loader.Ready` | internal/ctl/load.go:100-130 | publishable exactly when every in-set import is loaded; else the first that is not, and a failed dependency exactly when that one has failed |
| `Loader.LoadedExactly` | internal/ctl/load.go:87-158 | whatever the server rejects: a file is loaded exactly when neither it nor anything it imports through others was rejected or is on an import cycle |
| `Loader.FailedExactly` | internal/ctl/load.go:87-158 | a file ends up failed exactly when it was rejected, or its first in-set import that is not loaded is failed and was so before the last pass or is listed before the file |
| `Loader.WaitsUnreported` | internal/ctl/load.go:93-157 | a concrete set in which a file whose import was rejected is left neither loaded nor failed |
| `Loader.AllLoadedIffAcyclic` | internal/ctl/load.go:87-158 | where every publish succeeds, all files are loaded exactly when their imports have no cycle |
| `Loader.LoadDirectory` | internal/ctl/load.go:87-158 | for every set of files with distinct names, whatever they import: the guarantees of the loader over the import graph they form, and exactly the loadable files are loaded |
| `SourceTiers.BuildChain` | compiler/compiler.go:330-376 | a file resolves to a source exactly when some origin has it for that file and no earlier origin has the file, in the order same-namespace dependencies, own sources, each ancestor nearest first, built-ins, bundled schemas, standard imports |
| `SourceTiers.SourceMap` | compiler/compiler.go:365-376 | within a tier the last dependency of a name wins over earlier ones and over the source |
| `SourceTiers.OwnSourceWinsExactly` | compiler/compiler.go:330-376 | in the chain that is built, the submitted source of a file is found exactly when the last same-namespace dependency of that name, if any, has the same content |
| `SourceTiers.SubmittedSourceLoses` | compiler/compiler.go:365-376 | a concrete schema whose file another schema of the namespace holds too: the other content is found |
| `SourceTiers.AddAncestors` | compiler/compiler.go:341-347 | the loop adds one tier per ancestor that has files, and the nearest with the file wins |
| `SourceTiers.NearerWins` | compiler/compiler.go:330-360 | a nearer ancestor overrides a farther one |
| `Fingerprint.TextExact` | compiler/compiler.go:381-398 | the hashed text is independent of the file order and, for clean names, equal only for equal files and hashes |
| `Fingerprint.UncleanNamesCollide` | compiler/compiler.go:381-392 | for all names and hashes: a name with a suitable newline gives one file the text of two |
| `Fingerprint.ComputeText` | compiler/compiler.go:381-392 | the loop writes the lines of the sorted files |
| `DiskCache.ReloadIsWhole` | client/cache.go:297-369 | in every interleaving of writers and readers, stopping anywhere, a finished reader has loaded one whole persisted snapshot and missed no file |
| `DiskCache.ManifestIsWhole` | client/cache.go:86-199 | in every such run the manifest is that of one whole snapshot and names only files that exist with the bytes of that version |
| `DiskCache.ImageExact` | client/cache.go:130-155 | a whole snapshot is each schema that has bytes, at its version, with those bytes |
| `DiskCache.FileNameInjective` | client/cache.go:141-142 | different schemas or versions never share a file |
| `DiskCache.LinkAncestors` | client/client.go:162-174 | the loop links the ancestors nearest first as parents and lists them farthest first |
| `DiskCache.NewChained` | client/client.go:149-195 | a live resolver looks names up along the chain the server gave, or is refused when the chain does not start with its namespace |
| `DiskCache.ManifestChain` | client/cache.go:113-123 | the manifest lists the namespace and then its ancestors as they are stored |
| `DiskCache.LoadChained` | client/cache.go:216-262 | a reloaded resolver looks names up along the chain of the manifest |
| `DiskCache.PersistAndReload` | client/cache.go:216-262 | the reloaded resolver has the ancestors reversed, and its lookup order is that of the live one exactly for chains with at most one ancestor |
| `DiskCache.ReloadChangesAnswers` | client/cache.go:216-262 | for every longer chain: a name of the nearest and of the farthest ancestor changes its owner |
| `DiskCache.CacheDirectory.Persist` | client/cache.go:86-169 | in place: succeeds exactly when all names are writable; the manifest changes only then, and never for an empty snapshot |
| `DiskCache.CacheDirectory.Load` | client/cache.go:297-369 | succeeds exactly when there is a manifest and every file it names is there, and then yields the manifest's schemas with the bytes of those files |
| `DiskCache.BackedLoads` | client/cache.go:297-369 | a manifest whose files hold the bytes of their versions loads as exactly that snapshot |
| `Paging.ListAll` | client/refresh.go:197-220 | identifiers come strictly increasing, all that were there throughout are included, and a fixed table is returned whole within one request per row and one more |
| `Paging.List` | server/server.go:348-383 | at most a page of rows, the smallest above the cursor, each once; a token exactly when rows remain, and then it is the last row |
| `Paging.PageExact` | store/postgres/sqlc/schemas.sql.go:185-193 | the query of one row more than the page has exactly that page and token, for every table and cursor |
| `Names.Pop` | nsregistry/helpers.go:32-39 | splits at the first dot, or takes everything when there is none |
| `Names.PopTakesHead` | nsregistry/helpers.go:32-39 | on a dotted name that is the first component and the dotted rest |
| `Names.DottedInjective` | nsregistry/helpers.go:30-39 | different component sequences are different dotted names |
| `Names.ParentAgrees` | nsregistry/namespace.go:263-274 | the parent of a dotted name is the dotted parent |

## Left out

- protocompile, protodesc, dynamicpb, marshalling and SHA-256: library code; the hash is taken as free of collisions and a version as determining its descriptors, so a recompilation under another compiler version is taken to give the same tree.
- Source normalisation (compiler/normalize.go): rests on the lexer of a library.
- Base64 page tokens: a token is its cursor.
- gRPC handlers other than listing, TLS, authorisation and identity checks, command-line output, directory walking: plumbing without state of its own.
- Real Postgres isolation, connection pools, time-outs, goroutines and mutexes: store calls and locked methods are single steps, and a failing store call leaves the rows as they were.
- Postgres collation: identifiers are ordered by character.
- Soft deletion of schemas and the metadata columns: rows are present or absent.
- The wrapper over protobuf's global registry: a fixed read-only state at the end of the parent chain.
- The check of a schema's names against its ancestors and the built-in sources (registry.go:820-870): part of what the compiler yields for a Publish.
- Texts of violations and of error messages: a violation is its rule and position; the violation for a removed file carries no element path.
- The order in which colliding schemas are listed in the collision error, and the schema filter of the disk cache loader.
- Sorting the schemas to apply: the list arrives in the increasing order that Paging.ListAll proves, so the sort is the identity and not a step of its own.
- Sharing of package nodes: they are map values here, where the source holds pointers that only the registry itself uses.
- What each namespace of a chain reloads from the disk cache: one namespace is modelled in full, a chain by the order of its lookups.
- Lookups that report the namespace a type came from: they follow the same stored order.
