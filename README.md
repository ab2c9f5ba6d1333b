# Package resolution and HDF5 output bookkeeping in Parthenon

Parthenon is a performance-portable block-structured adaptive mesh framework.
Each physics package declares its variables (fields, sparse fields and swarms)
in a `StateDescriptor`, tagging every declaration with a dependency kind:
`Private`, `Provides`, `Requires` or `Overridable`. `ResolvePackages` merges all
packages into one resolved state:

- private names are stored as `package::name`;
- a provided name must have exactly one provider;
- a required name must be provided by someone;
- an overridable name nobody provides is installed from its candidates.

The HDF5 output writer then names each output file and computes, for every
variable, the rank, extents and chunking of its dataset. It also fills a
table recording on which blocks each sparse field is allocated.

This project models both parts in Dafny and proves what they promise:

- `errors.dfy`, `metadata.dfy`: the exceptions the code throws, and the parts
  of `Metadata` the resolver looks at.
- `dependency_tracker.dfy`: the per-run `DependencyTracker`. It is a class
  over five collections, with a value-level `Tracker` that its ghost
  `State()` reflects.
- `state_descriptor.dfy`: the `StateDescriptor` mutators the resolver uses,
  as a class over four maps.
- `resolve_packages.dfy`: phase 1 of `ResolvePackages`. Every package is
  normalised in place, and every declaration is sorted and routed to the
  adder its kind names.
- `resolver.dfy`: phases 2 and 3, and `ResolvePackages` itself. On success
  the resolved state holds exactly the expected names. A throw is always
  explained by the declarations.
- `decimal.dfy`: the decimal text and zero fill that `std::ostream`
  produces for the output counter.
- `phdf5_naming.dfy`: `GenerateFilename_` and its counter.
- `phdf5_layout.dfy`: the sparse-field index, the dataset-rank selection and
  the allocation table.

Throws become `Result`/`Outcome` values carrying an `Error`. An adder lambda
becomes a `Route` value that `Sort` returns, and the caller performs it.
Unordered-map iteration is modelled as an arbitrary choice (`:|`) of a key
not yet visited, so every property holds for every iteration order. The
package map is a sequence of descriptors with distinct labels; its order
stands for the map's iteration order, and each descriptor stands under its own
label (see "## Left out").

The model follows the code in these places:

- A sparse `AddField` compares the new entry only with the first entry of the
  list (`state_descriptor.cpp:137`). Re-adding an id that is already in the
  list but not first appends it a second time.
- The `provided` set is keyed by bare name. When one package provides a
  sparse field with two ids, the second id throws `DuplicateProvider`. The
  provides/private sparse adder adds the package's whole list on each call
  (`state_descriptor.cpp:253-265`).
- An overridable swarm receives the values of the first package, in iteration
  order, that has a swarm of that name (`state_descriptor.cpp:284-295`). This
  holds whatever that package's own dependency kind for the swarm
  (`Resolution.FirstValues`).

## Model

| member | source | states |
|---|---|---|
| Meta.Validated | src/interface/state_descriptor.cpp:174-181 | normalisation removes every unset dependency, turns it into `Provides`, leaves a set one unchanged and touches no other attribute |
| DependencyTracking.OverriddenFirst | src/interface/state_descriptor.cpp:49-54 | a first overridable declaration starts a consistent candidate list |
| DependencyTracking.OverriddenCounted | src/interface/state_descriptor.cpp:55-61 | a repeated candidate (dense, or sparse with a seen id) only counts, and keeps the candidate lists consistent |
| DependencyTracking.OverriddenAppended | src/interface/state_descriptor.cpp:55-61 | a sparse candidate with a new id is appended, keeping the ids in a list pairwise distinct |
| DependencyTracking.SortKeepsConsistent | src/interface/state_descriptor.cpp:33-65 | every successful `Sort` preserves the tracker invariant: counted names are those with candidates, lists are non-empty and no longer than the counter, later candidates are sparse, ids do not repeat |
| DependencyTracking.NamesWithAdd | src/interface/state_descriptor.cpp:33-65 | one more declaration adds its name to the names of its own kind only |
| DependencyTracking.ProvidersUniqueAdd | src/interface/state_descriptor.cpp:40-45 | a provider of a name not yet provided keeps every name with at most one provider |
| DependencyTracking.OverridableDeclsAdd | src/interface/state_descriptor.cpp:48-61 | one more overridable declaration joins the overridable declarations of its own name only |
| DependencyTracking.OverridableDeclsNone | src/interface/state_descriptor.cpp:61 | a name with no overridable declaration has none to count |
| DependencyTracking.OverriddenCandidates | src/interface/state_descriptor.cpp:49-60 | after an overridable declaration, every candidate the tracker holds is the metadata of an overridable declaration of its name |
| DependencyTracking.OverriddenCounts | src/interface/state_descriptor.cpp:61 | after an overridable declaration, each counter equals the number of overridable declarations of its name |
| DependencyTracking.OverriddenTracks | src/interface/state_descriptor.cpp:48-61 | an overridable declaration keeps candidates, marked sparse ids and counters in step with the declarations |
| DependencyTracking.NotOverriddenTracks | src/interface/state_descriptor.cpp:38-47 | a private, provided or required declaration leaves candidates and counters in step with the declarations |
| DependencyTracking.SortTracks | src/interface/state_descriptor.cpp:33-65 | after any sequence of successful `Sort` calls the tracker summarises the sorted declarations: provided, required and overridable names by kind, unique providers, every candidate the metadata of an overridable declaration of its name, every sparse overridable id marked, and each counter the number of overridable declarations of its name |
| DependencyTracking.SortThrows | src/interface/state_descriptor.cpp:40-45 | a throwing `Sort` is either an unset kind (`UnknownDependency`) or a second provider of a name some sorted declaration already provides |
| DependencyTracking.DependencyTracker.Provided | src/interface/state_descriptor.cpp:112 | over a tracker that summarises a set of declarations, true exactly when one of them provides `v` |
| DependencyTracking.ProvidedByDeclaration | src/interface/state_descriptor.cpp:112 | `Provided(v)` holds exactly when some declaration provides `v`, and then exactly one does |
| DependencyTracking.InstallsMembership | src/interface/state_descriptor.cpp:89-110 | a (name, metadata) pair is installed exactly when the name was visited, is not provided, and the metadata is one of its candidates |
| DependencyTracking.InstallsIdsDistinct | src/interface/state_descriptor.cpp:89-110 | over a consistent tracker, no two installs of one name carry sparse metadata with the same id, and every install of a name after its first is sparse |
| DependencyTracking.InstallsDeclared | src/interface/state_descriptor.cpp:104-107 | every install is the metadata of an overridable declaration of its name, a name no declaration provides |
| DependencyTracking.InstallsCoverIds | src/interface/state_descriptor.cpp:104-107 | the id of every sparse overridable declaration of a visited, unprovided name is carried by one of its installs |
| DependencyTracking.InstalledNames | src/interface/state_descriptor.cpp:89-110 | visiting every overridable name installs exactly the overridable names that are not provided |
| DependencyTracking.DependencyTracker.constructor | src/interface/state_descriptor.cpp:25-31 | a new tracker has all five collections empty |
| DependencyTracking.DependencyTracker.Override | src/interface/state_descriptor.cpp:48-61 | the overridable branch updates the collections as `Overridden` says |
| DependencyTracking.DependencyTracker.Sort | src/interface/state_descriptor.cpp:33-65 | the new tracker and the returned route, or the throw, are those of `SortStep`; the tracker invariant is kept |
| DependencyTracking.DependencyTracker.CheckRequires | src/interface/state_descriptor.cpp:78-87 | passes exactly when every required name is provided; on failure names a required name that is not provided |
| DependencyTracking.DependencyTracker.CheckOverridable | src/interface/state_descriptor.cpp:89-110 | visits every overridable name exactly once; installs each candidate of every unprovided name; warns for exactly the unprovided names declared more than once |
| StateDescriptors.ValidatedDataProperties | src/interface/state_descriptor.cpp:174-181 | after normalisation no declaration has an unset kind; normalising twice changes nothing; names, list lengths and swarm values are kept |
| StateDescriptors.StateDescriptor.constructor | src/interface/state_descriptor.cpp:228 | a new descriptor has its label and no declarations |
| StateDescriptors.StateDescriptor.AddSwarm | src/interface/state_descriptor.cpp:267-275 | a new swarm is registered with exactly that entry; a second registration throws and changes nothing |
| StateDescriptors.StateDescriptor.AddSwarmValue | src/interface/state_descriptor.cpp:115-126 | throws for an unknown swarm or an existing value name and changes nothing; otherwise adds exactly that value to that swarm |
| StateDescriptors.StateDescriptor.AddField | src/interface/state_descriptor.cpp:128-157 | a sparse field is checked against its list's first entry: a mismatch throws, the same id is a no-op, another id is appended, so every variant of a list stays `SparseEqual` to its first one; a plain field is first-registration-wins with an empty association; swarms untouched |
| StateDescriptors.StateDescriptor.FlagsPresent | src/interface/state_descriptor.cpp:159-172 | true exactly when some plain or sparse declaration has any (or all) of the queried flags |
| StateDescriptors.StateDescriptor.ValidateMetadata | src/interface/state_descriptor.cpp:174-181 | the descriptor's declarations become their normalised form and nothing else changes |
| Resolution.InstalledAdd | src/interface/state_descriptor.cpp:38-45 | one more declaration adds to the names phase 1 binds its bare name if provided, its qualified name if private, nothing otherwise |
| Resolution.TwoProvidersGrows | src/interface/state_descriptor.cpp:40-45 | two providers of a name stay two providers among more declarations |
| Resolution.InstalledRouted | src/interface/state_descriptor.cpp:241-248 | every name phase 1 binds is the name of some sorted declaration routed there |
| Resolution.SortInstalls | src/interface/state_descriptor.cpp:241-248 | a successful sort extends the tracked declarations, and phase 1 binds exactly the names its route targets |
| Resolution.SortThrowExplained | src/interface/state_descriptor.cpp:40-45 | a throw during sorting is either the unset kind with `UnknownDependency`, or `DuplicateProvider(v)` with two different declarations providing `v` |
| Resolution.SortFailure | src/interface/state_descriptor.cpp:40-45 | over normalised declarations, a sorting throw is a genuine second provider, so it is a field and a swarm failure |
| Resolution.BoundGrows | src/interface/state_descriptor.cpp:128-157 | a binding kept by later `AddField` calls stays in place |
| Resolution.CoverageGrows | src/interface/state_descriptor.cpp:128-157 | every routed declaration stays bound when bindings only grow |
| Resolution.ClashOfEntries | src/interface/state_descriptor.cpp:134-136 | two stored variants under one name that are not `SparseEqual` come from two sparse declarations stored under that name |
| Resolution.PlainStep | src/interface/state_descriptor.cpp:241-248 | routing a plain declaration keeps the names bound equal to those routed, every binding traceable to a declaration, and every routed declaration bound |
| Resolution.PlainCoverage | src/interface/state_descriptor.cpp:241-248 | routing a plain declaration binds it and keeps every earlier binding |
| Resolution.PlainProvenance | src/interface/state_descriptor.cpp:241-248 | a plain binding added by a route is a declaration's metadata stored without association |
| Resolution.DeferredStep | src/interface/state_descriptor.cpp:46-61 | a required or overridable declaration changes no binding and keeps phase 1's facts |
| Resolution.MergedSnoc | src/interface/state_descriptor.cpp:256-258 | merging one more variant appends it unless the list's first variant has its id |
| Resolution.MergedPrefix | src/interface/state_descriptor.cpp:137-143 | merging only extends a list and never changes its first variant |
| Resolution.MergedElems | src/interface/state_descriptor.cpp:137-143 | every variant of a merged list was already in it or among those merged |
| Resolution.MergedHasId | src/interface/state_descriptor.cpp:137-143 | every merged variant leaves its id in the list |
| Resolution.SparseStep | src/interface/state_descriptor.cpp:253-265 | merging a sparse declaration's whole list under its routed name keeps phase 1's facts for one more declaration |
| Resolution.MergedKeys | src/interface/state_descriptor.cpp:253-265 | merging under the routed name binds that name and no other |
| Resolution.MergedCoverage | src/interface/state_descriptor.cpp:253-265 | merging a sparse declaration's list binds its id under its routed name and keeps every earlier binding |
| Resolution.MergedProvenance | src/interface/state_descriptor.cpp:253-265 | merging entries that packages declare for a name keeps every stored variant traceable to a declaration |
| Resolution.ListClash | src/interface/state_descriptor.cpp:134-136 | a merge that throws because an entry is not `SparseEqual` to the head witnesses two sparse declarations stored under that name |
| Resolution.SwarmStep | src/interface/state_descriptor.cpp:276-283 | registering a routed swarm with its package's values keeps phase 1's swarm facts for one more declaration |
| Resolution.RoutedProvenance | src/interface/state_descriptor.cpp:276-283 | a routed swarm binding carries its declaration's metadata and its package's values |
| Resolution.RoutedCoverage | src/interface/state_descriptor.cpp:276-283 | registering a routed swarm binds it with its metadata and values and keeps every earlier one |
| Resolution.RoutedKeys | src/interface/state_descriptor.cpp:276-283 | registering a routed swarm binds its routed name and no other |
| Resolution.ProvidedOverridableSwarm | src/interface/state_descriptor.cpp:94-95 | a swarm one package provides and another declares overridable is no swarm clash: the overridable one is never installed |
| Resolution.PrivateSparseApart | src/interface/state_descriptor.cpp:253-258 | private sparse fields of one name in two packages are no sparse clash: they are stored under two qualified names |
| Resolution.RoutedTwice | src/interface/state_descriptor.cpp:269 | a declaration routed to a swarm name that a second one is routed or installed to is a swarm clash |
| Resolution.SortDecl | src/interface/state_descriptor.cpp:33-76 | one `Sort` call keeps the tracker summarising the declarations sorted so far, candidate lists and counters included, reports the names to bind and the adder to run; a throw is an unset kind or a second provider |
| Resolution.AddRoutedField | src/interface/state_descriptor.cpp:241-248 | `add_private_var`/`add_provides_var` bind the qualified or bare name first-registration-wins to the metadata without association; sparse fields and swarms unchanged; phase 1's bindings facts extend by the declaration |
| Resolution.AddSparseList | src/interface/state_descriptor.cpp:253-265 | adding a whole sparse list succeeds exactly when every entry is `SparseEqual` to the list's head; then the list stored under the name is the old one merged with the entries in order, and nothing else changes; otherwise a sparse mismatch |
| Resolution.AddSparseEntry | src/interface/state_descriptor.cpp:256-258 | one `AddField` of the list: passes exactly when the entry matches the head, leaving the first `k + 1` entries merged |
| Resolution.SparseListStep | src/interface/state_descriptor.cpp:256-258 | the list after `k` entries is their merge, its head is fixed, and one more `AddField` merges one more entry |
| Resolution.AddRoutedSparse | src/interface/state_descriptor.cpp:253-265 | the sparse adders merge the package's whole list under the route's target name and keep phase 1's bindings facts; a deferred route changes nothing; a throw is a sparse mismatch between two clashing declarations |
| Resolution.AddListUnder | src/interface/state_descriptor.cpp:253-265 | a sparse list merged under the name one of its entries is routed to keeps the bindings facts for that entry, or throws a sparse mismatch between two clashing declarations |
| Resolution.RoutedListStep | src/interface/state_descriptor.cpp:134-136 | merging a routed list keeps the bindings from the declarations exactly when every variant agrees with the stored head; otherwise two declarations stored under the name clash |
| Resolution.EntriesFrom | src/interface/state_descriptor.cpp:253-264 | every entry of a package's sparse list is stored under the name one of its entries is routed to: qualified for a private entry, bare for a provided one |
| Resolution.CopyValues | src/interface/state_descriptor.cpp:270-274 | the new swarm receives exactly the package's values for the original swarm; other swarms keep theirs |
| Resolution.CopySwarm | src/interface/state_descriptor.cpp:267-275 | registers the swarm under its new name with the given metadata and the package's values, leaving every other swarm's values, or throws `DuplicateSwarm` because the name is taken |
| Resolution.AddRoutedSwarm | src/interface/state_descriptor.cpp:276-283 | the private/provides swarm adders bind the route's target to the declaration's metadata and its package's values; a deferred route changes nothing; a throw is a swarm name claimed by two declarations |
| Resolution.SortField | src/interface/state_descriptor.cpp:74 | one plain field sorted then routed: tracker and bindings extend by its declaration, or the throw is a field failure |
| Resolution.SortFields | src/interface/state_descriptor.cpp:306-307 | a package's plain fields sorted: the tracker summarises them, every routed one is bound to its stored metadata, every binding comes from a declaration; a throw is a second provider |
| Resolution.SortEntry | src/interface/state_descriptor.cpp:311-314 | one sparse entry sorted and its list routed: tracker and bindings extend by that entry, or a field failure |
| Resolution.SortEntries | src/interface/state_descriptor.cpp:310-314 | every entry of one sparse list sorted in turn: tracker and bindings extend by all its entries, or a field failure |
| Resolution.SortSparseName | src/interface/state_descriptor.cpp:308-315 | one sparse field of a package sorted entry by entry, extending tracker and bindings by its entries |
| Resolution.SortSparse | src/interface/state_descriptor.cpp:308-315 | all sparse lists of a package sorted: tracker and bindings extend by every entry, ids stored under the routed names; a throw is a second provider or a sparse clash |
| Resolution.SortSwarm | src/interface/state_descriptor.cpp:316-317 | one swarm sorted and routed: the swarm tracker and swarm bindings (metadata and values) extend by it, or a swarm failure |
| Resolution.SortSwarms | src/interface/state_descriptor.cpp:316-317 | all swarms of a package sorted: swarm tracker and bindings extend by them; field bindings untouched |
| Resolution.SortFieldDecls | src/interface/state_descriptor.cpp:306-315 | a package's plain then sparse fields sorted: field tracker and field bindings extend by them; swarms untouched |
| Resolution.SortPackage | src/interface/state_descriptor.cpp:306-317 | one package's fields and swarms sorted: both trackers and all bindings extend by its declarations, or a field or swarm failure |
| Resolution.DeclaredValuesAt | src/interface/state_descriptor.cpp:270-274 | under distinct labels, the values declared under a package's label are that package's own |
| Resolution.NormalisedAll | src/interface/state_descriptor.cpp:304 | packages with no unset kind give declaration sets with no unset kind |
| Resolution.DeclsFrom | src/interface/state_descriptor.cpp:302-318 | a label no package carries appears on none of their declarations |
| Resolution.DeclsPrefix | src/interface/state_descriptor.cpp:302-318 | the declarations of the first packages are among those of all packages |
| Resolution.DeclsSnoc | src/interface/state_descriptor.cpp:302-318 | one more package adds exactly its plain, sparse and swarm declarations |
| Resolution.NormaliseNext | src/interface/state_descriptor.cpp:304 | the current package is normalised in place; the others are untouched |
| Resolution.PackageTurn | src/interface/state_descriptor.cpp:302-317 | at package `i`, no earlier declaration carries its label, its declarations are among all of them and extend those before it, and its values are those declared under its label |
| Resolution.SortNext | src/interface/state_descriptor.cpp:306-317 | sorting the next normalised package extends phase 1's trackers and bindings by all its declarations |
| Resolution.ValidateAndSort | src/interface/state_descriptor.cpp:302-318 | one turn of phase 1 (normalise, then sort) extends phase 1's trackers and bindings by one package; a throw leaves the packages up to this one normalised and the rest untouched |
| Resolution.SortTurn | src/interface/state_descriptor.cpp:306-317 | sorting a normalised package extends phase 1 by one package and changes no package |
| Resolution.EmptySorted | src/interface/state_descriptor.cpp:228-233 | empty trackers and an empty state satisfy phase 1's invariant for no packages |
| Resolution.SortedAllDone | src/interface/state_descriptor.cpp:302-318 | after the last package phase 1's invariant covers all of them |
| Resolution.SnapshotLabels | src/interface/state_descriptor.cpp:302 | packages with distinct labels give declarations with distinct labels, each well formed |
| Resolution.Phase1Start | src/interface/state_descriptor.cpp:304 | the normalised declarations keep distinct labels and have no unset kind |
| Resolution.SortAll | src/interface/state_descriptor.cpp:302-318 | phase 1 leaves every package normalised, both trackers summarising all declarations, the names bound exactly those routed, each routed declaration bound to its metadata (swarms with their package's values), each binding from a declaration; a throw is a second provider, a sparse clash or a swarm clash, and leaves the packages up to the failing one normalised and the rest untouched |
| Resolver.InstallNamesSnoc | src/interface/state_descriptor.cpp:104-107 | one more install adds its name |
| Resolver.InstallsFromTracker | src/interface/state_descriptor.cpp:104-107 | every install `CheckOverridable` makes comes from an overridable declaration of an unprovided name |
| Resolver.InstallBoundGrows | src/interface/state_descriptor.cpp:128-157 | an install in place stays in place when bindings only grow |
| Resolver.FieldsGrowTrans | src/interface/state_descriptor.cpp:128-157 | bindings that grow twice have grown |
| Resolver.SparseInstalled | src/interface/state_descriptor.cpp:249-251 | installing a sparse candidate keeps provenance and earlier bindings, binds its id under the name, and adds only that name |
| Resolver.PlainInstalled | src/interface/state_descriptor.cpp:249-251 | installing a plain candidate keeps provenance and earlier bindings, binds the name, and adds only that name |
| Resolver.PlainInstalledFrom | src/interface/state_descriptor.cpp:249-251 | a plain install binds the name to an overridable declaration's metadata without association |
| Resolver.PlainAddedKeys | src/interface/state_descriptor.cpp:144-155 | a plain `AddField` binds its name and adds no other |
| Resolver.AddInstall | src/interface/state_descriptor.cpp:249-251 | `add_overridable_var` adds exactly the install's name, keeps earlier bindings and provenance, and puts the install in place, or throws a sparse mismatch between two clashing declarations |
| Resolver.InstalledStep | src/interface/state_descriptor.cpp:104-107 | one more install made as `AddInstall` promises extends what the earlier installs established |
| Resolver.InstallFields | src/interface/state_descriptor.cpp:104-107 | every install in order: names are the old ones plus those installed, earlier bindings kept, every binding from a declaration, every install in place; or a sparse clash |
| Resolver.OverrideFields | src/interface/state_descriptor.cpp:329 | phase 3 on fields binds exactly the overridable names nobody provides, keeps phase 1's bindings, every binding from a declaration, and stores every sparse overridable id under its name |
| Resolver.OverrideCovered | src/interface/state_descriptor.cpp:104-107 | once every install is in place, every sparse overridable id nobody provides is stored under its name |
| Resolver.OverrideCoveredOne | src/interface/state_descriptor.cpp:104-107 | the same for one sparse overridable declaration |
| Resolver.AddOverridableSwarm | src/interface/state_descriptor.cpp:284-295 | registers the swarm under its bare name with the given metadata and the values of the first package that has it, other swarms' values unchanged; or throws because the name is taken |
| Resolver.InstallsBoundStep | src/interface/state_descriptor.cpp:284-295 | registering one more install binds it with the first package's values and keeps the earlier installs bound |
| Resolver.InstallClash | src/interface/state_descriptor.cpp:285 | an install whose name is already bound is a swarm clash: a routed declaration and an installed one, or two installed ones, the later sparse and the earlier not sparse or of another id |
| Resolver.InstallProvenance | src/interface/state_descriptor.cpp:284-295 | an installed swarm carries an overridable declaration's metadata and the first package's values |
| Resolver.InstallKeepsCoverage | src/interface/state_descriptor.cpp:284-295 | registering a new name keeps every routed swarm in place |
| Resolver.SwarmInstallStep | src/interface/state_descriptor.cpp:284-295 | one install keeps phase 1's swarm bindings and the earlier installs, adding only its name |
| Resolver.InstallSwarm | src/interface/state_descriptor.cpp:284-295 | the install `k` is registered as `SwarmInstallStep` says, or the throw names a swarm registered twice |
| Resolver.InstallSwarms | src/interface/state_descriptor.cpp:104-107 | every install in order: names are phase 1's plus those installed, each bound to its metadata with the first package's values, phase 1's swarms kept; or a swarm registered twice |
| Resolver.OverridesFromInstalls | src/interface/state_descriptor.cpp:89-110 | once every install is made, the swarm names are phase 1's plus the unprovided overridable ones, each carrying one of its declarations' metadata and the first package's values |
| Resolver.OverrideSwarms | src/interface/state_descriptor.cpp:330 | phase 3 on swarms registers exactly the overridable swarms nobody provides, each with one of its declarations' metadata and the first package's values; phase 1's swarms kept |
| Resolver.FailureConflicting | src/interface/state_descriptor.cpp:226-333 | every throw the resolver may raise names a cause the declarations really hold |
| Resolver.ResolvedPlainBinding | src/interface/state_descriptor.cpp:241-251 | a name claimed by exactly one plain declaration is bound to that declaration's metadata, stored without association |
| Resolver.CheckRequirements | src/interface/state_descriptor.cpp:321-322 | passes exactly when every required field and swarm is provided, otherwise throws naming one nobody provides |
| Resolver.Override | src/interface/state_descriptor.cpp:329-330 | phase 3 from phase 1's state: the resolved names, provenance and coverage of fields and swarms, or a field or swarm failure |
| Resolver.ResolvedSparseAgree | src/interface/state_descriptor.cpp:134-136 | in a resolved state every sparse variant under a name is `SparseEqual` to the first one stored there |
| Resolver.CheckAndOverride | src/interface/state_descriptor.cpp:321-330 | after phase 1, phases 2 and 3 build the state `ResolvedFrom` describes, or throw only for a second provider, two variants stored under one name that are not `SparseEqual`, a swarm name registered twice or an unmet requirement |
| Resolver.Resolve | src/interface/state_descriptor.cpp:300-330 | the three phases resolve the normalised declarations as `ResolvedFrom` describes, throw only for a cause they hold, leaving a prefix of the packages normalised and the rest untouched, and succeed whenever no such cause exists |
| Resolver.ResolvePackages | src/interface/state_descriptor.cpp:226-333 | a fresh state labelled `parthenon::resolved_state`; on success unique providers, met requirements, names exactly the routed plus unprovided overridable ones, each routed declaration bound to its metadata (swarms with their package's values), each binding from a declaration, every sparse variant `SparseEqual` to the first one stored under its name, overridable swarms with the first package's values; a throw leaves a prefix of the packages normalised and the rest untouched, and is `DuplicateProvider`, `SparseMetadataMismatch`, `DuplicateSwarm` or `UnsatisfiedRequirement` with a cause in the declarations (a second provider, two sparse declarations stored under one name that are not `SparseEqual`, a swarm name registered twice, an unmet requirement); with no such cause it succeeds |
| Decimal.DigitChar | src/outputs/parthenon_hdf5.cpp:580-583 | a digit below ten is written as the character with that value |
| Decimal.Digits | src/outputs/parthenon_hdf5.cpp:580-583 | the decimal text of a natural number is all digits, non-empty, and without a leading zero |
| Decimal.Signed | src/outputs/parthenon_hdf5.cpp:580-583 | a negative number is written as `-` followed by digits; a non-negative one has no `-` |
| Decimal.PadLeft | src/outputs/parthenon_hdf5.cpp:580-583 | `setw` with fill keeps the text as a suffix, fills in front up to the width, and never truncates |
| Decimal.ValueDigits | src/outputs/parthenon_hdf5.cpp:580-583 | reading the decimal text of `n` gives back `n` |
| Decimal.ValueLeadingZeros | src/outputs/parthenon_hdf5.cpp:580-583 | leading zero fill does not change the value read |
| Decimal.ZerosValue | src/outputs/parthenon_hdf5.cpp:580-583 | a run of zeros reads as zero |
| Decimal.PaddedValue | src/outputs/parthenon_hdf5.cpp:580-583 | a zero-filled counter is all digits and reads back as the counter, whatever the width |
| Decimal.PaddedInjective | src/outputs/parthenon_hdf5.cpp:580-583 | two counters with the same zero-filled text at one width are equal |
| Decimal.DigitsInjective | src/outputs/parthenon_hdf5.cpp:580-583 | distinct natural numbers have distinct decimal texts |
| Decimal.MinusNotDigit | src/outputs/parthenon_hdf5.cpp:580-583 | a text ending in a negative number's text is not all digits |
| PHDF5Naming.PHDF5Output.constructor | src/outputs/parthenon_hdf5.cpp:565-598 | records the naming parameters and the starting counter |
| PHDF5Naming.PHDF5Output.GenerateFilename | src/outputs/parthenon_hdf5.cpp:565-598 | the name is basename, id, then `now`, `final` or the zero-filled counter, then the restart-dependent extension; only a regular dump advances the counter, by one |
| PHDF5Naming.ExtensionMarksRestart | src/outputs/parthenon_hdf5.cpp:585 | a file name ends in `.rhdf` exactly for restart output and in `.phdf` exactly otherwise |
| PHDF5Naming.FileNameDeterminesMiddle | src/outputs/parthenon_hdf5.cpp:569-585 | within one stream the file name determines its middle part |
| PHDF5Naming.NumberedMiddle | src/outputs/parthenon_hdf5.cpp:580-583 | a numbered dump's middle is at least the configured width, ends in the counter's text, and reads back as a non-negative counter |
| PHDF5Naming.NumberedNamesDistinct | src/outputs/parthenon_hdf5.cpp:580-596 | numbered dumps with different counters never share a file name |
| PHDF5Naming.NumberedNotWord | src/outputs/parthenon_hdf5.cpp:573-583 | a numbered dump never takes the name of the `now` or labelled `final` file |
| PHDF5Layout.SparseIndex | src/outputs/parthenon_hdf5.cpp:280-287 | the sparse names are the sparse variables' labels in order, and the index maps each label to the position of its first occurrence and nothing else |
| PHDF5Layout.SparseLabelsMembers | src/outputs/parthenon_hdf5.cpp:282-287 | the sparse names are exactly the labels of sparse variables, no more of them than variables |
| PHDF5Layout.SparseLookupDefined | src/outputs/parthenon_hdf5.cpp:411-412 | looking up a sparse variable's label never throws and gives a column holding that label |
| PHDF5Layout.IndexOfDistinct | src/outputs/parthenon_hdf5.cpp:280-287 | with distinct labels, each label is indexed by its own position |
| PHDF5Layout.AllDims | src/outputs/parthenon_hdf5.cpp:331-333 | the variable's six extents |
| PHDF5Layout.InitialCounts | src/outputs/parthenon_hdf5.cpp:315-329 | the seven count slots start as blocks, the component extents and the output region's spatial extents |
| PHDF5Layout.CopyExtents | src/outputs/parthenon_hdf5.cpp:342-344 | fills count slots `1..n` from consecutive extents and leaves the other slots alone |
| PHDF5Layout.PlaceSpatial | src/outputs/parthenon_hdf5.cpp:345-347 | the three spatial extents go right after the used tensor components; earlier slots are kept |
| PHDF5Layout.CellShapeSlots | src/outputs/parthenon_hdf5.cpp:341-347 | count slots set one by one as the code does make the cell-centred shape |
| PHDF5Layout.CellCounts | src/outputs/parthenon_hdf5.cpp:341-347 | a cell-centred variable's counts are blocks, its used tensor components, then the three spatial extents |
| PHDF5Layout.SpanChunk | src/outputs/parthenon_hdf5.cpp:350-354 | the chunk slots `lo .. hi` copy the count slots, every slot before them is one |
| PHDF5Layout.CellShapeSpatial | src/outputs/parthenon_hdf5.cpp:351-353 | the last three slots of a cell-centred shape are the spatial extents |
| PHDF5Layout.CellLayout | src/outputs/parthenon_hdf5.cpp:340-355 | rank is tensor rank plus four; local and global counts have the cell shape; compressed chunks span the three spatial extents, otherwise all ones |
| PHDF5Layout.NoneCounts | src/outputs/parthenon_hdf5.cpp:357-360 | a location-less variable's counts are blocks then its innermost `tensorRank` extents, for every rank up to six |
| PHDF5Layout.DimsChunk | src/outputs/parthenon_hdf5.cpp:363-367 | the chunk slots `lo .. ndim` read the matching entries of `alldims`, every slot before them is one |
| PHDF5Layout.NoneShapeInner | src/outputs/parthenon_hdf5.cpp:358-360 | the count slots after the block count are the innermost extents |
| PHDF5Layout.NoneChunkInner | src/outputs/parthenon_hdf5.cpp:363-367 | the chunk read from the innermost `min(tensorRank, 3)` extents spans the count slots those extents fill |
| PHDF5Layout.NoneLayout | src/outputs/parthenon_hdf5.cpp:356-369 | rank is tensor rank plus one (up to six); counts have that shape; compressed chunks equal the innermost `min(tensorRank, 3)` local counts and read those extents of `alldims`, otherwise all ones |
| PHDF5Layout.DatasetLayout | src/outputs/parthenon_hdf5.cpp:340-372 | succeeds exactly for cell-centred and location-less variables, with the rank and counts of each case; any other location throws `UnsupportedLocation` |
| PHDF5Layout.AsWrittenNoneChunkOutOfRange | src/outputs/parthenon_hdf5.cpp:363-367 | for every tensor rank of at least one, the chunk loop as written reads `alldims` at index 6 or beyond on its last pass |
| PHDF5Layout.NoneChunkSourceInRange | src/outputs/parthenon_hdf5.cpp:363-367 | for every rank up to six, the corrected index stays inside `alldims` and reads the extent that fills the same count slot |
| PHDF5Layout.AllocationIndexInRange | src/outputs/parthenon_hdf5.cpp:292 | every (block, sparse field) pair has a slot inside the allocated table |
| PHDF5Layout.AllocationIndexDecode | src/outputs/parthenon_hdf5.cpp:411-413 | the slot determines block and field by division and remainder, so distinct pairs never share a slot |
| PHDF5Layout.DivModUnique | src/outputs/parthenon_hdf5.cpp:411-413 | the quotient and remainder of a slot are its only block/field decomposition |
| PHDF5Layout.AllocatedOn | src/outputs/parthenon_hdf5.cpp:395-409 | true exactly when the block holds an allocated variable with the field's label |
| PHDF5Layout.RecordSparseColumn | src/outputs/parthenon_hdf5.cpp:389-414 | each block's slot in the field's column records whether that block holds the field allocated; slots of other fields are unchanged |

## Left out

- HDF5 and MPI calls are not modelled. This covers file creation, attributes,
  dataset writes and the collective offsets. Also left out are the data
  packing (`PackOrUnpackVar`), device-to-host copies and profiling regions.
- The remaining steps of `GenerateFilename_` are not modelled. These are the
  floating-point `next_time` update and the `SetInteger`/`SetReal` writes
  into the parameter input. Floating point and the input store are outside
  the model; only `file_number` is kept.
- PHDF5Naming.PHDF5Output.GenerateFilename: the counter `file_number` is a
  C++ `int` (`parthenon_hdf5.cpp:592`, stored back with `SetInteger` at 594);
  the model's counter is an unbounded integer, so overflow past `INT_MAX` is
  not modelled.
- PHDF5Naming.NumberedNamesDistinct: holds for unbounded counters. With the
  source's 32-bit `int`, a counter that wraps could repeat an earlier name;
  that case is outside the model.
- `CheckOverridable`'s warning text and the `operator<<` on
  `StateDescriptor` are not modelled (console output). The set of warned
  names is modelled.
- The implementation of `StateDescriptor::AddSwarm` is in
  `state_descriptor.hpp`, which is not part of this model. `AddSwarm` is
  written from its use at `state_descriptor.cpp:267-275`: a new name is
  registered, and a taken name throws.
- `MetadataLoop` and `AllSwarmValues` are also in `state_descriptor.hpp`.
  `MetadataLoop` is taken to visit plain fields, every sparse entry and
  swarms. `AllSwarmValues` of an absent swarm is taken to be empty.
- Iteration order of `unordered_map`s is not modelled as a fixed order. Every
  loop over one picks an arbitrary unvisited key, so every proved property
  holds for every order. The package map's order is the sequence order.
- Metadata is reduced to what the resolver reads: dependency kind, sparse
  flag and id, association, flags and shape. Its other attributes are
  carried unchanged by construction.
- Resolver.ResolvePackages: the package map is taken to hold each descriptor
  under its own label. The adders look a package up by the label `Sort` was
  given (`packages[package]`, `state_descriptor.cpp:256`, 262, 278, 282); a map
  whose key differs from its descriptor's `label()` is not modelled.
- Resolver.ResolvePackages: `SparseClash` counts two unprovided overridable
  sparse declarations of one name with the same id and different flags or
  shape, though `CheckOverridable` installs only the first of them and never
  compares the second. `SwarmClash` counts an unprovided overridable swarm
  that is not sparse together with a sparse one, though whether both become
  candidates depends on the order they are sorted in. In these cases the
  contract allows a `SparseMetadataMismatch` or `DuplicateSwarm` that the code
  does not raise, and the converse `!Conflicting(decls) ==> r.Ok?` does not
  apply.
- Resolver.Resolve: the same over-approximation of `SparseClash` and
  `SwarmClash` as for `Resolver.ResolvePackages`.
- Resolver.OverrideFields: an unprovided overridable plain field is proved to
  be bound to the metadata of one of its overridable declarations, not to
  that of the first one sorted (the first candidate in
  `overridable_meta`, `state_descriptor.cpp:49-50`).
- Resolver.ResolvePackages: for a sparse name, the contract states that every
  stored variant comes from a declaration of that name and that every routed
  or installed id is present; it does not state the exact list, whose order
  and repeats depend on the iteration order and on the first-entry
  comparison of `AddField`.
- PHDF5Layout.DatasetLayout: requires a tensor rank of at most 6, and at
  most 3 for cell-centred variables. For cell-centred variables the code
  reads `alldims[3 - tensor_rank + i]`, which is out of range above 3; for
  location-less ones `ndim = tensor_rank + 1` must fit the seven slots.
- PHDF5Layout.CellLayout: the contract states only the first `ndim` of the
  seven count and chunk slots. Only those are handed to HDF5.
- PHDF5Layout.NoneLayout: the contract states only the first `ndim` of the
  seven count and chunk slots. Only those are handed to HDF5.
- PHDF5Layout.RecordSparseColumn: the sparse index and the number of sparse
  fields are parameters. `SparseLookupDefined` shows the lookup at line 412
  always yields such a column.
- The loop over all variables around the layout and the allocation table
  (`parthenon_hdf5.cpp:300-420`) is not modelled as one method. Its per-variable
  steps are the members above.

## Findings

| source | as written | input that shows it | evidently intended | confidence | as-written member | corrected member |
|---|---|---|---|---|---|---|
| src/outputs/parthenon_hdf5.cpp:363-367 | the chunk loop for location-less variables reads `alldims[6 - nchunk_indices + i]` for `i` from `ndim - nchunk_indices` to `ndim - 1`, with `ndim = tensor_rank + 1` | a variable with no location, tensor rank 1 and a compression level above 0: the loop reads `alldims[6]`, one past the six extents | `alldims[6 - ndim + i]`, the extent that fills `local_count[i]` | not executed | PHDF5Layout.AsWrittenNoneChunkOutOfRange | PHDF5Layout.NoneLayout |
