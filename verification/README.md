# Models of the infrastructure security cores

This project models the algorithmic and protocol cores of the infrastructure repository and proves what they promise.
Nothing in it executes the original program; `dafny verify dfyconfig.toml` checks all of it.

- **Graph analyses.** The bounded enumeration of simple network paths and the entitlement analysis over delegation
  paths (`SimplePaths`, `Reachability`, `Entitlements`).
- **Sealing of the execution tree.** The canonical JSON printer, the ELF dependency closure, the sealed copy with its
  snapshot, the publication by two renames, the pruning pass, the signed inventory and the exact-tree check
  (`CanonicalJson`, `ElfClosure`, `FileTree`, `SealedCopy`, `Publication`, `Pruning`, `SealInventory`,
  `BootstrapInventory`, `ExecutionSeal`).
- **Evidence protocol.** The cloud context catalogue, the dependency closure of a placement, signed observation
  evidence with single redemption, and the runtime admission (`CloudContext`, `PlacementDependencies`,
  `ObservationEvidence`, `Timestamps`, `RuntimeAdmission`).
- **Authorisation.** Infrastructure requests with their reasons, validity interval and runs
  (`InfrastructureController`, `Segments`).
- **Addresses, audit and scheduling.** CIDR blocks and subnets, the dependency audit, and account creation in three
  lanes (`Cidr`, `DependencySecurity`, `Organization`).

`Wrappers`, `Text` and `Segments` hold what several modules share: options, distinct sequences, decimal numerals,
string order and sorting, joining and splitting of strings.

## How the parts are modelled

Loops over queues, maps and buffers are methods; each is proved against a specification function or predicate, and
the properties are lemmas about those. A directory tree is a finite map from slash-separated paths to nodes. SHA-256
is an injective function in the Go part (`ExecutionSeal.IsInjective` where it is needed) and a free constructor in the
evidence part: a digest is the content it was made from. Ed25519 is an abstract pair of signing and verifying
functions with the one law `ObservationEvidence.IsLawful`. A timestamp of evidence
is an instant and whether its text shows the milliseconds; the texts, their canonical reading and their order are
written out in `Timestamps`. `localeCompare` orders strings by a given collation key. Orders of map iteration, of
directory walks and of the engine that creates accounts are left open, and the results are proved for every order. A
file system call may fail wherever the publication or the pruning makes one.

What the code does differs from what its comments, messages or documentation suggest in these places; the model
follows the code:

- Two resolutions of one request pass the check of the "exact reference resolution set", because only the number and
  the membership of the digests are compared (`src/core/cloudContextVerification.ts:1104-1116`). Coverage of the
  requests holds exactly when the digests differ (`ObservationEvidence.ResolutionsCoverRequests`); any verified
  evidence can be changed so that it fails (`ObservationEvidence.RepetitionLeavesUnanswered`), with an instance in
  `ObservationEvidence.RepeatedResolutionFits`.
- The verifier of evidence takes timestamps without milliseconds, the admission does not. An authentic decision that
  has not expired is active exactly if both of its timestamps show them (`RuntimeAdmission.ActiveTexts`); one evaluated
  at a timestamp without them is never admitted (`RuntimeAdmission.BriefTimeIsRefused`).
- Entries of the audit with the same map key overwrite each other. A package is reported as serious exactly if a high
  or critical entry of it is the last of its key (`DependencySecurity.PackageIsReported`), so a high or critical
  package can be hidden, which takes a colon in a package name (`DependencySecurity.NoSeriousPackage`; an instance is
  `DependencySecurity.ColonsHideAPackage`). A moderate package is left without anything to accept if no moderate entry
  of it is the last of its key (`DependencySecurity.ModeratePackageIsReviewed`; an instance is
  `DependencySecurity.RepetitionHidesAModerate`).
- Subnet numbers leave sixteen zones per tier; with more zones neighbouring tiers collide (`Cidr.TiersAreApart`). The
  configuration admits two to four zones only (`src/config.ts:1337`, `src/config.ts:1660`, `src/config.ts:1696`).
- The ELF analysis itself does not ask for a loader, nor does it look at the sizes that reading a closure back demands.
  Those who write the closure down do: `cmd/deus-aws-bootstrap/elf_closure_linux.go:96-98` refuses one without loaders
  and `scripts/write-bootstrap-runtime-provenance.mjs:58-68` one with none, more than eight, or more than 512 libraries.
  A closure that passed them is always accepted again on the same machine (`ElfClosure.WrittenClosureReloads`).
- The frozen check of the signer tree cannot fail once the snapshot check has passed, and the snapshot check after the
  copy can fail only if the owner asked for is not the copying identity.
- An empty `toZoneId` means no target.

## Model

| member | source | states |
|---|---|---|
| SimplePaths.AllFoundIsExact | src/core/reachability.ts:36-68 | the level-by-level search reports each reportable simple path exactly once, in non-decreasing length, and nothing else |
| SimplePaths.SimpleIsShort | src/core/reachability.ts:44-45 | a simple path uses no edge twice, so the queue runs dry by itself |
| SimplePaths.SimpleVisitsFew | src/core/reachability.ts:31-31 | through declared zones a simple path has fewer edges than there are zones |
| SimplePaths.WalkShortens | src/core/entitlements.ts:130-151 | every walk, cycles included, can be shortened to a simple path with the same ends |
| SimplePaths.WalkIsChain | src/core/reachability.ts:44-57 | a walk is a sequence of edges, each from one stop to the next |
| SimplePaths.WalkOfChain | src/core/reachability.ts:44-57 | every such sequence of edges is a walk |
| Reachability.BuildSecurityGraph | src/core/graph.ts:219-231 | the can-reach edges are, flow by flow, one edge per pair of consecutive hops, with their names, sources and broker flags |
| Reachability.ReachEdgesAreFlowEdges | src/core/graph.ts:219-231 | only flows contribute can-reach edges |
| Reachability.BuildAdjacency | src/core/reachability.ts:25-29 | the adjacency map holds for every zone exactly its outgoing can-reach edges, in order |
| Reachability.FollowEdges | src/core/reachability.ts:46-66 | the inner loop reports and queues exactly the extensions of the current path, and stops exactly when the limit would be exceeded |
| Reachability.FindNetworkPaths | src/core/reachability.ts:19-71 | the result is every simple path of 1 to maxDepth edges from the source, ending at the target if one is given, each once, shortest first; it fails exactly when there are more than maxPaths of them |
| Reachability.DefaultDepthCutsNothing | src/core/reachability.ts:31-31 | with declared zones the default depth leaves out no simple path |
| Reachability.FlowChainIsFound | src/core/graph.ts:219-231 | each flow with distinct declared hops is found from its source, hop by hop, along its own edges |
| Reachability.EdgesAreHops | src/core/graph.ts:219-231 | the can-reach edges are exactly those between consecutive hops of a flow, with the identifier, source and broker flag of the flow |
| Reachability.ReportsAreRoutes | src/core/reachability.ts:44-67 | each reported path names the zones and edges of one repetition-free route, its flows in order of first use and whether its first edge is brokered; every route that is asked for is reported once, shorter ones first |
| Reachability.ReportsAreCounted | src/core/reachability.ts:36-68 | before any limit there are as many reports as routes that are asked for |
| Reachability.LimitMeans | src/core/reachability.ts:32-32 | without a limit of its own a search stops at a thousand paths |
| Entitlements.ReachableIdentities | src/core/entitlements.ts:108-154 | the identities of all simple delegation paths of a principal, each path once, or a failure exactly when there are over a thousand |
| Entitlements.DelegationPathsAreExact | src/core/entitlements.ts:108-154 | the enumerated delegation paths are exactly the simple ones, without repetition |
| Entitlements.ReachableMeansWalk | src/core/entitlements.ts:60-66 | an identity is reachable exactly if some delegation walk, cycles included, ends at it |
| Entitlements.GroupDelegations | src/core/entitlements.ts:40-49 | the map by delegator holds each identity's delegations in order |
| Entitlements.GroupGrants | src/core/entitlements.ts:51-57 | the map by identity holds each identity's grants in order |
| Entitlements.EmitPrincipal | src/core/entitlements.ts:67-102 | the loops of one principal emit exactly the entitlements of its paths, allow grants, resource entries and action entries |
| Entitlements.AnalyzeEntitlements | src/core/entitlements.ts:29-106 | one entitlement per principal, simple delegation path, allow grant at its end, resource entry and action entry, in the order of the loops, each denied exactly if a reachable identity holds a matching denial; a failure exactly when a principal has over a thousand paths |
| Entitlements.DenialIsMonotone | src/core/entitlements.ts:62-95 | adding grants or delegations never lifts a denial |
| Entitlements.PrefixMatches | src/core/entitlements.ts:163-169 | a pattern ending in a colon and a star matches every action of its prefix |
| Entitlements.MatchesIfCovered | src/core/entitlements.ts:163-169 | a pattern matches exactly if it is a wildcard, the action, or covers the action by its prefix |
| Entitlements.DenyOverrides | src/core/entitlements.ts:66-99 | an entitlement is denied, and lists a grant, exactly if a deny grant for its resource and action is held by an identity that a chain of delegations reaches |
| Entitlements.EntitlementIsGranted | src/core/entitlements.ts:66-99 | every entitlement comes from an allow grant at the end of a repetition-free chain of delegations, which it names |
| Entitlements.GrantIsEmitted | src/core/entitlements.ts:66-99 | every allow grant at the end of such a chain gives an entitlement for each of its resources and actions |
| Entitlements.BudgetMeans | src/core/entitlements.ts:108-154 | a principal is within the budget exactly if it has at most a thousand repetition-free chains of delegations |
| Entitlements.ServiceDenialExample | src/core/entitlements.ts:163-169 | a denial of all actions of a service denies one of them |
| CanonicalJson.CanonicalWriter.WriteValue | cmd/deus-aws-bootstrap/main.go:771-847 | the buffer grows by the canonical form of the value, or the value holds a number the printer rejects |
| CanonicalJson.CanonicalWriter.WriteItems | cmd/deus-aws-bootstrap/main.go:807-817 | the array case writes the items in order between brackets |
| CanonicalJson.CanonicalWriter.WriteFields | cmd/deus-aws-bootstrap/main.go:818-837 | the object case writes the members by sorted key, whatever order the map is iterated in |
| CanonicalJson.SortingGivesTheListing | cmd/deus-aws-bootstrap/main.go:819-823 | sorting the keys gives one and the same listing for every iteration order |
| CanonicalJson.Canonical | cmd/deus-aws-bootstrap/main.go:771-847 | the printer returns the one canonical text of a value and fails exactly on a rejected number |
| CanonicalJson.EncodeUnique | cmd/deus-aws-bootstrap/main.go:771-847 | canonical texts followed by non-digits can be read in one way only |
| CanonicalJson.CanonicalIsInjective | cmd/deus-aws-bootstrap/main.go:771-847 | two accepted documents with the same canonical bytes are the same value, objects being unordered |
| CanonicalJson.NumbersHaveOneSpelling | cmd/deus-aws-bootstrap/main.go:792-806 | two accepted numbers are equal exactly if their literals are |
| CanonicalJson.NumbersAreNotPrefixFree | cmd/deus-aws-bootstrap/main.go:792-806 | a number alone does not show where it ends |
| CanonicalJson.EncodeIsText | cmd/deus-aws-bootstrap/main.go:771-847 | the text written is the literal, the quoted string, the number, or the items and members in brackets with commas, members in the order of their keys |
| CanonicalJson.AcceptedNumbers | cmd/deus-aws-bootstrap/main.go:792-808 | the accepted numbers are the numerals up to the largest safe integer |
| CanonicalJson.Escapes | cmd/deus-aws-bootstrap/main.go:784-791 | which characters are escaped and how |
| Text.LessIsBefore | cmd/deus-aws-bootstrap/main.go:819-823 | the order of keys puts a beginning before what it begins, and else decides at the first difference |
| ElfClosure.ResolveRuntimeFile | cmd/deus-aws-bootstrap/elf_closure_linux.go:520-543 | the first directory of the search order that has the file resolves it |
| ElfClosure.ResolvesToFirst | cmd/deus-aws-bootstrap/elf_closure_linux.go:520-543 | an absolute name resolves to itself, one with a separator below its origin, any other to the first file along the search path; to nothing exactly if none is there |
| ElfClosure.BundledComesFirst | cmd/deus-aws-bootstrap/elf_closure_linux.go:520-543 | a bundled library comes before a system library that is searched later |
| ElfClosure.EnqueueElf | cmd/deus-aws-bootstrap/elf_closure_linux.go:461-482 | fails exactly if the path has no real path or cannot be inspected; otherwise a file is queued exactly if it is ELF and was never queued |
| ElfClosure.AnalyseFile | cmd/deus-aws-bootstrap/elf_closure_linux.go:145-197 | one turn fails exactly if the file cannot be parsed or its interpreter or an import does not resolve to an inspectable path; otherwise it keeps the invariant that queued and done files are needed and done files have all their needs known |
| ElfClosure.RunWorklist | cmd/deus-aws-bootstrap/elf_closure_linux.go:145-197 | the loop ends with exactly the closure and what its members add to loaders, libraries and executables, or the closure holds a file or a size that rules its analysis out |
| ElfClosure.AddVariants | cmd/deus-aws-bootstrap/elf_closure_linux.go:203-207 | the map grows by exactly the variants of its entries although it is ranged over while growing |
| ElfClosure.BindAll | cmd/deus-aws-bootstrap/elf_closure_linux.go:212-231 | fails exactly if a path cannot be bound; otherwise the bindings list each path once with its digest, strictly sorted |
| ElfClosure.AnalyzeElfClosure | cmd/deus-aws-bootstrap/elf_closure_linux.go:118-238 | on success the files analysed are the least set containing the inputs and closed under resolved interpreters and imports, with the loaders and libraries that set determines; it succeeds exactly if that set is finite, readable, fully resolved and bound, and within the sizes |
| ElfClosure.AnalysisMeans | cmd/deus-aws-bootstrap/elf_closure_linux.go:118-238 | the files are the least set with all that inputs, listed libraries and its members use; loaders are the outside interpreters, libraries the listed ones, outside imports and variants, each with its digest |
| ElfClosure.AnalysableMeans | cmd/deus-aws-bootstrap/elf_closure_linux.go:118-238 | the analysis succeeds exactly if all that is used is found and readable, not too much, and can be bound |
| ElfClosure.ClosureIsUnique | cmd/deus-aws-bootstrap/elf_closure_linux.go:118-238 | there is one least closed set |
| ElfClosure.AnalysisIsDetermined | cmd/deus-aws-bootstrap/elf_closure_linux.go:118-238 | two successful analyses of the same inputs agree, whatever the orders of the worklist and the maps |
| ElfClosure.DependencyIsBoundOnce | cmd/deus-aws-bootstrap/elf_closure_linux.go:198-231 | every resolved dependency outside the owned root is in exactly one of the loaders and the libraries |
| ElfClosure.CheckSorted | cmd/deus-aws-bootstrap/elf_closure_linux.go:280-295 | one recorded list passes exactly if it is strictly sorted, has no empty or already seen path, and every digest is well-formed and current |
| ElfClosure.LoadBoundClosure | cmd/deus-aws-bootstrap/elf_closure_linux.go:264-297 | a recorded closure is accepted exactly for its version and architecture, within its sizes, strictly sorted, disjoint and with unchanged digests |
| ElfClosure.FreshClosureReloads | cmd/deus-aws-bootstrap/elf_closure_linux.go:264-297 | a closure just computed is accepted again exactly if it has one to eight loaders and at most 512 libraries |
| ElfClosure.WrittenClosureReloads | cmd/deus-aws-bootstrap/elf_closure_linux.go:264-297 | a closure just computed that has one to eight loaders and at most 512 libraries, as its writers check, is accepted on the same machine |
| ElfClosure.SelfLoadingReloads | cmd/deus-aws-bootstrap/elf_closure_linux.go:264-297 | on a machine whose files interpret themselves the analysis lists all of them as loaders, and its closure reads back exactly for one to eight |
| SealedCopy.Copier.CopyDirectory | cmd/deus-aws-bootstrap/main.go:492-576 | everything below the directory is copied in sealed form, exactly when it is acceptable and the entry and byte budgets suffice |
| SealedCopy.Copier.CopyEntry | cmd/deus-aws-bootstrap/main.go:515-574 | one entry and all below it are copied, counted and budgeted |
| SealedCopy.Copier.CopyFile | cmd/deus-aws-bootstrap/main.go:586-638 | a file arrives with its content, the sealed owner and a read-only mode that keeps executability |
| SealedCopy.CopySealedTree | cmd/deus-aws-bootstrap/main.go:471-584 | a stable tree is copied completely, exactly when it is acceptable and within the budgets |
| SealedCopy.CaptureSnapshot | cmd/deus-aws-bootstrap/signer_tree_linux.go:375-439 | the walk succeeds exactly on a capturable tree and lists every entry once, strictly sorted |
| SealedCopy.SnapshotIsUnique | cmd/deus-aws-bootstrap/signer_tree_linux.go:375-439 | a tree has one snapshot, whatever the order of the walk |
| SealedCopy.ValidateSnapshot | cmd/deus-aws-bootstrap/signer_tree_linux.go:441-455 | a tree passes exactly if it is capturable for the owner and its snapshot is the expected one |
| SealedCopy.SealingKeepsTheSnapshot | cmd/deus-aws-bootstrap/main.go:471-638 | the sealed copy has the snapshot of its source and is frozen |
| SealedCopy.ValidationAfterCopying | cmd/deus-aws-bootstrap/signer_tree_linux.go:342-350 | validation and frozen check after the copy succeed exactly if the owner asked for is the copying identity |
| SealedCopy.SameSnapshotSameTree | cmd/deus-aws-bootstrap/signer_tree_linux.go:375-455 | with an injective digest two trees have the same snapshot exactly if they have the same paths, kinds, contents, executable bits and targets |
| SealedCopy.SealedTree | cmd/deus-aws-bootstrap/main.go:471-638 | every sealed entry is the same, owned by the seal, with the read-only mode of its kind |
| SealedCopy.SealableMeans | cmd/deus-aws-bootstrap/main.go:471-638 | a tree is sealed exactly if everything is the source identity's, supported and small enough, without a review bundle |
| SealedCopy.CapturableMeans | cmd/deus-aws-bootstrap/signer_tree_linux.go:375-455 | a tree is captured exactly if everything has the owner, a safe path and a supported type, within the limits |
| SealedCopy.FrozenMeans | cmd/deus-aws-bootstrap/signer_tree_linux.go:500-526 | frozen means owned throughout, with no write permission on files and directories |
| Publication.Disk.CopyToStaging | cmd/deus-aws-bootstrap/main.go:232-235 | the copy leaves the root alone and, on success, a complete sealed copy at the staging path |
| Publication.Disk.Swap | cmd/deus-aws-bootstrap/signer_tree_linux.go:351-359 | through both renames and the restore every intermediate layout is safe, and the outcome tells which tree is at the root |
| Publication.ReplaceSignerReviewTree | cmd/deus-aws-bootstrap/signer_tree_linux.go:328-373 | whatever call fails, at every moment the root holds the intact prepared tree, or nothing while that tree is intact aside, or the complete validated copy; success means the last, a failed publication with a successful restore the first; when no call fails it publishes, unless the tree is not prepared, cannot be captured or sealed, is for another owner, or something is in the way |
| Publication.SealExecution | cmd/deus-aws-bootstrap/main.go:221-282 | the same safety for the sealing of the execution root; when no call fails it publishes exactly a sealable tree whose copy passes the check |
| Publication.ExampleIsPublished | cmd/deus-aws-bootstrap/signer_tree_linux.go:328-373 | nothing stands in the way of publishing a small tree |
| Pruning.ExecutionTree.ListDirectories | cmd/deus-aws-bootstrap/seal_inventory_linux.go:296-308 | all directories but the root, longest paths first |
| Pruning.ExecutionTree.RemoveUnneededEmptyDirectories | cmd/deus-aws-bootstrap/seal_inventory_linux.go:291-325 | one pass removes exactly the directories without anything but unkept directories below them; a fault leaves the others |
| Pruning.EmptyMeansUnneeded | cmd/deus-aws-bootstrap/seal_inventory_linux.go:309-323 | when its turn comes, a directory is empty exactly if it was unneeded at the start |
| Pruning.NoEmptyDirectoryRemains | cmd/deus-aws-bootstrap/seal_inventory_linux.go:291-325 | afterwards only kept directories are empty |
| BootstrapInventory.FindEntry | cmd/deus-aws-bootstrap/seal_inventory_linux.go:226-232 | the binary search finds the entry of a path exactly if there is one |
| BootstrapInventory.CheckEntries | cmd/deus-aws-bootstrap/seal_inventory_linux.go:162-196 | the pass accepts exactly valid, strictly sorted entries and totals their bytes and their largest size |
| BootstrapInventory.ReadInventory | cmd/deus-aws-bootstrap/seal_inventory_linux.go:151-224 | a decoded document is accepted exactly if summary, order, metadata, roots, files and byte totals agree |
| BootstrapInventory.PlainEntryMeans | cmd/deus-aws-bootstrap/seal_inventory_linux.go:162-196 | an entry is a bare directory, a file with size and digest, or a relative link of the modules |
| BootstrapInventory.SummaryMeans | cmd/deus-aws-bootstrap/seal_inventory_linux.go:151-153 | the summary agrees with entries and binding, within the limits |
| SealInventory.BuildExpectation | cmd/deus-aws-bootstrap/seal_inventory_linux.go:339-376 | the maps the walk consults are those of the release, scope and inventory, and building them fails exactly on an inconsistency |
| SealInventory.AddEntries | cmd/deus-aws-bootstrap/seal_inventory_linux.go:362-372 | inventory entries overlap no source and no other entry but that of a generated file |
| SealInventory.CheckEntry | cmd/deus-aws-bootstrap/seal_inventory_linux.go:391-489 | one entry passes the walk exactly if it is expected, owned, within the file budget and matches its description |
| SealInventory.WalkTree | cmd/deus-aws-bootstrap/seal_inventory_linux.go:377-501 | the walk and the final counts accept exactly the accepted trees, in whatever order the entries come |
| SealInventory.ValidateSealInventory | cmd/deus-aws-bootstrap/seal_inventory_linux.go:335-501 | the check accepts exactly the accepted trees of a consistent release, scope and inventory under positive budgets |
| ExecutionSeal.AcceptedTreeIsExact | cmd/deus-aws-bootstrap/seal_inventory_linux.go:403-408 | an accepted tree has exactly the listed paths, the kept empty directories and the directories above them |
| ExecutionSeal.InventoryPinsEverything | cmd/deus-aws-bootstrap/seal_inventory_linux.go:209-217 | an accepted inventory leaves no listed path without a source, an entry or a document digest |
| ExecutionSeal.AcceptedTreeIsDetermined | cmd/deus-aws-bootstrap/seal_inventory_linux.go:335-501 | two trees accepted for the same documents have the same paths, kinds, contents and targets, and the same executable bits but for the two documents themselves |
| ExecutionSeal.InventoryBytesAreInTheTree | cmd/deus-aws-bootstrap/seal_inventory_linux.go:218-220 | the bytes of an accepted tree at the inventoried paths are the total the inventory claims |
| ExecutionSeal.SealedCopyIsAccepted | cmd/deus-aws-bootstrap/main.go:236-239 | the sealed copy of an accepted tree is accepted exactly for the sealing identity |
| ExecutionSeal.AcceptanceMeans | cmd/deus-aws-bootstrap/seal_inventory_linux.go:335-501 | a tree is accepted exactly if it conforms to the documents: sources as their last manifest records, inventoried paths as their entries, the candidate and the inventory document by their own digests, kept directories empty, nothing else but directories above them |
| ExecutionSeal.ConsistencyMeans | cmd/deus-aws-bootstrap/seal_inventory_linux.go:335-400 | documents are consistent exactly if sources are recorded and overlap neither with generated files nor with entries, and entries do not repeat |
| ExecutionSeal.ExampleIsAccepted | cmd/deus-aws-bootstrap/seal_inventory_linux.go:335-501 | documents with a source, modules and generated files, and a tree that is accepted |
| CloudContext.UniqueMap | src/core/cloudContext.ts:1159-1171 | the map by identifier finds what a search finds, and fails exactly on a repeated identifier |
| CloudContext.CheckContext | src/core/cloudContext.ts:216-269 | a context passes exactly if its environment, status, capabilities and untrusted runtimes are as required |
| CloudContext.AddBindings | src/core/cloudContext.ts:270-295 | the two maps hold exactly the bindings seen so far, each valid and with its own identifier |
| CloudContext.ConsumeBindings | src/core/cloudContext.ts:345-371 | the bindings of a placement pass exactly if known, owned, in its context and not used before |
| CloudContext.CheckPlacements | src/core/cloudContext.ts:298-406 | the placements pass exactly if their keys differ, their lookups succeed and no binding is used twice |
| CloudContext.AssertCatalog | src/core/cloudContext.ts:205-414 | the assertion lets through exactly the accepted catalogues |
| CloudContext.BindingHasOneOwner | src/core/cloudContext.ts:345-414 | in an accepted catalogue every binding is consumed at exactly one position of exactly one placement, its owner, in the context that lists it |
| CloudContext.SmallCatalogIsAccepted | src/core/cloudContext.ts:205-414 | a catalogue with one context, one binding and its owner is accepted |
| CloudContext.AcceptedMeans | src/core/cloudContext.ts:205-414 | with unique identifiers a catalogue is accepted exactly if its statuses, runtimes, bindings, placements and delegations are in order and every binding is placed once |
| PlacementDependencies.KeyIsInjective | src/core/cloudContextVerification.ts:1602-1608 | a dependency key names one context, kind and identifier |
| PlacementDependencies.LocatedInOwnContext | src/core/cloudContextVerification.ts:482-491 | in an accepted catalogue the binding found for a placement is in the placement's context |
| PlacementDependencies.AddBindings | src/core/cloudContextVerification.ts:482-491 | the bindings are collected in order and the context escape cannot happen |
| PlacementDependencies.CollectDependencies | src/core/cloudContextVerification.ts:503-558 | one dependency per key, from the first input of the key, unless a reference is not canonical |
| PlacementDependencies.Derive | src/core/cloudContextVerification.ts:433-562 | the closure of the selected placement; it fails exactly on a rejected catalogue, a malformed or unknown selection or a reference that is not canonical |
| PlacementDependencies.InputsAreTheNeeds | src/core/cloudContextVerification.ts:447-501 | the collected inputs are exactly the context, the named capabilities, the own bindings and the delegated contexts and runtimes |
| PlacementDependencies.KeyIdentifiesInput | src/core/cloudContextVerification.ts:504-505 | needed inputs with the same key are the same, so skipping repeated keys loses nothing |
| PlacementDependencies.ClosureIsSorted | src/core/cloudContextVerification.ts:559-561 | the closure lists one dependency per key, in the order of the collation |
| PlacementDependencies.ClosureIsExact | src/core/cloudContextVerification.ts:433-562 | the dependencies are exactly those of the placement's needs |
| PlacementDependencies.ClosureBindings | src/core/runtimeDeploymentAdmission.ts:52-62 | the resource bindings of the closure are exactly those the placement lists, each once |
| PlacementDependencies.ClosureIsDependedOn | src/core/cloudContextVerification.ts:433-515 | the closure has a dependency exactly for what the placement names: its context, capabilities, DNS zones and bindings, and its delegated runtimes with their contexts |
| PlacementDependencies.ClosureAsks | src/core/cloudContextVerification.ts:1318-1518 | a dependency covers its part of the desired state, and asks exactly for the references of that part, each with its purpose, confidentiality, projection and output type |
| ObservationEvidence.CreateEvidence | src/core/cloudContextVerification.ts:603-724 | evidence is made exactly for the creatable orders, and no resolver is asked anything unless every request of the closure is authorised |
| ObservationEvidence.ObservationIsGood | src/core/cloudContextVerification.ts:1132-1164 | the observation made of a dependency is well-formed, matches the dependency, and has one resolution per request, each by an authorised resolver and valid during the whole life of the evidence |
| ObservationEvidence.CreatableExpiryIsTime | src/core/cloudContextVerification.ts:1220-1240 | the resolutions outlive the evidence, so its expiry is a four-digit timestamp again |
| ObservationEvidence.ParseEvidence | src/core/cloudContextVerification.ts:726-838 | evidence is parsed exactly if its fields are well-formed and its observation keys differ |
| ObservationEvidence.UniqueTrusted | src/core/cloudContextVerification.ts:1549-1585 | a verifier is found exactly if one and only one is trusted under the name, version and key, and it is configured properly |
| ObservationEvidence.VerifyObservation | src/core/cloudContextVerification.ts:1092-1129 | an observation passes exactly if it matches its dependency and every resolution answers one of its requests |
| ObservationEvidence.VerifyObservations | src/core/cloudContextVerification.ts:1077-1130 | the observations pass exactly if they are as many as the dependencies and each observes one of them |
| ObservationEvidence.VerifyBeforeRedemption | src/core/cloudContextVerification.ts:853-998 | everything before the redemption passes exactly if the evidence is verified |
| ObservationEvidence.Verifier.AssertDeployable | src/core/cloudContextVerification.ts:840-1056 | verified evidence is accepted exactly if it was not redeemed; acceptance redeems it and records the decision, a rejection changes nothing |
| ObservationEvidence.AcceptanceMeans | src/core/cloudContextVerification.ts:840-1056 | accepted evidence, its nonce and its key are unrevoked; it is in time, signed by the one verifier trusted under its name for its organisation, tenant and environment, about this placement, and every resolution is by a resolver with authority for its request |
| ObservationEvidence.RevocationRejects | src/core/cloudContextVerification.ts:877-883 | revoking the evidence, its nonce or its key turns an acceptance into a rejection |
| ObservationEvidence.OtherRevocationsAreHarmless | src/core/cloudContextVerification.ts:877-883 | revoking anything else does not |
| ObservationEvidence.ClosureDigestMeans | src/core/cloudContextVerification.ts:587-602 | a closure digest stands for keys, subjects and requests |
| ObservationEvidence.RegistryDigestMeans | src/core/cloudContextVerification.ts:400-430 | a registry digest stands for what the resolvers promise |
| ObservationEvidence.DesiredStateMeans | src/core/cloudContextVerification.ts:564-581 | a desired-state digest stands for a catalogue but its statuses |
| ObservationEvidence.EvidenceRoundTrip | src/core/cloudContextVerification.ts:603-1056 | evidence made for a parsed catalogue is accepted by a verifier set up for it at exactly the instants from its issue up to its expiry, unless redeemed before |
| ObservationEvidence.ExampleRoundTrip | src/core/cloudContextVerification.ts:603-1056 | evidence made for the small catalogue for a minute is accepted during exactly that minute |
| ObservationEvidence.ObservationsAreTheClosure | src/core/cloudContextVerification.ts:833-836 | verified evidence observes every dependency exactly once, as it is, and nothing else |
| ObservationEvidence.ResolutionsCoverRequests | src/core/cloudContextVerification.ts:1104-1129 | the resolutions of a fitting observation answer every request exactly if no two have the same digest |
| ObservationEvidence.RepetitionLeavesUnanswered | src/core/cloudContextVerification.ts:1104-1116 | any verified evidence, with one resolution repeated instead of the next and signed again, is verified and leaves a request unanswered |
| ObservationEvidence.RepeatedResolutionFits | src/core/cloudContextVerification.ts:1104-1116 | such evidence for the small catalogue is verified although a request of its closure is unanswered |
| ObservationEvidence.StoreIsTheAccepted | src/core/cloudContextVerification.ts:999-1013 | in every run the store knows what it was given and the accepted evidence; rejected attempts leave no trace |
| ObservationEvidence.AcceptedExactlyOnce | src/core/cloudContextVerification.ts:999-1013 | in every run verified evidence is accepted exactly if no earlier attempt with it was |
| Timestamps.EpochIsMonotone | src/core/runtimeDeploymentAdmission.ts:138-149 | earlier calendar and clock fields mean an earlier instant |
| Timestamps.TextOrder | src/core/runtimeDeploymentAdmission.ts:107-110 | text order of canonical timestamps is instant order exactly up to the signs of years after 9999 |
| Timestamps.MomentIsExact | src/core/runtimeDeploymentAdmission.ts:138-149 | every instant of the years 0 to 9999 has a calendar date that stands for it |
| Timestamps.CanonicalTexts | src/core/runtimeDeploymentAdmission.ts:170-183 | a text is canonical exactly if it is what a date is written as, and then it is read as that date |
| Timestamps.StampTextsAreAccepted | src/core/cloudContextVerification.ts:1787-1807 | the texts of timestamps are exactly the canonical ones with four-digit years, with or without zero milliseconds |
| Timestamps.StampTextIsInjective | src/core/cloudContextVerification.ts:1787-1807 | different timestamps have different texts |
| Timestamps.CanonicalStamp | src/core/runtimeDeploymentAdmission.ts:170-183 | the text of a timestamp is canonical exactly if it shows the milliseconds, and then it is read as its date |
| Timestamps.StampOrder | src/core/runtimeDeploymentAdmission.ts:107-110 | timestamps that show milliseconds are ordered like their instants |
| Timestamps.MonthLengths | src/core/runtimeDeploymentAdmission.ts:138-149 | the lengths of the months |
| Timestamps.KnownDates | src/core/runtimeDeploymentAdmission.ts:138-149 | known dates as instants and as a text |
| RuntimeAdmission.AssertExactInventory | src/core/runtimeDeploymentAdmission.ts:155-168 | two lists pass exactly if both are without repetition and equal |
| RuntimeAdmission.SameSortedInventory | src/core/runtimeDeploymentAdmission.ts:52-62 | sorted lists pass exactly if the lists have the same members without repetition |
| RuntimeAdmission.CollectPostgres | src/core/runtimeDeploymentAdmission.ts:64-86 | the readiness decisions pass exactly if all are authentic, active, for runtime access and for different bindings |
| RuntimeAdmission.Admit | src/core/runtimeDeploymentAdmission.ts:37-130 | a deployment is admitted exactly if its decisions are authentic and active and cover its bindings, with one resource per binding, until the earliest of their expiries, which all lie after now |
| RuntimeAdmission.AuthenticInventoryMatches | src/core/runtimeDeploymentAdmission.ts:52-62 | the decision of a verified check always passes the first inventory comparison |
| RuntimeAdmission.ExpiryIsEarliest | src/core/runtimeDeploymentAdmission.ts:107-110 | the first of the sorted expiry texts is the chronologically earliest expiry |
| RuntimeAdmission.ActiveTexts | src/core/runtimeDeploymentAdmission.ts:132-153 | the activity check of timestamps passes exactly if both show milliseconds and now lies from the first up to the second |
| RuntimeAdmission.AdmissionRestsOnEvidence | src/core/runtimeDeploymentAdmission.ts:37-130 | an admission rests on evidence verified by then and not expired, whose closure has exactly the bindings with a usable readiness decision |
| RuntimeAdmission.AdmittedMeans | src/core/runtimeDeploymentAdmission.ts:37-130 | what a deployment is admitted for, in terms of the decisions' times, bindings and access classes |
| RuntimeAdmission.ExampleIsAdmitted | src/core/runtimeDeploymentAdmission.ts:37-130 | a deployment of the small catalogue is admitted until its database readiness expires |
| RuntimeAdmission.BriefTimeIsRefused | src/core/runtimeDeploymentAdmission.ts:132-153 | evidence verified at a timestamp without milliseconds is accepted and its decision is never admitted |
| InfrastructureController.MatchIsExact | src/core/infrastructureController.ts:1134-1160 | the resource patterns find exactly the parts a path is made of |
| InfrastructureController.PrefixIsExactScope | src/core/infrastructureController.ts:251-264 | a claim prefix begins a resource exactly if organisation, tenant and context are the same |
| InfrastructureController.ResourceIsInjective | src/core/infrastructureController.ts:234-249 | different claims have different resources |
| InfrastructureController.Parse | src/core/infrastructureController.ts:266-530 | a request is parsed exactly if its literals, identifiers, digests, numbers, versions, issuer and prefixes are well-formed and every list is without repetition |
| InfrastructureController.DenialLog.AuthorizePlanAndApprovals | src/core/infrastructureController.ts:905-962 | the plan and approval reasons are added exactly where they apply |
| InfrastructureController.Authorize | src/core/infrastructureController.ts:532-700 | a request is allowed exactly if it is well-formed and no reason applies; the reasons are all that apply, in order, and a mutation names the capability to redeem |
| InfrastructureController.ReasonsMean | src/core/infrastructureController.ts:558-961 | each reason is given exactly on its ground |
| InfrastructureController.AllowedMeans | src/core/infrastructureController.ts:558-961 | a well-formed request is allowed exactly if it is of one identity, covered by plug-in, grant and capability, trusted and fresh, and planned and approved where that is due |
| InfrastructureController.MutationsRedeem | src/core/infrastructureController.ts:619-681 | reconciling, cancelling and deleting redeem their capability, planning and observing do not |
| InfrastructureController.AllowedInstantsAreOneInterval | src/core/infrastructureController.ts:619-672 | for a fixed request and redeemed set the allowed instants are one half-open interval, from the latest of issue, not-before, plan creation and approvals to the earliest of the expiries and the deadline |
| InfrastructureController.IntervalIsShort | src/core/infrastructureController.ts:650-672 | that interval is no longer than the lifetime a capability may have |
| InfrastructureController.AllowedIsInScope | src/core/infrastructureController.ts:586-640 | manifest, grant and capability of an allowed request name its own organisation, tenant, context, claim, subject and action |
| InfrastructureController.DeletionNeedsTwoApprovers | src/core/infrastructureController.ts:923-961 | an allowed deletion has at least two different approvers, none the actor, all of this plan, between its creation and now |
| InfrastructureController.ProductionNeedsApproval | src/core/infrastructureController.ts:953-961 | an allowed production change has an approver other than the actor, of its plan, between its creation and now |
| InfrastructureController.ApprovalDecides | src/core/infrastructureController.ts:953-961 | a change without approvals is allowed outside production and refused there for that reason alone |
| InfrastructureController.NothingAfterAMutation | src/core/infrastructureController.ts:660-681 | in every run a capability allows nothing after its allowed mutation |
| InfrastructureController.OneMutationPerCapability | src/core/infrastructureController.ts:660-681 | in every run a capability authorises at most one mutation, and none if it was recorded before |
| InfrastructureController.ExampleIsAllowed | src/core/infrastructureController.ts:532-700 | a deletion with a plan and two approvals is allowed exactly from the latest approval up to its deadline |
| Cidr.AddressRoundTrip | src/cidr.ts:8-30 | reading a written address gives the address |
| Cidr.AddressMeans | src/cidr.ts:8-30 | an address is exactly four octets with dots between them, the most significant first |
| Cidr.BlockMeans | src/cidr.ts:65-92 | a block is exactly an address without host bits, a slash and a prefix length |
| Cidr.SubnetExample | src/cidr.ts:32-92 | the eighteenth of the subnets with 24 bits of a network with 16, as texts |
| Cidr.ParseIsIdempotent | src/cidr.ts:65-92 | a parsed block is aligned and inside the address space, and parsing its normal text gives it again |
| Cidr.BlockRoundTrip | src/cidr.ts:65-92 | every aligned block is parsed from its normal text |
| Cidr.OverlapIsNesting | src/cidr.ts:94-101 | the comparison of the ends holds exactly if an address is shared, and exactly if one block contains the other |
| Cidr.SubnetIsBlock | src/cidr.ts:32-63 | the text of a subnet is parsed to an aligned block inside the base block |
| Cidr.SubnetsTile | src/cidr.ts:52-62 | every address of a block is in exactly one of its subnets, and no other address is in any |
| Cidr.CreateSubnets | src/network.ts:522-577 | the loop creates for every included tier one block per zone with the tier's numbers, and fails exactly if one of them does not exist |
| Cidr.CreatedBlocks | src/network.ts:540-569 | a created block is inside the network, and two overlap exactly if their numbers are the same |
| Cidr.TiersAreApart | src/network.ts:540-569 | the blocks of two tiers are pairwise apart exactly if there are at most sixteen zones per step between them |
| Cidr.TierFitsExactly | src/network.ts:540-569 | a tier has all its blocks exactly if it needs none or the network leaves eight bits and its numbers stay below 256 |
| Cidr.CreationSucceeds | src/network.ts:522-577 | for a prefix of at most 24 and up to sixteen zones the subnets of all tiers exist |
| Cidr.CreatedSubnetsAreApart | src/network.ts:522-577 | all subnets created for one network and up to sixteen zones are inside it and pairwise apart |
| DependencySecurity.PutAllIsMap | src/dependencySecurity.ts:108-193 | setting every entry in turn leaves the last entry of each key |
| DependencySecurity.ReadPackage | src/dependencySecurity.ts:117-194 | a package record sets exactly its entries, and is rejected exactly if a severity is unsupported or not explained by its advisories |
| DependencySecurity.EntriesMean | src/dependencySecurity.ts:117-194 | a record contributes the advisories of its causes, and itself if it is serious, names packages or has no advisory |
| DependencySecurity.IdentifierMeans | src/dependencySecurity.ts:152-156 | an advisory is identified by the last non-empty piece of its URL, else by source or package |
| DependencySecurity.Severities | src/dependencySecurity.ts:202-217 | the severities, their names in any case, and their order |
| DependencySecurity.ExtractAdvisories | src/dependencySecurity.ts:102-200 | the extraction succeeds exactly on readable records whose metadata is their exact severity histogram |
| DependencySecurity.CountsAddUp | src/dependencySecurity.ts:219-250 | the histogram of the five severities adds up to the number of package records |
| DependencySecurity.MetadataMeans | src/dependencySecurity.ts:219-250 | the metadata counts each severity among the records, and the records |
| DependencySecurity.EvaluateDependencyAudit | src/dependencySecurity.ts:30-100 | the failures are exactly those that apply, without repetition, with the acceptable advisories and the stale exceptions in order |
| DependencySecurity.FailuresMean | src/dependencySecurity.ts:50-87 | each failure and its ground |
| DependencySecurity.StaleMeans | src/dependencySecurity.ts:89-97 | an exception is stale exactly if no advisory has its identifier |
| DependencySecurity.AdvisoriesOfPackage | src/dependencySecurity.ts:155-193 | despite overwriting, the advisories of a package are exactly the last ones it set itself for each identifier |
| DependencySecurity.SeriousFailures | src/dependencySecurity.ts:67-73 | a serious advisory is reported exactly if some last entry of its key is high or critical |
| DependencySecurity.PackageIsReported | src/dependencySecurity.ts:67-73 | a serious advisory of a package is reported exactly if a high or critical entry of the package is the last of its key |
| DependencySecurity.SeriousIsReported | src/dependencySecurity.ts:150-193 | the own package entry of a high or critical record is reported exactly if no later record sets its key |
| DependencySecurity.OverwrittenCanBeReported | src/dependencySecurity.ts:150-193 | a high package whose own entry is overwritten can still be reported through its advisory |
| DependencySecurity.NoSeriousPackage | src/dependencySecurity.ts:67-73 | without failures every high or critical package record is overwritten by a later one, and there is none when names have no colon |
| DependencySecurity.AcceptedAreTheModerate | src/dependencySecurity.ts:74-87 | without failures the accepted advisories are exactly the moderate ones, each with a live and complete moderate exception |
| DependencySecurity.AcceptedIfSurviving | src/dependencySecurity.ts:74-87 | without failures a package has an accepted advisory exactly if a moderate entry of it is the last of its key |
| DependencySecurity.ModeratePackageIsReviewed | src/dependencySecurity.ts:150-179 | a moderate package has an accepted advisory exactly if a moderate entry of it survives; without colons in names, exactly if the record does not overwrite it itself |
| DependencySecurity.ColonsHideAPackage | src/dependencySecurity.ts:166-166 | with colons in names an audit without failures can hide a high package |
| DependencySecurity.RepetitionHidesAModerate | src/dependencySecurity.ts:150-179 | with a repeated identifier an audit without failures and exceptions can hide a moderate package |
| Organization.PlanAccounts | src/organization.ts:100-139 | one creation per account to create, in order, each depending on the third before it; a failure exactly on an unknown unit |
| Organization.CreatedMeans | src/organization.ts:104-107 | the accounts to create are those marked so, in their order |
| Organization.AtMostThreeInFlight | src/organization.ts:114-165 | in every schedule that respects the dependencies at most three creations are in flight |
| Organization.NoScheduleIsStuck | src/organization.ts:114-165 | until all creations have finished some event is enabled |
| Organization.ThreeCanBeInFlight | src/organization.ts:161-165 | the bound of three is reached |
| Organization.AssertQuotas | src/organization.ts:274-300 | attachments pass exactly if no target has more of a type than its quota less the reserved one |
| Organization.PlanWithinQuotas | src/organization.ts:211-237 | the planned attachments are within the quotas exactly if no unit gets more than four policies |

## Left out

- Pulumi resources, tags, names and outputs, system plumbing, the credential broker and process launching: calls into libraries and the operating system.
- Parsing of JSON, objects and flat fields: requests, catalogues, evidence, reports and documents are typed values; of the field patterns those that matter (identifiers, prefixes, digests, keys, versions, nonces, signatures, numbers) are written out, the others (provider authorities, provider locations, database names) are given predicates or absent. What the URL parser makes of an issuer, and whether the timestamp and the reference of a status are well-formed, come with the values.
- JSON text: UTF-8 details, and the string escapes beyond their being prefix-free.
- TypeScript canonical JSON: it sorts with `localeCompare`; digests over it are free constructors, so its injectivity is assumed. The order of the references inside a dependency, which follows their digests, is the order of collection.
- Reachability.BuildSecurityGraph: the edges of other kinds are one given list, because only can-reach edges are searched.
- ElfClosure.AnalyzeElfClosure: walking the inputs, parsing ELF files and reading symbolic links are given functions of a fixed file system, and variants of variants (nested hwcaps directories) are assumed away.
- SealedCopy.CopySealedTree: input/output faults and changes of the source during the copy; the source is a stable tree.
- SealedCopy.CaptureSnapshot: input/output faults during the walk.
- Publication.SealExecution: the steps after the publication (owners of output directories, retiring tools) and what the installation steps write elsewhere; each is one call that may fail.
- SealInventory.ValidateSealInventory: input/output faults, and the resolution of links, which is a given predicate on paths.
- Pruning of manifest files (`pruneExecutionTree` before the pass over the directories) and `validatePreparedSignerReviewTree`: one-branch filters.
- CloudContext.AssertCatalog: the optional comparisons with a blueprint and with a PostgreSQL intent (`assertBlueprintPlacements`, `assertManagedPostgresBindings`), which the evidence protocol never asks for.
- `assertDeployableCloudContextCatalog` and the construction of the resolver registry: equality and range checks on values that are typed here.
- ObservationEvidence.Verifier.AssertDeployable: object identity and later mutation of a decision; the set of authentic decisions holds values. The replay store is keyed by evidence, nonce, request and content; another store is not part of this model.
- RuntimeAdmission.Admit: how PostgreSQL decisions become authentic; of `src/core/postgresAccessObservation.ts` the model has only that their times are timestamps of evidence (lines 382-383, 892 and 1202-1217).
- DependencySecurity.EvaluateDependencyAudit: failures are values instead of messages.
- Organization.AssertQuotas: targets containing a NUL character, which the source would cut at it.
- Cryptography: SHA-256 and Ed25519 themselves, and unforgeability of signatures.
