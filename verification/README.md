# Ludus: a verified model of its algorithms

Ludus is a Go server that builds cyber ranges on Proxmox. This project models the
algorithms inside its handlers and proves what each is for, over every input, every
run, or every interleaving. `dafny verify dfyconfig.toml` checks all of it (Dafny 4.11).

A loop or a state change of the Go code is a method with that loop or a class with
those fields, proved equal to a specification function; the laws are lemmas about the
specification. Every call that leaves the process (database, Proxmox, Galaxy,
playbooks, the file system, the YAML and semver libraries) is a parameter that may
answer anything or fail at any point.

- **Managed blocks** (`BlockEditor`, `BlockLaws`, `BlockLimits`, `RangeFiles`,
  `RangeRuns`, `HostNetwork`): the editor of `/etc/network/interfaces` and of the SDN
  routes file refines an ordered map from range number to block, over every history.
- **Source installs** (`Source`, `Selection`, `SelectionLaws`, `Routing`, `Ledger`,
  `LedgerLaws`, `Dependencies`, `BlueprintRows`, `SourceDepth`, `Install`, `InstallLaws`,
  `BlueprintDir`): selection expansion in one file is exactly what makes the stripping
  of vendored names in another file sound; the claims ledger gives an install's
  selection back, collections excepted.
- **Directory swaps** (`Disk`, `Swap`, `CreateBlueprint`): every intermediate state of
  every schedule of failures.
- **Template builds** (`Scheduler`, `SchedulerProgress`, `SchedulerStore`,
  `SchedulerWindows`, `TemplatePlan`): a transition system of requests, goroutines and aborts over one
  shared store.
- **Archives** (`Paths`, `Archive`, `Extract`, `Manifest`, `ExportImport`,
  `ExportRoundTrip`): lexical path cleaning, root stripping, byte budgets, and the
  export/import round trip.
- **Groups and numbers** (`Groups`, `Numbers`).
- **Inventory, walks, logs, versions** (`PoolState`, `Inventory`, `InventoryLaws`,
  `Addresses`, `Walker`, `LogScanners`, `Versions`).

`Text` and `StringOrder` hold the string functions of the Go library the code relies on,
`Options` a value that may be missing.

Properties that fail for the code as written are stated as they are: each has a lemma
with an input or a run that shows the failure, and a lemma that says exactly when the
property holds (`Iff` in the name). Where a comment and the code disagree, the code is
modelled: user numbers start at 2, not at the smallest positive number; the known
promotion failure that the notification scanner means to skip is reported at the end
of the log; and a bundled collection's claim (ludus-api/source_install.go:113-116) is
never recorded, because the ledger's kind column does not list its kind.

## Model

| member | source | states |
|---|---|---|
| BlockEditor.ReplaceBlocks | ludus-api/file_operations.go:224-249 | the two nested loops compute one scan: every stretch from a begin marker to the next end marker (or to the end of the file) becomes the replacement, every other line stays, and without a begin marker nothing changes; every index is in bounds |
| BlockEditor.ApplyBlockInFile | ludus-api/file_operations.go:215-276 | the whole editor, with appending, dropping a blank last line and restoring the final newline; the flag compares the trimmed texts |
| BlockLaws.EditIdempotent | ludus-api/file_operations.go:215-276 | the same edit twice is the same edit once, on every file, with repeated or unterminated blocks, inserting or removing, for different trimmed one-line markers of which the first is not blank |
| BlockLaws.RemoveUndoesInsert | ludus-api/file_operations.go:215-276 | removing a block just inserted gives any file without the begin marker back byte for byte, for different trimmed one-line markers of which the second is not blank |
| BlockLaws.InsertShaped | ludus-api/file_operations.go:251-267 | inserting into a file without the marker adds the block's lines at the end and keeps the final newline, or its absence |
| BlockLimits.IdempotentIff | ludus-api/file_operations.go:224-267 | writing a block again leaves every file alone if and only if no line of the block trims to the end marker |
| BlockLimits.IdempotentMarkersIff | ludus-api/file_operations.go:224-267 | among different trimmed one-line markers, a closed block can be written again into every file if and only if the begin marker is not blank |
| BlockLimits.BlankBeginGrows | ludus-api/file_operations.go:230-249 | the other side: under a blank begin marker the second insertion into any file with a final newline adds a second copy |
| BlockLimits.RemoveUndoesInsertIff | ludus-api/file_operations.go:215-276 | among the same markers, insert then remove gives every file without the begin marker back if and only if the end marker is not blank |
| BlockLimits.BlankEndAddsNewline | ludus-api/file_operations.go:230-274 | the other side: with a blank end marker a file that ends without a newline comes back with one |
| RangeFiles.MarkerTextMarks | ludus-api/file_operations.go:216-219 | substituting {mark} in the marker of a range gives its begin and end lines |
| RangeFiles.MarksDistinct | ludus-api/network.go:60 | different range numbers have different begin markers, and no begin marker equals an end marker of any range |
| RangeFiles.PutRefines | ludus-api/file_operations.go:215-276 | on a file that is a base text plus one block per entry of an ordered map, inserting is the map's put: replaced in place, or appended |
| RangeFiles.DropRefines | ludus-api/file_operations.go:215-276 | on such a file, removing is the map's delete |
| RangeFiles.OthersUntouched | ludus-api/file_operations.go:215-276 | an edit for one range leaves the blocks of all other ranges, and their order, as they were |
| RangeRuns.PutFlag | ludus-api/file_operations.go:269-275 | for an insert, the changed flag is true exactly when the map changed |
| RangeRuns.DropFlag | ludus-api/file_operations.go:269-275 | for a removal, the changed flag is true exactly when the map changed |
| RangeRuns.StepRefines | ludus-api/file_operations.go:281-304 | one read, edit and conditional write is one step of the map, and the text changes exactly when the map does |
| RangeRuns.RunRefines | ludus-api/file_operations.go:281-304 | after any run of inserts, replacements and removals from a file with no managed marker, the file is its starting text followed by one block per live range, in insertion order |
| HostNetwork.HostFile.ApplyBlockAtPath | ludus-api/file_operations.go:281-304 | fails exactly when the file is missing or a needed write fails, which leaves whatever the write left; otherwise the file is rewritten exactly when the trimmed text differs |
| HostNetwork.HashFreeBlockOk | ludus-api/network.go:60-71 | a block without # can contain no marker line of any range |
| HostNetwork.ManageVmbrInterfaceStandalone | ludus-api/network.go:55-99 | the new text is the step of the map for this range unless a needed write fails; success, the torn text and the ifup or ifdown call are stated for every case |
| HostNetwork.RouteForRangeNetworkInVNet | ludus-api/sdn.go:545-575 | the same for the routes file, which is created first when it is missing, with any outcome of the creation; the route is added at once exactly when the block went in and the range is present |
| HostNetwork.HistoryOfRanges | ludus-api/network.go:55-99 | for both files and every history of adding and removing ranges: the text is the base plus one bridge stanza, or route, per present range |
| HostNetwork.LiveIff | ludus-api/network.go:55-99 | the ranges present after a history are exactly those whose last change added them |
| HostNetwork.SameRoute | ludus-api/network.go:62-71 | the stanza deletes on the way down the very route it adds on the way up, and the routes file replaces the same one |
| HostNetwork.SampleStanza | ludus-api/network.go:57-71 | the lines of one stanza that carry the range number, and the padding of bridge names |
| HostNetwork.FreshRoutesUnmanaged | ludus-api/sdn.go:545-557 | the routes file the server creates is a legal start for such a history |
| StringOrder.SortedMembers | ludus-api/source_schema.go:228-239 | copying a set into a slice and sorting gives the ascending list of its members, whatever order the set was walked in |
| StringOrder.AscendingUnique | ludus-api/source_schema.go:228-239 | an ascending list is determined by its members, so sorting forgets map order |
| StringOrder.LessIff | ludus-api/source_schema.go:228-239 | one string sorts before another exactly when it is a proper prefix or has the smaller character at the first difference |
| Source.InferFromRangeConfig | ludus-api/source_schema.go:213-239 | returns exactly the template and role names the config mentions, each once, ascending |
| Source.LocalRoleNamesByRef | ludus-api/source_catalog.go:126-134 | the map has exactly the names the role directories go by, and gives each the canonical name of the last directory that goes by it |
| Source.VendoredRoleNames | ludus-api/source_install.go:501-511 | the set of names stripped from Galaxy requirements, with the directory of each role known by another galaxy name, the last one winning |
| Source.PublishedExact | ludus-api/source_install.go:503-511 | a name is a published identity exactly when some vendored role directory has it and is called otherwise; it leads to the last such directory |
| Source.RefMapKeys | ludus-api/source_install.go:501-511 | the reference map and the stripped names have the same keys, and every value is the canonical name of a shipped role: what makes stripping sound |
| Source.RefMapExact | ludus-api/source_catalog.go:122-134 | the same of the specification the laws use: a name of one directory never leads to another role |
| Source.GalaxyNameIff | ludus-api/ansible_inventory.go:258-286 | a role has a published identity exactly when its meta gives both parts: the namespace or else the author, and the role name or else the directory's; every identity is two tokens joined by one dot |
| Source.TokenCharIff | ludus-api/ansible_inventory.go:304-315 | the characters of a token by their codes |
| Source.VendoredCollectionFQCNs | ludus-api/source_install.go:537-547 | exactly the namespace.name of the shipped collections that have both parts |
| Source.VendoredCollectionsIff | ludus-api/source_install.go:537-547 | in terms of the galaxy.yml files: both parts given, joined by a dot |
| Source.NodeNameIs | ludus-api/source_schema.go:196-208 | a role written as a mapping goes by its first name with a text |
| Source.NodeNameless | ludus-api/source_schema.go:196-208 | a mapping without a name, or any node but a text, names no role |
| Source.LocalRoleName | ludus-api/ansible_inventory.go:293-299 | the canonical name of a role directory is never empty |
| Source.ParseDeclaredRequirements | ludus-api/source_roles.go:348-369 | exactly the non-empty role, collection and subscription names of a well-formed requirements file, nothing for a malformed one |
| Selection.SnapshotWalkedAsSelection | ludus-api/source_sync.go:298-324 | the selection of everything the walk found, in walk order |
| Selection.ValidateSelectionAgainstWalk | ludus-api/source_sync.go:441-468 | accepts a selection exactly when each of its four lists is within what the walk offers |
| Selection.ParseBlueprintConfigRefs | ludus-api/source_catalog.go:147-182 | the templates a config names, the canonical names of its local roles without repetition, and the galaxy roles and collections its requirements name |
| Selection.AppendAllElements | ludus-api/source_catalog.go:184-191 | appending with appendUnique keeps the old list as a prefix and adds exactly the new members |
| Selection.ExpandSelectionWithBlueprintDeps | ludus-api/source_sync.go:334-375 | the in-place loop turns the selection into its expansion (the function the laws below are about) |
| SelectionLaws.ExpandedExact | ludus-api/source_sync.go:334-375 | expansion never changes the blueprints, keeps what was selected as a prefix, and adds exactly the shipped templates, roles and collections that selected blueprints need |
| SelectionLaws.ExpansionIdempotent | ludus-api/source_sync.go:334-375 | expanding twice gives the very same lists as expanding once |
| SelectionLaws.ExpansionKeepsValid | ludus-api/source_sync.go:334-375 | a selection that passed validation passes after expansion |
| SelectionLaws.NeedsAreShipped | ludus-api/source_sync.go:334-375 | whatever a blueprint can need is in the walk's own snapshot |
| SelectionLaws.SnapshotIsClosed | ludus-api/source_sync.go:298-324 | expanding the install-everything snapshot changes nothing |
| Routing.FilterRequirements | ludus-api/blueprint_resolver.go:340-379 | well-formed requirements lose exactly the vendored roles and collections; absent or malformed ones come back as they are; nothing is rewritten when nothing is removed |
| Routing.StrippingPartitions | ludus-api/blueprint_resolver.go:340-379 | every declared entry is either sent to Galaxy or stripped as vendored, as often as it was declared |
| Routing.StrippedRoleSelected | ludus-api/blueprint_resolver.go:291-316 | every role stripped from a selected blueprint is known to the source under that very name, and that role's canonical name is in the expanded selection: nothing stripped is lost |
| Routing.StrippedCollectionSelected | ludus-api/blueprint_resolver.go:340-379 | the same for every stripped collection |
| Routing.FindUndeclaredDependencies | ludus-api/source_roles.go:287-342 | the loops report exactly the config references that nothing declares, each with its blueprint and kind |
| Routing.ParentIff | ludus-api/source_roles.go:322-330 | a reference is inside a collection exactly when two parts without a dot stand before its rest; those two are the collection |
| Routing.EntryMeans | ludus-api/source_roles.go:322-338 | what is reported about an undeclared reference: the collection, if it is inside one, and the role otherwise |
| Routing.DeclaredIffRouted | ludus-api/source_roles.go:287-342 | for every role a selected blueprint's config references, the check accepts it if and only if, after expansion and stripping, the install has a place to take it from |
| Routing.QuietCheckMeansRouted | ludus-api/source_roles.go:287-342 | a selected blueprint the check says nothing about has every role reference routed somewhere |
| Ledger.StorableIff | ludus-api/migrations/1761253001_blueprint_sources.go:154-160 | the column checks of the ledger table, as its value list has them, take every kind the callers use except local_collection, and no empty name |
| Ledger.Table.InsertSourceArtifact | ludus-api/source_install.go:165-187 | the table after one claim: version updated, row added, or unchanged, for every pattern of missing collection, failed lookup, failed save and row the column checks reject |
| Ledger.Table.ReleaseSourceClaims | ludus-api/source_install.go:195-207 | kind by kind, removes exactly the rows of that kind and name whose query and delete work |
| Ledger.InsertKeepsUnique | ludus-api/source_install.go:165-187 | without the unique index a failed lookup can duplicate a claim; one insert keeps (source, kind, name) unique if and only if the index is there, the lookup worked, the claim was new or nothing could be written |
| Ledger.LedgerStaysUnique | ludus-api/migrations/1761253001_blueprint_sources.go:165 | with the unique index, or while no lookup fails, any run of inserts and releases keeps at most one row per (source, kind, name) |
| Ledger.InsertClaims | ludus-api/source_install.go:165-187 | an insert adds its claim exactly when the table is there, the save works and the column checks take the row, and never another one |
| Ledger.InsertedRows | ludus-api/source_install.go:165-187 | the rows after an insert, one by one: when it can write and looked the claim up, the claim has the row with the new version and every other row stays; when the lookup failed, the row is added unless the index refuses it |
| Ledger.InsertsClaim | ludus-api/source_install.go:165-187 | any run of inserts adds exactly the claims it could write |
| LedgerLaws.NeverClaimedIff | ludus-api/migrations/1761253001_blueprint_sources.go:154-159 | the kinds that no run of inserts and releases, under any failures, ever claims are exactly the bundled collections |
| LedgerLaws.RunAgain | ludus-api/source_install.go:157-160 | making the same inserts once more leaves the ledger row by row as it was, whatever was in it and whichever versions the inserts carry |
| Ledger.ReleaseClaims | ludus-api/source_install.go:195-207 | a name leaves a source's claims exactly when the release deletes every such row, and no other claim changes |
| Ledger.ReleasedMembers | ludus-api/source_install.go:195-207 | the rows left after a release are exactly those it does not drop |
| BlueprintRows.BlueprintTable.UpsertSourceBlueprints | ludus-api/source_sync.go:530-624 | under any failing lookups, saves and deletes: rows of other sources never change, every row descends from an old one or from this source; it succeeds, when no two walked blueprints share an id, exactly if every selected one can be stored, and then each selected blueprint has a row with its own content; a row that was not there before has the content of the selected blueprint of its id; no other row is lost but those pruned; after success with working deletes the source's blueprints are (old and still walked) plus (selected and walked) |
| BlueprintRows.StoringIff | ludus-api/migrations/1761252009_initial_create_blueprints_collection.go:77-81 | a blueprint whose id has one or two parts is stored exactly when the database lets it; one with three parts never is, because the public id puts the source's id in front |
| SourceDepth.WholeSourceStoredIff | ludus-api/source_walker.go:68-117 | on a working database, with no foreign row in the way, all the blueprints of a successful walk can be stored if and only if none lies three directories deep |
| SourceDepth.DeepFoundNeverStored | ludus-api/source_walker.go:68-117 | every blueprint with valid metadata and an id of three parts is found by the walk where its id says, and can then never be stored |
| Install.RegisterNamed | ludus-api/source_install.go:86-111 | local roles, and templates (lines 19-38) likewise: the ledger is that after one insert per selected artifact that installed, each with its own failures; results say which failed to install |
| Install.RegisterLocalCollections | ludus-api/source_install.go:122-155 | the same inserts for collections, where a directory without namespace and name is a failure even when nothing selected it; the table takes none of them, so the ledger stays as it was while the results report success |
| Dependencies.InstallVendoredGalaxyRoles | ludus-api/blueprint_resolver.go:291-316 | one copy, result and claim for every required name that is the published identity of a vendored role, in the order required |
| Dependencies.InstallRolesForBlueprint | ludus-api/blueprint_resolver.go:160-276 | the results, part by part in the source's order, and the ledger after claiming the good ones: vendored copies, then what Galaxy reports for the stripped requirements with version mismatches turned into failures, then subscription roles; nothing but one failure when subscription roles cannot be had |
| Dependencies.InstallUnionedAnsible | ludus-api/source_install.go:479-532 | the same for all selected blueprints in walk order |
| Dependencies.DeclaredRoleServed | ludus-api/blueprint_resolver.go:160-316 | a declared role of a selected blueprint that is not blocked goes to Galaxy exactly if the source does not vendor it; if it does, the expanded selection installs it, and a name that is a published identity gets its own copy and result; the role installed is one known under the declared name |
| Dependencies.ResultsExact | ludus-api/blueprint_resolver.go:160-276 | what is reported for a blueprint that is not blocked, result by result: copies of published roles, whatever each Galaxy run reports if its section has entries left, and every subscription role |
| Dependencies.MismatchIff | ludus-api/source_roles.go:514-532 | a good result becomes a failure exactly when the role was there already in a known version other than the one asked for |
| Dependencies.RequestedIsLast | ludus-api/source_roles.go:534-549 | the version asked for is that of the last entry for the role that gives one |
| Dependencies.NothingRequested | ludus-api/source_roles.go:534-549 | no version is asked for when no entry for the role gives one |
| Dependencies.BlockedFails | ludus-api/blueprint_resolver.go:172-190 | a blueprint that declares subscription roles without a licence or catalog installs no dependency, and the install has a failure |
| Dependencies.BlockedIff | ludus-api/blueprint_resolver.go:161-190 | a blueprint is blocked exactly when its parsed requirements name a subscription role and there is no licence or no catalog |
| Install.SelectionFromClaims | ludus-api/source_sync.go:382-429 | the selection read back is, as sets, the claims of this source that the walk still ships, empty where a query fails |
| Install.RunSourceInstall | ludus-api/source_sync.go:242-293 | an invalid request changes nothing; the selection used is the expansion of what was asked (for a reapply: of the claims read at the start), valid and closed; the ledger afterwards is exactly that of the install's inserts in order; it is refused, and it reports ok, exactly in the cases named; the blueprint rows and their content are as above |
| InstallLaws.InstallClaims | ludus-api/source_sync.go:272-278 | whatever fails on the way, an install adds exactly the claims of what landed of its selection and of its good dependencies, each under its own kind, and no other claim changes |
| InstallLaws.ReinstallChangesNothing | ludus-api/source_install.go:157-160 | while no lookup fails, the same install once more leaves the ledger row by row as it was, and one row per claim |
| InstallLaws.InstallOneCollection | ludus-api/source_install.go:122-155 | for every directory with a namespace and a name: a source with just that collection, installed whole on new tables with everything working, reports ok, and the selection read back is empty |
| InstallLaws.AllLandedGainsIff | ludus-api/source_sync.go:272-278 | an install in which everything works claims its whole selection if and only if the selection has no collection |
| InstallLaws.ClaimsGiveBackSelectionIff | ludus-api/source_sync.go:377-429 | after an install in which everything works, on a ledger left by any run of calls, the selection read back is what was claimed before and is still shipped united with what was installed, if and only if the expanded selection has no collection; blueprints, templates and roles always come back |
| InstallLaws.ReappliedCollections | ludus-api/source_sync.go:250-260 | a reapply on any such ledger asks for no collection: it reinstalls exactly those its blueprints require |
| Swap.RebuildBlueprintDir | ludus-api/api_blueprint_management.go:360-439 | the imperative protocol equals its step-by-step specification, intermediate states included, for every schedule of failures |
| Swap.RebuildSafe | ludus-api/api_blueprint_management.go:384-439 | at every step of every rebuild the complete old content is at the final or the backup path or the complete new content at the final path; on an error before the save the old content is at the final path, or in the backup if the rollback also failed |
| Swap.RebuildFrame | ludus-api/api_blueprint_management.go:384-439 | a rebuild touches only its three paths |
| Swap.RebuildPathsApart | ludus-api/api_blueprint_management.go:384-390 | those three paths never coincide |
| Swap.RebuildOutcome | ludus-api/api_blueprint_management.go:404-438 | each outcome has its exact condition on the starting paths and the failures: the new directory is installed if and only if it was written, the install works, and the old one moved out of the way or was not seen on a free path |
| Swap.RebuildWorks | ludus-api/api_blueprint_management.go:404-438 | when nothing fails and the two names are free, the new directory is in place of the old one and nothing else changed |
| Swap.RebuildFailsClean | ludus-api/api_blueprint_management.go:404-438 | a rebuild that fails leaves everything as it was, if its clean-up and its way back work |
| Swap.UploadArchive | ludus-api/source_sync.go:118-172 | the upload protocol equals its step-by-step specification for every schedule of failures |
| Swap.UploadSafe | ludus-api/source_sync.go:141-172 | the same guarantee for one upload onto an existing checkout |
| Swap.UploadOutcome | ludus-api/source_sync.go:141-169 | each outcome of an upload has its exact condition in the same way |
| Swap.UploadWorks | ludus-api/source_sync.go:141-169 | when nothing fails, the new checkout is in place and neither .incoming nor .old is left |
| Swap.UploadKeepsHeldIff | ludus-api/source_sync.go:151-152 | because the .old name is fixed and cleared first, every upload keeps a complete version if and only if it starts with a checkout in place or with nothing to lose |
| Swap.FailedRollbackLeavesBackupOnly | ludus-api/source_sync.go:153-168 | the bad start is reachable: an upload whose install and rollback both fail leaves only the backup |
| Swap.BackupOnlyIsLost | ludus-api/source_sync.go:151-152 | from there even an upload in which nothing fails passes through a state without a complete version |
| CreateBlueprint.CreateBlueprintWithDir | ludus-api/api_blueprint_management.go:283-351 | directory, record, rename and undo steps equal their specification under every pattern of failures |
| CreateBlueprint.CreatedInPlace | ludus-api/api_blueprint_management.go:283-351 | a successful creation has its files and its record in place and changed nothing else, except that a directory which already had the temporary name is gone |
| CreateBlueprint.CreateSucceedsIff | ludus-api/api_blueprint_management.go:308-349 | a creation succeeds exactly when the directory is built, the record made and saved, and the directory has the record's name or can be renamed to it |
| CreateBlueprint.FailedCreateLeavesNothingIff | ludus-api/api_blueprint_management.go:283-351 | a failed creation whose undo steps work leaves disk and database as they were, whatever failed, if and only if no directory already had the name it builds under |
| BlueprintDir.BuildBlueprintDir | ludus-api/blueprint_dir.go:26-107 | succeeds exactly when the steps work, the config parses and no role is a custom local one; a failure after the directory was made removes it |
| BlueprintDir.ClassifyRoles | ludus-api/blueprint_dir.go:60-84 | the loop sends every role to exactly one of three lists, in order, by catalog, user roles, global roles, then Galaxy |
| BlueprintDir.OriginIff | ludus-api/blueprint_dir.go:60-84 | where a role comes from, in terms of the stores: catalog; a copy that counts, with or without the version Galaxy recorded; or nowhere |
| BlueprintDir.BuiltDeclaresExactly | ludus-api/blueprint_dir.go:90-107 | a built directory declares exactly the roles its config references, each in one section: catalog roles as subscriptions, the others in the version recorded for the copy that counts |
| BlueprintDir.BuiltPassesTheCheck | ludus-api/source_roles.go:287-342 | so the undeclared-dependency check never reports a role of a blueprint built into a fresh directory, whatever source ships it |
| Scheduler.StepKeepsSlots | ludus-api/api_template_management.go:505-560 | no step of any request, goroutine or abort makes a request hold more slots than its limit |
| Scheduler.SlotsNeverExceeded | ludus-api/api_template_management.go:505-560 | in every interleaving at most `parallel` goroutines of one request hold a slot |
| Scheduler.LooksAreTrue | ludus-api/api_template_management.go:519-526 | what a look records is how things stand at that moment: an abort (lines 1069-1082) picks out only its own user's entries, and a build notes whether its entry is its user's |
| ExportImport.WrapsIff | ludus-api/api_blueprint_management.go:1717-1723 | the wrapper the import looks for: one directory that holds everything and a blueprint.yml |
| SchedulerProgress.CanMoveIff | ludus-api/api_template_management.go:505-560 | in every state with its slots in order a request can take a step unless it is done, or was begun without a single slot and has only waiting builds left |
| SchedulerProgress.CanFinish | ludus-api/api_template_management.go:505-560 | from every such state, whatever the others have done, a request with a slot can bring all its builds to their end by its own steps, and gives every slot back |
| SchedulerProgress.TakenGrows | ludus-api/api_template_management.go:493-509 | no step drops, repeats or reorders what a request has planned: the list of its builds and plans only grows, by the name it just stored |
| SchedulerWindows.RunsKeepOthersIff | ludus-api/api_template_management.go:480-563 | in every run every step leaves other users' entries alone if and only if no check is taken apart from its store and there are no aborts beside looks taken apart from their delete |
| SchedulerWindows.RunsRemoveNoOtherIff | ludus-api/api_template_management.go:519-526 | no abort and no finishing build ever removes another user's entry, in any run, if and only if looks are not taken apart from their delete, or there are neither aborts nor checks taken apart from their store |
| SchedulerStore.AtomicStepsKeepOthers | ludus-api/api_template_management.go:1069-1082 | with look-and-write taken as one step, no abort, finishing build or new plan touches another user's entry |
| SchedulerWindows.LateStoreReachable | ludus-api/api_template_management.go:493-500 | Load then Store taken apart, as in the code: two requests plan the same template, the second about to overwrite the first user's entry; no abort is needed |
| SchedulerWindows.LateDeleteReachable | ludus-api/api_template_management.go:1069-1082 | look and delete taken apart: after an abort, a finishing build is about to remove an entry another user stored in between, with every check-and-store atomic |
| SchedulerWindows.OvertakenDeleteReachable | ludus-api/api_template_management.go:493-526 | without aborts the same comes of a late store in between |
| SchedulerStore.CalmRunsListed | ludus-api/api_template_management.go:480-563 | with each check-and-store one step and no aborts, and finishing builds that look and delete in one step or two, in every run the store's keys are exactly the planned or live builds, at most one per template over all requests |
| SchedulerStore.CalmRunsNeverLate | ludus-api/api_template_management.go:519-526 | so in such a run no finishing build removes, and no plan overwrites, another user's entry |
| TemplatePlan.PlanBuilds | ludus-api/api_template_management.go:480-504 | the planning loop, with the canary as a flag per template, equals the plan of the wanted templates it got to |
| TemplatePlan.WantedIff | ludus-api/api_template_management.go:453-478 | a template is wanted exactly when it is not built and the request names it, names all, or names none |
| TemplatePlan.PlanExact | ludus-api/api_template_management.go:480-504 | a plan holds each wanted template not in progress exactly once, and the store gains exactly those under the requesting user |
| TemplatePlan.PlanIsRun | ludus-api/api_template_management.go:480-504 | the loop is the scheduler's run of check-and-store steps of one request |
| Archive.SecondCheckIff | ludus-api/archive_extract.go:221-234 | for a name the first check lets through, the second prefix check fires exactly when the destination is not a clean directory path other than "/" and "." |
| Archive.ExtractionStaysBelow | ludus-api/archive_extract.go:221-234 | under every clean absolute destination other than "/", every entry name is skipped, rejected, or lands on the destination followed by a path with no dot-dot component |
| Archive.DetectSingleRoot | ludus-api/archive_extract.go:236-259 | returns a root exactly when all entries share one, and then that root |
| Archive.DropDotIs | ludus-api/archive_extract.go:236-259 | one leading "./" is dropped before the root is looked for |
| Archive.StripUnderRoot | ludus-api/archive_extract.go:262-276 | under a detected root, root + "/" + stripped gives the trimmed name back |
| Archive.StripInjective | ludus-api/archive_extract.go:262-276 | stripping tells apart any two entries strictly below the root |
| Archive.DroppedIffRoot | ludus-api/archive_extract.go:262-276 | an entry strips to nothing exactly when it is empty or the root itself |
| Archive.LoneFileLost | ludus-api/archive_extract.go:243-249 | an archive of one bare top-level file is taken for its own root, and the file is skipped |
| Extract.ExtractZipFile | ludus-api/archive_extract.go:69-138 | with a cap a zip never writes more than cap + 1 file bytes, and one that succeeds at most the cap; on success the tree written is that of the entries in order, whatever is no directory written as a file, and a symlink only when they are not refused; under the largest 64-bit cap every file comes out empty; every entry of a success fitted where the ones before it left room, and an archive whose entries all fit, can be read and stay within the cap succeeds |
| Extract.PlacedExact | ludus-api/archive_extract.go:69-218 | what a list of entries puts in place: every file with the data of the last entry for it, every directory an entry names or needs, and nothing else but what was there |
| Extract.ZipPlacedExact | ludus-api/archive_extract.go:86-136 | for a zip: a file for every entry that is no directory and not ignored, with the data of the last one for it, or empty under the largest cap |
| Extract.WrittenWholeIff | ludus-api/archive_extract.go:121-127 | files are written whole, for every archive, if and only if the cap is not the largest 64-bit integer, under which the budget wraps below zero |
| Extract.ExtractTarReaderWithRoot | ludus-api/archive_extract.go:150-218 | a tar never writes more than the stream budget, strictly less on success; success places all entries, except that a budget used up exactly at an entry boundary reads as the end; a plain archive shorter than the budget succeeds; when dangerous entries are refused, none was among those a success placed |
| Extract.RemainingPositiveIff | ludus-api/archive_extract.go:121-127 | the budget of the next zip entry is always at least one byte if and only if the cap is below the largest 64-bit integer |
| Manifest.ExportedManifestIff | ludus-api/source_schema.go:40-83 | the manifest made from a record is accepted exactly when the record's id, name and version pass the checks |
| Manifest.ManifestIDIff | ludus-api/source_schema.go:24 | the id pattern character by character: a letter first, at most two slashes, each between two id characters |
| Manifest.IDCharIff | ludus-api/source_schema.go:24 | the characters of an id by their codes |
| Manifest.AcceptedIff | ludus-api/source_schema.go:40-83 | a manifest is taken exactly when its format version, id, name, version, config path and thumbnail path pass, and is returned as it is but for the default format version |
| Manifest.RelativePathIff | ludus-api/source_schema.go:85-94 | a path passes exactly when it is not absolute and, cleaned, goes down at least one step and never up |
| Manifest.PrefixIsComponent | ludus-api/api_blueprint_management.go:1986-1989 | a sanitised blueprint id is one ordinary path component |
| ExportImport.ExportBlueprint | ludus-api/api_blueprint_management.go:1862-1956 | the archive is the synthesised manifest followed by every file and directory of the walk except the root manifest, under one prefix |
| ExportImport.ImportBlueprint | ludus-api/api_blueprint_management.go:1704-1776 | whenever the archive extracts, what is stored or refused is decided by the extracted tree, unwrapped when it is one directory with a manifest; a plain archive always extracts |
| ExportRoundTrip.ExtractedTree | ludus-api/api_blueprint_management.go:1704-1722 | extracting an exported archive gives the directory back, with the root manifest replaced |
| ExportRoundTrip.ExportThenImport | ludus-api/api_blueprint_management.go:1821-1957 | exporting then importing gives the same file tree with the synthesised manifest and the record's metadata, or fails exactly for a bad manifest, a missing config, a taken id or a failed save |
| Groups.Directory.AddUsersToGroup | ludus-api/api_group_management.go:156-291 | the loop with its in-memory group record, saves and rollbacks equals its specification for every pattern of lookup, Proxmox and playbook failures; refusals change nothing |
| Groups.Directory.RemoveUsersFromGroup | ludus-api/api_group_management.go:294-403 | the same for bulk removal, where the role comes from the list of managers loaded at the start |
| Groups.BulkAddRoles | ludus-api/api_group_management.go:179-285 | after a bulk add everyone who was in has the role they had, and anyone else is in, with the requested role, exactly if one of their turns went through; repeated ids included |
| Groups.BulkAddAnswer | ludus-api/api_group_management.go:179-290 | the answer to a bulk add, in order: the users this request brought in, which are outsiders at their first turn that works throughout, and all the others as errors |
| Groups.BulkRemoveAnswer | ludus-api/api_group_management.go:316-402 | the answer to a bulk removal, in order: the users whose lookup, Proxmox call and playbooks all work, and all the others as errors |
| Groups.SiftedPartitions | ludus-api/api_group_management.go:287-290 | the two lists together hold every id as often as it was asked for |
| Groups.BulkRemoveRoles | ludus-api/api_group_management.go:316-397 | after a bulk removal a user's role is decided by their last turn that reached the records: out, or back with the role listed at the start |
| Groups.RunsStayConsistent | ludus-api/api_group_management.go:156-403 | every run of bulk adds and removes keeps "group in the user's groups" equivalent to "user in members or managers", and the two roles disjoint |
| Groups.AddItemRole | ludus-api/api_group_management.go:179-285 | an add that reports an error leaves the database exactly as it was, and no add touches another user or group |
| Groups.FailedRemoveRestoresIff | ludus-api/api_group_management.go:375-384 | a failed removal gives the records back as they were, whatever failed, if and only if the user was in the group |
| Groups.FailedRemoveAdds | ludus-api/api_group_management.go:375-384 | the other side: an outsider whose removal is blocked becomes a member |
| Numbers.FindNextAvailableRangeNumber | ludus-api/database.go:368-412 | the unbounded search ends within used + reserved + 1 and returns the least positive number in neither list, or -1 when the table cannot be read |
| Numbers.FindNextAvailableUserNumber | ludus-api/database.go:423-452 | the same for user numbers, from 2 (the comment in the code says smallest positive; the code starts at 2) |
| Numbers.NumbersDistinctIff | ludus-api/database.go:368-452 | the live numbers are pairwise distinct after every history of allocations, chosen numbers and deletions with at most k failed reads of the table, if and only if the column has its unique index or k is at most one |
| Numbers.FailedReadsCollide | ludus-api/database.go:423-437 | the other side: two users created while the table cannot be read share the number -1 |
| Numbers.NumbersDistinct | ludus-api/database.go:368-452 | for each such history the numbers are distinct, positive and unreserved (but for the -1 of a failed read) |
| Numbers.VNetRoundTrip | ludus-api/api_migration.go:206-213 | the migration reads the range number back out of the VNet name, for every 64-bit number |
| Numbers.BridgeNamesAgreeIff | ludus-api/api_migration.go:214 | the padded bridge name of network.go is "vmbr" + (1000 + n), the name the migration looks for, if and only if 0 <= n <= 999 |
| Numbers.RangeNamesInjective | ludus-api/network.go:57-71 | different range numbers have different bridges, VNets and routes |
| Numbers.TagsClashIff | ludus-api/sdn.go:361 | the 32-bit tags of two ranges coincide exactly when the numbers differ by a multiple of 2^32 |
| Numbers.TagsDifferIff | ludus-api/sdn.go:361 | the tags of the live ranges differ after every history shorter than 2^31 in which no number beyond a limit was chosen, if and only if the limit is below 2^32 - 1 |
| Numbers.ChosenTagClashes | ludus-api/api_range_management.go:789-808 | the other side: a failed read and the chosen number 2^32 - 1 give two ranges one tag |
| Numbers.NextIff | ludus-api/api_range_management.go:789-806 | a chosen number is taken exactly when it is positive, not reserved as a 32-bit number, and free; an allocated one unless the index has it |
| PoolState.Tables.ProcessMembers | dynamic-inventory/main.go:369-381 | adds exactly the visible qemu and lxc names to the pool's group and, for a selected pool, exactly the ids to the valid ones |
| PoolState.Tables.LoadPoolMembers | dynamic-inventory/main.go:352-367 | a missing pool changes nothing; otherwise the pool becomes a group with its visible hosts |
| PoolState.Tables.LoadPoolState | dynamic-inventory/main.go:307-346 | the groups kept, the hosts of each and the valid ids, from the environment and what Proxmox answers; the requested range is always a group |
| Inventory.CollectHosts | dynamic-inventory/main.go:230-245 | for a completion order, the host variables (last writer wins) and the visible hosts |
| Inventory.BuildGroups | dynamic-inventory/main.go:248-268 | whatever order the map is walked in, a group lists exactly its pool's hosts and the hosts whose notes, status or operating system name it |
| Inventory.CleanGroup | dynamic-inventory/main.go:275-296 | keeps each known non-template host once |
| Inventory.MainList | dynamic-inventory/main.go:197-305 | for every completion order the output is the inventory: emitted groups with distinct known non-template hosts, "all" and "_meta" unless a group of that name replaces them |
| InventoryLaws.OrderIrrelevantIff | dynamic-inventory/main.go:211-245 | every completion order gives the same host variables if and only if machines that share a name have the same variables |
| InventoryLaws.ListTwice | dynamic-inventory/main.go:197-305 | two runs, with any completion and map orders, give the same inventory up to the order of each list |
| InventoryLaws.TemplateMarkIff | dynamic-inventory/main.go:280-291 | a machine is marked a template exactly when it is one, unless its notes carry the key and say otherwise |
| InventoryLaws.GroupsShowVisibleHosts | dynamic-inventory/main.go:274-302 | without such notes every emitted group lists distinct hosts that have variables and are listed under "all" |
| InventoryLaws.MetaKeptIff | dynamic-inventory/main.go:270-302 | the host variables survive in the output if and only if no pool called "_meta" is kept and no visible machine is in one or names it in its notes, status or operating system |
| InventoryLaws.NotedMetaLost | dynamic-inventory/main.go:250-256 | one machine whose notes list "_meta" is enough to lose all host variables |
| InventoryLaws.ListedHostsIff | dynamic-inventory/main.go:211-245 | the hosts are exactly the machines listed: with a range and without the request for all, those of the range's pool, and of ADMIN for an admin; otherwise every machine; each with its own variables |
| InventoryLaws.GroupHostsIff | dynamic-inventory/main.go:247-302 | a group shows exactly the machines that are no templates and that its pool, their notes, their status or their system put there; "all" shows every machine that is no template |
| InventoryLaws.VarsFrom | dynamic-inventory/main.go:406-484 | every host variable comes from the notes, or else from the template flag or what was gathered |
| InventoryLaws.ShowIs | dynamic-inventory/main.go:255-267 | how a variable prints when its text is compared or names a group |
| InventoryLaws.MainHost | dynamic-inventory/main.go:489-521 | the lookup loop returns the first machine of that name, or nothing when it is filtered out |
| InventoryLaws.HostMatchesList | dynamic-inventory/main.go:489-521 | for an unambiguous name the single-host lookup is that host's entry in the list, or empty when the list does not have it |
| Addresses.FindLudusVM | dynamic-inventory/main.go:63-74 | the first configured machine whose resolved name matches |
| Addresses.CheckIPAddresses | dynamic-inventory/main.go:576-613 | the configured address if reported, else the first valid one on the Ludus network, else the first valid one, else the forced configured one |
| Addresses.ConfigIPParts | dynamic-inventory/main.go:576-583 | the configured address is 10, the range number, the VLAN and the last octet, in that order |
| Addresses.ConfiguredIff | dynamic-inventory/main.go:576-583 | there is a configured address exactly for a configured machine of a numbered range |
| Addresses.ClassesIff | dynamic-inventory/main.go:563-601 | the address classes as intervals of 32-bit numbers |
| Walker.WalkBlueprintTree | ludus-api/source_walker.go:68-117 | the recursive loop equals its specification, a missing directory giving nothing; it ends because the depth left decreases |
| Walker.WalkExact | ludus-api/source_walker.go:68-117 | the walk succeeds exactly when every listed directory can be read and every blueprint found is valid under its own path; then it returns exactly the qualifying directories, each once, with the manifest read there |
| Walker.BlueprintsFound | ludus-api/source_walker.go:68-117 | a successful walk finds exactly the directories of one to three plain segments with a manifest and none above; every id is its path, splits back into it, has the form of a manifest id, and ids are pairwise distinct |
| LogScanners.GetFatalErrorsFromLog | ludus-api/ansible.go:639-671 | the single pass returns what the recursive reading of the log reports |
| LogScanners.LinesOf | ludus-api/ansible.go:640-646 | the scanner yields the lines of every text, however each is ended, and what stands after the last newline |
| LogScanners.SampleLog | ludus-api/ansible.go:641-642 | which words mark a failure and a pardon, and where they must stand |
| LogScanners.LogScannerExactIff | ludus-api/ansible.go:639-671 | it returns exactly the fatal lines that no ignoring line follows, in order, if and only if no such line was itself taken as an ignoring line |
| LogScanners.LogScannerExact | ludus-api/ansible.go:639-671 | in particular when no line is both fatal and ignoring |
| LogScanners.GetFatalErrorsFromString | ludus-api/notifications.go:267-307 | the scanner with three remembered lines equals its recursive reading |
| LogScanners.NotificationAgrees | ludus-api/notifications.go:267-307 | on every log without the promotion failure after its task, it returns the first scanner's list, each line formatted |
| LogScanners.NotificationAgreesIff | ludus-api/notifications.go:285-290 | when no line is both, the two scanners agree if and only if, once the known failure shows up, nothing fatal and no ignoring line is left to come |
| LogScanners.StuckLosesTheRest | ludus-api/notifications.go:285-290 | because the continue does not advance the remembered lines, every later error is lost and the known failure is reported after all |
| LogScanners.FormattedHasNoEscape | ludus-api/notifications.go:309-313 | a formatted line holds no escaped newline |
| LogScanners.FormatsTo | ludus-api/notifications.go:309-313 | formatting turns escaped newlines, with or without an escaped return, into newlines and leaves the rest alone |
| LogScanners.KnownFailureHidesNext | ludus-api/notifications.go:282-295 | one log on any host: the known failure is reported after all and hides the failure behind it |
| Versions.PrecedenceTotal | ludus-api/source_catalog.go:614 | precedence (section 11 of Semantic Versioning 2.0.0) is total and antisymmetric, and ties are equal versions |
| Versions.PrecedenceTransitive | ludus-api/source_catalog.go:614 | precedence is transitive, pre-release identifiers included |
| Versions.PreReleaseFirst | ludus-api/source_catalog.go:614 | a pre-release precedes its release, and a longer list of identifiers comes after its prefix |
| Versions.ComparesIff | ludus-api/source_catalog.go:614 | the comparison is the precedence that section 11 words: the first difference decides, numbers before words, a release after its pre-releases |
| Versions.ParsePrintedIff | ludus-api/source_catalog.go:638-646 | parsing a printed operator and version gives both back, for all six operators, if and only if the version has no outer white space and does not turn > or < into >= or <= |
| Versions.OperatorsComplement | ludus-api/source_catalog.go:599-630 | of each complementary pair exactly one operator holds when both versions parse, neither otherwise; == alone falls back to equal text |
| Versions.OperatorMeans | ludus-api/source_catalog.go:599-630 | what each of the six operators asks of two versions that can be compared, and that only == is ever met by two that cannot |
| Versions.SemverifyIff | ludus-api/source_catalog.go:650-655 | a version gets a leading v exactly when it has none |
| Versions.NothingToCompare | ludus-api/source_catalog.go:599-612 | without an installed version, or with an operator alone, nothing is met |
| Versions.AtLeastStaysMet | ludus-api/source_catalog.go:599-630 | a >= pin that is met stays met by every newer install |
| Versions.BareMeansEqual | ludus-api/source_catalog.go:638-646 | a version without operator means == |

## Left out

- HTTP handling, authentication, JSON answers, quotas, node selection, licence checks, WireGuard rendering, testing-mode allow lists and the websocket console.
- Proxmox, PocketBase, Galaxy, Packer and git themselves: their answers are parameters. Tables are sequences or maps of the fields the code reads; of the column checks, the ledger's kind list, its required name and the pattern of a blueprint's public id are modelled, and others, such as the length of a text, are failing saves.
- YAML, HCL, zip and tar bytes: documents and entry lists are datatypes. The round trip takes it that unmarshalling undoes marshalling on the one manifest written.
- Thumbnails, file modes, ownership, timestamps, the 64 KB line limit of the log scanner and strings that are not valid Unicode.
- Wall-clock effects: the canary of the build loop is one flag per template, the stagger between goroutines is absent.
- Concurrent requests on the same blueprint, group or number table: the per-record lock is taken to hold, and groups and numbers are changed by one request at a time. Only the template scheduler and the inventory workers are interleaved.
- The git branch of the source fetch.
- The catalog's lists for display (installed state, upgrade hints), the walk of templates, roles and collections, and the sort of the walked blueprints.
- The semver parser of golang.org/x/mod is not part of this model: `Versions` quantifies over every parser.
- Values other than lists in a machine's notes are kept in printed form, and IPv4 parsing in `Addresses` is a parameter.
- Dependencies.InstallRolesForBlueprint: what ansible-galaxy, the file copies and the licence server answer are parameters, and so is the version found on disk.
- Groups.RunsStayConsistent: takes record saves to succeed, since the code ignores their errors.
- ExportRoundTrip.ExportThenImport: the directory holds regular files and directories with no name that starts with "._", which extraction ignores; the record's id passes the manifest check.
- InventoryLaws.HostMatchesList: is about names that at most one machine has; for others the lookup takes the first machine listed while the list keeps the last one finished.
- Walker.WalkExact: a manifest that vanishes between the look and the read is not modelled.
