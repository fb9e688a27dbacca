# Verified model of the release, qualification and cleanup harness

This Dafny project models the parts of the repository's Python harness that decide something hard, and proves what
they promise. `dafny verify dfyconfig.toml` checks all of it. It covers five areas.

* **Release.** `release-artifact.py` computes a dependency closure with a worklist and derives from it an inventory, an
  SPDX document, a self-describing manifest and a canonically ordered archive. `release-smoke.py`, written
  independently, validates them. The modules `DependencyGraph`, `Workspace`, `ReleaseGraph`, `ReleaseSpdx`, `SafePath`,
  `ReleaseArchive`, `InstalledArchive` and `InstalledRelease` prove that the closure is reachability, and say exactly
  when one program accepts what the other writes, part by part and, in `InstalledRelease.BuiltReleaseAccepted`, for a
  whole release.
* **Qualifier.** `codex-model-qualifier.py` reads and applies patches, accepts or refuses transcripts, frames and routes
  a byte stream, watches a process tree, snapshots and copies a fixture tree and resolves schema references. Modules
  `UpdatePatch`, `PhaseState`, `Framing`, `ProcessMonitor`, `FixtureSnapshot` and `SchemaPointer`; `SmokeSession` models
  the stdio session of `release-smoke.py`, which has a framer of its own.
* **Cleanup against the daemon.** `TamperCleanup` and `InventoryCleanup` model the polling loops of
  `test-m4-tampered-plugin.py` and `test-m4-inventory.py`. The daemon is a class whose every answer and delay is
  arbitrary; a ghost log records each command with its answer and time, and the theorems are about that log.
  `SysrootDigest` models the tree digest of the second program.
* **Archive printer.** `Ustar` models the header printer and archive loop of `test-m4-clients.py` against a reader for
  the "ustar Interchange Format" of the pax utility in IEEE Std 1003.1.
* **Budgets and contracts.** `Budgets` and `Regression` model the percentile verdicts and the two-of-three rule of
  `measure-m8-performance.py`; `ContractFreeze` models generate, verify and diff of `contract-freeze.py`.

`Ordering`, `Text`, `Digits`, `CoreNames`, `Presence` and `Results` hold what several modules share: sorting, splitting
and joining, numerals, prohibited package names, objects that come and go, and `Option` and `Result`.

Code that updates variables step by step is a method with loop invariants, proved against a specification that does not
mention the loop; objects that update their fields are classes. Functions that a method shares with its specification
are stated a second time, by literal fields, positions and constants, in lemmas such as `...Exact` and `...Fields`.
SHA-256 and JSON appear as functions that the caller supplies, collision-free or inverse to each other only where a
theorem requires it.

## Where the code differs from what it seems to promise

* `safe_relative` tests for the path ".", but the test can never fire: `PurePosixPath(".")` has no parts, so "." is
  accepted. `SafePath.SafeRelativeExact` states the exact language, and `SafePath.SafeJoin` shows that a joined archive
  name does not inherit the leniency.
* The release checker does not accept every inventory the producer emits. It does exactly when replacing the workspace
  path by `$WORKSPACE` keeps the closure's ids apart, the last metadata row with the root's id is the root package at
  the tagged version, and no package name is prohibited once its letter case is folded, which the checker does and the
  producer does not (`ReleaseGraph.ProducerAccepted`). Ids that do not spell the marker stay apart
  (`ReleaseGraph.MarkerFreeApart`). Each condition can fail on metadata the producer succeeds on
  (`ReleaseGraph.ClashingIdsSlipThrough`, `ReleaseGraph.ShadowedRootSlipsThrough`, `ReleaseGraph.CapitalsSlipThrough`).
* `write_deterministic_archive` followed by `verify_archive` succeeds exactly when the release is archivable: no member
  takes the manifest's name, names are plain, sizes fit, nothing is prohibited (`ReleaseArchive.WrittenAccepted`). The
  verifier reads one byte past its limit and no further, so two accepted archives of one release can differ in a
  member's bytes, exactly if some member has that size (`ReleaseArchive.BytesComparedExact`).
* A patch that binds is placed uniquely, but a patch with only one possible placement can still be refused
  (`UpdatePatch.UniquePlacementRefused`). The returned text does not always split into the new lines: a file emptied by
  a patch keeps a lone newline (`UpdatePatch.EmptiedFileKeepsNewline`). `UpdatePatch.AppliedReads` says exactly for
  which sources and hunks it does.
* The line budget of the qualifier's framer looks at the whole buffer before splitting it, so whether it trips can
  depend on how the stream was chunked. `Framing.NeverTripsExact` says exactly which streams never trip,
  `Framing.CanFitExact` which can pass at all, and `Framing.BudgetSeesChunking` gives a stream that does both.
* The image listing that ends a cleanup round makes the round not count, but its identities are not added to the known
  ones. Every image ever listed was inspected exactly if each closing listing named only images known at first or listed
  at some round's start (`TamperCleanup.CoveredExact`). A verified cleanup need not be such: there is a run at the
  loop's own pace, with its counting and stopping rule, that never inspects a listed image
  (`TamperCleanup.ListedNeverInspected`).
* A monitor round whose identity check fails observes nothing, so what only that round showed is not signalled when the
  server is closed (`ProcessMonitor.FailedRoundUnseen`); the run is then reported as failed, and an accepted one has
  watched everything (`ProcessMonitor.AcceptedRunWatched`).
* In the regression rule the magnitude pattern's `$` also matches before a final newline, which is then dropped from the
  key, and the verdicts are looked up under the shortened key. A key's row decides the verdicts stored under that key
  exactly if it has no final newline or both keys hold the same verdicts (`Regression.KeyDecided`); otherwise three
  overs can be reported as undecided (`Regression.FinalNewlineLosesVerdicts`).
* No digest text stands for one tree only: every accepted archive with two files below the target shares its text with
  an accepted archive of other files, one of which has newlines in its name (`SysrootDigest.EveryTreeCollides`). Rows
  are the only readable reading of their text exactly when no path contains a newline, a digest, two spaces and the root
  in a row (`SysrootDigest.ReadBackExact`), and such trees are determined by their text
  (`SysrootDigest.TreeDetermines`).

## Model

| member | source | states |
|---|---|---|
| DependencyGraph.DependencyClosure | scripts/release-artifact.py:222-257 | Succeeds exactly when the root is a node and every dependency row of every reachable node names a node. Then the seen set is reachability over normal and build edges, and each role set is the incoming reachable roles plus "root" at the root. Row by row: a row of a seen parent with kind "build" puts a build edge to its package, one with kind "normal", an empty kind or none a normal edge, and the package is seen; every edge has such a row; edges ascend by parent, child and role |
| DependencyGraph.ScanNode | scripts/release-artifact.py:236-256 | One worklist step keeps the invariant that every seen node is explored, waiting or being scanned, never raises the measure of unseen nodes plus waiting ones, and fails only on a malformed node |
| DependencyGraph.ClosureUnique | scripts/release-artifact.py:229-257 | Graphs with the same selected edges have the same closure, so neither row order nor stack order shows |
| DependencyGraph.RoleExists | scripts/release-artifact.py:230-254 | Every reachable node has a role, and "root" is a role of the root only |
| DependencyGraph.EdgeEnds | scripts/release-artifact.py:244-257 | Selected edges from reachable nodes end in reachable nodes and are normal or build |
| DependencyGraph.IndexLast | scripts/release-artifact.py:228-228 | A node is the last row of its id |
| Workspace.RenamingInjective | scripts/release-artifact.py:433-433 | Replacing the workspace path by the marker is injective on ids that do not spell the marker themselves |
| Workspace.RenamingCollides | scripts/release-artifact.py:433-433 | An id that does spell it can collide with one that spells the path |
| Text.ReplaceNothing | scripts/release-artifact.py:433-433 | A text without the word is replaced by itself |
| Text.ReplaceFirst | scripts/release-artifact.py:433-433 | The first occurrence of the word gives way to its replacement, and replacing goes on behind it |
| Text.BeforeExact | scripts/release-artifact.py:257-257 | Strings are ordered by the first character in which they differ, a proper prefix first |
| Text.ListBeforeFirst | scripts/release-artifact.py:398-398 | Keys of strings are ordered by the first component in which they differ |
| CoreNames.CoreNameExact | scripts/release-artifact.py:49-56 | A name is prohibited exactly if it is one of five stems, alone or followed by a hyphen |
| CoreNames.LowerExact | scripts/release-smoke.py:478-488 | Folding a name moves each capital ASCII letter to its small one and keeps everything else |
| ReleaseGraph.InventoryAndNotices | scripts/release-artifact.py:377-481 | Succeeds exactly when there is one root package at the version of a well-formed tag, the graph is sound and every closure package has a permitted name, is locked and licensed, and has no local feature; the inventory then lists the closure by name, version and id with renamed ids, sorted roles and features, and renamed edges |
| ReleaseGraph.BuildRows | scripts/release-artifact.py:398-444 | The row loop succeeds exactly on a complete closure without local features and yields one row per id in order |
| ReleaseGraph.ValidateRows | scripts/release-smoke.py:478-510 | Accepts exactly rows with distinct ids, a permitted folded name, no local feature, roles, a licence, a licence text and hex hashes; returns the id set and the root rows |
| ReleaseGraph.ValidateEdges | scripts/release-smoke.py:511-523 | Accepts exactly repetition-free edges between known ids with role normal or build |
| ReleaseGraph.ValidateGraph | scripts/release-smoke.py:473-524 | The graph part of validate_inventory (the rest is InstalledRelease.ValidateInventory) accepts exactly: count agrees, rows accepted, one root row at the tagged version, edges accepted |
| ReleaseGraph.ProducerAccepted | scripts/release-smoke.py:478-524 | For every metadata graph the producer succeeds on, the other program's graph check accepts the inventory if and only if renaming keeps the closure apart, the root's row is genuine, and no name of the closure is prohibited once its letter case is folded |
| ReleaseGraph.ShadowedRootSlipsThrough | scripts/release-artifact.py:377-481 | Concrete metadata on which the producer succeeds and whose every inventory is refused, because the root's row is not genuine |
| ReleaseGraph.MarkerFreeApart | scripts/release-artifact.py:433-433 | Ids that do not spell the marker are kept apart by the renaming |
| ReleaseGraph.MarkerFreeAccepted | scripts/release-smoke.py:478-524 | A release whose ids do not spell the marker is accepted if and only if its root row is genuine and its folded names are permitted |
| ReleaseGraph.ClashingIdsSlipThrough | scripts/release-artifact.py:377-481 | Concrete metadata on which the producer succeeds and whose every inventory is refused, because two ids are renamed alike |
| ReleaseGraph.CapitalsSlipThrough | scripts/release-artifact.py:365-374 | Concrete metadata on which the producer succeeds and whose every inventory is refused, because a prohibited name is spelled in capitals |
| ReleaseGraph.TagExact | scripts/release-artifact.py:260-272 | A tag is accepted exactly if it is v and three decimal numbers without leading zeros, optionally with -rc. and a fourth; the version is what follows the v |
| ReleaseGraph.RootFound | scripts/release-artifact.py:210-219 | The root is found exactly if one row of a workspace member carries the root package's name |
| ReleaseGraph.VersionFound | scripts/release-artifact.py:260-272 | The version compared with the tag is that of the first row with the root's id |
| ReleaseGraph.PackageFound | scripts/release-artifact.py:383-383 | A package of the closure is the last metadata row of its id |
| ReleaseGraph.FeaturesFound | scripts/release-artifact.py:428-428 | A package's features are those of the first resolved node of its id |
| ReleaseGraph.CanReleaseExact | scripts/release-artifact.py:377-430 | When the producer succeeds, by metadata rows alone: one root row, a well-formed tag spelling the first version of its id, and every reachable node sound, with a last row that is core, locked under its name, version and source, licensed with a licence text, and free of the feature local |
| ReleaseGraph.PackagesListed | scripts/release-artifact.py:398-444 | Row by row, an inventory carries the name, version, source, licence and texts of its package as they are, the lock's checksum, the id with the workspace path replaced, the closure's roles and the first node's features, both sorted; the packages are the closure's, by name, version and id |
| ReleaseGraph.InventoryHead | scripts/release-artifact.py:446-480 | An inventory has the tag, the version it spells, and the closure's edges with both ends renamed |
| ReleaseGraph.GraphAcceptedExact | scripts/release-smoke.py:473-524 | The graph check by the inventory's own fields: the tag's version, a count, distinct ids, one row named as the root package with role root at that version, and in each row a permitted folded name, no feature local, roles, a licence, a licence text and digests of 64 hex digits |
| ReleaseGraph.EdgesExact | scripts/release-smoke.py:511-523 | The edges of an accepted inventory are each there once, between ids of rows and with role normal or build |
| ReleaseSpdx.SpdxDocument | scripts/release-artifact.py:484-544 | The document has the fixed header and creation info, the name of its tag and target, the namespace of its inventory's digest, one package per inventory row under its number, one DESCRIBES for the root and one DEPENDS_ON per connected pair |
| ReleaseSpdx.DocumentNeverFails | scripts/release-artifact.py:487-506 | For every release, each id the document looks up has a package number, so the step never fails |
| ReleaseSpdx.Relationships | scripts/release-artifact.py:491-543 | One DESCRIBES and one DEPENDS_ON per connected pair, two roles on one pair giving one relationship, in ascending order |
| ReleaseSpdx.ValidatePackages | scripts/release-smoke.py:541-570 | Accepts exactly packages that match their rows under identifiers not used by an earlier row |
| ReleaseSpdx.ValidateSpdx | scripts/release-smoke.py:527-590 | Accepts exactly documents with the fixed header, the inventory's namespace, matching packages, a root package and a repetition-free relationship list equal as a set to the expected one |
| ReleaseSpdx.SpdxIdInjective | scripts/release-artifact.py:488-488 | Zero-padded package numbers never collide, past four digits too |
| ReleaseSpdx.SpdxProducerAccepted | scripts/release-smoke.py:539-589 | The producer's document passes every SPDX check if and only if renaming keeps the closure apart and the root id names the root package |
| ReleaseSpdx.SpdxIdSpells | scripts/release-artifact.py:488-488 | Package numbers count from one, in at least four decimal digits and without further padding |
| ReleaseSpdx.DocumentFields | scripts/release-artifact.py:484-544 | The document by its fields: the fixed header, name, namespace and creation info; for each row a package with its name, version, declared licence, source or NOASSERTION and checksum, no concluded licence and no copyright; and exactly the root's and the edges' relationships, by element, kind and related element |
| ReleaseSpdx.SpdxAcceptedExact | scripts/release-smoke.py:527-590 | The check by the fields of document and inventory: the header and namespace, each package's fields under an identifier no package before it holds, a root row, and each relationship once, exactly the root's and the edges' own |
| SafePath.SafeRelativeExact | scripts/release-artifact.py:129-136 | Accepts exactly the plain slash-separated paths and the path ".", and returns its argument |
| SafePath.SafeJoin | scripts/release-artifact.py:604-605 | A prefix and a member path make a safe name exactly when both are plain |
| SafePath.PlainExact | scripts/release-artifact.py:129-136 | A path is plain exactly if what stands between its slashes is never empty, "." or "..", and it has no backslash and no null character |
| ReleaseArchive.BuildMembers | scripts/release-artifact.py:547-592 | Succeeds exactly on distinct safe payload paths with a LICENSE file, and returns the payload with its manifest in path order |
| ReleaseArchive.ManifestReads | scripts/release-artifact.py:577-592 | The manifest lists exactly the other members, and itself by the fixed row |
| ReleaseArchive.WriteArchive | scripts/release-artifact.py:595-613 | Writes the members in path order with zero metadata, exactly when the prefix is safe |
| ReleaseArchive.WriteOrderFree | scripts/release-artifact.py:604-613 | Any permutation of members with distinct paths is written identically |
| ReleaseArchive.VerifyArchive | scripts/release-artifact.py:616-680 | Accepts exactly the archives that satisfy every check, for any entries |
| ReleaseArchive.AcceptedExactly | scripts/release-artifact.py:616-655 | Under a collision-free hash an accepted archive is a repetition-free arrangement of exactly the expected members: same bytes up to the read limit, same permissions, zero metadata |
| ReleaseArchive.AcceptedIff | scripts/release-artifact.py:616-680 | With distinct expected paths, accepted if and only if the entries arrange the expected members under plain names, the manifest matches, and no path or package is prohibited |
| ReleaseArchive.BytesComparedExact | scripts/release-artifact.py:642-644 | Given an accepted archive, every accepted archive of the same release carries each member's very bytes, if and only if no member is exactly one byte over the read limit |
| ReleaseArchive.WrittenAccepted | scripts/release-artifact.py:572-680 | What the writer makes of a built release is accepted if and only if the release is archivable |
| ReleaseArchive.ModesOfReleases | scripts/release-artifact.py:79-90 | The two modes of a release are written 0644 and 0755 |
| ReleaseArchive.PayloadFields | scripts/release-artifact.py:547-576 | The payload is the executable binary, the documents, the inventory, the SBOM and the notices, with their fixed names and modes |
| ReleaseArchive.BuiltFields | scripts/release-artifact.py:577-592 | What is built is the payload and a manifest with mode 0644, by path; the manifest has one row for each member, with its path, size, digest and octal mode, and the fixed row for itself, by path |
| ReleaseArchive.WrittenFields | scripts/release-artifact.py:595-613 | Each entry is a regular file below the prefix with its member's mode and bytes, no owner, group, time or names; entries stand by path |
| ReleaseArchive.ProhibitedExact | scripts/release-artifact.py:668-671 | A path is prohibited exactly if one of its components, in any letter case, is one of six names, or it ends in .onnx |
| ReleaseArchive.ArchiveAcceptedExact | scripts/release-artifact.py:616-680 | For any entries and any hash: accepted exactly if every entry is its member unchanged as far as it is read, with nothing else set, names are distinct, every member is there, the manifest's rows are the members' rows, no path is prohibited, and the first inventory names core packages only |
| InstalledArchive.LoadArchive | scripts/release-smoke.py:330-371 | Accepts exactly archives of distinct top-level regular members within the size limits, and returns their bytes and permissions |
| InstalledArchive.ValidateManifest | scripts/release-smoke.py:384-418 | Accepts exactly when the manifest rows are the loaded members, row by row and without repeats |
| InstalledArchive.WrittenLoads | scripts/release-smoke.py:330-371 | A written archive that loads holds exactly the members it was written from |
| InstalledArchive.WrittenLoadsExact | scripts/release-smoke.py:330-371 | A written archive loads if and only if it holds something, no path twice, only top-level members with plain names, and nothing over the size limits |
| InstalledArchive.BuiltManifestAccepted | scripts/release-smoke.py:384-418 | The manifest of a built release is accepted by the other program if and only if it is not too large |
| InstalledArchive.ReleaseInstalls | scripts/release-smoke.py:330-418 | The whole install: what the producer builds and writes loads and has its manifest accepted if and only if the payload is deliverable (distinct plain top-level paths, none the manifest's, within every size limit), and the loaded maps then hold exactly the built members |
| InstalledArchive.ManifestDetermines | scripts/release-smoke.py:384-418 | Under a collision-free hash two accepted releases with the same manifest are equal in names, bytes and modes |
| InstalledArchive.LoadAcceptedExact | scripts/release-smoke.py:330-371 | Loads exactly if there is an entry, each is one regular file of bounded size with a single-component name below the prefix and nothing else set, no name comes twice, and all fit the total |
| InstalledArchive.LoadedFields | scripts/release-smoke.py:365-371 | Loaded are each entry's bytes and permission bits under its own name, and nothing else |
| InstalledArchive.ManifestAcceptedExact | scripts/release-smoke.py:384-418 | The manifest passes exactly if it reads, its own mode is 0644, and its rows list each loaded file once by path, size, digest and octal mode, with the fixed row for itself |
| InstalledRelease.BuildRelease | scripts/release-artifact.py:721-733 | Fails exactly as the graph or the members do, and otherwise returns the built members of a release and its document |
| InstalledRelease.ValidateInventory | scripts/release-smoke.py:421-524 | Accepts exactly a readable inventory with the fixed head and target, a binary record that matches the loaded binary, the fixed mode for every member, a locked and offline resolution for the target, and an accepted graph |
| InstalledRelease.ValidateRelease | scripts/release-smoke.py:644-647 | Accepts exactly archives that load and whose manifest, inventory and SPDX document are accepted |
| InstalledRelease.InventoryExact | scripts/release-smoke.py:421-524 | Of the inventory the producer writes, only its size, the binary and the graph can be refused |
| InstalledRelease.BuiltReleaseAccepted | scripts/release-smoke.py:644-647 | The whole way: what the producer builds and writes passes the installing program's load, manifest, inventory and SPDX checks if and only if its members are deliverable and readable and its metadata genuine (ids kept apart, root row genuine, folded names permitted); the loaded maps then hold exactly the built members |
| InstalledRelease.SheetFields | scripts/release-artifact.py:445-480 | What the producer writes around the graph: schema, profile, target, the binary's record, the edge kinds and the Cargo command |
| InstalledRelease.SealFields | scripts/release-artifact.py:490-530 | The document names the job's target, and the digest of the sheet written around the inventory |
| InstalledRelease.PayloadOfJob | scripts/release-artifact.py:547-592 | The members of a job: its binary, documents, written sheet, written document and notices |
| InstalledRelease.SheetAcceptedExact | scripts/release-smoke.py:421-470 | The frame passes exactly with these fields, for the binary that was loaded, its mode 0755 and 0644 for every other member, and the target that was asked for |
| InstalledRelease.JsonMemberExact | scripts/release-smoke.py:372-380 | A JSON member is read if it is there and at most 16 MiB long |
| UpdatePatch.ParsePatch | scripts/codex-model-qualifier.py:626-636 | The line loop computes the hunks of the envelope, or refuses, as one left-to-right reading does |
| UpdatePatch.SpliceHunks | scripts/codex-model-qualifier.py:637-644 | Splicing in the mutated list equals matching hunk by hunk in the untouched rest of the source |
| UpdatePatch.SplicedExact | scripts/codex-model-qualifier.py:637-644 | Succeeds exactly when each hunk matches once after the one before; the placement is then the only in-order, non-overlapping one in the original source, and the result is that source with every old text replaced |
| UpdatePatch.ApplyUpdatePatch | scripts/codex-model-qualifier.py:625-644 | Succeeds exactly on a well-formed patch whose every hunk takes some line and stands behind the hunk before it in one place only: each kept or removed line of a hunk is the source line at the hunk's place plus the kept and removed lines before it. Each kept or added line then stands at the corresponding place of the result, what is between hunks and after them is copied, and the source's final newline stays; the text splits into the result's lines exactly under AppliedReads' condition |
| UpdatePatch.UniquePlacementRefused | scripts/codex-model-qualifier.py:641-643 | A patch with exactly one placement that is refused nevertheless |
| UpdatePatch.RenderedLines | scripts/codex-model-qualifier.py:637-644 | Text rendered from lines splits into them, except exactly for no lines with a final newline and for a last empty line without one |
| UpdatePatch.AppliedReads | scripts/codex-model-qualifier.py:637-644 | For every source and every patch placed in it, the returned text splits into the rebuilt lines if and only if, with a final newline, some hunk has new text or some source line lies outside every old text, and, without one, the last line kept or added is not empty |
| UpdatePatch.EmptiedFileKeepsNewline | scripts/codex-model-qualifier.py:637-644 | For every separator-free line, the patch that removes the only line of a file applies and returns a newline, which splits into one empty line |
| UpdatePatch.ReversedPatchRestores | scripts/codex-model-qualifier.py:637-644 | If the reversed hunks apply to the result, they restore the source |
| UpdatePatch.PrintedReads | scripts/codex-model-qualifier.py:626-636 | Printing non-empty hunks of separator-free lines and reading them gives the hunks back |
| UpdatePatch.FileChangeReads | scripts/codex-model-qualifier.py:645-650 | A file change whose diff is printed hunks yields those hunks |
| UpdatePatch.SplicedLineByLine | scripts/codex-model-qualifier.py:637-644 | The whole splice by hunk lines: it succeeds exactly if every hunk takes some line and stands behind the one before it in one place only, and the result is then patched at those places |
| UpdatePatch.SplitSeparated | scripts/codex-model-qualifier.py:627-627 | Splitting takes the text apart at its separators: each line is free of them and followed by one, a carriage return together with its line feed, which only the end of the text can replace |
| UpdatePatch.IsBreakExact | scripts/codex-model-qualifier.py:627-627 | The separators are the ten code points of str.splitlines |
| UpdatePatch.ReadLineExact | scripts/codex-model-qualifier.py:630-635 | What a body line does: it opens a hunk, is skipped, or is put last in the last hunk; anything else is refused |
| UpdatePatch.BodyExact | scripts/codex-model-qualifier.py:629-635 | Exactly the bodies are read that open with a hunk and hold only headers, changes and the no-newline mark |
| UpdatePatch.PatchExact | scripts/codex-model-qualifier.py:626-636 | A patch is read exactly inside its envelope, with such a body and no empty hunk |
| UpdatePatch.FileChangeExact | scripts/codex-model-qualifier.py:645-650 | A file change becomes a patch exactly if it is an update of the fixture's source file alone without a move, and the patch is its diff in the envelope of that file |
| PhaseState.PhaseState | scripts/codex-model-qualifier.py:651-711 | Succeeds exactly on item lists of the phase's language whose action trace lists tools early and holds one well-placed edit with the file change's own patch; returns the state, plan count and patch, each a field of some item. An accepted repair has a passing check whose runtime has the configured image, Rust version, Cargo version and platform and two "sha256:" fingerprints of 64 hex digits, and that runtime is the state's |
| PhaseState.PhaseExact | scripts/codex-model-qualifier.py:651-709 | The loop and the action checks together accept exactly that, the loop leaving one change and its patch |
| PhaseState.LoopAccepts | scripts/codex-model-qualifier.py:652-693 | The item loop accepts exactly the language: at most one relative probe, open, inspect, failed check with E0502, one file change, a different reopen, at most one inspect, one approved passing run and nothing after; plan items anywhere |
| PhaseState.ListingExact | scripts/codex-model-qualifier.py:706-709 | The tool-listing test means: never, or once with every tool call after it |
| PhaseState.OrderExact | scripts/codex-model-qualifier.py:697-706 | The patch-order test means: one edit after E0502, and a raw patch is an adjacent call, output and file change with the same patch |
| PhaseState.ActionsExact | scripts/codex-model-qualifier.py:694-709 | The action part accepts exactly one well-placed edit with early tool listing; without a runtime, no raw patch |
| PhaseState.AcceptedLeaves | scripts/codex-model-qualifier.py:652-693 | What an accepted list leaves in the state: the texts, patch, plan count and runtime of its own items |
| PhaseState.OtherRuntimeRefused | scripts/codex-model-qualifier.py:609-614 | A list of which no passing check has the configured image, versions and platform is refused |
| PhaseState.KindsExact | scripts/codex-model-qualifier.py:694-696 | The kinds of a trace are those of its actions in order, without the skipped ones |
| PhaseState.PatchCallsExact | scripts/codex-model-qualifier.py:697-705 | The patch calls of a trace are its raw patch actions in order |
| Framing.Out | scripts/codex-model-qualifier.py:402-414 | Succeeds exactly when the budget holds, every frame decodes and nothing remains. However it ends, the queues hold the routed messages of a prefix of the frames: all of them, unless the first read over the budget or the first undecodable frame stopped it there |
| Framing.FramesAndResidual | scripts/codex-model-qualifier.py:409-413 | Frames each followed by a newline, plus the residual, are the bytes read |
| Framing.FramesUnique | scripts/codex-model-qualifier.py:411-412 | No other newline-free frames and rest give those bytes |
| Framing.ShortLinesFit | scripts/codex-model-qualifier.py:407-411 | Lines that leave room for one read never trip the budget under any chunking |
| Framing.NeverTripsExact | scripts/codex-model-qualifier.py:405-410 | Every chunking of a stream into legal reads stays within the budget if and only if, wherever a read could start, the largest one fits behind the unfinished line |
| Framing.CanFitExact | scripts/codex-model-qualifier.py:405-410 | Some chunking stays within the budget if and only if no unfinished line fills it before the stream's end |
| Framing.BudgetSeesChunking | scripts/codex-model-qualifier.py:409-411 | A concrete stream with one chunking that passes and one that trips |
| Framing.RoutingComplementary | scripts/codex-model-qualifier.py:412-412 | Responses and events are complementary subsequences of the messages, each in order |
| Framing.Requester.Await | scripts/codex-model-qualifier.py:465-478 | Takes one message a round until the answer; everything else stays, parked messages behind the unread ones; times out only after the last round |
| Framing.NothingLost | scripts/codex-model-qualifier.py:468-478 | Apart from the answer no response is lost or duplicated |
| Framing.WaitingAnswerFound | scripts/codex-model-qualifier.py:469-475 | An answer already queued is found within as many rounds as there are messages up to it |
| Framing.RoutedPush | scripts/codex-model-qualifier.py:412-412 | A message with an id and a result or an error goes to the response queue, every other one to the events |
| Framing.BudgetExact | scripts/codex-model-qualifier.py:405-410 | The budget is four mebibytes for the unfinished line and the next read |
| SmokeSession.Session.ReceiveOne | scripts/release-smoke.py:873-888 | One read is heard, and either extends the buffer within the limits or fails for the reason it names |
| SmokeSession.Session.Receive | scripts/release-smoke.py:870-888 | A select round is heard whole, without diagnostics or end of stdout, or up to the event that fails it |
| SmokeSession.Session.ReadUntilFrame | scripts/release-smoke.py:864-893 | Reads exactly the rounds of the script up to the one that completes a line and returns that line, with every byte heard accounted for; each failure is explained by what was heard and by where the script stood |
| SmokeSession.Session.Request | scripts/release-smoke.py:895-933 | Records exactly the next line of the script, and only if it answers this request; each refusal is explained |
| SmokeSession.Session.Finish | scripts/release-smoke.py:935-981 | Succeeds if and only if exit is clean and some number of further rounds, none silent, end both streams with nothing heard but the recorded lines |
| SmokeSession.Conduct | scripts/release-smoke.py:864-981 | Over the whole script: a session ends well if and only if exit is clean and the server answers every request with one line, arriving while stdout is open, and ends both streams with nothing else; the recorded lines are then those |
| SmokeSession.ServedLines | scripts/release-smoke.py:935-970 | What a served session's server wrote to stdout splits into exactly one newline-terminated line per request |
| ProcessMonitor.OwnedProcesses | scripts/codex-model-qualifier.py:437-441 | The repeated pass ends with the least set that holds the seeds and is closed from parent to child |
| ProcessMonitor.OwnedAreDescendants | scripts/codex-model-qualifier.py:437-441 | That set is exactly the seeds and their descendants by parent links |
| ProcessMonitor.Transport.Monitor | scripts/codex-model-qualifier.py:434-457 | Rounds run up to the first that does not pass; what is observed is exactly what the rounds before it own, and the failure is set exactly by it |
| ProcessMonitor.Transport.Observe | scripts/codex-model-qualifier.py:436-456 | A round passes exactly if every owned process that is looked up has an allowed executable or has gone; it then adds exactly the descendants of its table, and otherwise fails and observes nothing; identities are recorded for exactly the checked executables |
| ProcessMonitor.Transport.Identify | scripts/codex-model-qualifier.py:442-455 | One process passes if it is not looked up, has gone, or runs an allowed executable with the approved digest; only the last is recorded, with its role |
| ProcessMonitor.Transport.KillDescendants | scripts/codex-model-qualifier.py:491-497 | Signals exactly the targets whose group was just read as the transport's own, and fails exactly if some target was foreign |
| ProcessMonitor.Transport.Close | scripts/codex-model-qualifier.py:479-505 | Kills its own group only if the server does not exit in time, raises without closing if it stays even then, signals only observed running descendants of its own group, fails for a foreign pid or when a role is asked for that no recorded identity has, reports what the last table shows running, and returns the first result when called again |
| ProcessMonitor.AcceptedCloseLeavesNothing | scripts/codex-model-qualifier.py:341-342 | A result that passes require_transport_closed has no observed descendant running in the last table |
| ProcessMonitor.AcceptedRunWatched | scripts/codex-model-qualifier.py:434-505 | A monitored run whose close is accepted had every owned process of every table approved or gone when looked up, and none of them runs in the last table |
| ProcessMonitor.TargetsExact | scripts/codex-model-qualifier.py:434-492 | Whatever the failing and later rounds showed, the close targets exactly the running processes that some round that passed owned |
| ProcessMonitor.FailedRoundUnseen | scripts/codex-model-qualifier.py:434-505 | For any server and child, a run whose second round does not pass: its child is owned and runs, yet the close neither targets it nor reports it as remaining |
| ProcessMonitor.OwnsExact | scripts/codex-model-qualifier.py:437-441 | Owned are the server, its process group and all their descendants by recorded parent links |
| ProcessMonitor.RoundPassesExact | scripts/codex-model-qualifier.py:436-455 | A round passes exactly if, when anything is allowed, every owned process but the server whose last line has a command fits: found with an allowed executable's digest, or gone |
| ProcessMonitor.TargetLines | scripts/codex-model-qualifier.py:491-503 | Targets and remaining processes are observed pids other than the server with a line in the table that is no zombie's |
| ProcessMonitor.RefusedExact | scripts/codex-model-qualifier.py:341-342 | A close result is refused exactly for a non-zero exit code, force, threads that did not join, a remaining process or a failure |
| FixtureSnapshot.FsSnapshot | scripts/codex-model-qualifier.py:74-93 | The stack walk succeeds exactly on trees within the budgets with a private root and unshared files, and records every entry once under its path: its own kind and mode, and for a file, and only a file, the hash of its bytes and their number |
| FixtureSnapshot.Expand | scripts/codex-model-qualifier.py:77-92 | Listing one directory keeps the walk invariant and never raises the measure |
| FixtureSnapshot.RelInjective | scripts/codex-model-qualifier.py:81-81 | Two entries never share a snapshot key |
| FixtureSnapshot.ParentFirst | scripts/codex-model-qualifier.py:93-102 | A directory's key sorts before its entries' keys |
| FixtureSnapshot.CopyEntries | scripts/codex-model-qualifier.py:97-103 | The creation loop never meets a missing directory or an existing entry, and makes the whole copy |
| FixtureSnapshot.CopyFixture | scripts/codex-model-qualifier.py:94-103 | Succeeds exactly on snapshotable trees of files and directories, and yields the snapshot, entry by entry, and the copy: a private directory for each directory, and an unshared file of mode 0600 with the same bytes for each file |
| FixtureSnapshot.CopySnapshot | scripts/codex-model-qualifier.py:74-103 | The copy can be snapshotted, with the same paths, types, sizes and digests |
| FixtureSnapshot.SnapshotDetermines | scripts/codex-model-qualifier.py:74-93 | Under a collision-free hash two trees with the same snapshot have the same paths, kinds, modes and file bytes |
| SchemaPointer.TwoPassesAreOne | scripts/codex-model-qualifier.py:148-148 | The two global replacements equal one left-to-right decoding on every string |
| SchemaPointer.PointerRoundTrip | scripts/codex-model-qualifier.py:148-148 | Escaping tokens as section 3 of RFC 6901 says, joining, splitting and decoding gives the tokens back |
| SchemaPointer.ReferenceNavigates | scripts/codex-model-qualifier.py:145-148 | A reference to an escaped token list leads where the tokens lead |
| SchemaPointer.SchemaResolve | scripts/codex-model-qualifier.py:142-151 | Succeeds exactly when at most 32 references lead to a schema without one, and returns it |
| SchemaPointer.CycleRefused | scripts/codex-model-qualifier.py:142-151 | References that lead back to their start never resolve |
| SchemaPointer.ReferenceExact | scripts/codex-model-qualifier.py:142-147 | A schema refers elsewhere exactly if it is an object with $ref; a reference that is no string or does not start with #/ leads nowhere |
| TamperCleanup.OwnedContainer | scripts/test-m4-tampered-plugin.py:468-483 | Reports absent, owned by this nonce, or refused, by the answer of one inspection |
| TamperCleanup.VisitContainer | scripts/test-m4-tampered-plugin.py:531-560 | A container is removed only right after an inspection showed this run's nonce and that identity; a started one is reported |
| TamperCleanup.CleanupContainers | scripts/test-m4-tampered-plugin.py:523-576 | Ends with two consecutive absent rounds, the second a pause beyond the settle window, and an absent re-check of every name; or stops on a bad last answer or at the deadline |
| TamperCleanup.VisitImage | scripts/test-m4-tampered-plugin.py:587-611 | An image is removed only right after an inspection showed the nonce and its own identity, and never the approved one |
| TamperCleanup.ImageRound | scripts/test-m4-tampered-plugin.py:585-616 | Asks, in order and between its start and end, about exactly the images known or listed at its start; busy exactly if one was found or something was listed afterwards |
| TamperCleanup.CleanupImages | scripts/test-m4-tampered-plugin.py:578-627 | Its log is that of a run at the loop's pace: every round starts before the deadline and a pause after the one before, and none after two in a row that count; two in a row count and an empty last listing follows. An unresolved commit was seen as an owned image. Otherwise it stops for a cause |
| TamperCleanup.Cleanup | scripts/test-m4-tampered-plugin.py:486-642 | Under any daemon, only objects just inspected as owned are removed and the receipt lists exactly the confirmed removals. A command with "create" in its argv that timed out, was interrupted, exceeded its output limit or exited unexpectedly makes the container half wait the settle window from its start, one with "commit", or an unresolved one, the image half; with every such command completed there is no window. The two settled flags hold exactly without a window or once two rounds in a row counted, else something stopped that half; reconciled holds exactly if no command is unresolved or an owned image was seen. Verified holds exactly without errors and implies stable absence of both kinds and a run at the loop's pace; unverified means that the private root stayed or that the log or the clock shows why |
| TamperCleanup.InspectedExactly | scripts/test-m4-tampered-plugin.py:584-611 | The rounds of a run ask about exactly the images known at first or listed at some round's start |
| TamperCleanup.CoveredExact | scripts/test-m4-tampered-plugin.py:584-616 | Every image a run ever listed was inspected if and only if closing listings named only such images |
| TamperCleanup.ListedNeverInspected | scripts/test-m4-tampered-plugin.py:578-627 | A run at the loop's pace, with everything a verified cleanup promises of its images, in which a listed image is never inspected |
| TamperCleanup.NothingOwnedRemains | scripts/test-m4-tampered-plugin.py:486-642 | If answers are truthful but up to a pause old, and every pending operation completes by the quiet times, then after stable absence no container of the run and no image with its nonce exists any more |
| TamperCleanup.BackwardsExact | scripts/test-m4-tampered-plugin.py:531-576 | The absent rounds ask about the names from the last to the first |
| TamperCleanup.NotedExact | scripts/test-m4-tampered-plugin.py:549-560 | A confirmed removal is put last in its list, once |
| InventoryCleanup.InspectAndRemove | scripts/test-m4-inventory.py:219-263 | Removes only the container just inspected with this nonce and the approved image, and reports a started one |
| InventoryCleanup.CleanupContainer | scripts/test-m4-inventory.py:252-287 | Ends with two absent reads in a row, a pause apart, or stops for a cause |
| InventoryCleanup.Cleanup | scripts/test-m4-inventory.py:245-300 | Verified holds exactly without errors and implies two separated absent reads at the end; the recorded identity is the last confirmed removal; unverified means that the scratch directory stayed or that the log or the clock shows why |
| InventoryCleanup.NothingRemains | scripts/test-m4-inventory.py:262-287 | After a run that ends in its two reads, if answers were right at some moment before they were given and a pending create completes within a pause of the first, the container is gone for good |
| InventoryCleanup.PauseExact | scripts/test-m4-inventory.py:262-274 | Two absent reads show that a create pending at the first and completing within a pause leaves nothing, if and only if the second is asked a pause after the first is answered |
| SysrootDigest.ReadSysroot | scripts/test-m4-inventory.py:319-348 | Accepts exactly archives within both budgets whose members are files or directories below the target, and returns the sorted lines, file count and bytes |
| SysrootDigest.DigestOrderFree | scripts/test-m4-inventory.py:347-348 | Any order of the members is accepted alike and gives the same text, count and bytes |
| SysrootDigest.LinesDetermine | scripts/test-m4-inventory.py:347-347 | Rows whose paths embed no line header are read back from their text in one way only |
| SysrootDigest.ReadBackExact | scripts/test-m4-inventory.py:347-347 | Rows are the only such reading of their text if and only if no path embeds a line header |
| SysrootDigest.TreeDetermines | scripts/test-m4-inventory.py:345-348 | Against a tree whose paths embed no line header, an equal text means the same files if and only if the other tree's paths embed none |
| SysrootDigest.EveryTreeCollides | scripts/test-m4-inventory.py:319-348 | Every accepted archive with two files below the target shares its text with an accepted archive of other files |
| SysrootDigest.NewlineCollides | scripts/test-m4-inventory.py:319-348 | Two plain files, and an accepted archive with their text and other files |
| SysrootDigest.AcceptableExact | scripts/test-m4-inventory.py:319-346 | Accepted are at most 200000 members and 192 MiB, none special, each below the target without a step upwards |
| SysrootDigest.TreePathExact | scripts/test-m4-inventory.py:333-345 | A file stands below the installed sysroot under its path in the archive, the target itself as "." |
| SysrootDigest.FileRow | scripts/test-m4-inventory.py:333-345 | Each file gives one row, with its path, digest and size, and nothing else gives any |
| SysrootDigest.TreeFields | scripts/test-m4-inventory.py:345-348 | The text is the lines of the rows by path, digest and size, each a digest, two spaces, a path and a newline (LinesPush, LineExact); the count and the bytes are those of all rows |
| SysrootDigest.LineExact | scripts/test-m4-inventory.py:347-347 | A line is a digest, two spaces and a path |
| Ustar.TarHeader | scripts/test-m4-clients.py:161-173 | The in-place writes compute the specified header for every ASCII name up to a hundred bytes and every size, also where a slice assignment grows the buffer |
| Ustar.HeaderLayout | scripts/test-m4-clients.py:161-173 | Every field stands at the offset of the ustar format, and the checksum is the byte sum with its field blanked |
| Ustar.HeaderLength | scripts/test-m4-clients.py:166-166 | A header is 512 bytes if and only if the size is below 8^11 |
| Ustar.ChecksumFits | scripts/test-m4-clients.py:171-172 | Six octal digits hold the sum of any 512-byte header |
| Ustar.HeaderReads | scripts/test-m4-clients.py:161-173 | A header reads back as its name and size |
| Ustar.PrintArchive | scripts/test-m4-clients.py:214-220 | The bundle loop prints header, data and padding for each member and two zero blocks |
| Ustar.ArchiveReads | scripts/test-m4-clients.py:214-220 | Reading a printed archive gives the members back, and its length is a multiple of 512 |
| Ustar.HeaderBytes | scripts/test-m4-clients.py:161-173 | Every byte of a header: the name, mode 0600, owner, group and time 0, the size and the checksum in octal digits, type 0, the magic with its version, and zeros |
| Ustar.PrintedBytes | scripts/test-m4-clients.py:214-220 | Each entry is its header, its data and zeros up to a whole block; 1024 zeros end the archive |
| Budgets.CollectSamples | scripts/measure-m8-performance.py:311-335 | Keeps exactly the valid responses of the attempts it made, stops right after the last one needed, and fails exactly when the allowed attempts, three for each wanted sample and three more, hold too few |
| Budgets.AttemptsAccounted | scripts/measure-m8-performance.py:321-328 | Every attempt is kept or discarded once, and samples are numbered without gaps |
| Budgets.Ceil95Bounds | scripts/measure-m8-performance.py:415-416 | The exact ceiling of 95 n / 100, which for a non-empty list is a rank in the list and past its middle, so the indexed element exists |
| Budgets.WithinExact | scripts/measure-m8-performance.py:415-443 | A p95 row is within if and only if there are enough samples and at least 95 in 100, rounded up, meet the budget |
| Budgets.MaxExact | scripts/measure-m8-performance.py:439-443 | A max row is within if and only if there are enough samples and every one meets the budget |
| Budgets.SummaryOrderFree | scripts/measure-m8-performance.py:419-456 | The order of samples is irrelevant |
| Budgets.StatisticsOrdered | scripts/measure-m8-performance.py:445-456 | min, median, p95 and max bracket each other and the samples |
| Budgets.GlobalIsWorst | scripts/measure-m8-performance.py:476-484 | The global verdict is the worst one present |
| Budgets.RowExact | scripts/measure-m8-performance.py:419-473 | What each of the four verdicts of a p95, max or unavailable row means |
| Budgets.ReportExact | scripts/measure-m8-performance.py:415-484 | A report is over, insufficient, unavailable or within exactly as its rows missed their budgets, had too few samples, were not measured, or all met their budgets, in that precedence |
| Budgets.DiscardsInOrder | scripts/measure-m8-performance.py:321-328 | Discards keep the order, the number and the reason of their attempts |
| Budgets.SummaryFields | scripts/measure-m8-performance.py:419-456 | Every figure by counting samples: min, max and the one or two middle samples by rank, half their sum as the median, p95 as the sample that covers a limit exactly if 95 in 100 meet it; the verdict compares the figure the statistic asks for |
| Budgets.SummaryOutcomes | scripts/measure-m8-performance.py:419-438 | No samples, too few of them and an unknown statistic, in that order, and with which figures |
| Regression.RegressionVerdict | scripts/measure-m8-performance.py:538-584 | Succeeds exactly on three comparable receipts with readable magnitudes, and decides each magnitude from its three verdicts |
| Regression.DecisionExact | scripts/measure-m8-performance.py:568-576 | Regressed, not regressed or indeterminate exactly as all ways of completing the missing verdicts agree on two overs, agree against, or disagree |
| Regression.OutcomeExact | scripts/measure-m8-performance.py:538-584 | The row of every id reports, in all three outcomes, that decision over the verdicts at that id |
| Regression.KeyDecided | scripts/measure-m8-performance.py:557-567 | A key's row decides the verdicts stored under it if and only if the key has no final newline or the shortened key holds the same verdicts |
| Regression.FinalNewlineLosesVerdicts | scripts/measure-m8-performance.py:557-567 | Three receipts with an over stored under a key with a final newline, reported as undecided |
| Regression.KnownIdExact | scripts/measure-m8-performance.py:557-560 | A key names the id it spells, with or without one final newline: a lower-case letter, then lower-case letters, digits and underscores |
| Regression.VerdictFields | scripts/measure-m8-performance.py:561-567 | A missing row, one without a verdict and one that says so are unavailable; any other known verdict is taken as it is, an unknown one refused |
| Regression.MagnitudesExact | scripts/measure-m8-performance.py:555-556 | The keys looked at are those of any of the receipts |
| Regression.ResultRows | scripts/measure-m8-performance.py:562-584 | Every row holds its id's three verdicts, how many are over, how many are unavailable or insufficient, and the outcome these counts give |
| ContractFreeze.LoadTools | scripts/contract-freeze.py:310-317 | Succeeds exactly when every snapshot parses; each name has the entry of its last snapshot |
| ContractFreeze.Verify | scripts/contract-freeze.py:352-425 | Passes if and only if format and count match, no class changed and every stable tool (under strict, every tool) is on both sides with equal compared fields; the lists hold exactly the true changes, by name and each name once |
| ContractFreeze.GeneratedVerifies | scripts/contract-freeze.py:326-425 | A manifest just generated always verifies |
| ContractFreeze.FreezeExact | scripts/contract-freeze.py:299-425 | Under a collision-free hash, verifying against earlier snapshots passes if and only if the tool count is unchanged and every stable (under strict, every) tool keeps its contract |
| ContractFreeze.CmdDiff | scripts/contract-freeze.py:469-517 | The four lists are sorted and hold exactly the added, removed, changed and unchanged tools of the restricted sides |
| ContractFreeze.DiffUnique | scripts/contract-freeze.py:485-517 | Two tool sets have only one diff |
| ContractFreeze.DiffPartitions | scripts/contract-freeze.py:485-517 | The four lists are disjoint, repetition-free and together name every tool of either side |
| ContractFreeze.DiffSwaps | scripts/contract-freeze.py:485-517 | Exchanging the sides exchanges added and removed and nothing else |
| ContractFreeze.OnlyFilters | scripts/contract-freeze.py:480-483 | A non-empty "only" gives the full diff with the other tools left out |
| ContractFreeze.ChangedExact | scripts/contract-freeze.py:492-517 | Under collision-free hashes a changed row is never byte-identical, and exactly tools whose contract changed are listed as changed |
| ContractFreeze.StabilityExact | scripts/contract-freeze.py:137-138 | Five tools by name are preview, every other one is stable |
| ContractFreeze.LoadedFields | scripts/contract-freeze.py:299-317 | A loaded entry has the class of its name and the hashed fields of the last snapshot of that name |
| ContractFreeze.GeneratedFields | scripts/contract-freeze.py:326-349 | A manifest has the two fixed marks, the number of tools, and every entry's class and compared fields |
| ContractFreeze.DifferencesExact | scripts/contract-freeze.py:381-387 | The fields reported for a tool are those that differ, each once and in a fixed order |
| ContractFreeze.RowExact | scripts/contract-freeze.py:492-517 | A changed row has the fields that differ, in order, each flag for its own field, and says whether the bytes are the same |
| ContractFreeze.RestrictExact | scripts/contract-freeze.py:480-483 | A restriction keeps the named tools as they are, and everything if it names none |

## Left out

- Framing.Out: request-dependent redaction of logged messages and the log itself are not modelled, because they do not change what is delivered.
- Framing.Requester.Await: the wall clock of the wait is a sequence of rounds, because only the number of rounds matters to what is found.
- ProcessMonitor.Transport.Observe: what the system says of a pid's executable is one answer per round, and an error while reading the process table is not modelled, because both come from the system.
- ProcessMonitor.Transport.Close: how the wait for the server ends and whether the threads joined enter as inputs, because they are calls into the system.
- ReleaseGraph.InventoryAndNotices: the texts of a package are given with it, and the notices text and its size bound are not modelled, because finding texts reads directories.
- InstalledRelease.ValidateRelease: the checksum file and validate_documents are not modelled, because they are single comparisons and text searches.
- ReleaseSpdx.SpdxDocument: the digest of an inventory is a function the caller supplies, and the workspace path it replaces is taken to be the one the inventory replaced, because both are the repository root.
- ReleaseArchive.VerifyArchive: letter case of prohibited path parts, and of package names in ReleaseGraph.ValidateRows, folds ASCII letters only, because the model has no Unicode case tables.
- ReleaseArchive.WriteArchive: the ustar limits of the tar library on names, gzip and the bytes on disk are not modelled, because entries are the level both programs reason about.
- SmokeSession.Session.ReadUntilFrame: the wall clock is a silent select round or the end of the script, because the deadline only decides when waiting ends.
- SmokeSession.Session.Request: JSON decoding and the envelope test of a response are one predicate per request, because their content is a fixed shape.
- FixtureSnapshot.CopyFixture: changes to the tree while it is walked and copied are not modelled, because the model reads one tree.
- SchemaPointer.SchemaResolve: an array cannot be indexed by a string in the model, as in the source, and other schema keywords are not modelled.
- TamperCleanup.Cleanup: Python-level failures other than a failing command or a malformed answer are not modelled, because they carry no information about the daemon.
- InventoryCleanup.Cleanup: every command takes at least one clock tick, because the source's loop has no other bound on rounds that keep finding a container.
- Budgets.WithinExact: rounding of floating-point products and timings is not modelled, because the rule is meant over exact fractions.
- ContractFreeze.CmdDiff: validation of the request, Git calls and merging the entry into the written file are not modelled, because they are checks of closed key sets.
- The order in which several simultaneous faults are reported, beyond the first one of a loop, is modelled only where the methods return an error value.
- SHA-256, gzip, tar reading, TOML and JSON text, regular expressions, process spawning, signals, pipes and threads are abstract or results.
- Mach-O, host and platform checks, credential scanning, doctor reports, receipt wording, pinned digests and tool tables are constants or straight-line checks.
- The drivers, the runtime gates and the documentation hygiene rules sequence the modelled operations and add no state of their own.
