# Verified models of carrick's gates and build checks

carrick surrounds its kernel crates with scripts and build checks that decide
whether evidence is acceptable: which diffs are pure moves, which copy-on-write
captures are genuine, which VM images may be booted, how large a stack frame is,
which processes a carrier started, and which files a build depends on. This
project models that logic in Dafny and proves what those decisions mean.
`dafny verify dfyconfig.toml` checks all of it.

| files | component |
|---|---|
| `FiniteSums`, `Transport`, `HunkBlocks`, `MoveDetector`, `MoveCounts`, `DiffLines` | pure cross-file moves in a diff |
| `StableSort`, `Stage2Replay`, `CowJoin` | copy-on-write receipt validation |
| `GoldenImages`, `ImageLaws`, `ImageDirectory` | golden image rotation of the BSD guests |
| `FrameBudget`, `PrologueMachine` | stack frames measured from disassembly |
| `CarrierTopology`, `StreamDecoders` | process lineage, zombie census, stream decoders |
| `BuildInputs`, `SerialHelpers` | the two closure computations |
| `Wrappers` | `Option` and `Result` |

## What is modelled, and how

**Moves.** A diff is a map from path to hunks, counted as three multisets of
blocks per file. `Transport`
holds the theorem the detector's arithmetic rests on: supplies and demands can
be shipped with nothing staying in its own file exactly when they balance and no
file's own supply and demand together exceed the total. `BlockOkExactly` derives
from it that `block_ok` holds exactly when a block admits a cross-file matching,
and `LastTestImplied` that its last disjunct never decides. The pruning rounds
keep everything exactly when the candidates are a pure move. A pure move is
defined on the counters alone, and the files a round evicts by placements and
matchings. No pure move loses a file in phase 1, and when what phase 1 leaves is itself a pure move the result
is the greatest one. In general there is none to return
(`CompetingDestinations`): two files that each require the one removed copy are
both evicted together with its source.

**Receipts.** Records are typed and numbers natural. The list of finished
stage-2 lifetimes is a multiset, since it is only ever searched. The replayed
state at time t is the state after all records stamped t or earlier. Which
records are accepted, and what is live, is also said of the records alone.

**Images.** The state directory is a map from file name to content number,
completeness and link. A link also remembers the content its backing file had
when the overlay was created; the real header does not, and this is what makes a
silently replaced backing file visible. Where a command can fail, a parameter
says so. The failure path of a build stops a guest found running under the same
VM name, because the boot error is raised inside the same `try`: a `provision
--force` while a dev guest is up fails and stops that guest. The model does the
same. Even then the files of that guest's chain stay as they are. `ImageLaws`
states each command file by file, apart from the functions that compute it.

**Frames.** A listing is a sequence of symbol headers and structured
instructions. The machine beside it executes them from any start, with the
branch of a probe loop taken as often as its flag says. Instructions that the
scanner passes over are told apart where they write SP or x9; values they
take from elsewhere are arbitrary. A loop that writes neither counts as `Other`, and
a run may stop anywhere, as a forward branch out of the prologue would.

The charge does not cover every accepted listing. After an x9 target the scanner
lets through, uncharged, a realignment from any register
(`UnchargedRealignment`), a step of SP that no loop follows (`UnloopedStep`) and
a realignment from an x9 that moved after its window closed (`StaleRealignment`).
`GuardExactly` gives the condition: among listings whose backward branches are
probe loops, the charge covers the drop for all amounts and all runs exactly
when uncharged changes of SP stand in probe windows only and realignments from x9
start from a charged x9. The shapes the compiler emits satisfy it.

The source's comment says the scan stops at the first call or return; the code
skips an instruction without operands, so a bare `ret` does not stop it, and the
model follows the code.

**Topology.** Lineage events are typed; acceptance and the ledger are also said of
the events alone. The replay forbids the reuse of live and
of created PIDs; the target, once exited, is neither, so its PID can be born
again. `ExitsCountBirths` says when exits then outnumber births by one.

**Streams.** Chunk sizes are read as Python's `int(line, 16)` reads them, and
slices count negative bounds from the end. A negative chunk size is therefore
accepted when a CRLF stands so far before the end of the body
(`NegativeSizeAccepted`); section 7.1 of RFC 9112 has no such size.

**Closures.** Manifests, include literals and scanned functions come as data.
Sets are visited in an arbitrary order, so every result holds for every order.

## Model

| member | source | states |
|---|---|---|
| `Transport.ShippableExactly` | scripts/conformance/check-contract-change.py:284-309 | a transport plan with an empty diagonal exists iff supply and demand balance and each file's own two stay within the total |
| `MoveDetector.BlockOkExactly` | scripts/conformance/check-contract-change.py:284-309 | the block test passes iff some matching sends every removed copy to a required or declared addition in another file and uses every required one, counted in the files' own counters |
| `MoveDetector.LastTestImplied` | scripts/conformance/check-contract-change.py:297-304 | the test against the caps of the other files follows from the total caps |
| `MoveDetector.FailingBlockHasCulprit` | scripts/conformance/check-contract-change.py:306-313 | a failing block always has a file with a removal or a required addition to evict, so the rounds terminate |
| `MoveDetector.MonotoneBadExactly` | scripts/conformance/check-contract-change.py:252-270 | a round of phase 1 evicts exactly the files with a block whose removed or required copies the other files could not take or give even if they served nobody else |
| `MoveDetector.MultiplicityBadExactly` | scripts/conformance/check-contract-change.py:284-311 | a round of phase 2 evicts exactly the files that remove or require a block without a matching |
| `MoveDetector.CoveredIsLastRound` | scripts/conformance/check-contract-change.py:246-316 | the result is what is left when, round after round, first the one and then the other kind of file has been evicted and none remains |
| `MoveDetector.MonotoneEvictionSafe` | scripts/conformance/check-contract-change.py:248-274 | a file evicted in one round of phase 1 belongs to no pure move among the candidates |
| `MoveDetector.PureMovesSurvive` | scripts/conformance/check-contract-change.py:246-274 | every pure move among the candidates survives the whole of phase 1 |
| `MoveDetector.GreatestMoveExactly` | scripts/conformance/check-contract-change.py:246-316 | phase 2 evicts nothing iff what phase 1 leaves is a pure move, and the result then contains every pure move |
| `MoveDetector.CoveredIsPureMove` | scripts/conformance/check-contract-change.py:246-316 | on exit every block of every surviving file admits a cross-file matching |
| `MoveDetector.KeepsAllExactly` | scripts/conformance/check-contract-change.py:246-316 | nothing is evicted iff the candidates are a pure move |
| `MoveDetector.CompetingDestinations` | scripts/conformance/check-contract-change.py:276-313 | two incomparable pure moves exist whose union is none, and the detector returns nothing |
| `MoveDetector.AllocationRealised` | scripts/conformance/check-contract-change.py:326-346 | the additions the allocation matches are the exact arrivals of some cross-file plan |
| `MoveCounts.Prune` | scripts/conformance/check-contract-change.py:246-313 | the two-phase loop computes the covered set in any visiting order |
| `MoveCounts.Allocate` | scripts/conformance/check-contract-change.py:330-346 | the greedy fill uses all removals and keeps required ≤ matched ≤ cap for every file |
| `MoveCounts.MovedLinesConserved` | scripts/conformance/check-contract-change.py:318-350 | the moved-line counts sum to exactly twice the removed lines of the covered files |
| `MoveCounts.DetectMoveCoveredFiles` | scripts/conformance/check-contract-change.py:231-355 | the result is empty iff the covered files remove no line; otherwise its keys are a pure move and each count is the lines that cross-file plans, one per block, take out of and into the file; lines are conserved |
| `HunkBlocks.MatchDeclAt` | scripts/conformance/check-contract-change.py:44-87 | a declaration is found iff one starts here; it stays inside the hunk and its brace depth reaches zero at its last line only |
| `HunkBlocks.DeclUnique` | scripts/conformance/check-contract-change.py:44-87 | a declaration can end in one place only |
| `HunkBlocks.MarkDeclarations` | scripts/conformance/check-contract-change.py:109-139 | the scan marks the declarations met from left to right together with the notes before them |
| `HunkBlocks.MarkingExactly` | scripts/conformance/check-contract-change.py:112-139 | a line is marked iff it belongs to a declaration or to notes attached to one |
| `HunkBlocks.RunsAreMaximal` | scripts/conformance/check-contract-change.py:92-104 | the runs are, in order and each once, exactly the intervals of present lines that a gap or an end bounds on both sides, with their text |
| `HunkBlocks.ClassifyRemoved` | scripts/conformance/check-contract-change.py:90-104 | every block is counted once for each place where its text is a maximal run of nonblank lines |
| `HunkBlocks.ClassifyAdded` | scripts/conformance/check-contract-change.py:107-172 | likewise for required and declaration blocks, where blank lines and lines of the other kind separate |
| `HunkBlocks.RunsConserve` | scripts/conformance/check-contract-change.py:92-104 | concatenated, the blocks are the nonblank lines in order, and no block is empty |
| `HunkBlocks.AddedLinesConserved` | scripts/conformance/check-contract-change.py:141-172 | every nonblank added line lands in exactly one block of exactly one kind |
| `DiffLines.ParseFileDiff` | scripts/conformance/check-contract-change.py:196-228 | the counters of a file gather the blocks of all its hunks |
| `DiffLines.DiffOfExactly` | scripts/conformance/check-contract-change.py:196-228 | each of the three counters holds a block as often as it stands in the hunks, hunk by hunk |
| `DiffLines.ChangesExactly` | scripts/conformance/check-contract-change.py:242-243 | a file has something to count iff it removes or adds a nonblank line |
| `DiffLines.RemovedTextConserved` | scripts/conformance/check-contract-change.py:204-228 | the removed blocks of a file hold exactly its nonblank removed lines, in order |
| `DiffLines.MultiplicityCountsLines` | scripts/conformance/check-contract-change.py:348-350 | block length times multiplicity, over the distinct blocks, counts every line once |
| `DiffLines.AddedLinesOfDiff` | scripts/conformance/check-contract-change.py:204-228 | counted so, the required and the declaration blocks of a file together are its nonblank added lines |
| `DiffLines.DetectMoves` | scripts/conformance/check-contract-change.py:231-355 | from hunks of Rust files to the report: a pure move whose counts are the lines of cross-file plans and sum to twice the nonblank lines the covered files remove, each file credited with at least its own; nothing iff they remove none |
| `StableSort.SortIsStable` | scripts/validate-hvpatch-frame-cow.py:178-187 | records are put in time order with equal times in capture order |
| `Stage2Replay.EveryStepConsistent` | scripts/validate-hvpatch-frame-cow.py:188-263 | at every step live extents belong to the active generation of their process and are pairwise disjoint in IPA and in host memory |
| `Stage2Replay.GenerationsConsecutive` | scripts/validate-hvpatch-frame-cow.py:195-214 | the generations created for a process are 1, 2, 3, ... and the current one is the last |
| `Stage2Replay.ActiveExactly` | scripts/validate-hvpatch-frame-cow.py:195-214 | a generation is active iff one more has been created than destroyed; otherwise as many |
| `Stage2Replay.LiveExactly` | scripts/validate-hvpatch-frame-cow.py:211-262 | the live extents are those some record maps and no later record unmaps or destroys, with that record's time and backing |
| `Stage2Replay.AdmissibleExactly` | scripts/validate-hvpatch-frame-cow.py:189-263 | a record is accepted iff the records before it admit it: creates outside, destroys, maps and unmaps inside the open generation, generation numbers in sequence, no shared address or backing |
| `Stage2Replay.IndexExactly` | scripts/validate-hvpatch-frame-cow.py:178-265 | a capture has an index iff every record in time order is so admitted and nothing stays mapped |
| `Stage2Replay.IndexAgreesWithReplay` | scripts/validate-hvpatch-frame-cow.py:178-274 | the lifetime index contains a range at time t iff the state after all records up to t has a live extent covering it; for a nonempty range the lifetime is unique |
| `Stage2Replay.IndexAgreesWithRecords` | scripts/validate-hvpatch-frame-cow.py:267-274 | the index holds a range at time t iff a record up to t maps an extent with all its addresses that no later record up to t ends |
| `Stage2Replay.EndGeneration` | scripts/validate-hvpatch-frame-cow.py:211-213 | destroying a generation ends exactly its live extents, in any order |
| `Stage2Replay.ReplayVm` | scripts/validate-hvpatch-frame-cow.py:189-214 | one VM lifecycle record advances or rejects the replay |
| `Stage2Replay.ReplayStage2` | scripts/validate-hvpatch-frame-cow.py:215-263 | one map or unmap record advances or rejects the replay, overlap searches included |
| `Stage2Replay.Replay` | scripts/validate-hvpatch-frame-cow.py:175-265 | the loop returns the lifetime index, or rejects, as the replay of the ordered records does |
| `CowJoin.PhasesExactly` | scripts/validate-hvpatch-frame-cow.py:572-575 | the phase check passes iff there is one receipt per phase in time order; the transaction then starts at phase 0 |
| `CowJoin.AcceptedExactly` | scripts/validate-hvpatch-frame-cow.py:584-628 | the join accepts iff triggers and transactions pair one to one within groups, each trigger after the previous start and no later than its own, with no shared start |
| `CowJoin.OrderPreserved` | scripts/validate-hvpatch-frame-cow.py:586-618 | within a group the join preserves time order strictly and no two triggers coincide |
| `CowJoin.RanksAgree` | scripts/validate-hvpatch-frame-cow.py:586-618 | the k-th trigger of a group joins its k-th transaction |
| `CowJoin.JoinTriggers` | scripts/validate-hvpatch-frame-cow.py:584-628 | the loop returns the join, and rejects only when no join exists |
| `CowJoin.GenuineExactly` | scripts/validate-hvpatch-frame-cow.py:572-628 | phase check and join pass iff every transaction has one receipt per phase in time order and the pairing interleaves; a start is then the time of the phase-0 receipt |
| `CowJoin.Validate` | scripts/validate-hvpatch-frame-cow.py:572-628 | both loops together accept with the join, or reject when no pairing would do |
| `GoldenImages.RunSound` | scripts/bsdvm.py:1054-1169 | every sequence of commands keeps links within the rotation scheme, present, and current for all consumed images |
| `GoldenImages.OpensExactly` | scripts/bsdvm.py:1005-1021 | an image opens iff its links lead through whole images, without a loop or a gap, to one that stands alone |
| `GoldenImages.EveryChainEnds` | scripts/bsdvm.py:1005-1021 | after any commands every finished image opens: its chain is acyclic and ends in a standalone image |
| `GoldenImages.PublishableExactly` | scripts/bsdvm.py:981-1021 | for any candidate the publishable check passes iff the image opens after the rename |
| `GoldenImages.CandidatesPublishable` | scripts/bsdvm.py:1094-1141 | the candidates of the two builds pass that check |
| `GoldenImages.BuildSucceedsExactly` | scripts/bsdvm.py:1054-1169 | after any commands a build is published iff its preconditions hold and its guest provisions cleanly: no image check stops it |
| `GoldenImages.ConsumersBackedByTheirGolden` | scripts/bsdvm.py:1024-1051 | a present dev or gate overlay is backed by the golden content it was created on, and that golden by its base content |
| `GoldenImages.BuildPublishesOrLeaves` | scripts/bsdvm.py:1094-1166 | a failing build leaves golden, golden.prev and base untouched; a successful one installs new content, keeps the old golden and the dev disk, and removes gate overlays |
| `GoldenImages.BaseStable` | scripts/bsdvm.py:352-374 | base content does not change while golden or golden.prev exists |
| `GoldenImages.RunningDiskUntouched` | scripts/bsdvm.py:1664-1738 | no command touches a file in the chain of a running dev guest, not even one that stops it |
| `GoldenImages.OldRotationRefersToItself` | scripts/bsdvm.py:1123-1141 | the former rotation yields an image that names itself and no longer opens, and only the check against the destination sees it |
| `ImageLaws.EveryCommandLawful` | scripts/bsdvm.py:1741-1786 | after any commands the next one succeeds, changes files and leaves a guest running exactly as its law says, file by file |
| `ImageLaws.UpHolds` | scripts/bsdvm.py:1664-1669 | up succeeds iff golden is there, nothing runs and the guest boots; a present dev disk is kept in every case, an absent one is made on the current golden |
| `ImageLaws.FetchHolds` | scripts/bsdvm.py:352-413 | fetch refuses by force under a golden, keeps a present base, and otherwise installs one iff it succeeds, with the stated leftovers |
| `ImageLaws.GateHolds` | scripts/bsdvm.py:1434-1555 | a gate leaves overlays of the current golden for exactly the attempts whose cleanup failed and touches nothing else |
| `ImageLaws.DestroyHolds` | scripts/bsdvm.py:1729-1738 | destroy refuses while a guest runs, keeps base, golden and golden.prev, and removes all else |
| `ImageLaws.ProvisionHolds` | scripts/bsdvm.py:1054-1113 | provision publishes an overlay of base and rotates golden, or leaves only its work overlay |
| `ImageLaws.RefreshHolds` | scripts/bsdvm.py:1116-1169 | refresh publishes a standalone image and rotates golden, or leaves its work overlay and the torso of a broken conversion |
| `ImageLaws.PublicationChecked` | scripts/bsdvm.py:981-1021 | in any state a candidate that cannot be read or names the destination is refused with nothing touched, and a publication succeeds iff the image then opens |
| `ImageDirectory.Directory.CreateOverlay` | scripts/bsdvm.py:436-445 | an existing overlay is reused, a new one links to the current backing content |
| `ImageDirectory.Directory.InvalidateConsumers` | scripts/bsdvm.py:1024-1051 | dev is moved aside and every gate overlay removed, nothing else changes |
| `ImageDirectory.Directory.Execute` | scripts/bsdvm.py:1741-1786 | the file operations of every command have the effect used in the run theorems, on every failure path |
| `ImageDirectory.Directory.CmdGate` | scripts/bsdvm.py:1434-1555 | the attempts of a gate run, one after the other, have their joint effect |
| `ImageDirectory.Directory.CmdDestroy` | scripts/bsdvm.py:1729-1738 | exactly the unprotected images are removed one by one, or all of them |
| `ImageDirectory.Directory.RunCommands` | scripts/bsdvm.py:1741-1786 | any sequence of commands leaves the directory in the state the run theorems speak of |
| `FrameBudget.Parse` | crates/carrick-el1-image/frame_budget.rs:42-132 | the line loop computes the measured frames, or fails |
| `FrameBudget.MeasureExactly` | crates/carrick-el1-image/frame_budget.rs:64-124 | the scan goes through exactly the instructions it has an amount for or may pass over, and its size is the sum of their charges |
| `FrameBudget.MeasuredExactly` | crates/carrick-el1-image/frame_budget.rs:70-124 | a function fails iff the scan meets an amount or a realignment it cannot take; otherwise it is measured at the charge up to its end or to the first call after a charge |
| `FrameBudget.FramesExactly` | crates/carrick-el1-image/frame_budget.rs:52-131 | any listing fails iff it has no function or one that fails so; otherwise every name is reported at the charge of its last function's own instructions |
| `PrologueMachine.GuardExactly` | crates/carrick-el1-image/frame_budget.rs:83-123 | of an accepted listing whose backward branches are probe loops: the charge covers the drop of SP for all amounts, all runs and any number of rounds iff uncharged SP changes stand in probe windows and realignments from x9 start from a charged x9 |
| `PrologueMachine.PeakCovered` | crates/carrick-el1-image/frame_budget.rs:46-50 | inside its probe loops too, a run that leaves them never goes below the charge |
| `PrologueMachine.ChargeBoundsDrop` | crates/carrick-el1-image/frame_budget.rs:83-117 | at the end of a tight prologue the charge is at least the real drop and exceeds it by at most 63 per x9 target |
| `PrologueMachine.ProbePrologueTight` | crates/carrick-el1-image/frame_budget.rs:776-797 | save, probe loop and residual satisfy the condition and are charged save, target, residual and 63 |
| `PrologueMachine.RealignPrologueTight` | crates/carrick-el1-image/frame_budget.rs:1102-1105 | so do save, two-part target and realignment |
| `PrologueMachine.UnchargedRealignment` | crates/carrick-el1-image/frame_budget.rs:118-123 | a function reported at 79 bytes can lower SP by any multiple of 64 through another register |
| `PrologueMachine.UnloopedStep` | crates/carrick-el1-image/frame_budget.rs:104-112 | a function reported at 79 bytes can lower SP by any amount in a window without a loop |
| `PrologueMachine.StaleRealignment` | crates/carrick-el1-image/frame_budget.rs:104-117 | a function reported at 79 bytes can lower SP by any amount through an x9 moved after its window |
| `PrologueMachine.ReportedFrameCoversDrop` | crates/carrick-el1-image/frame_budget.rs:42-132 | in any listing the reported frame of a guarded function covers its real stack use, within the slack when the prologue is tight |
| `CarrierTopology.ParseLineage` | scripts/conformance/carrier-topology-gate.py:113-165 | the event loop and the closing checks compute the ledger, or fail |
| `CarrierTopology.LineageExactly` | scripts/conformance/carrier-topology-gate.py:113-165 | a lineage is accepted iff every event in time order is admitted by those before it, nobody is left alive and the summary counts the creations and the exited; the ledger holds exactly the events' births, names and exits |
| `CarrierTopology.RunTracked` | scripts/conformance/carrier-topology-gate.py:113-141 | live and exited together are always the target and the created PIDs, each created once, execs only of created ones |
| `CarrierTopology.BirthFromLiveParent` | scripts/conformance/carrier-topology-gate.py:118-127 | every accepted birth has a parent live at that moment and a child not seen before |
| `CarrierTopology.ReachesTarget` | scripts/conformance/carrier-topology-gate.py:118-127 | every born process reaches the target through strictly earlier births |
| `CarrierTopology.CoverageImplied` | scripts/conformance/carrier-topology-gate.py:157-164 | with nothing left alive the birth-to-exit coverage check cannot fail |
| `CarrierTopology.ExitsCountBirths` | scripts/conformance/carrier-topology-gate.py:153-164 | exits outnumber births by one iff no event creates the target's PID |
| `CarrierTopology.TargetBornAgain` | scripts/conformance/carrier-topology-gate.py:118-127 | a lineage in which the target's PID is born again is accepted |
| `CarrierTopology.PendingHoldsRunStarts` | scripts/conformance/carrier-topology-gate.py:226-247 | the pending map holds exactly the current zombies, each with the first sample time of its unbroken run |
| `CarrierTopology.CensusRejectsExactly` | scripts/conformance/carrier-topology-gate.py:201-247 | over samples in time order the census rejects iff a tracked process is ever stopped, or is a zombie in every sample of a stretch of at least the grace |
| `StreamDecoders.DecodeChunked` | scripts/conformance/carrier-topology-gate.py:520-533 | the loop decodes a chunked body, or fails |
| `StreamDecoders.HexValueExactly` | scripts/conformance/carrier-topology-gate.py:526 | a size field is read iff it is blanks, a sign, a 0x prefix, digits grouped by single underscores and blanks, as the number the digits write |
| `StreamDecoders.DechunkAcceptsExactly` | scripts/conformance/carrier-topology-gate.py:520-533 | a body is accepted iff it is framed by CRLFs up to a line of size zero, each size line giving the length of its data or a negative count of what follows; the result is the data |
| `StreamDecoders.NegativeSizeAccepted` | scripts/conformance/carrier-topology-gate.py:526-532 | a chunk of size -5 followed by a last chunk decodes to its data |
| `StreamDecoders.DechunkUndoesChunked` | scripts/conformance/carrier-topology-gate.py:520-533 | any nonempty chunks, with or without extensions, decode to their concatenation whatever follows the last chunk line |
| `StreamDecoders.CutStreamRejected` | scripts/conformance/carrier-topology-gate.py:520-533 | a stream cut anywhere before the end of the last chunk line is rejected |
| `StreamDecoders.ParseDockerExecFrames` | scripts/conformance/carrier-topology-gate.py:578-598 | the loop separates the two channels, or fails |
| `StreamDecoders.DemuxUndoesMux` | scripts/conformance/carrier-topology-gate.py:578-598 | any list of frames parses to the per-channel concatenations in order |
| `StreamDecoders.DemuxAcceptsExactly` | scripts/conformance/carrier-topology-gate.py:578-598 | a payload is accepted iff it is frames one after the other, with their data by channel |
| `StreamDecoders.DemuxAcceptsBoundaries` | scripts/conformance/carrier-topology-gate.py:581-597 | a frame stream cut after k bytes is accepted iff the cut is a frame boundary, and then yields the frames before it |
| `BuildInputs.ReadDependencies` | crates/carrick-vmm-kvm/cpl0_inputs.rs:107-134 | the paths pushed are those of the manifest's entries, below the package, or for inherited entries those of the workspace table below the workspace root; it fails iff the manifest or an inherited entry is missing |
| `BuildInputs.ClosureDirs` | crates/carrick-vmm-kvm/cpl0_inputs.rs:98-138 | the growing worklist terminates with exactly the directories reachable over path dependencies, and fails iff one of them cannot be read |
| `BuildInputs.Scan` | crates/carrick-vmm-kvm/cpl0_inputs.rs:66-91 | the scanned files are the least set closed under Rust includes; the includes are listed file by file in scan order, a package file as often as it is listed and any other once; external files are exactly the targets outside all package directories |
| `BuildInputs.Derive` | crates/carrick-vmm-kvm/cpl0_inputs.rs:60-93 | both together, from the image package to the inputs |
| `SerialHelpers.SkipStaysSafe` | scripts/migrate/check-serial-host-tests.py:262-263 | skipping a function whose qualified name is already known loses no key |
| `SerialHelpers.Propagate` | scripts/migrate/check-serial-host-tests.py:247-276 | the loop terminates with exactly the least set of names closed under seeding and calling |
| `SerialHelpers.LeastClosedUnique` | scripts/migrate/check-serial-host-tests.py:259-276 | two listings of the same functions in any order have the same such set |
| `SerialHelpers.Diagnose` | scripts/migrate/check-serial-host-tests.py:278-296 | the diagnosed functions are those of the least closed set, in file order |
| `SerialHelpers.DiagnosisOrderFree` | scripts/migrate/check-serial-host-tests.py:259-296 | a function is diagnosed or not whatever the order of the functions |

## Left out

- Reading and parsing of diffs, receipts, manifests, disassembly and Rust sources: the models start from typed data, with regular-expression verdicts as line attributes.
- Subprocesses, sockets, ssh, QEMU, timeouts and console handling: only their effects on image files are kept, as outcome parameters.
- Partial effects of a process killed between two renames: renames and unlinks are taken as atomic and successful; only a gate's guarded cleanup may leave its overlay.
- The remaining receipt checks (summary counters, fault-sequence pairing, page-table receipts, copy hashes, winner counts) and the AArch64 descriptor decoding: single comparisons that would only add easy members.
- The fixed chain formulas, `maximum` and `qualified` of the frame budget: sums and maxima over the measured map.
- Machine integers: frame sizes, times and counters are unbounded, and census times are real numbers without rounding.
- Forward branches that rejoin the prologue, and conditional execution of single instructions: a run follows the listing or a probe loop.
- PrologueMachine.ChargeBoundsDrop: the upper bound has its condition on one side only; a listing that is not tight may still be close.
- MoveCounts.Allocate: fills the files in any order; the script goes in path order, which only decides which declaration additions are credited.
- SerialHelpers.Propagate: states the keys only; the reason texts depend on the visiting order and are not specified.
- Birth policy, terminal-state classification and process monitoring of the topology gate: direct comparisons over the ledger.
