# Verified model of the CKB-VM / Sail differential tester

The repository drives two RISC-V engines with the same injected instruction words, compares their
normalized traces, damages traces to show that the comparison can fail, minimizes mismatches, and publishes
generated models transactionally. This project models that logic in Dafny and proves what it is for.

`dafny verify dfyconfig.toml` checks everything. The files, in the order of the components:

- `words.dfy`, `isa.dfy`: machine words (boxed bit vectors) and a four-instruction RV64I meaning (ADD, ADDI,
  SLLI, BEQ; RISC-V Unprivileged ISA Manual, version 20191213, sections 2.2 to 2.5 and 5.2). Everything about the
  drivers is proved for an arbitrary instruction-set meaning; only the generated programs use this one.
- `encode.dfy`, `materialize.dfy`, `program.dfy`, `corpus.dfy`: word encoders, the constant-building compiler, the
  supported subset, SplitMix64 and the seeded corpus.
- `event.dfy`, `injection.dfy`, `packet.dfy`, `dii.dfy`, `startup.dfy`: events and the shadow register file, the driver
  that overwrites memory in front of a decoder cache, the packet format, the socket driver, and the startup protocol.
- `compare.dfy`, `mutation.dfy`, `matrix.dfy`, `evidence.dfy`, `evidence_matrix.dfy`, `differential.dfy`, `runcase.dfy`,
  `corpus_matrix.dfy`: the comparator, the mutation matrix, the independent validator, the differential run as a whole, its
  recorded evidence, and the matrix over the generated corpus from the generator to the validator.
- `combinations.dfy`, `minimize.dfy`: the exhaustive mismatch minimizer.
- `filesystem.dfy`, `install.dfy`, `replace_model.dfy`: publication with rollback, against an adversary that chooses
  which steps fail.
- `manifest.dfy`, `staging.dfy`: package inventories, link chains, and staging.
- `text.dfy`, `hex.dfy`, `numbers.dfy`, `radix.dfy`, `rvfi_text.dfy`, `frontends.dfy`: the text formats, and the textual reader of
  Sail's reports beside the binary one.

Where the source changes state the model does too: classes for the generator, the shadow file, the machine and its
decoder, the session, the replay oracle, the disk and its transactions, the staging destination and the record builder;
loops where the source loops. Their contracts tie them to functions, and the lemmas are about those functions.

## Where the code and its promises differ

Each of these is stated with a concrete input or with the exact condition under which the promise holds.

- A start can fail after it has connected (`set_read_timeout` and `set_write_timeout` refuse a zero timeout, for
  instance), and then its emulator is neither killed nor waited for, although a session is said to reap its child always:
  `Startup.AFailedStartMayLeaveItsChild`; exactly then: `Startup.ChildrenAreReapedUnlessTimeoutsFail`,
  `Startup.NoProcessLeftExactly`. Sessions still never share an emulator.
- The startup lock is there so that no session connects to another's emulator. When a listener of another process is
  reached on the reserved port it does not achieve that: `Startup.AStrayedSessionMayLoseItsChildToAnother` is a run in
  which one session is live with another's child. Exactly without such a connection every session is at its own child
  throughout: `Startup.SessionsReachTheirOwnChildExactly`.
- `safe_name` accepts the text ".", so an inventory may record the root of the package; such an inventory is valid and
  can never be staged, and one with an unreadable file or a closed non-empty directory needs a privileged user:
  `Staging.RecordedRootIsNeverStaged`, `Staging.ClosedDirectoryNeedsPrivilege`; exactly then: `Staging.Stage`.
- A completed run of compressed words with a nonzero upper half is refused by the validator, which compares the event's
  instruction with the word: `Evidence.CompletedRunsMayBeRefused`; exactly then: `Evidence.CompleteRunsAreAccepted`.
- The two mutation engines differ when the focus step is past the trace (the producer clamps it, the validator raises)
  and when a trace already ended at the step limit: `Evidence.MutationEnginesMayDisagree` is a one-event trace with focus
  one; exactly when they agree: `Evidence.MutationEnginesAgreeExactly`. Neither happens on an accepted artifact.
- The textual parser neither narrows compressed instructions nor filters rewrites of a held value, as the packet client
  does, so the two readers of one report may differ: `Frontends.RewritesAreReadDifferently`; exactly when they do not:
  `Frontends.FrontendsAgreeExactly`.
- `from_str_radix` takes a leading plus sign, so "0x+1" is a word and a number and "+f" is a byte:
  `Numbers.SignedHexadecimalIsRead`, `Radix.SignedTextsAreRead`; exactly what is taken: `Numbers.AcceptedExactly`,
  `Numbers.TokensAcceptedExactly`, `Hex.ByteTextsAccepted`. Long RVFI hexadecimal numbers are cut to their last sixteen
  characters before anything is checked: `Numbers.HighCharactersAreIgnored`.

## Model

| member | source | states |
|---|---|---|
| `Encode.WordsDecodeToTheirOperands` | crates/diff-test/src/encode.rs:18-75 | every in-range ADD, ADDI, SLLI or BEQ word decodes by the standard formats to exactly its operands, branch offsets included |
| `Encode.EncodingIsInjective` | crates/diff-test/src/encode.rs:13-75 | different operands give different words |
| `Encode.NopOnlyAdvances` | crates/diff-test/src/encode.rs:72-75 | the canonical NOP changes no register and moves the PC by four |
| `Program.EncodedProgramsAreAccepted` | crates/core/src/program.rs:76-88 | every list of encoded words passes program validation |
| `Program.DecodedWordsAreSupported` | crates/core/src/program.rs:50-74 | every word that decodes to a modelled instruction is in the supported subset |
| `Program.ValidateFrom` | crates/core/src/program.rs:76-88 | the error is the first unsupported word, with its index; success means there is none |
| `Materialize.Build` | crates/diff-test/src/encode.rs:84-105 | the pushing loop builds the specified program |
| `Materialize.PushWords` | crates/diff-test/src/encode.rs:99-104 | the loop emits the head and one shift-add pair per remaining chunk |
| `Materialize.ProgramBuildsTheValue` | crates/diff-test/src/encode.rs:77-105 | from any register file the program leaves exactly the value in rd, changes nothing else, advances the PC by four per word, in at most eleven words |
| `Materialize.ProgramDecodes` | crates/diff-test/src/encode.rs:77-105 | the program consists of straight-line modelled instructions only |
| `Corpus.SplitMix64.Next` | crates/diff-test/src/corpus.rs:335-341 | the draw is the mixed advanced state |
| `Corpus.UnmixInvertsMix` | crates/diff-test/src/corpus.rs:335-341 | xor-shifts and odd multiplications undone one by one give the state back, so mixing is injective |
| `Corpus.StateIsProgression` | crates/diff-test/src/corpus.rs:330-342 | after n draws the state is the seed plus n times the increment, modulo 2^64 |
| `Corpus.DrawsDoNotRepeat` | crates/diff-test/src/corpus.rs:330-342 | draws of one seed are pairwise different within 2^64 calls |
| `Corpus.DrawIsInjectiveInTheSeed` | crates/diff-test/src/corpus.rs:330-342 | the n-th draws of two seeds are equal only if the seeds are |
| `Corpus.Generate` | crates/diff-test/src/corpus.rs:272-322 | the drawing and pushing loops produce the seven specified cases in order |
| `Corpus.DrawAdd` | crates/diff-test/src/corpus.rs:276-288 | an ADD case consumes two draws in order |
| `Corpus.DrawAddi` | crates/diff-test/src/corpus.rs:290-303 | an ADDI case consumes a base draw and an immediate draw |
| `Corpus.DrawBeq` | crates/diff-test/src/corpus.rs:305-319 | a BEQ case compares equal operands in the first case and draws a second operand in the other |
| `Corpus.Setup2BuildsBothOperands` | crates/diff-test/src/corpus.rs:62-66 | the shared setup leaves both operands in place and nothing else changed |
| `Corpus.GeneratedCasesMeanTheirDraws` | crates/diff-test/src/corpus.rs:272-322 | for every seed each case sets up exactly its draws, its focus word is the instruction under test, and validation accepts it |
| `Corpus.SeedsGiveDifferentWords` | crates/diff-test/src/corpus.rs:393-407 | two different seeds give different instruction words, not merely different labels |
| `Event.NormalizationKeepsExactly` | crates/core/src/event.rs:79-85 | width normalization is idempotent and keeps exactly the full-width words and the compressed ones with a zero upper half |
| `Event.RetainWrites` | crates/core/src/event.rs:34-39 | exactly the writes to x1 and above survive, and a list without x0 writes is unchanged |
| `Event.RetainAccesses` | crates/core/src/event.rs:34-39 | exactly the accesses with a nonzero mask survive |
| `Event.WritesRetainedInPlace` | crates/core/src/event.rs:34-39 | each write is kept or dropped where it stands, so order and repetitions survive |
| `Event.AccessesRetainedInPlace` | crates/core/src/event.rs:34-39 | each access is kept or dropped where it stands, so order and repetitions survive |
| `Event.RegisterShadow.Observe` | crates/core/src/event.rs:116-126 | a write is reported exactly when it changes an integer register other than x0, and the file takes it |
| `Event.ChangedFrom` | crates/ckb-runner/src/lib.rs:151-163 | the reported writes are exactly the changed registers, lowest first, x0 never |
| `Event.ObserversAgreeOnAStep` | crates/core/src/event.rs:101-127 | one step: state difference and packet shadow report the same writes |
| `Event.ObserversAgreeOnEveryRun` | crates/core/src/event.rs:87-127 | over every run of single-write steps the two observers report the same and the shadow is the register file after every prefix |
| `Injection.FetchReturnsTheStoredWord` | crates/ckb-runner/src/injection.rs:115-126 | fetching where a word was just stored gives that word at its own width, whatever an overlapping store left around it |
| `Injection.StaleEntriesReplay` | crates/ckb-runner/src/injection.rs:115-132 | without the cache reset the old word would run, unless it coincides with the new one |
| `Injection.Decoder.Decode` | crates/ckb-runner/src/injection.rs:92-132 | a PC-indexed cache answers from its entry if it has one and remembers what it fetched |
| `Injection.Machine.Step` | crates/ckb-runner/src/injection.rs:134-181 | one step applies the meaning of the decoded word |
| `Injection.RunProgram` | crates/ckb-runner/src/injection.rs:73-181 | the memory-writing, cache-resetting driver equals positional injection for every supported program, up to the first window exit, trap or halt; empty and unsupported programs are refused |
| `Injection.RunsAreWellShaped` | crates/ckb-runner/src/injection.rs:95-181 | every run: order equals index, a contiguous PC chain from the entry, stores inside the window, increasing nonzero writes, and all words ran quietly exactly when the end is injection_complete |
| `Packet.ParseUndoesSerialize` | crates/sail-runner/src/dii.rs:405-433 | parsing a packet laid out little-endian at the documented offsets gives every field back, whatever the ignored bytes hold |
| `Packet.IntoEvent` | crates/sail-runner/src/dii.rs:436-463 | the packet's event is the specified one and the shadow takes the packet's write |
| `Dii.InjectionCommandDecodes` | crates/sail-runner/src/dii.rs:257-265 | the command word carries the command and the instruction without loss |
| `Dii.Session.Send` | crates/sail-runner/src/dii.rs:257-265 | exactly one command word is written |
| `Dii.Session.Receive` | crates/sail-runner/src/dii.rs:267-274 | the raw bytes are kept before they are decoded |
| `Dii.Session.Drive` | crates/sail-runner/src/dii.rs:217-255 | the loop is the specified drive, for every answer the peer may give |
| `Dii.PacketsCountEvents` | crates/sail-runner/src/dii.rs:217-274 | a completed session has one event per word and exactly one more raw packet, and its first packet is from reset |
| `Dii.PacketsShowStateChanges` | crates/sail-runner/src/dii.rs:436-463 | a packet seen through the shadow gives the event the state difference gives |
| `Dii.DrivingAnEmulator` | crates/sail-runner/src/dii.rs:217-255 | a session with an emulator that starts at reset returns exactly the emulator's trace |
| `Dii.DriversAgree` | crates/ckb-runner/src/injection.rs:95-181 | under one meaning the two drivers' traces agree on a prefix, and are equal exactly when the CKB-VM run completed |
| `Startup.Start` | crates/sail-runner/src/dii.rs:134-148 | at most five attempts; only lost races are passed over; the outcome is the last attempt's |
| `Startup.EveryRunKeepsTheInvariant` | crates/sail-runner/src/dii.rs:150-215 | over every interleaving the lock, the listeners, the connections and the children stay consistent |
| `Startup.OneSessionStartsAtATime` | crates/sail-runner/src/dii.rs:150-162 | at most one session is between reserving its port and being connected |
| `Startup.SessionsDoNotShareAnEmulator` | crates/sail-runner/src/dii.rs:151-199 | no two sessions of a process ever have the same emulator of it at the other end |
| `Startup.SessionsReachTheirOwnChildExactly` | crates/sail-runner/src/dii.rs:150-199 | throughout a run every connected session is at the emulator it spawned, exactly when no connection reaches a listener of another process |
| `Startup.AStrayedSessionMayLoseItsChildToAnother` | crates/sail-runner/src/dii.rs:344-361 | a concrete run in which a session that reached another process leaves its child to the next session |
| `Startup.OnlyLostRacesAreRetried` | crates/sail-runner/src/dii.rs:134-214 | a session waits again, or gives up over lost races, only by the step that reaps a child that could not bind, and gives up exactly when that was its fifth attempt in the run |
| `Startup.AtMostFiveAttempts` | crates/sail-runner/src/dii.rs:134-148 | in every interleaving a session takes the lock for an attempt at most five times, fewer while it waits for another, and exactly five when it gives up over lost races |
| `Startup.ChildrenAreReapedUnlessTimeoutsFail` | crates/sail-runner/src/dii.rs:177-214 | the lock is released with the session live or its child reaped, except exactly when a timeout cannot be set |
| `Startup.NoProcessLeftExactly` | crates/sail-runner/src/dii.rs:177-213 | in every run each process belongs to a session or has been waited for, exactly when no timeout failed to be set |
| `Startup.AFailedStartMayLeaveItsChild` | crates/sail-runner/src/dii.rs:177-187 | a concrete run whose start fails, releases the lock and leaves its emulator listening |
| `Compare.CompareReportsTheFirstDifference` | crates/core/src/compare.rs:31-123 | the comparator reports the lexicographically first differing (step, field) and passes exactly on equal nonempty events with matching ends |
| `Mutation.EveryApplicableMutationIsLocated` | crates/diff-test/src/mutation.rs:94-167 | on every passing pair a mutation is skipped exactly when it needs a register write and there is none, and otherwise is reported at its own field and step, the first difference |
| `Matrix.RunMutations` | crates/diff-test/src/mutation.rs:217-242 | the loops over cases and mutations compute the specified summary |
| `Matrix.EvaluateAll` | crates/diff-test/src/mutation.rs:233-235 | one report per mandatory mutation, in order |
| `Matrix.ReportsPerCase` | crates/diff-test/src/mutation.rs:217-242 | six reports for each case whose baseline passes, none for the others |
| `Matrix.MatrixIsEvidence` | crates/diff-test/src/mutation.rs:244-357 | nothing is undetected or mislocated, applied plus skipped is six per passing baseline, only register mutations are skipped, and the matrix passes exactly when no baseline failed and some trace commits a write |
| `Evidence.FirstDifference` | scripts/runtime_evidence.py:53-64 | the validator's nested loops find what the producer's comparator finds, on every pair of traces |
| `Evidence.Mutated` | scripts/runtime_evidence.py:67-90 | the edits on a deep copy are the specified mutation, including the index error |
| `Evidence.SearchesAgree` | scripts/runtime_evidence.py:71-72 | the validator's search for a register write finds the event the producer's does |
| `Evidence.EditsAgree` | scripts/runtime_evidence.py:75-79 | the edits of a write on unbounded integers are the producer's on words |
| `Evidence.AdvancesAgree` | scripts/runtime_evidence.py:80-81 | adding two modulo 2^64 is the producer's wrapping addition |
| `Evidence.MutationEnginesAgreeExactly` | scripts/runtime_evidence.py:67-90 | when the validator's own mutation and the producer's agree, in both directions |
| `Evidence.MutationEnginesMayDisagree` | scripts/runtime_evidence.py:80-81 | a one-event trace with focus one, which the producer edits and the validator cannot |
| `Evidence.CheckTrace` | scripts/runtime_evidence.py:113-138 | the PC-threading loop accepts exactly the traces with one quiet event per word along one PC chain from the entry |
| `Evidence.CheckWrites` | scripts/runtime_evidence.py:128-132 | accepts exactly strictly increasing register indices in 1..31 |
| `Evidence.CheckEvent` | scripts/runtime_evidence.py:119-133 | accepts exactly the events that report their word, position and PC without trap, halt or memory |
| `Evidence.CheckCase` | scripts/runtime_evidence.py:93-139 | accepts exactly the consistent artifacts with a clean baseline, equal traces and one packet more than words |
| `Evidence.MasksSelectTheFamily` | scripts/runtime_evidence.py:100-102 | the bit masks select exactly the instructions of the declared family |
| `Evidence.AcceptedArtifactsMutateAlike` | scripts/runtime_evidence.py:67-139 | on every accepted artifact the two implementations mutate alike and the validator never fails on an index |
| `Evidence.CompleteRunsAreAccepted` | scripts/runtime_evidence.py:113-138 | a completed run meets the trace conditions exactly when no word loses bits to width normalization |
| `Evidence.CompletedRunsMayBeRefused` | scripts/runtime_evidence.py:121-123 | a supported one-word program that completes and whose trace is refused |
| `EvidenceMatrix.CheckRow` | scripts/runtime_evidence.py:142-178 | a row is accepted exactly when it agrees with the recomputed mutation, field and step |
| `EvidenceMatrix.CheckKeys` | scripts/runtime_evidence.py:142-178 | accepts exactly one row for every case and mutation |
| `EvidenceMatrix.CheckKinds` | scripts/runtime_evidence.py:142-178 | accepts exactly coverage lists with every mutation once |
| `EvidenceMatrix.CheckRows` | scripts/runtime_evidence.py:151-169 | the row loop accepts exactly when every row agrees with recomputation, and counts the applied ones |
| `EvidenceMatrix.CheckCoverage` | scripts/runtime_evidence.py:171-177 | the coverage loop accepts exactly the tallies that recounting gives, one for every mutation |
| `EvidenceMatrix.CheckMutations` | scripts/runtime_evidence.py:142-178 | accepts exactly the summaries that agree with recomputation and recounting in full |
| `EvidenceMatrix.AgreeingRowsAreEqual` | scripts/runtime_evidence.py:142-178 | recomputation leaves a row no freedom but the wording of a skip, so no accepted row names another field or step |
| `EvidenceMatrix.PassingSummariesAreAccepted` | scripts/runtime_evidence.py:142-178 | every passing producer summary over recorded cases is accepted |
| `Differential.EqualEnginesPassExactly` | crates/core/src/compare.rs:31-90 | two engines with one meaning pass the exact comparison exactly when the CKB-VM run completed |
| `Differential.GeneratedCasesComplete` | crates/diff-test/src/corpus.rs:272-322 | every generated case runs to the end of its words inside the window |
| `Differential.GeneratedCasesPass` | crates/diff-test/src/corpus.rs:272-322 | for every seed two engines that implement the instruction set pass every generated case: no false alarm |
| `RunCase.RunCkb` | crates/ckb-runner/src/injection.rs:73-181 | the runner's outcome as the recorder sees it |
| `RunCase.RunSail` | crates/sail-runner/src/dii.rs:72-93 | validation, drive and shutdown: a trace counts only when the emulator exits cleanly |
| `RunCase.RunOne` | crates/diff-test/src/run.rs:76-164 | the row and the artifact for every pair of outcomes, both terminal policies, and evidence that is stored, not asked for, or could not be stored |
| `RunCase.SessionWithAnEmulator` | crates/sail-runner/src/dii.rs:72-93 | an emulator that starts at reset and exits cleanly gives its own trace and one packet more than words |
| `RunCase.SoundCasesAreAccepted` | crates/diff-test/src/run.rs:76-164 | every supported case of full-width words whose run completes is recorded as evidence the validator accepts |
| `RunCase.GeneratedCasesAreAccepted` | crates/diff-test/src/run.rs:76-164 | end to end, for every seed: each generated case run on two correct engines is accepted by the validator |
| `CorpusMatrix.AcceptedIsRecorded` | scripts/runtime_evidence.py:93-139 | an artifact the validator accepts is all the matrix check needs to have recorded of its case |
| `CorpusMatrix.SilentRunsChangeNothing` | crates/ckb-runner/src/lib.rs:151-163 | a completed run none of whose events commits a write leaves every register as it was, under any meaning |
| `CorpusMatrix.GeneratedMatrixPasses` | crates/diff-test/src/mutation.rs:217-357 | for every seed the mutation matrix over the generated cases on two correct engines passes |
| `CorpusMatrix.GeneratedMatrixIsAccepted` | scripts/runtime_evidence.py:142-178 | end to end, for every seed: its summary is accepted against the artifacts recorded of the same cases |
| `Combinations.NextCombination` | scripts/minimize_mismatch.py:121-122 | one generator step returns the least larger combination, or reports that there is none |
| `Combinations.EnumeratedAreIncreasing` | scripts/minimize_mismatch.py:121-122 | every enumerated combination has the size and is strictly increasing |
| `Combinations.EveryIncreasingListOccurs` | scripts/minimize_mismatch.py:121-122 | no combination is missing |
| `Combinations.EnumeratedInOrder` | scripts/minimize_mismatch.py:121-122 | lexicographic order, hence no duplicates |
| `Combinations.SuccessorIsNextInEnumeration` | scripts/minimize_mismatch.py:121-122 | the generator step walks the enumeration and ends with it |
| `Minimize.ProducedEvidenceHasASignature` | scripts/minimize_mismatch.py:53-83 | the producer's own comparison always has a signature, absent exactly when the traces are equal |
| `Minimize.ReplayOracle.Evaluate` | scripts/minimize_mismatch.py:143-184 | one logged replay per call, a failed one included; none once the budget is spent or the inputs changed |
| `Minimize.TryCandidate` | scripts/minimize_mismatch.py:121-124 | one candidate: a hit, a miss, or the budget or this very replay that ended the search |
| `Minimize.SearchSize` | scripts/minimize_mismatch.py:121-123 | the inner loop replays each combination of a size in turn until one has the signature |
| `Minimize.ShortestSubsequence` | scripts/minimize_mismatch.py:113-124 | every smaller candidate is replayed once, in size-then-lexicographic order, before a result is returned; a failure aborts |
| `Minimize.EverySmallerListIsACandidate` | scripts/minimize_mismatch.py:120-123 | the candidates are all nonempty smaller subsequences |
| `Minimize.CandidatesInOrder` | scripts/minimize_mismatch.py:120-123 | size first, then lexicographic, none twice |
| `Minimize.AllCandidatesCounted` | scripts/minimize_mismatch.py:120-123 | there are 2^n - 2 candidates for n words |
| `Minimize.ProgramOf` | scripts/minimize_mismatch.py:42-50 | the words are taken exactly from schema 3, one to 256 numbers of 32 bits, their own hexadecimal texts and the reset state |
| `Minimize.RecordedProgramsAreTaken` | scripts/minimize_mismatch.py:42-50 | what the producer records of one to 256 words is taken as those words, and of any other number refused |
| `Minimize.TakenProgramsReplay` | crates/diff-test/src/artifact.rs:133-156 | whatever program the minimizer takes, the replayer reads back from the same texts |
| `Minimize.Run` | scripts/minimize_mismatch.py:187-231 | what the report says about its own log, for every replay: proved, out of budget, or broken and at which replay; refused before any replay exactly for a bad classification, rationale, budget, timeout, program or signature |
| `Minimize.MinimumIsBacked` | scripts/minimize_mismatch.py:113-124 | a claimed minimum has in its log a missed replay of each candidate before it |
| `Minimize.ClaimedMinimumIsShortest` | scripts/minimize_mismatch.py:207-224 | for deterministic replays the minimum has the signature and nothing shorter, or earlier of its size, has it |
| `Minimize.IrreducibleCostsPower` | scripts/minimize_mismatch.py:143-146 | an irreducible mismatch of n words is proved with exactly 2^n replays, and with any smaller budget ends incomplete and unproved |
| `Minimize.DeterministicRunsDoNotBreak` | scripts/minimize_mismatch.py:207-227 | a deterministic mismatch is never reported broken |
| `FileSystem.Disk.Move` | scripts/generate_rebuilt_rust.py:66-69 | a rename happens entirely or not at all |
| `Install.Installation.SaveOldPair` | scripts/generate_rebuilt_rust.py:100-107 | each old object is moved away if it exists, and the flags say so at every failure |
| `Install.Installation.PutNewPair` | scripts/generate_rebuilt_rust.py:108-113 | each new object is moved into place, and the flags say so at every failure |
| `Install.Installation.Publish` | scripts/generate_rebuilt_rust.py:99-118 | succeeds exactly when no step failed and the installed digests are right |
| `Install.Installation.RollBack` | scripts/generate_rebuilt_rust.py:119-127 | whatever the flags, the old pair is published again and the new pair is kept in the backup |
| `Install.Install` | scripts/generate_rebuilt_rust.py:66-129 | whichever step fails, the pair is (new, new) on return and exactly (old, old) on raise, absence included; nothing else moves; both old trees and, once staged, both new trees are kept; it returns exactly when the targets are safe, the digests right and none of its steps fails |
| `ReplaceModel.Replacement.SaveSource` | scripts/sail_model_transaction.py:78-82 | the old source is moved away if it exists, the flag following |
| `ReplaceModel.Replacement.GenerateAndAdapt` | scripts/sail_model_transaction.py:85-90 | generation, copy and adaptation succeed exactly when no step failed and both trees are regular, and leave what the failing step leaves |
| `ReplaceModel.Replacement.MoveIntoPlace` | scripts/sail_model_transaction.py:93-100 | the old tree is moved away and the stage into place, the flags following |
| `ReplaceModel.Replacement.Recover` | scripts/sail_model_transaction.py:102-117 | unless published, both names are as before the call and every output is retained |
| `ReplaceModel.Replace` | scripts/sail_model_transaction.py:51-117 | not published: source and destination exactly as before and the output of every step reached retained; published: destination is the adapted stage and both old trees are retained; when it publishes and when it returns, exactly |
| `Manifest.Follow` | scripts/fixed_inputs.py:61-69 | the visiting loop terminates and accepts a link exactly when its lexical chain of safe names reaches a recorded file |
| `Manifest.EntriesValid` | scripts/fixed_inputs.py:47-69 | accepts exactly the valid inventories, whatever order they are listed in |
| `Manifest.CycleReachesNothing` | scripts/fixed_inputs.py:64-66 | a chain that comes back to one of its names reaches no file |
| `Manifest.UnsafeReachesNothing` | scripts/fixed_inputs.py:67-68 | a chain that leaves the package reaches no file |
| `Manifest.DeadEndReachesNothing` | scripts/fixed_inputs.py:69-69 | a chain that ends at a directory or at nothing reaches no file |
| `Manifest.BadLinksAreRefused` | scripts/fixed_inputs.py:61-69 | a link to itself, to nothing, to a directory or out of the package makes an inventory invalid |
| `Staging.VerifyArchive` | scripts/fixed_inputs.py:100-135 | accepts exactly the archives whose members are all admitted, none repeated, none missing |
| `Staging.Destination.MakeDirectories` | scripts/fixed_inputs.py:165-165 | the missing directories are made, unless something else is in the way |
| `Staging.Destination.Restore` | scripts/fixed_inputs.py:163-175 | one member adds its parents and itself; an existing file place fails |
| `Staging.Destination.RestoreAll` | scripts/fixed_inputs.py:160-176 | after the member loop the tree holds every recorded file and directory, in any archive order |
| `Staging.Destination.MakeLinks` | scripts/fixed_inputs.py:177-178 | deferred links find their places free and their parents in place |
| `Staging.Destination.SetModes` | scripts/fixed_inputs.py:179-180 | deepest-first modes never close a directory before what is below it is done |
| `Staging.ExamineNode` | scripts/fixed_inputs.py:138-150 | one walked node passes exactly when it is the recorded or implied one with a single file name |
| `Staging.VerifyStaged` | scripts/fixed_inputs.py:138-150 | the walk accepts exactly the trees that can be examined, are the recorded one, and whose files have one name each |
| `Staging.StagedTreeIsVerified` | scripts/fixed_inputs.py:138-150 | the expected tree passes its own check exactly when the root is not recorded and its owner can look into it |
| `Staging.Stage` | scripts/fixed_inputs.py:153-184 | staging succeeds exactly when the archive matches, the root is not recorded and the owner can look in, and then yields the expected tree |
| `Staging.OrderDoesNotMatter` | scripts/fixed_inputs.py:160-184 | two orders of the same members match alike and hold the same bytes |
| `Staging.EveryOrderStagesTheSameTree` | scripts/fixed_inputs.py:160-184 | what is staged from two orders of a matching archive is the same tree |
| `Staging.RecordedRootIsNeverStaged` | scripts/release_common.py:96-101 | a valid inventory that records "." and that no tree satisfies |
| `Staging.ClosedDirectoryNeedsPrivilege` | scripts/fixed_inputs.py:138-150 | a valid inventory that only a privileged user can stage |
| `Text.LinesDistribute` | crates/sail-runner/src/lib.rs:135-135 | the lines of a concatenation are the lines of its parts when the first part ends a line |
| `Text.LinesUndoesUnlines` | crates/sail-runner/src/dii.rs:470-470 | writing lines out and splitting gives the lines back |
| `Hex.ReplayProgram` | crates/diff-test/src/artifact.rs:133-156 | the program is returned exactly when the recorded case is nonempty and every word's text parses to the recorded word; errors name the offending index |
| `Hex.PrintedProgramsRead` | crates/diff-test/src/artifact.rs:133-224 | printing then reading a program is the identity for every nonempty case |
| `Hex.ByteTextsAccepted` | crates/sail-runner/src/dii.rs:484-487 | which two-character texts are read as a byte, plus sign included |
| `Hex.ParsePacketHex` | crates/sail-runner/src/dii.rs:468-491 | the line loop is the specified parse: blank and comment lines skipped, wrong lengths and empty files refused |
| `Hex.ParseLine` | crates/sail-runner/src/dii.rs:475-489 | the byte loop reads exactly the 88 bytes of a line or refuses it |
| `Hex.PrintedPacketsReadBack` | crates/diff-test/src/artifact.rs:226-237 | printing any nonempty packet list one per line and parsing it is the identity |
| `Numbers.NumbersParseToTheirValue` | crates/sail-runner/src/lib.rs:168-191 | well-formed hexadecimal and binary numbers of any length, underscores and spaces included, parse to their value modulo 2^64; decimals exactly when they fit |
| `Numbers.FromStrRadixIsChecked` | crates/sail-runner/src/lib.rs:168-191 | checked digit parsing succeeds exactly on digit strings that denote a 64-bit number |
| `Numbers.AcceptedExactly` | crates/sail-runner/src/lib.rs:174-190 | radix parsing accepts exactly digits that denote a 64-bit number, after at most one plus sign |
| `Numbers.TokensAcceptedExactly` | crates/sail-runner/src/lib.rs:168-191 | exactly which tokens are numbers, and which number, for all three prefixes |
| `Numbers.SignedHexadecimalIsRead` | crates/sail-runner/src/lib.rs:174-181 | "0x+1" is read as one |
| `Radix.RadixParsersAgree` | crates/diff-test/src/artifact.rs:140-142 | word and byte parsing read what the 64-bit parser reads within their limit, to the same number |
| `Radix.SignedTextsAreRead` | crates/diff-test/src/artifact.rs:136-142 | the word "0x+1" and the byte "+f" are read |
| `Numbers.LastDigitsAreTheResidue` | crates/sail-runner/src/lib.rs:174-187 | reading only the last digits is reading modulo 2^64 |
| `Numbers.HighCharactersAreIgnored` | crates/sail-runner/src/lib.rs:174-181 | whatever stands before the last sixteen characters is not looked at |
| `RvfiText.EventBuilder.Finish` | crates/sail-runner/src/lib.rs:82-128 | the record's event or the missing field, and the builder is reset exactly on success |
| `RvfiText.EventBuilder.Accept` | crates/sail-runner/src/lib.rs:135-164 | one line updates the field it names or is refused |
| `RvfiText.ParseRvfiText` | crates/sail-runner/src/lib.rs:131-166 | the line loop is the specified parse |
| `RvfiText.TextDistributes` | crates/sail-runner/src/lib.rs:131-166 | at a record boundary parsing distributes over concatenation |
| `RvfiText.OneEventPerOrderLine` | crates/sail-runner/src/lib.rs:158-161 | a successful parse has one event per rvfi_order line |
| `RvfiText.RecordsLeaveNothing` | crates/sail-runner/src/lib.rs:125-127 | after a record the builder is empty, whatever it started from |
| `RvfiText.RecordsParseSeparately` | crates/sail-runner/src/lib.rs:131-166 | the k-th event is the event of the k-th record read on its own, and one bad record refuses them all |
| `RvfiText.RecordsMeanTheirLastLines` | crates/sail-runner/src/lib.rs:82-166 | each field of an event is what the last line of its name says |
| `RvfiText.RecordsReadExactly` | crates/sail-runner/src/lib.rs:82-166 | a record is read exactly when each line is readable and its last lines give every required field |
| `RvfiText.WrittenLinesAreRead` | crates/sail-runner/src/lib.rs:135-141 | a line written as name, colon and number is read as that field and number |
| `Frontends.FrontendsAgreeExactly` | crates/sail-runner/src/lib.rs:82-128 | given the same values the textual parser and the packet client give the same event exactly when the instruction keeps its bits and the write changes the shadow file or is none |
| `Frontends.RewritesAreReadDifferently` | crates/sail-runner/src/lib.rs:98-101 | a concrete record and packet with the same values that the two readers turn into different events |

## Left out

- The CKB-VM and Sail engines and the full instruction set: they live in submodules that are not part of this model; an
  arbitrary meaning function and an abstract PC-indexed decoder cache stand for them.
- Sockets, processes, clocks and timeouts: a peer is an answer to the commands sent so far, which may fail at any point;
  a connection attempt reaches some listener or fails.
- Startup.SessionsDoNotShareAnEmulator: speaks of the emulators of one process; listeners of other processes have no state
  beyond the port they hold.
- `run_bytes`, `run_elf` and `max_cycles` of the CKB-VM runner, which step a whole ELF binary; only the injected-program
  driver is modelled.
- Injection.RunProgram: memory stores and cache resets do not fail in the model, so their two error ends are absent.
- Evidence.CompleteRunsAreAccepted: restricted to programs of at most 2^64 words, the most a list can hold.
- The fixed corpus cases, case descriptions and the listed week-2 order: literal data.
- Error-message texts, the left and right strings of a mismatch and JSON typing: an error is a constructor, and a skip
  reason is only known to be nonempty. An environment record is one value that is only compared.
- The trap PC reported by the Sail model for unsupported words: validated programs contain none.
- Install.Install: rollback renames do not fail and no interrupt falls between a rename and its flag, as the code assumes;
  the text of transaction.json is not kept, a save is a step that may fail.
- ReplaceModel.Replace: the callbacks are trusted to touch only the source and the stage, hard links in generated trees
  are not modelled, and a broad directory is only the root, not the home directory.
- Digests are an arbitrary function of the contents; archive and compression formats are sequences of members.
- Staging.Stage: the archive and the manifest are taken not to change during staging, the destination is new, and links
  resolve lexically as the inventory does, not through the kernel.
- Manifest.EntriesValid: names are given as the pieces of their text between slashes; rows with other keys or types are
  one unknown kind.
- Numbers.NumbersParseToTheirValue: text is ASCII, so that a character is a byte.
- Minimize.Run: the process, its files and the environment comparison of a trial are one observation of a replay; that the
  report directory already exists is not modelled.
- `terminal_from_output` and `execute_elf` guess an end reason from an emulator's printed output; `stage_cmake` and
  `install_staged_roots` unpack and move whole packages; the proof gates, `audit_release.py` and `public_claims.py` compare
  recorded hashes and fields with reviewed ones; the command lines parse options and print.
