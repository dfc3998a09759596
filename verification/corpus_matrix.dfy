/** The mutation matrix over the generated corpus, from the generator to the validator. */
module CorpusMatrix {
  import opened Words
  import opened Isa
  import opened Event
  import opened Compare
  import opened Matrix
  import opened EvidenceMatrix
  import Corpus
  import Differential
  import Dii
  import Evidence
  import Injection
  import Mutation
  import RunCase

  // ---- From accepted artifacts to the matrix ----

  /** Both runners on one case, or the failure of the first that failed. */
  function RunPair(meaning: Semantics, peer: Dii.Peer): Engines {
    (testCase: TestCase) =>
      match RunCase.CkbOutcome(meaning, testCase.instructions)
      case Err(failure) => Err(failure.text)
      case Ok(ckb) =>
        match RunCase.SailRun(peer, true, testCase.instructions)
        case Err(failure) => Err(failure.text)
        case Ok(sail) => Ok(EnginePair(ckb, sail.trace))
  }

  /** What the validator keeps of an artifact. */
  function Kept(artifact: Evidence.Artifact): EvidenceCase
    requires artifact.ckbTrace.Some? && artifact.sailTrace.Some?
  {
    EvidenceCase(artifact.ckbTrace.value, artifact.sailTrace.value, artifact.program.focusStep)
  }

  /** An accepted artifact of a case is what the matrix needs to have recorded of it. */
  lemma AcceptedIsRecorded(
    row: Evidence.Row, artifact: Evidence.Artifact, environment: string, testCase: TestCase, engines: Engines,
    evidence: Cases)
    requires Evidence.CaseAccepted(row, artifact, environment)
    requires testCase.focusStep == artifact.program.focusStep
    requires engines(testCase) == Ok(EnginePair(artifact.ckbTrace.value, artifact.sailTrace.value))
    requires testCase.id in evidence && evidence[testCase.id] == Kept(artifact)
    ensures RecordedCase(testCase, engines, evidence)
  {
    hide CompareWithPolicy, Evidence.FamilyMatches, Evidence.EventAccepted, Evidence.PacketText, Evidence.CleanBaseline;
  }

  /** The dictionary of what the engines recorded, by case. */
  function EvidenceOf(cases: seq<TestCase>, engines: Engines): Cases {
    if cases == [] then map[]
    else
      var last := cases[|cases| - 1];
      var before := EvidenceOf(cases[..|cases| - 1], engines);
      match engines(last)
      case Err(_) => before
      case Ok(pair) => before[last.id := EvidenceCase(pair.ckb, pair.sail, last.focusStep)]
  }

  ghost predicate DistinctIds(cases: seq<TestCase>) {
    forall j, k :: 0 <= j < k < |cases| ==> cases[j].id != cases[k].id
  }

  predicate HasCase(testCase: TestCase, engines: Engines, evidence: Cases) {
    && engines(testCase).Ok? && testCase.id in evidence
    && evidence[testCase.id] ==
         EvidenceCase(engines(testCase).value.ckb, engines(testCase).value.sail, testCase.focusStep)
  }

  lemma {:induction false} NamesAreOfCases(cases: seq<TestCase>, engines: Engines)
    ensures forall name :: name in EvidenceOf(cases, engines) ==> exists k :: 0 <= k < |cases| && cases[k].id == name
    decreases |cases|
  {
    if cases == [] {
      assert EvidenceOf(cases, engines) == map[];
    } else {
      var n := |cases| - 1;
      NamesAreOfCases(cases[..n], engines);
      forall name | name in EvidenceOf(cases, engines)
        ensures exists k :: 0 <= k < |cases| && cases[k].id == name
      {
        if name in EvidenceOf(cases[..n], engines) {
          var k :| 0 <= k < n && cases[..n][k].id == name;
          assert cases[k].id == name;
        } else {
          assert cases[n].id == name;
        }
      }
    }
  }

  lemma OneCaseMore(before: Cases, last: TestCase, engines: Engines)
    requires engines(last).Ok? && last.id !in before
    ensures var pair := engines(last).value;
      var now := before[last.id := EvidenceCase(pair.ckb, pair.sail, last.focusStep)];
      && |now| == |before| + 1 && HasCase(last, engines, now)
      && forall other: TestCase {:trigger HasCase(other, engines, now)} ::
           HasCase(other, engines, before) ==> HasCase(other, engines, now)
  {
    var pair := engines(last).value;
    assert before[last.id := EvidenceCase(pair.ckb, pair.sail, last.focusStep)].Keys == before.Keys + {last.id};
  }

  lemma EarlierIdsDiffer(cases: seq<TestCase>, engines: Engines, n: nat)
    requires DistinctIds(cases) && n < |cases|
    ensures DistinctIds(cases[..n]) && cases[n].id !in EvidenceOf(cases[..n], engines)
  {
    hide EvidenceOf;
    NamesAreOfCases(cases[..n], engines);
  }

  lemma {:induction false} EvidenceHasEachCase(cases: seq<TestCase>, engines: Engines)
    requires DistinctIds(cases) && forall k :: 0 <= k < |cases| ==> engines(cases[k]).Ok?
    ensures |EvidenceOf(cases, engines)| == |cases|
    ensures forall k :: 0 <= k < |cases| ==> HasCase(cases[k], engines, EvidenceOf(cases, engines))
    decreases |cases|
  {
    hide HasCase, DistinctIds;
    if cases == [] {
      assert EvidenceOf(cases, engines) == map[];
    } else {
      var n := |cases| - 1;
      var before := EvidenceOf(cases[..n], engines);
      EarlierIdsDiffer(cases, engines, n);
      EvidenceHasEachCase(cases[..n], engines);
      OneCaseMore(before, cases[n], engines);
      forall k | 0 <= k < n
        ensures HasCase(cases[k], engines, EvidenceOf(cases, engines))
      {
        assert HasCase(cases[..n][k], engines, before);
      }
    }
  }

  // ---- A run that writes ----

  lemma UnchangedWhenNothingIsReported(before: Regs, outcome: Outcome, pc: U64)
    requires ChangedRegisters(before, After(State(before, pc), outcome).registers) == []
    ensures After(State(before, pc), outcome).registers == before
  {
    var after := After(State(before, pc), outcome).registers;
    forall r: Reg
      ensures after[r] == before[r]
    {
      if r > 0 {
        assert RegisterWrite(r, after[r]) !in ChangedRegisters(before, after);
      }
    }
  }

  /** A completed run none of whose events commits a write leaves every register as it was. */
  lemma {:induction false} SilentRunsChangeNothing(meaning: Semantics, words: seq<U32>, order: nat, state: State)
    requires var run := Injection.Reference(meaning, words, order, state);
      run.trace.end == InjectionComplete && !Mutation.CommitsAWrite(run.trace)
    ensures Injection.Reference(meaning, words, order, state).state.registers == state.registers
    decreases |words|
  {
    hide Injection.EventOf, Injection.InWindow, NormalizeInstructionWidth, After, ChangedRegisters;
    if words != [] {
      var run := Injection.Reference(meaning, words, order, state);
      var outcome := meaning(NormalizeInstructionWidth(words[0]), state.registers, state.pc);
      var after := After(state, outcome);
      var event := Injection.EventOf(order, words[0], state, after, outcome.Trapped?, outcome.Halted?);
      Injection.EventShape(order, words[0], state, after, outcome.Trapped?, outcome.Halted?);
      var rest := Injection.Reference(meaning, words[1..], order + 1, after);
      assert run == Injection.Prepend(event, rest);
      assert run.trace.events[0] == event;
      UnchangedWhenNothingIsReported(state.registers, outcome, state.pc);
      forall k | 0 <= k < |rest.trace.events|
        ensures rest.trace.events[k].registerWrites == []
      {
        assert rest.trace.events[k] == run.trace.events[k + 1];
      }
      SilentRunsChangeNothing(meaning, words[1..], order + 1, after);
    }
  }

  /** On full-width words a completed run ends where positional execution does. */
  lemma {:induction false} CompletedRunsExecute(words: seq<U32>, order: nat, state: State)
    requires Injection.Reference(Execute, words, order, state).trace.end == InjectionComplete
    requires forall k :: 0 <= k < |words| ==> KeepsItsBits(words[k])
    ensures RunWords(Execute, words, state) == Some(Injection.Reference(Execute, words, order, state).state)
    decreases |words|
  {
    hide Injection.EventOf, Injection.InWindow, NormalizeInstructionWidth, After, Execute, KeepsItsBits;
    if words != [] {
      NormalizationKeepsExactly(words[0]);
      var outcome := Execute(words[0], state.registers, state.pc);
      if outcome.Retired? {
        CompletedRunsExecute(words[1..], order + 1, After(state, outcome));
      }
    }
  }

  // ---- The generated corpus ----

  function TestOf(program: Corpus.TestProgram): TestCase {
    TestCase(program.id, program.focusStep, program.instructions)
  }

  function Tests(seed: U64): seq<TestCase> {
    seq(7, k requires 0 <= k < 7 => TestOf(Corpus.GeneratedCases(seed)[k]))
  }

  const ENGINES: Engines := RunPair(Execute, Dii.Emulator(Execute))

  /** Length and two characters tell the seven identifiers apart. */
  lemma IdOfCase(seed: U64, k: nat)
    requires k < 7
    ensures var id := Corpus.CaseAt(seed, k).id;
      && |id| == (if 3 <= k < 5 then 13 else 12)
      && id[7] == (if k < 5 then 'a' else 'b')
      && id[|id| - 1] == "0123456789"[if k < 3 then k else if k < 5 then k - 3 else k - 5]
  {
    hide Corpus.Draw, Corpus.Setup2, Corpus.DrawnImmediate, Differential.Materialize.Program;
    assert |"random-add-"| == 11 && |"random-addi-"| == 12 && |"random-beq-"| == 11;
    assert "random-add-"[7] == 'a' && "random-addi-"[7] == 'a' && "random-beq-"[7] == 'b';
  }

  lemma IdsDiffer(seed: U64)
    ensures |Tests(seed)| == 7 && DistinctIds(Tests(seed))
  {
    hide Corpus.Draw, Corpus.Setup2, Corpus.DrawnImmediate, Differential.Materialize.Program;
    forall j, k | 0 <= j < k < 7
      ensures Corpus.CaseAt(seed, j).id != Corpus.CaseAt(seed, k).id
    {
      IdOfCase(seed, j);
      IdOfCase(seed, k);
    }
  }

  lemma PairOfCase(seed: U64, k: nat)
    requires k < 7
    ensures var words := Tests(seed)[k].instructions;
      && words != []
      && ENGINES(Tests(seed)[k]) ==
           Ok(EnginePair(Differential.CkbTrace(Execute, words), Differential.SailTrace(Execute, words)))
      && Differential.CkbTrace(Execute, words).end == InjectionComplete
      && Differential.CkbTrace(Execute, words) == Differential.SailTrace(Execute, words)
      && forall i :: 0 <= i < |words| ==> KeepsItsBits(words[i])
  {
    hide Corpus.CaseAt, RunCase.SailRun, Dii.Emulator, Execute, Injection.Reference, Dii.SailTrace, KeepsItsBits;
    var words := Tests(seed)[k].instructions;
    RunCase.GeneratedCasesAreSound(seed, k);
    Dii.DriversAgree(Execute, words, 0, ResetState());
    RunCase.SessionWithAnEmulator(Execute, words);
  }

  /** The two operands of the first case are different draws, so it cannot be that neither is written. */
  lemma FirstCaseWrites(seed: U64)
    ensures Mutation.CommitsAWrite(Differential.CkbTrace(Execute, Tests(seed)[0].instructions))
  {
    hide Corpus.Draw, Execute, RunWords, Injection.Reference, KeepsItsBits, Corpus.Setup2, Mutation.CommitsAWrite;
    var words := Tests(seed)[0].instructions;
    PairOfCase(seed, 0);
    if !Mutation.CommitsAWrite(Differential.CkbTrace(Execute, words)) {
      SilentRunsChangeNothing(Execute, words, 0, ResetState());
      CompletedRunsExecute(words, 0, ResetState());
      Corpus.OperandsAreReadBack(Corpus.Draw(seed, 0), Corpus.Draw(seed, 1));
      Corpus.DrawsDoNotRepeat(seed, 0, 1);
    }
  }

  lemma BaselinesPass(seed: U64, k: nat)
    requires k < 7
    ensures BaselinePasses(Tests(seed)[k], ENGINES, Exact)
  {
    hide CompareWithPolicy, Corpus.CaseAt;
    PairOfCase(seed, k);
    Differential.GeneratedCasesPass(seed, k);
  }

  lemma FailuresOfSummary(cases: seq<TestCase>, engines: Engines)
    ensures MatrixSummary(cases, engines, Exact).baselineFailures == BaselineFailures(cases, engines, Exact)
  {
    hide AllReports, BaselineFailures, Coverage, Where;
  }

  /** For every seed the matrix over the generated cases on two correct engines passes. */
  lemma GeneratedMatrixPasses(seed: U64)
    ensures MatrixSummary(Tests(seed), ENGINES, Exact).passed
  {
    hide MatrixSummary, BaselinePasses, BaselineFailures, Mutation.CommitsAWrite;
    forall k | 0 <= k < 7
      ensures BaselinePasses(Tests(seed)[k], ENGINES, Exact)
    {
      BaselinesPass(seed, k);
    }
    ReportsPerCase(Tests(seed), ENGINES, Exact);
    MatrixIsEvidence(Tests(seed), ENGINES, Exact);
    PairOfCase(seed, 0);
    FirstCaseWrites(seed);
    assert SomeCaseWrites(Tests(seed), ENGINES);
    FailuresOfSummary(Tests(seed), ENGINES);
  }

  /** The matrix runs the engines as the recorder does. */
  lemma PairIsOutcome(program: Corpus.TestProgram)
    requires ENGINES(TestOf(program)).Ok?
    ensures var pair := ENGINES(TestOf(program)).value;
      var artifact := RunCase.CaseOutcome(
        program, "", "", "replay", RunCase.Stored, Exact, RunCase.CkbOutcome(Execute, program.instructions),
        RunCase.SailRun(Dii.Emulator(Execute), true, program.instructions)).1;
      && artifact.Some? && artifact.value.ckbTrace == Some(pair.ckb) && artifact.value.sailTrace == Some(pair.sail)
      && artifact.value.program == program
  {
    hide RunCase.SailRun, RunCase.CkbOutcome, Dii.Emulator, Execute, CompareWithPolicy;
  }

  lemma CaseIsRecorded(seed: U64, k: nat)
    requires k < 7
    ensures RecordedCase(Tests(seed)[k], ENGINES, EvidenceOf(Tests(seed), ENGINES))
  {
    hide RunCase.SailRun, RunCase.CkbOutcome, Corpus.CaseAt, Dii.Emulator, Execute, EvidenceOf, RecordedCase;
    hide Evidence.CaseAccepted, Injection.Reference, Dii.SailTrace, DistinctIds, KeepsItsBits, CompareWithPolicy;
    var cases, program := Tests(seed), Corpus.GeneratedCases(seed)[k];
    IdsDiffer(seed);
    forall i | 0 <= i < 7
      ensures ENGINES(cases[i]).Ok?
    {
      PairOfCase(seed, i);
    }
    EvidenceHasEachCase(cases, ENGINES);
    assert HasCase(cases[k], ENGINES, EvidenceOf(cases, ENGINES));
    PairOfCase(seed, k);
    RunCase.GeneratedCasesAreAccepted(seed, k, "", "", "replay");
    var outcome := RunCase.CaseOutcome(
      program, "", "", "replay", RunCase.Stored, Exact, RunCase.CkbOutcome(Execute, program.instructions),
      RunCase.SailRun(Dii.Emulator(Execute), true, program.instructions));
    PairIsOutcome(program);
    AcceptedIsRecorded(outcome.0, outcome.1.value, "", cases[k], ENGINES, EvidenceOf(cases, ENGINES));
  }

  lemma BothEnginesRun(seed: U64, k: nat)
    requires k < 7
    ensures ENGINES(Tests(seed)[k]).Ok?
  {
    PairOfCase(seed, k);
  }

  lemma AllCasesAreRecorded(cases: seq<TestCase>, engines: Engines)
    requires DistinctIds(cases)
    requires forall k :: 0 <= k < |cases| ==>
      engines(cases[k]).Ok? && RecordedCase(cases[k], engines, EvidenceOf(cases, engines))
    ensures Recorded(cases, engines, EvidenceOf(cases, engines))
  {
    hide EvidenceOf, RecordedCase, HasCase, DistinctIds;
    EvidenceHasEachCase(cases, engines);
    NamesAreOfCases(cases, engines);
  }

  lemma GeneratedCasesAreRecorded(seed: U64)
    ensures Recorded(Tests(seed), ENGINES, EvidenceOf(Tests(seed), ENGINES))
  {
    hide *;
    var cases := Tests(seed);
    IdsDiffer(seed);
    forall k | 0 <= k < |cases|
      ensures ENGINES(cases[k]).Ok? && RecordedCase(cases[k], ENGINES, EvidenceOf(cases, ENGINES))
    {
      BothEnginesRun(seed, k);
      CaseIsRecorded(seed, k);
    }
    AllCasesAreRecorded(cases, ENGINES);
  }

  /** End to end: for every seed the validator accepts the summary of the matrix over the generated cases, against the
      artifacts recorded of them. */
  lemma GeneratedMatrixIsAccepted(seed: U64)
    ensures SummaryAccepted(MatrixSummary(Tests(seed), ENGINES, Exact), EvidenceOf(Tests(seed), ENGINES))
  {
    hide MatrixSummary, SummaryAccepted, EvidenceOf, Recorded, RunPair, Tests;
    GeneratedMatrixPasses(seed);
    GeneratedCasesAreRecorded(seed);
    PassingSummariesAreAccepted(Tests(seed), ENGINES, EvidenceOf(Tests(seed), ENGINES));
  }
}
