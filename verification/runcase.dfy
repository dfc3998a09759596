/** One case on both engines, and the evidence recorded of it. */
module RunCase {
  import opened Words
  import opened Isa
  import opened Event
  import opened Compare
  import opened Encode
  import opened Packet
  import Corpus
  import Differential
  import Dii
  import Evidence
  import Hex
  import Injection
  import Materialize
  import Program

  /** What went wrong on one side; `unsupported` says that its text mentions an unsupported instruction. */
  datatype Failure = Failure(text: string, unsupported: bool)

  datatype SailOutcome = SailOutcome(trace: ExecutionTrace, packets: seq<PacketBytes>)

  // ---- The two runners ----

  function CkbFailure(error: Injection.InjectionError): Failure {
    match error
    case EmptyProgram => Failure("CKB-VM runner: empty program", false)
    case UnsupportedWord(_) => Failure("CKB-VM runner: unsupported instruction", true)
  }

  function CkbOutcome(meaning: Semantics, words: seq<U32>): Result<ExecutionTrace, Failure> {
    if words == [] then Err(CkbFailure(Injection.EmptyProgram))
    else if Program.Validate(words).Err? then
      Err(CkbFailure(Injection.UnsupportedWord(Program.Validate(words).error)))
    else Ok(Differential.CkbTrace(meaning, words))
  }

  method RunCkb(meaning: Semantics, words: seq<U32>) returns (outcome: Result<ExecutionTrace, Failure>)
    ensures outcome == CkbOutcome(meaning, words)
  {
    hide Injection.Reference, Program.Validate;
    var run := Injection.RunProgram(meaning, words);
    match run {
      case Ok(finished) => outcome := Ok(finished.trace);
      case Err(error) => outcome := Err(CkbFailure(error));
    }
  }

  /** A session that has been started, driven and shut down; `exitsCleanly` is the emulator's exit status. */
  function SailRun(peer: Dii.Peer, exitsCleanly: bool, words: seq<U32>): Result<SailOutcome, Failure> {
    if words == [] then Err(Failure("Sail runner: empty program", false))
    else if Program.Validate(words).Err? then Err(Failure("Sail runner: unsupported instruction", true))
    else
      var driven := Dii.DriveFrom(peer, words, 0, [], Zeroed());
      if driven.outcome.Err? then Err(Failure("Sail runner: session failed", false))
      else if !exitsCleanly then Err(Failure("Sail runner: emulator exit", false))
      else Ok(SailOutcome(driven.outcome.value, driven.packets))
  }

  method RunSail(peer: Dii.Peer, exitsCleanly: bool, words: seq<U32>) returns (outcome: Result<SailOutcome, Failure>)
    ensures outcome == SailRun(peer, exitsCleanly, words)
  {
    hide Dii.DriveFrom, Program.Validate;
    if words == [] {
      return Err(Failure("Sail runner: empty program", false));
    }
    if Program.Validate(words).Err? {
      return Err(Failure("Sail runner: unsupported instruction", true));
    }
    var session := new Dii.Session(peer);
    var result := session.Drive(words);
    ghost var driven := Dii.Driven(result, session.rawPackets);
    assert driven == Dii.DriveFrom(peer, words, 0, [], Zeroed());
    if result.Err? {
      return Err(Failure("Sail runner: session failed", false));
    }
    if !exitsCleanly {
      return Err(Failure("Sail runner: emulator exit", false));
    }
    return Ok(SailOutcome(result.value, session.rawPackets));
  }

  // ---- The record ----

  function Classify(comparison: Evidence.Comparison, error: Option<Failure>): string {
    match comparison
    case Compared(result) => if result.Passed() then "match" else "unclassified_mismatch"
    case NotCompared => if error.Some? && error.value.unsupported then "unsupported" else "runner_error"
  }

  function TextOf(error: Option<Failure>): Option<string> {
    match error
    case None => None
    case Some(failure) => Some(failure.text)
  }

  const SCHEMA_VERSION: nat := 3

  /** Whether evidence is kept at all, and whether writing it worked. */
  datatype Storage = NoDirectory | Stored | StoreFailed

  /** The row of the report, and the artifact if one is stored: a run whose evidence could not be stored is no clean
      pass. */
  function Record(
    program: Corpus.TestProgram, description: string, environment: string, replay: string, storage: Storage,
    comparison: Evidence.Comparison, ckb: Option<ExecutionTrace>, sail: Option<ExecutionTrace>,
    packets: seq<PacketBytes>, error: Option<Failure>): (Evidence.Row, Option<Evidence.Artifact>)
  {
    var passed := comparison.Compared? && comparison.result.Passed();
    var classification := Classify(comparison, error);
    (Evidence.Row(
       program.id, description, program.family, program.focusStep, |program.instructions|,
       passed && !storage.StoreFailed?, if storage.StoreFailed? then "runner_error" else classification, comparison,
       if !storage.StoreFailed? then TextOf(error)
       else Some(if error.Some? then error.value.text + "; artifact" else "artifact")),
     if !storage.Stored? then None
     else Some(Evidence.Artifact(
                 SCHEMA_VERSION, program, description, Hex.HexWords(program.instructions), environment, ENTRY, passed,
                 classification, comparison, TextOf(error), ckb, sail, Hex.PacketLines(packets), replay)))
  }

  /** Whichever side succeeded is kept, except that packets are dropped with a failed session. */
  function CaseOutcome(
    program: Corpus.TestProgram, description: string, environment: string, replay: string, storage: Storage,
    policy: TerminalPolicy, ckb: Result<ExecutionTrace, Failure>, sail: Result<SailOutcome, Failure>)
    : (Evidence.Row, Option<Evidence.Artifact>)
  {
    match (ckb, sail)
    case (Ok(left), Ok(right)) =>
      Record(program, description, environment, replay, storage,
             Evidence.Compared(CompareWithPolicy(left, right.trace, policy)), Some(left), Some(right.trace),
             right.packets, None)
    case (Err(failure), Ok(right)) =>
      Record(program, description, environment, replay, storage, Evidence.NotCompared, None, Some(right.trace),
             right.packets, Some(failure))
    case (Err(failure), Err(_)) =>
      Record(program, description, environment, replay, storage, Evidence.NotCompared, None, None, [], Some(failure))
    case (Ok(left), Err(failure)) =>
      Record(program, description, environment, replay, storage, Evidence.NotCompared, Some(left), None, [],
          Some(failure))
  }

  /** Run both engines and record what they did. */
  method RunOne(
    program: Corpus.TestProgram, description: string, environment: string, replay: string, storage: Storage,
    policy: TerminalPolicy, meaning: Semantics, peer: Dii.Peer, exitsCleanly: bool)
    returns (row: Evidence.Row, artifact: Option<Evidence.Artifact>)
    ensures (row, artifact) ==
            CaseOutcome(program, description, environment, replay, storage, policy,
                        CkbOutcome(meaning, program.instructions),
                        SailRun(peer, exitsCleanly, program.instructions))
  {
    hide CkbOutcome, SailRun, CompareWithPolicy, Hex.HexWords, Hex.PacketLines;
    var ckb := RunCkb(meaning, program.instructions);
    var sail := RunSail(peer, exitsCleanly, program.instructions);
    var comparison, left, right, packets, error := Evidence.NotCompared, None, None, [], None;
    match ckb {
      case Ok(trace) => left := Some(trace);
      case Err(failure) => error := Some(failure);
    }
    match sail {
      case Ok(outcome) =>
        right, packets := Some(outcome.trace), outcome.packets;
      case Err(failure) =>
        if error == None {
          error := Some(failure);
        }
    }
    if left.Some? && right.Some? {
      comparison := Evidence.Compared(CompareWithPolicy(left.value, right.value, policy));
    }
    var recorded := Record(program, description, environment, replay, storage, comparison, left, right, packets, error);
    return recorded.0, recorded.1;
  }

  // ---- The corpus through both engines and the validator ----

  /** What the drivers have to do for a case to be accepted. */
  ghost predicate Sound(program: Corpus.TestProgram, meaning: Semantics) {
    var words := program.instructions;
    && program.focusStep < |words| && |words| <= TWO_TO_THE_64 && Program.Validate(words).Ok?
    && Evidence.FamilyMatches(program.family, words[program.focusStep].bits)
    && (forall k :: 0 <= k < |words| ==> KeepsItsBits(words[k]))
    && Differential.CkbTrace(meaning, words).end == InjectionComplete
  }

  lemma PacketLinesAreTexts(packets: seq<PacketBytes>, k: nat)
    requires k < |packets|
    ensures Evidence.PacketText(Hex.PacketLines(packets)[k])
  {
  }

  lemma NothingExecuted(meaning: Semantics)
    ensures Dii.EmulationAfter(meaning, []) == Dii.Emulation(ResetState(), 0) && ResetState().registers == Zeroed()
  {
  }

  /** An emulator that starts at reset and exits cleanly gives the session its own trace and one packet more than
      there are words. */
  lemma SessionWithAnEmulator(meaning: Semantics, words: seq<U32>)
    requires words != [] && Program.Validate(words).Ok?
    requires Differential.SailTrace(meaning, words).end == InjectionComplete
    ensures var outcome := SailRun(Dii.Emulator(meaning), true, words);
      && outcome.Ok? && outcome.value.trace == Differential.SailTrace(meaning, words)
      && |outcome.value.packets| == |words| + 1
  {
    hide Dii.DriveFrom, Dii.SailTrace, Program.Validate, Dii.Emulator;
    NothingExecuted(meaning);
    Dii.DrivingAnEmulator(meaning, words, 0, [], ResetState());
    Dii.PacketsCountEvents(Dii.Emulator(meaning), words, 0, [], Zeroed());
    assert words[0..] == words;
  }

  lemma AllLinesAreTexts(packets: seq<PacketBytes>)
    ensures forall k :: 0 <= k < |packets| ==> Evidence.PacketText(Hex.PacketLines(packets)[k])
  {
    forall k | 0 <= k < |packets|
      ensures Evidence.PacketText(Hex.PacketLines(packets)[k])
    {
      PacketLinesAreTexts(packets, k);
    }
  }

  /** What is recorded of one trace from both engines passes the validator's checks. */
  lemma RecordedRunIsAccepted(
    program: Corpus.TestProgram, description: string, environment: string, replay: string, trace: ExecutionTrace,
    packets: seq<PacketBytes>)
    requires var words := program.instructions;
      && program.focusStep < |words| && Evidence.FamilyMatches(program.family, words[program.focusStep].bits)
      && Evidence.TraceAccepted(words, trace) && |packets| == |words| + 1 && replay != ""
      && CompareWithPolicy(trace, trace, Exact) == CompareResult(|words|, None)
    ensures var (row, artifact) :=
        Record(program, description, environment, replay, Stored,
               Evidence.Compared(CompareWithPolicy(trace, trace, Exact)), Some(trace), Some(trace), packets, None);
      artifact.Some? && Evidence.CaseAccepted(row, artifact.value, environment)
  {
    hide Evidence.FamilyMatches, Hex.HexWords, CompareWithPolicy, Evidence.TraceAccepted, Evidence.PacketText;
    AllLinesAreTexts(packets);
  }

  /** Every sound case, run on two engines with one meaning and stored, is accepted by the validator. */
  lemma SoundCasesAreAccepted(
    program: Corpus.TestProgram, description: string, environment: string, replay: string, meaning: Semantics)
    requires Sound(program, meaning) && replay != ""
    ensures var (row, artifact) :=
        CaseOutcome(program, description, environment, replay, Stored, Exact, CkbOutcome(meaning, program.instructions),
                    SailRun(Dii.Emulator(meaning), true, program.instructions));
      artifact.Some? && Evidence.CaseAccepted(row, artifact.value, environment)
  {
    hide Injection.Reference, Dii.SailTrace, Program.Validate, Dii.Emulator, SailRun, CompareWithPolicy, Record;
    hide Evidence.CaseAccepted, Evidence.EventAccepted, KeepsItsBits, FirstDifference, Evidence.FamilyMatches;
    var words := program.instructions;
    var trace := Differential.CkbTrace(meaning, words);
    Dii.DriversAgree(meaning, words, 0, ResetState());
    SessionWithAnEmulator(meaning, words);
    Evidence.CompleteRunsAreAccepted(meaning, words);
    CompareReportsTheFirstDifference(trace, trace, Exact);
    Differential.EqualEnginesPassExactly(meaning, words);
    RecordedRunIsAccepted(
      program, description, environment, replay, trace, SailRun(Dii.Emulator(meaning), true, words).value.packets);
  }

  lemma DecodedKeepsItsBits(word: U32)
    requires !Decode(word).Other?
    ensures KeepsItsBits(word)
  {
    Differential.DecodedIsFullWidth(word);
    NormalizationKeepsExactly(word);
  }

  lemma WordsDecode(setup: seq<U32>, tested: seq<U32>)
    requires Materialize.Straight(setup) && |setup| <= 22 && |tested| <= 2
    requires forall k :: 0 <= k < |tested| ==> !Decode(tested[k]).Other?
    ensures forall k :: 0 <= k < |setup + tested| ==> !Decode((setup + tested)[k]).Other?
    ensures |setup + tested| <= 24
  {
    hide Decode;
  }

  lemma BranchWordsDecode(setup: seq<U32>)
    requires Materialize.Straight(setup) && |setup| <= 22
    ensures var words := setup + [BeqWord(1, 2, 8), AddiWord(3, 0, 1)];
      |words| <= 24 && forall k :: 0 <= k < |words| ==> !Decode(words[k]).Other?
  {
    hide Decode, BeqWord, AddiWord, SignExtend;
    DecodeBeq(1, 2, 8);
    DecodeAddi(3, 0, 1);
    WordsDecode(setup, [BeqWord(1, 2, 8), AddiWord(3, 0, 1)]);
  }

  lemma GeneratedWordsDecode(seed: U64, index: nat)
    requires index < 7
    ensures var words := Corpus.GeneratedCases(seed)[index].instructions;
      |words| <= 24 && forall k :: 0 <= k < |words| ==> !Decode(words[k]).Other?
  {
    hide Decode, AddWord, AddiWord, BeqWord, Corpus.Draw;
    hide Corpus.Setup2, Materialize.Program, Signed12, Corpus.DrawnImmediate;
    var draw := (k: nat) => Corpus.Draw(seed, k);
    if index < 3 {
      Corpus.Setup2BuildsBothOperands(1, draw(2 * index), 2, draw(2 * index + 1), ResetState());
      DecodeAdd(3, 1, 2);
      WordsDecode(Corpus.Setup2(1, draw(2 * index), 2, draw(2 * index + 1)), [AddWord(3, 1, 2)]);
    } else if index < 5 {
      var immediate := Corpus.DrawnImmediate(draw(2 * index + 1));
      Materialize.ProgramBuildsTheValue(1, draw(2 * index), ResetState());
      Materialize.ProgramDecodes(1, draw(2 * index));
      DecodeAddi(2, 1, immediate);
      WordsDecode(Materialize.Program(1, draw(2 * index)), [AddiWord(2, 1, immediate)]);
    } else {
      var left, right := if index == 5 then draw(10) else draw(11), if index == 5 then draw(10) else draw(12);
      Corpus.Setup2BuildsBothOperands(1, left, 2, right, ResetState());
      BranchWordsDecode(Corpus.Setup2(1, left, 2, right));
    }
  }

  /** The focus word of a case is of the family the case declares. */
  lemma GeneratedFocusIsOfItsFamily(seed: U64, index: nat)
    requires index < 7
    ensures var program := Corpus.GeneratedCases(seed)[index];
      && program.focusStep < |program.instructions| && Program.Validate(program.instructions).Ok?
      && Evidence.FamilyMatches(program.family, program.instructions[program.focusStep].bits)
  {
    hide Decode, Corpus.Draw, Corpus.Setup2, Materialize.Program, Corpus.DrawnImmediate, SignExtend, Program.Validate,
      RunWords, Evidence.FamilyMatches, AddWord, AddiWord, BeqWord, Execute;
    var program := Corpus.GeneratedCases(seed)[index];
    Corpus.GeneratedCasesMeanTheirDraws(seed, index);
    Evidence.MasksSelectTheFamily(program.family, program.instructions[program.focusStep]);
  }

  lemma GeneratedCasesAreSound(seed: U64, index: nat)
    requires index < 7
    ensures Sound(Corpus.GeneratedCases(seed)[index], Execute)
  {
    hide Corpus.CaseAt, Decode, KeepsItsBits, Injection.Reference, Program.Validate, Evidence.FamilyMatches, Execute;
    var words := Corpus.GeneratedCases(seed)[index].instructions;
    GeneratedWordsDecode(seed, index);
    GeneratedFocusIsOfItsFamily(seed, index);
    Differential.GeneratedCasesComplete(seed, index);
    forall k | 0 <= k < |words|
      ensures KeepsItsBits(words[k])
    {
      DecodedKeepsItsBits(words[k]);
    }
  }

  /** End to end: for every seed each generated case, run on two engines that implement the instruction set, recorded
      and stored, is accepted by the independent validator. */
  lemma GeneratedCasesAreAccepted(seed: U64, index: nat, description: string, environment: string, replay: string)
    requires index < 7 && replay != ""
    ensures var program := Corpus.GeneratedCases(seed)[index];
      var (row, artifact) :=
        CaseOutcome(program, description, environment, replay, Stored, Exact, CkbOutcome(Execute, program.instructions),
                    SailRun(Dii.Emulator(Execute), true, program.instructions));
      artifact.Some? && Evidence.CaseAccepted(row, artifact.value, environment)
  {
    hide Corpus.CaseAt, Sound, CkbOutcome, SailRun, CaseOutcome, Evidence.CaseAccepted;
    GeneratedCasesAreSound(seed, index);
    SoundCasesAreAccepted(Corpus.GeneratedCases(seed)[index], description, environment, replay, Execute);
  }
}
