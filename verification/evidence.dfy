/** The independent validator: a second implementation of the comparison and of the mutations, and
    the rules by which it accepts an artifact and a mutation summary. */
module Evidence {
  import opened Words
  import opened Isa
  import opened Event
  import opened Compare
  import opened Mutation
  import opened Matrix
  import opened Hex
  import Injection
  import Program
  import Corpus

  // ---- Recomputing the comparison ----

  const FIELDS: seq<Field> := [Order, Instruction, PcBefore, PcAfter, RegisterWrites, Memory, TrapFlag, HaltFlag]

  lemma FieldOrder(left: CommitEvent, right: CommitEvent, k: nat)
    requires k <= 8 && forall j :: 0 <= j < k ==> !DiffersIn(left, right, FIELDS[j])
    ensures k < 8 && DiffersIn(left, right, FIELDS[k]) ==> CompareEvent(left, right) == Some(FIELDS[k])
    ensures k == 8 ==> CompareEvent(left, right) == None
  {
    var fields := FIELDS;
    assert fields[0].Order? && fields[1].Instruction? && fields[2].PcBefore? && fields[3].PcAfter? &&
           fields[4].RegisterWrites? && fields[5].Memory? && fields[6].TrapFlag? && fields[7].HaltFlag?;
  }

  /** Two nested loops over events and field names find what the producer's comparator finds, on every
      pair of traces, under the exact terminal policy. */
  method FirstDifference(left: ExecutionTrace, right: ExecutionTrace) returns (field: Option<Field>, step: Option<nat>)
    ensures match CompareWithPolicy(left, right, Exact).mismatch
      case None => field == None && step == None
      case Some(at) => field == Some(at.field) && step == at.step
  {
    hide CompareEvent, DiffersIn;
    var common := Min(|left.events|, |right.events|);
    for i := 0 to common
      invariant CompareEvents(left.events, right.events, 0) == CompareEvents(left.events, right.events, i)
    {
      var a, b := left.events[i], right.events[i];
      for k := 0 to 8
        invariant forall j :: 0 <= j < k ==> !DiffersIn(a, b, FIELDS[j])
      {
        FieldOrder(a, b, k);
        if DiffersIn(a, b, FIELDS[k]) {
          return Some(FIELDS[k]), Some(i);
        }
      }
      FieldOrder(a, b, 8);
    }
    if |left.events| != |right.events| {
      return Some(TraceLength), Some(common);
    }
    if left.end != right.end {
      return Some(Termination), None;
    }
    if left.events == [] {
      return Some(EmptyTrace), None;
    }
    return None, None;
  }

  // ---- Recomputing the mutations ----

  datatype Mutant = Mutant(trace: ExecutionTrace) | NotApplicable | IndexError

  // The validator works on a deep copy, on unbounded integers, with an index that is not clamped.
  /** `(pc + 2) % 2 ** 64` */
  function AdvancedPc(pc: U64): U64 { ToU64((Value(pc) + 2) % TWO_TO_THE_64) }

  /** `value ^ 1`: the other number of the same pair. */
  function FlippedValue(value: U64): U64 {
    ToU64(if Value(value) % 2 == 0 then Value(value) + 1 else Value(value) - 1)
  }

  function NextIndex(index: Byte): Byte { if index >= 31 then 1 else index + 1 }

  /** The position of the first row with a write, searched over longer and longer prefixes. */
  function NextWriting(rows: seq<CommitEvent>): Option<nat> {
    if rows == [] then None
    else
      var last := |rows| - 1;
      match NextWriting(rows[..last])
      case Some(i) => Some(i)
      case None => if rows[last].registerWrites != [] then Some(last) else None
  }

  lemma {:induction false} NextWritingIsFirst(rows: seq<CommitEvent>)
    ensures match NextWriting(rows)
      case Some(i) => i < |rows| && rows[i].registerWrites != [] &&
                      forall j :: 0 <= j < i ==> rows[j].registerWrites == []
      case None => forall j :: 0 <= j < |rows| ==> rows[j].registerWrites == []
  {
    if rows != [] {
      NextWritingIsFirst(rows[..|rows| - 1]);
    }
  }

  function EditEvent(trace: ExecutionTrace, index: nat, edited: CommitEvent): Mutant
    requires index < |trace.events|
  {
    Mutant(ExecutionTrace(trace.events[..index] + [edited] + trace.events[index + 1..], trace.end))
  }

  /** The edit of the first write of an event. */
  function EditWrite(kind: MutationKind, event: CommitEvent): CommitEvent
    requires event.registerWrites != []
  {
    var RegisterWrite(index, value) := event.registerWrites[0];
    var edited :=
      if kind.ChangeIndex? then RegisterWrite(NextIndex(index), value) else RegisterWrite(index, FlippedValue(value));
    event.(registerWrites := [edited] + event.registerWrites[1..])
  }

  /** The focus event if it writes, else the first event that does; the focus is looked up first. */
  function WriteMutant(kind: MutationKind, trace: ExecutionTrace, focus: nat): Mutant {
    if focus >= |trace.events| then IndexError
    else if trace.events[focus].registerWrites != [] then
      EditEvent(trace, focus, EditWrite(kind, trace.events[focus]))
    else
      NextWritingIsFirst(trace.events);
      match NextWriting(trace.events)
      case None => NotApplicable
      case Some(i) => EditEvent(trace, i, EditWrite(kind, trace.events[i]))
  }

  function PyMutated(kind: MutationKind, trace: ExecutionTrace, focus: nat): Mutant {
    match kind
    case ChangeIndex => WriteMutant(kind, trace, focus)
    case FlipValue => WriteMutant(kind, trace, focus)
    case AdvancePc =>
      if focus >= |trace.events| then IndexError
      else EditEvent(trace, focus, trace.events[focus].(pcAfter := AdvancedPc(trace.events[focus].pcAfter)))
    case InvertTrap =>
      if focus >= |trace.events| then IndexError
      else EditEvent(trace, focus, trace.events[focus].(trap := !trace.events[focus].trap))
    case DropLast =>
      if trace.events == [] then IndexError
      else Mutant(ExecutionTrace(trace.events[..|trace.events| - 1], trace.end))
    case ChangeEnd => Mutant(ExecutionTrace(trace.events, StepLimit))
  }

  lemma {:induction false} NextWritingUpTo(rows: seq<CommitEvent>, index: nat)
    requires index <= |rows| && forall j :: 0 <= j < index ==> rows[j].registerWrites == []
    ensures index == |rows| ==> NextWriting(rows) == None
    ensures index < |rows| && rows[index].registerWrites != [] ==> NextWriting(rows) == Some(index)
  {
    NextWritingIsFirst(rows);
  }

  lemma SetInPlace(events: seq<CommitEvent>, index: nat, edited: CommitEvent)
    requires index < |events|
    ensures events[index := edited] == events[..index] + [edited] + events[index + 1..]
  {
  }

  /** The edits on a deep copy, in the validator's own order of cases. */
  method Mutated(trace: ExecutionTrace, kind: MutationKind, focus: nat) returns (mutant: Mutant)
    ensures mutant == PyMutated(kind, trace, focus)
  {
    hide AdvancedPc, FlippedValue, NextWriting;
    var events := trace.events;
    if kind.ChangeIndex? || kind.FlipValue? {
      if focus >= |events| {
        return IndexError;
      }
      var index := focus;
      if events[focus].registerWrites == [] {
        index := 0;
        while index < |events| && events[index].registerWrites == []
          invariant index <= |events| && forall j :: 0 <= j < index ==> events[j].registerWrites == []
        {
          index := index + 1;
        }
        NextWritingUpTo(events, index);
        if index == |events| {
          return NotApplicable;
        }
      }
      var write := events[index].registerWrites[0];
      if kind.ChangeIndex? {
        write := write.(index := if write.index >= 31 then 1 else write.index + 1);
      } else {
        write := write.(value := FlippedValue(write.value));
      }
      ghost var writes := events[index].registerWrites;
      assert writes[0 := write] == [write] + writes[1..];
      events := events[index := events[index].(registerWrites := events[index].registerWrites[0 := write])];
      SetInPlace(trace.events, index, events[index]);
    } else if kind.AdvancePc? {
      if focus >= |events| {
        return IndexError;
      }
      events := events[focus := events[focus].(pcAfter := AdvancedPc(events[focus].pcAfter))];
      SetInPlace(trace.events, focus, events[focus]);
    } else if kind.InvertTrap? {
      if focus >= |events| {
        return IndexError;
      }
      events := events[focus := events[focus].(trap := !events[focus].trap)];
      SetInPlace(trace.events, focus, events[focus]);
    } else if kind.DropLast? {
      if events == [] {
        return IndexError;
      }
      events := events[..|events| - 1];
    } else {
      return Mutant(trace.(end := StepLimit));
    }
    mutant := Mutant(trace.(events := events));
  }

  /** The producer's result and the validator's stand for the same thing. */
  predicate SameMutation(produced: Result<ExecutionTrace, string>, recomputed: Mutant) {
    match recomputed
    case Mutant(trace) => produced == Ok(trace)
    case NotApplicable => produced.Err?
    case IndexError => false
  }

  /** The two searches for a register write find the same event. */
  lemma SearchesAgree(events: seq<CommitEvent>)
    ensures NextWriting(events) == FirstWrite(events, 0)
  {
    NextWritingIsFirst(events);
  }

  lemma ValueIsVal(value: U64)
    ensures Value(value) == Val(value.bits) && U64(value.bits) == value
  {
  }

  /** The edits themselves agree: on words and on numbers, by index and by splicing. */
  lemma EditsAgree(kind: MutationKind, event: CommitEvent)
    requires event.registerWrites != [] && (kind.ChangeIndex? || kind.FlipValue?)
    ensures var write := event.registerWrites[0];
      EditWrite(kind, event) == event.(registerWrites := event.registerWrites[
        0 := if kind.ChangeIndex? then write.(index := OtherIndex(write.index))
            else write.(value := FlipLowBit(write.value))])
  {
    hide ToU64, Value;
    FlippingTheLowBit(event.registerWrites[0].value.bits);
    ValueIsVal(event.registerWrites[0].value);
  }

  lemma AdvancesAgree(pc: U64)
    ensures AdvancedPc(pc) == AdvanceByTwo(pc)
  {
    hide ToU64, Value, Plus;
    AddingTwoWraps(pc.bits);
    ValueIsVal(pc);
  }

  lemma WriteMutantsAgree(kind: MutationKind, trace: ExecutionTrace, focus: nat)
    requires (kind.ChangeIndex? || kind.FlipValue?) && focus < |trace.events|
    ensures SameMutation(Apply(kind, trace, focus), WriteMutant(kind, trace, focus))
  {
    hide FirstWrite, NextWriting, EditWrite, OtherIndex, FlipLowBit;
    SearchesAgree(trace.events);
    NextWritingIsFirst(trace.events);
    var index := WriteIndex(trace, focus);
    if index.Ok? {
      EditsAgree(kind, trace.events[index.value]);
      SetInPlace(trace.events, index.value, EditWrite(kind, trace.events[index.value]));
    }
  }

  /** Exactly when the two mutation engines agree: the focus is an event of the trace, and a trace
      whose end is mutated did not already end at the step limit. */
  lemma MutationEnginesAgreeExactly(kind: MutationKind, trace: ExecutionTrace, focus: nat)
    ensures SameMutation(Apply(kind, trace, focus), PyMutated(kind, trace, focus)) <==>
            match kind
            case ChangeEnd => !trace.end.StepLimit?
            case DropLast => trace.events != []
            case _ => focus < |trace.events|
  {
    hide WriteIndex, AdvancedPc, AdvanceByTwo, NextWriting, EditWrite;
    match kind {
      case ChangeIndex | FlipValue =>
        if focus < |trace.events| {
          WriteMutantsAgree(kind, trace, focus);
        }
      case AdvancePc =>
        if focus < |trace.events| {
          var event := trace.events[focus];
          AdvancesAgree(event.pcAfter);
          SetInPlace(trace.events, focus, event.(pcAfter := AdvancedPc(event.pcAfter)));
        }
      case InvertTrap =>
        if focus < |trace.events| {
          SetInPlace(trace.events, focus, trace.events[focus].(trap := !trace.events[focus].trap));
        }
      case DropLast =>
      case ChangeEnd =>
        assert trace.(end := InjectionComplete) != trace.(end := StepLimit);
    }
  }

  /** A focus just past a one-event trace: the producer edits the last event, the validator raises. */
  lemma MutationEnginesMayDisagree(event: CommitEvent)
    ensures var trace := ExecutionTrace([event], InjectionComplete);
      Apply(AdvancePc, trace, 1).Ok? && PyMutated(AdvancePc, trace, 1) == IndexError
  {
  }

  // ---- Accepting an artifact ----

  ghost predicate EventAccepted(i: nat, word: U32, event: CommitEvent, pc: U64) {
    && Value(event.order) == i && event.instruction == word && event.pcBefore == pc
    && !event.trap && !event.halt && event.memory == []
    && Injection.NormalizedWrites(event.registerWrites)
  }

  /** The conditions on a corpus trace: the input stream executed word for word along one PC chain from
      the entry, without traps, halts or memory accesses, with normalized register writes. */
  ghost predicate TraceAccepted(words: seq<U32>, trace: ExecutionTrace) {
    && |trace.events| == |words| && trace.end == InjectionComplete
    && forall i :: 0 <= i < |words| ==>
         EventAccepted(i, words[i], trace.events[i], Injection.ChainPc(trace.events, i, ENTRY))
  }

  /** `indices == sorted(set(indices))` with every index in 1..31, as one pass over neighbours. */
  method CheckWrites(writes: seq<RegisterWrite>) returns (ok: bool)
    ensures ok == Injection.NormalizedWrites(writes)
  {
    for k := 0 to |writes|
      invariant Injection.NormalizedWrites(writes[..k])
    {
      var index := writes[k].index;
      if !(1 <= index <= 31) || (k > 0 && writes[k - 1].index >= index) {
        return false;
      }
    }
    assert writes[..|writes|] == writes;
    return true;
  }

  method CheckEvent(i: nat, word: U32, event: CommitEvent, pc: U64) returns (ok: bool)
    ensures ok == EventAccepted(i, word, event, pc)
  {
    hide Value, Injection.NormalizedWrites;
    var normalized := CheckWrites(event.registerWrites);
    ok := Value(event.order) == i && event.instruction == word && event.pcBefore == pc
          && !event.trap && !event.halt && event.memory == [] && normalized;
  }

  method CheckTrace(words: seq<U32>, trace: ExecutionTrace) returns (ok: bool)
    ensures ok == TraceAccepted(words, trace)
  {
    hide EventAccepted;
    if |trace.events| != |words| || trace.end != InjectionComplete {
      return false;
    }
    var pc := ENTRY;
    for i := 0 to |words|
      invariant pc == Injection.ChainPc(trace.events, i, ENTRY)
      invariant forall k :: 0 <= k < i ==>
                  EventAccepted(k, words[k], trace.events[k], Injection.ChainPc(trace.events, k, ENTRY))
    {
      var accepted := CheckEvent(i, words[i], trace.events[i], pc);
      if !accepted {
        return false;
      }
      pc := trace.events[i].pcAfter;
    }
    return true;
  }

  datatype Comparison = NotCompared | Compared(result: CompareResult)

  /** What one recorded run keeps; the environment is one value that is only compared. */
  datatype Artifact = Artifact(
    schemaVersion: nat, program: Corpus.TestProgram, description: string, instructionsHex: seq<string>,
    environment: string, initialPc: U64,
    passed: bool, classification: string, comparison: Comparison, error: Option<string>,
    ckbTrace: Option<ExecutionTrace>, sailTrace: Option<ExecutionTrace>, sailRawPackets: seq<string>, replay: string)

  datatype Row = Row(
    id: string, description: string, family: Corpus.Family, focusStep: nat, instructions: nat,
    passed: bool, classification: string, comparison: Comparison, error: Option<string>)

  /** `words[focus] & mask == value` for the declared family. */
  predicate FamilyMatches(family: Corpus.Family, bits: bv32) {
    match family
    case ADD => bits & 0xfe00707f == 0x33
    case ADDI => bits & 0x707f == 0x13
    case BEQ => bits & 0x707f == 0x63
  }

  lemma MaskAdd(bits: bv32)
    ensures bits & 0xfe00707f == 0x33 <==> Opcode(bits) == 0x33 && Funct3(bits) == 0 && Funct7(bits) == 0
  {
  }

  lemma MaskAddi(bits: bv32)
    ensures bits & 0x707f == 0x13 <==> Opcode(bits) == 0x13 && Funct3(bits) == 0
  {
  }

  lemma MaskBeq(bits: bv32)
    ensures bits & 0x707f == 0x63 <==> Opcode(bits) == 0x63 && Funct3(bits) == 0
  {
  }

  /** The masks select exactly the instruction each family is named after. */
  lemma MasksSelectTheFamily(family: Corpus.Family, word: U32)
    ensures FamilyMatches(family, word.bits) <==>
            match family
            case ADD => Decode(word).Add?
            case ADDI => Decode(word).Addi?
            case BEQ => Decode(word).Beq?
  {
    hide Rd, Rs1, Rs2, SignExtend, ImmediateI, ImmediateB;
    MaskAdd(word.bits);
    MaskAddi(word.bits);
    MaskBeq(word.bits);
  }

  /** `[0-9a-f]{176}` */
  predicate PacketText(text: string) {
    |text| == 176 && forall k :: 0 <= k < |text| ==> IsLowerDigit(text[k])
  }

  predicate CleanBaseline(passed: bool, classification: string, error: Option<string>, comparison: Comparison,
      words: nat) {
    passed && classification == "match" && error == None && comparison == Compared(CompareResult(words, None))
  }

  ghost predicate CaseAccepted(row: Row, artifact: Artifact, environment: string) {
    var program := artifact.program;
    var words := program.instructions;
    && artifact.schemaVersion == 3 && words != [] && program.focusStep < |words|
    && artifact.instructionsHex == HexWords(words)
    && FamilyMatches(program.family, words[program.focusStep].bits)
    && artifact.initialPc == ENTRY && artifact.environment == environment
    && row.id == program.id && row.description == artifact.description
    && row.family == program.family && row.focusStep == program.focusStep
    && row.instructions == |words|
    && CleanBaseline(row.passed, row.classification, row.error, row.comparison, |words|)
    && CleanBaseline(artifact.passed, artifact.classification, artifact.error, artifact.comparison, |words|)
    && artifact.ckbTrace.Some? && TraceAccepted(words, artifact.ckbTrace.value)
    && artifact.sailTrace.Some? && TraceAccepted(words, artifact.sailTrace.value)
    && CompareWithPolicy(artifact.ckbTrace.value, artifact.sailTrace.value, Exact).Passed()
    && |artifact.sailRawPackets| == |words| + 1
    && (forall k :: 0 <= k < |artifact.sailRawPackets| ==> PacketText(artifact.sailRawPackets[k]))
    && artifact.replay != ""
  }

  method CheckCase(row: Row, artifact: Artifact, environment: string) returns (ok: bool)
    ensures ok == CaseAccepted(row, artifact, environment)
  {
    hide FamilyMatches, HexWords, TraceAccepted, CompareWithPolicy, PacketText, CleanBaseline;
    var program := artifact.program;
    var words := program.instructions;
    if artifact.schemaVersion != 3 || words == [] || program.focusStep >= |words|
       || artifact.instructionsHex != HexWords(words)
       || !FamilyMatches(program.family, words[program.focusStep].bits)
       || artifact.initialPc != ENTRY || artifact.environment != environment
       || row.id != program.id || row.description != artifact.description
       || row.family != program.family || row.focusStep != program.focusStep
       || row.instructions != |words|
       || !CleanBaseline(row.passed, row.classification, row.error, row.comparison, |words|)
       || !CleanBaseline(artifact.passed, artifact.classification, artifact.error, artifact.comparison, |words|) {
      return false;
    }
    if artifact.ckbTrace.None? || artifact.sailTrace.None? {
      return false;
    }
    var ckb := CheckTrace(words, artifact.ckbTrace.value);
    var sail := CheckTrace(words, artifact.sailTrace.value);
    if !ckb || !sail {
      return false;
    }
    var field, step := FirstDifference(artifact.ckbTrace.value, artifact.sailTrace.value);
    if field != None || step != None || |artifact.sailRawPackets| != |words| + 1 {
      return false;
    }
    for k := 0 to |artifact.sailRawPackets|
      invariant forall i :: 0 <= i < k ==> PacketText(artifact.sailRawPackets[i])
    {
      if !PacketText(artifact.sailRawPackets[k]) {
        return false;
      }
    }
    return artifact.replay != "";
  }

  // ---- What acceptance means for the producer ----

  /** On every accepted artifact the two implementations produce the same mutated trace, or both
      report that a register mutation does not apply. */
  lemma AcceptedArtifactsMutateAlike(row: Row, artifact: Artifact, environment: string, kind: MutationKind)
    requires CaseAccepted(row, artifact, environment)
    ensures var (trace, focus) := (artifact.ckbTrace.value, artifact.program.focusStep);
      && SameMutation(Apply(kind, trace, focus), PyMutated(kind, trace, focus))
      && PyMutated(kind, trace, focus) != IndexError
  {
    hide Apply, PyMutated, FamilyMatches, HexWords, EventAccepted, CompareWithPolicy, PacketText, CleanBaseline;
    MutationEnginesAgreeExactly(kind, artifact.ckbTrace.value, artifact.program.focusStep);
  }

  lemma LinkedEventAccepted(i: nat, word: U32, event: CommitEvent, pc: U64)
    requires i < TWO_TO_THE_64 && Injection.Link(word, event, i, pc) && Injection.Quiet(event)
    ensures EventAccepted(i, word, event, pc) <==> KeepsItsBits(word)
  {
    hide NormalizeInstructionWidth, Injection.InWindow, Value, ToU64, Injection.NormalizedWrites, KeepsItsBits;
    ValToU64(i);
    NormalizationKeepsExactly(word);
  }

  /** A completed CKB-VM run meets the trace conditions exactly when no word had bits to lose to width
      normalization: full-width words always, compressed ones only with a zero upper half. */
  lemma CompleteRunsAreAccepted(meaning: Semantics, words: seq<U32>)
    requires |words| <= TWO_TO_THE_64
    requires Injection.Reference(meaning, words, 0, ResetState()).trace.end == InjectionComplete
    ensures TraceAccepted(words, Injection.Reference(meaning, words, 0, ResetState()).trace) <==>
            forall i :: 0 <= i < |words| ==> KeepsItsBits(words[i])
  {
    hide Injection.Reference, EventAccepted, Injection.Link, Injection.Quiet, KeepsItsBits;
    var trace := Injection.Reference(meaning, words, 0, ResetState()).trace;
    Injection.RunsAreWellShaped(meaning, words, 0, ResetState());
    forall i | 0 <= i < |words|
      ensures EventAccepted(i, words[i], trace.events[i], Injection.ChainPc(trace.events, i, ENTRY)) <==>
              KeepsItsBits(words[i])
    {
      assert Injection.Link(words[i], trace.events[i], 0 + i, Injection.ChainPc(trace.events, i, ENTRY));
      LinkedEventAccepted(i, words[i], trace.events[i], Injection.ChainPc(trace.events, i, ENTRY));
    }
  }

  // ---- A completed run that is refused ----

  /** Every word retires, writes nothing and goes on to the next word. */
  function Retiring(word: U32, registers: Regs, pc: U64): Outcome { Retired(0, U64(0), Plus(pc, WORD_BYTES)) }

  const MIXED_WORD: U32 := U32(0xdead_0505)

  /** A compressed instruction with other bits above it is supported and completes, and its trace is refused: the
      event reports only the instruction's own half. */
  lemma CompletedRunsMayBeRefused()
    ensures var trace := Injection.Reference(Retiring, [MIXED_WORD], 0, ResetState()).trace;
      && Program.Validate([MIXED_WORD]).Ok? && trace.end == InjectionComplete
      && !TraceAccepted([MIXED_WORD], trace)
  {
    hide EventAccepted, TraceAccepted, Injection.EventOf;
    assert [MIXED_WORD][1..] == [];
    assert !KeepsItsBits([MIXED_WORD][0]);
    CompleteRunsAreAccepted(Retiring, [MIXED_WORD]);
  }
}
