/** The mandatory mutation matrix: damage a passing trace and demand that the damage is located. */
module Mutation {
  import opened Words
  import opened Event
  import opened Compare

  datatype MutationKind = AdvancePc | ChangeIndex | FlipValue | InvertTrap | DropLast | ChangeEnd

  const MANDATORY_MUTATIONS: seq<MutationKind> :=
    [AdvancePc, ChangeIndex, FlipValue, InvertTrap, DropLast, ChangeEnd]

  function ExpectedField(kind: MutationKind): Field {
    match kind
    case AdvancePc => PcAfter
    case ChangeIndex | FlipValue => RegisterWrites
    case InvertTrap => TrapFlag
    case DropLast => TraceLength
    case ChangeEnd => Termination
  }

  /** The focus event, clamped to the last one. */
  function EventIndex(trace: ExecutionTrace, focusStep: nat): Result<nat, string> {
    if trace.events == [] then Err("the trace commits no events") else Ok(Min(focusStep, |trace.events| - 1))
  }

  /** The first event from `k` on that commits a register write. */
  function FirstWrite(events: seq<CommitEvent>, k: nat): (found: Option<nat>)
    requires k <= |events|
    ensures match found
      case Some(i) => k <= i < |events| && events[i].registerWrites != [] &&
                      forall j :: k <= j < i ==> events[j].registerWrites == []
      case None => forall j :: k <= j < |events| ==> events[j].registerWrites == []
    decreases |events| - k
  {
    if k == |events| then None else if events[k].registerWrites != [] then Some(k) else FirstWrite(events, k + 1)
  }

  /** The event a register mutation lands on: the focus, unless only other events commit writes. */
  function WriteIndex(trace: ExecutionTrace, focusStep: nat): (index: Result<nat, string>)
    ensures index.Ok? ==> index.value < |trace.events| && trace.events[index.value].registerWrites != []
  {
    if focusStep < |trace.events| && trace.events[focusStep].registerWrites != [] then Ok(focusStep)
    else
      match FirstWrite(trace.events, 0)
      case Some(index) => Ok(index)
      case None => Err("the trace commits no register write")
  }

  function OtherIndex(index: Byte): Byte { if index >= 31 then 1 else index + 1 }

  function FlipLowBit(value: U64): U64 { U64(value.bits ^ 1) }

  function AdvanceByTwo(pc: U64): U64 { Plus(pc, U64(2)) }

  function ReplaceEvent(trace: ExecutionTrace, index: nat, event: CommitEvent): ExecutionTrace
    requires index < |trace.events|
  {
    trace.(events := trace.events[index := event])
  }

  function ReplaceFirstWrite(trace: ExecutionTrace, index: nat, write: RegisterWrite): ExecutionTrace
    requires index < |trace.events| && trace.events[index].registerWrites != []
  {
    var event := trace.events[index];
    ReplaceEvent(trace, index, event.(registerWrites := event.registerWrites[0 := write]))
  }

  /** Apply the mutation to a copy of the trace, at the instruction under test where it can carry it. */
  function Apply(kind: MutationKind, trace: ExecutionTrace, focusStep: nat): Result<ExecutionTrace, string> {
    match kind
    case AdvancePc =>
      (match EventIndex(trace, focusStep)
       case Err(reason) => Err(reason)
       case Ok(index) =>
         var event := trace.events[index];
         Ok(ReplaceEvent(trace, index, event.(pcAfter := AdvanceByTwo(event.pcAfter)))))
    case ChangeIndex =>
      (match WriteIndex(trace, focusStep)
       case Err(reason) => Err(reason)
       case Ok(index) =>
         var write := trace.events[index].registerWrites[0];
         Ok(ReplaceFirstWrite(trace, index, write.(index := OtherIndex(write.index)))))
    case FlipValue =>
      (match WriteIndex(trace, focusStep)
       case Err(reason) => Err(reason)
       case Ok(index) =>
         var write := trace.events[index].registerWrites[0];
         Ok(ReplaceFirstWrite(trace, index, write.(value := FlipLowBit(write.value)))))
    case InvertTrap =>
      (match EventIndex(trace, focusStep)
       case Err(reason) => Err(reason)
       case Ok(index) =>
         var event := trace.events[index];
         Ok(ReplaceEvent(trace, index, event.(trap := !event.trap))))
    case DropLast =>
      if trace.events == [] then Err("the trace commits no events to drop")
      else Ok(trace.(events := trace.events[..|trace.events| - 1]))
    case ChangeEnd =>
      Ok(trace.(end := if trace.end.StepLimit? then InjectionComplete else StepLimit))
  }

  /** The step at which a mutation of a trace with events has to be found. */
  function ExpectedStep(kind: MutationKind, trace: ExecutionTrace, focusStep: nat): Option<nat>
    requires trace.events != []
  {
    match kind
    case AdvancePc | InvertTrap => Some(Min(focusStep, |trace.events| - 1))
    case ChangeIndex | FlipValue =>
      var index := WriteIndex(trace, focusStep);
      if index.Ok? then Some(index.value) else None
    case DropLast => Some(|trace.events| - 1)
    case ChangeEnd => None
  }

  ghost predicate CommitsAWrite(trace: ExecutionTrace) {
    exists k :: 0 <= k < |trace.events| && trace.events[k].registerWrites != []
  }

  predicate IsRegisterMutation(kind: MutationKind) { kind.ChangeIndex? || kind.FlipValue? }

  // ---- Every applicable mutation of a passing trace is located ----

  lemma AdvancedPcDiffers(pc: U64)
    ensures AdvanceByTwo(pc) != pc
  {
  }

  lemma FlippedValueDiffers(value: U64)
    ensures FlipLowBit(value) != value
  {
  }

  lemma SelfComparison(event: CommitEvent)
    ensures CompareEvent(event, event) == None
  {
  }

  lemma {:induction false} ScanReaches(left: seq<CommitEvent>, right: seq<CommitEvent>, index: nat, step: nat,
      field: Field)
    requires step <= index < |left| == |right| && left[..index] == right[..index]
    requires CompareEvent(left[index], right[index]) == Some(field)
    ensures CompareEvents(left, right, step) == Some(TraceMismatch(Some(index), field))
    decreases index - step
  {
    hide CompareEvent;
    if step < index {
      assert left[..index][step] == right[..index][step];
      SelfComparison(left[step]);
      ScanReaches(left, right, index, step + 1, field);
    }
  }

  /** Replacing one event so that `field` is the first to differ is reported right there. */
  lemma ReplacedEventIsLocated(
    left: ExecutionTrace, right: ExecutionTrace, policy: TerminalPolicy, index: nat, event: CommitEvent, field: Field)
    requires left.events == right.events && index < |left.events|
    requires CompareEvent(event, left.events[index]) == Some(field)
    ensures CompareWithPolicy(ReplaceEvent(left, index, event), right, policy).mismatch ==
            Some(TraceMismatch(Some(index), field))
  {
    hide CompareEvent;
    ScanReaches(left.events[index := event], right.events, index, 0, field);
  }

  lemma {:induction false} PrefixScanFindsNothing(left: seq<CommitEvent>, right: seq<CommitEvent>, step: nat)
    requires step <= |left| && left <= right
    ensures CompareEvents(left, right, step) == None
    decreases |left| - step
  {
    hide CompareEvent;
    if step < |left| {
      SelfComparison(left[step]);
      PrefixScanFindsNothing(left, right, step + 1);
    }
  }

  lemma ReplacedWriteIsLocated(
    left: ExecutionTrace, right: ExecutionTrace, policy: TerminalPolicy, index: nat, write: RegisterWrite)
    requires left.events == right.events && index < |left.events| && left.events[index].registerWrites != []
    requires write != left.events[index].registerWrites[0]
    ensures CompareWithPolicy(ReplaceFirstWrite(left, index, write), right, policy).mismatch ==
            Some(TraceMismatch(Some(index), RegisterWrites))
  {
    var event := left.events[index];
    var writes := event.registerWrites[0 := write];
    assert writes[0] != event.registerWrites[0];
    ReplacedEventIsLocated(left, right, policy, index, event.(registerWrites := writes), RegisterWrites);
  }

  lemma DroppedEventIsLocated(left: ExecutionTrace, right: ExecutionTrace, policy: TerminalPolicy)
    requires left.events == right.events && left.events != []
    ensures CompareWithPolicy(left.(events := left.events[..|left.events| - 1]), right, policy).mismatch ==
            Some(TraceMismatch(Some(|left.events| - 1), TraceLength))
  {
    PrefixScanFindsNothing(left.events[..|left.events| - 1], right.events, 0);
  }

  lemma ChangedEndIsLocated(left: ExecutionTrace, right: ExecutionTrace, policy: TerminalPolicy)
    requires left.events == right.events && TerminalMatches(left.end, right.end, policy)
    ensures CompareWithPolicy(left.(end := if left.end.StepLimit? then InjectionComplete else StepLimit), right, policy)
              .mismatch == Some(TraceMismatch(None, Termination))
  {
    PrefixScanFindsNothing(left.events, right.events, 0);
  }

  /** For every pair of traces that passes under either policy: a mutation is skipped exactly when it
      is a register mutation of a trace that commits no write; every other one is reported at its own
      field and step, which is the lexicographically first difference. */
  lemma EveryApplicableMutationIsLocated(
    kind: MutationKind, ckb: ExecutionTrace, sail: ExecutionTrace, policy: TerminalPolicy, focusStep: nat)
    requires CompareWithPolicy(ckb, sail, policy).Passed()
    ensures ckb.events != []
    ensures Apply(kind, ckb, focusStep).Err? <==> IsRegisterMutation(kind) && !CommitsAWrite(ckb)
    ensures Apply(kind, ckb, focusStep).Ok? ==>
      var mutated := Apply(kind, ckb, focusStep).value;
      var at := TraceMismatch(ExpectedStep(kind, ckb, focusStep), ExpectedField(kind));
      CompareWithPolicy(mutated, sail, policy).mismatch == Some(at) && FirstDifference(mutated, sail, policy, at)
  {
    hide FirstDifference, CompareWithPolicy, FlipLowBit, AdvanceByTwo;
    CompareReportsTheFirstDifference(ckb, sail, policy);
    match kind {
      case AdvancePc =>
        var index := Min(focusStep, |ckb.events| - 1);
        var event := ckb.events[index];
        AdvancedPcDiffers(event.pcAfter);
        ReplacedEventIsLocated(ckb, sail, policy, index, event.(pcAfter := AdvanceByTwo(event.pcAfter)), PcAfter);
      case ChangeIndex =>
        var index := WriteIndex(ckb, focusStep);
        if index.Ok? {
          var write := ckb.events[index.value].registerWrites[0];
          ReplacedWriteIsLocated(ckb, sail, policy, index.value, write.(index := OtherIndex(write.index)));
        }
      case FlipValue =>
        var index := WriteIndex(ckb, focusStep);
        if index.Ok? {
          var write := ckb.events[index.value].registerWrites[0];
          FlippedValueDiffers(write.value);
          ReplacedWriteIsLocated(ckb, sail, policy, index.value, write.(value := FlipLowBit(write.value)));
        }
      case InvertTrap =>
        var index := Min(focusStep, |ckb.events| - 1);
        var event := ckb.events[index];
        ReplacedEventIsLocated(ckb, sail, policy, index, event.(trap := !event.trap), TrapFlag);
      case DropLast => DroppedEventIsLocated(ckb, sail, policy);
      case ChangeEnd => ChangedEndIsLocated(ckb, sail, policy);
    }
    if Apply(kind, ckb, focusStep).Ok? {
      CompareReportsTheFirstDifference(Apply(kind, ckb, focusStep).value, sail, policy);
    }
  }
}
