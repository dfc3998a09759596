/** Strict trace comparison: the first difference, or a pass. */
module Compare {
  import opened Words
  import opened Event

  datatype TerminalPolicy = Exact | CategoryOnly

  datatype Field =
    | Order | Instruction | PcBefore | PcAfter | RegisterWrites | Memory | TrapFlag | HaltFlag
    | TraceLength | Termination | EmptyTrace

  datatype TraceMismatch = TraceMismatch(step: Option<nat>, field: Field)

  datatype CompareResult = CompareResult(comparedSteps: nat, mismatch: Option<TraceMismatch>) {
    predicate Passed() { mismatch.None? }
  }

  predicate TerminalMatches(left: TraceEnd, right: TraceEnd, policy: TerminalPolicy) {
    match policy
    case Exact => left == right
    case CategoryOnly => CategoryOf(left) == CategoryOf(right)
  }

  function CompareEvent(left: CommitEvent, right: CommitEvent): Option<Field> {
    if left.order != right.order then Some(Order)
    else if left.instruction != right.instruction then Some(Instruction)
    else if left.pcBefore != right.pcBefore then Some(PcBefore)
    else if left.pcAfter != right.pcAfter then Some(PcAfter)
    else if left.registerWrites != right.registerWrites then Some(RegisterWrites)
    else if left.memory != right.memory then Some(Memory)
    else if left.trap != right.trap then Some(TrapFlag)
    else if left.halt != right.halt then Some(HaltFlag)
    else None
  }

  function Min(a: nat, b: nat): nat { if a <= b then a else b }

  /** Scan the common prefix from `step` on. */
  function CompareEvents(left: seq<CommitEvent>, right: seq<CommitEvent>, step: nat): (found: Option<TraceMismatch>)
    requires step <= |left| && step <= |right|
    decreases |left| - step
  {
    if step == |left| || step == |right| then None
    else
      match CompareEvent(left[step], right[step])
      case Some(field) => Some(TraceMismatch(Some(step), field))
      case None => CompareEvents(left, right, step + 1)
  }

  function CompareWithPolicy(left: ExecutionTrace, right: ExecutionTrace, policy: TerminalPolicy): CompareResult {
    var common := Min(|left.events|, |right.events|);
    match CompareEvents(left.events, right.events, 0)
    case Some(mismatch) => CompareResult(if mismatch.step.Some? then mismatch.step.value else common, Some(mismatch))
    case None =>
      if |left.events| != |right.events| then CompareResult(common, Some(TraceMismatch(Some(common), TraceLength)))
      else if !TerminalMatches(left.end, right.end, policy) then
        CompareResult(common, Some(TraceMismatch(None, Termination)))
      else if common == 0 then CompareResult(0, Some(TraceMismatch(None, EmptyTrace)))
      else CompareResult(common, None)
  }

  // ---- What "first difference" means ----

  function Rank(field: Field): nat {
    match field
    case Order => 0 case Instruction => 1 case PcBefore => 2 case PcAfter => 3 case RegisterWrites => 4
    case Memory => 5 case TrapFlag => 6 case HaltFlag => 7 case TraceLength => 8 case Termination => 9
    case EmptyTrace => 10
  }

  predicate DiffersIn(left: CommitEvent, right: CommitEvent, field: Field) {
    match field
    case Order => left.order != right.order
    case Instruction => left.instruction != right.instruction
    case PcBefore => left.pcBefore != right.pcBefore
    case PcAfter => left.pcAfter != right.pcAfter
    case RegisterWrites => left.registerWrites != right.registerWrites
    case Memory => left.memory != right.memory
    case TrapFlag => left.trap != right.trap
    case HaltFlag => left.halt != right.halt
    case _ => false
  }

  /** The traces differ at a location: a field of a common step, the length, the end, or no events. */
  predicate DiffersAt(left: ExecutionTrace, right: ExecutionTrace, policy: TerminalPolicy, at: TraceMismatch) {
    var common := Min(|left.events|, |right.events|);
    match at.field
    case TraceLength => at.step == Some(common) && |left.events| != |right.events|
    case Termination => at.step == None && !TerminalMatches(left.end, right.end, policy)
    case EmptyTrace => at.step == None && common == 0
    case field => at.step.Some? && at.step.value < common &&
                  DiffersIn(left.events[at.step.value], right.events[at.step.value], field)
  }

  /** Lexicographic on (step, field); a location without a step comes after every step. */
  predicate NotAfter(first: TraceMismatch, second: TraceMismatch) {
    match (first.step, second.step)
    case (Some(s), Some(t)) => s < t || (s == t && Rank(first.field) <= Rank(second.field))
    case (Some(_), None) => true
    case (None, Some(_)) => false
    case (None, None) => Rank(first.field) <= Rank(second.field)
  }

  /** `at` is a difference, and every difference is at `at` or after it. */
  ghost predicate FirstDifference(
    left: ExecutionTrace, right: ExecutionTrace, policy: TerminalPolicy, at: TraceMismatch) {
    DiffersAt(left, right, policy, at) &&
    forall other :: DiffersAt(left, right, policy, other) ==> NotAfter(at, other)
  }

  lemma CompareEventIsFirst(left: CommitEvent, right: CommitEvent)
    ensures match CompareEvent(left, right)
      case Some(field) => DiffersIn(left, right, field) && Rank(field) < 8 &&
                          forall other :: DiffersIn(left, right, other) ==> Rank(field) <= Rank(other)
      case None => left == right
  {
  }

  lemma {:induction false} CompareEventsIsFirst(left: seq<CommitEvent>, right: seq<CommitEvent>, step: nat)
    requires step <= |left| && step <= |right|
    ensures match CompareEvents(left, right, step)
      case Some(TraceMismatch(Some(at), field)) =>
        && step <= at < Min(|left|, |right|) && left[step..at] == right[step..at]
        && DiffersIn(left[at], right[at], field) && Rank(field) < 8
        && (forall other :: DiffersIn(left[at], right[at], other) ==> Rank(field) <= Rank(other))
      case Some(TraceMismatch(None, _)) => false
      case None => var common := Min(|left|, |right|); left[step..common] == right[step..common]
    decreases |left| - step
  {
    hide CompareEvent, DiffersIn, Rank;
    if step < |left| && step < |right| {
      CompareEventIsFirst(left[step], right[step]);
      CompareEventsIsFirst(left, right, step + 1);
      match CompareEvents(left, right, step)
      case Some(TraceMismatch(Some(at), field)) =>
        if at > step {
          assert left[step..at] == [left[step]] + left[step + 1..at];
          assert right[step..at] == [right[step]] + right[step + 1..at];
        }
      case Some(TraceMismatch(None, _)) =>
      case None =>
        var common := Min(|left|, |right|);
        assert left[step..common] == [left[step]] + left[step + 1..common];
        assert right[step..common] == [right[step]] + right[step + 1..common];
    }
  }

  lemma EqualEventsDoNotDiffer(left: CommitEvent, right: CommitEvent, field: Field)
    requires left == right
    ensures !DiffersIn(left, right, field)
  {
  }

  /** The comparator reports the lexicographically first difference, and passes exactly when the
      event lists are equal and nonempty and the ends match. */
  lemma CompareReportsTheFirstDifference(left: ExecutionTrace, right: ExecutionTrace, policy: TerminalPolicy)
    ensures var result := CompareWithPolicy(left, right, policy);
      && (result.Passed() <==> left.events == right.events && left.events != [] &&
                               TerminalMatches(left.end, right.end, policy))
      && (result.mismatch.Some? ==> FirstDifference(left, right, policy, result.mismatch.value))
      && result.comparedSteps == (if result.mismatch.Some? && result.mismatch.value.step.Some?
                                  then result.mismatch.value.step.value else Min(|left.events|, |right.events|))
  {
    hide DiffersIn, CompareEvents, TerminalMatches;
    CompareEventsIsFirst(left.events, right.events, 0);
    var common := Min(|left.events|, |right.events|);
    var result := CompareWithPolicy(left, right, policy);
    match CompareEvents(left.events, right.events, 0) {
      case None =>
        assert left.events[0..|left.events|] == left.events;
        assert right.events[0..|right.events|] == right.events;
      case Some(found) =>
        if left.events == right.events {
          EqualEventsDoNotDiffer(left.events[found.step.value], right.events[found.step.value], found.field);
        }
    }
    forall other: TraceMismatch | result.mismatch.Some? && DiffersAt(left, right, policy, other)
      ensures NotAfter(result.mismatch.value, other)
    {
      if other.step.Some? && other.step.value < common && Rank(other.field) < 8 {
        var s := other.step.value;
        if CompareEvents(left.events, right.events, 0).None? {
          assert left.events[0..common][s] == right.events[0..common][s];
          EqualEventsDoNotDiffer(left.events[s], right.events[s], other.field);
        } else {
          var at := result.mismatch.value.step.value;
          if s < at {
            assert left.events[0..at][s] == right.events[0..at][s];
            EqualEventsDoNotDiffer(left.events[s], right.events[s], other.field);
          }
        }
      }
    }
  }
}
