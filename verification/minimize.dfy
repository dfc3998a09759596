/** Exhaustive mismatch minimization: the search, the budgeted replay oracle and the final claim. */
module Minimize {
  import opened Words
  import opened Event
  import opened Compare
  import opened Combinations
  import Hex
  import Text

  // ---- What is observed of a replay ----

  /** The differing field and, for a field of an event, the two offending words. */
  datatype Signature = Signature(field: Field, offendingWords: Option<(U32, U32)>)

  /** The part of a replay artifact the signature is read from. */
  datatype Evidence = Evidence(
    error: Option<string>, ckb: ExecutionTrace, sail: ExecutionTrace, mismatch: Option<TraceMismatch>,
    passed: bool, classification: string)

  /** `Err` when the evidence is not a semantic outcome; `Ok(None)` when the engines agreed. */
  function SignatureOf(evidence: Evidence): Result<Option<Signature>, string> {
    if evidence.error.Some? then Err("runner error is not a semantic outcome")
    else if evidence.ckb.events == [] || evidence.sail.events == [] then Err("missing/empty engine trace")
    else if evidence.passed then
      if evidence.mismatch == None && evidence.classification == "match" then Ok(None)
      else Err("inconsistent passing evidence")
    else if evidence.classification != "unclassified_mismatch" || evidence.mismatch == None then
      Err("not a recorded semantic mismatch")
    else
      var TraceMismatch(step, field) := evidence.mismatch.value;
      var lengths := (|evidence.ckb.events|, |evidence.sail.events|);
      if field == EmptyTrace then Err("invalid mismatch field")
      else if field == TraceLength then
        if step == Some(Min(lengths.0, lengths.1)) && lengths.0 != lengths.1 then Ok(Some(Signature(field, None)))
        else Err("invalid trace-length boundary")
      else if step == None then
        if field == Termination then Ok(Some(Signature(field, None))) else Err("event mismatch has no step")
      else if step.value < lengths.0 && step.value < lengths.1 then
        Ok(Some(Signature(field, Some((evidence.ckb.events[step.value].instruction,
                                       evidence.sail.events[step.value].instruction)))))
      else Err("mismatch step outside actual traces")
  }

  /** The evidence the producer writes for two nonempty traces compared under the exact policy. */
  function EvidenceOf(ckb: ExecutionTrace, sail: ExecutionTrace): Evidence {
    var result := CompareWithPolicy(ckb, sail, Exact);
    Evidence(None, ckb, sail, result.mismatch, result.Passed(),
             if result.Passed() then "match" else "unclassified_mismatch")
  }

  /** The producer's own comparison always has a signature, absent exactly when the traces are equal. */
  lemma ProducedEvidenceHasASignature(ckb: ExecutionTrace, sail: ExecutionTrace)
    requires ckb.events != [] && sail.events != []
    ensures var signature := SignatureOf(EvidenceOf(ckb, sail));
      && signature.Ok? && (signature.value == None <==> ckb == sail)
      && (signature.value.Some? ==>
            signature.value.value.field == CompareWithPolicy(ckb, sail, Exact).mismatch.value.field)
  {
    hide CompareWithPolicy, DiffersIn;
    CompareReportsTheFirstDifference(ckb, sail, Exact);
  }

  // ---- The oracle ----

  /** `Refused`: the inputs changed, so nothing was started and nothing logged. */
  datatype Observation = Observed(signature: Option<Signature>) | Failed(error: string) | Refused(error: string)

  datatype Trial = Trial(words: seq<U32>, observation: Observation)

  datatype SearchError = BudgetExhausted | ReplayFailed(error: string)

  /** A replay may answer differently every time: it is told the trial number. */
  type Replay = (nat, seq<U32>) -> Observation

  ghost predicate AllAnswered(trials: seq<Trial>, replay: Replay) {
    forall k :: 0 <= k < |trials| ==> trials[k].observation == replay(k, trials[k].words)
  }

  class ReplayOracle {
    const replay: Replay
    const maxEvaluations: nat
    var trials: seq<Trial>

    constructor (replay: Replay, maxEvaluations: nat)
      ensures this.replay == replay && this.maxEvaluations == maxEvaluations && trials == []
    {
      this.replay := replay;
      this.maxEvaluations := maxEvaluations;
      trials := [];
    }

    /** Every logged trial is what its own replay answered, and the budget was kept. */
    ghost predicate Honest()
      reads this
    {
      |trials| <= maxEvaluations && AllAnswered(trials, replay)
    }

    /** One logged replay, or none at all once the budget is spent. */
    method Evaluate(words: seq<U32>) returns (result: Result<Option<Signature>, SearchError>)
      requires Honest()
      modifies this
      ensures Honest()
      ensures old(|trials|) == maxEvaluations ==> result == Err(BudgetExhausted) && trials == old(trials)
      ensures old(|trials|) < maxEvaluations ==>
        var observation := replay(old(|trials|), words);
        && trials == (if observation.Refused? then old(trials) else old(trials) + [Trial(words, observation)])
        && result == match observation
           case Observed(signature) => Ok(signature)
           case Failed(error) => Err(ReplayFailed(error))
           case Refused(error) => Err(ReplayFailed(error))
    {
      if |trials| >= maxEvaluations {
        return Err(BudgetExhausted);
      }
      var observation := replay(|trials|, words);
      if observation.Refused? {
        return Err(ReplayFailed(observation.error));
      }
      trials := trials + [Trial(words, observation)];
      match observation {
        case Observed(signature) => result := Ok(signature);
        case Failed(error) => result := Err(ReplayFailed(error));
      }
    }
  }

  // ---- The search ----

  /** The words at the given positions, in order. */
  function Select(words: seq<U32>, indices: Indices): seq<U32>
    requires Increasing(indices, 0, |words|)
  {
    seq(|indices|, k requires 0 <= k < |indices| => words[indices[k]])
  }

  /** Every candidate smaller than the input: sizes from `size` to `n - 1`, each in lexicographic order. */
  function Candidates(n: nat, size: nat): seq<Indices>
    requires 0 < size
    decreases n - size
  {
    if size >= n then [] else Enumerate(0, n, size) + Candidates(n, size + 1)
  }

  lemma {:induction false} CandidatesAreIncreasing(n: nat, size: nat, t: nat)
    requires 0 < size && t < |Candidates(n, size)|
    ensures var indices := Candidates(n, size)[t]; size <= |indices| < n && Increasing(indices, 0, n)
    decreases n - size
  {
    hide Increasing, Enumerate, Binomial;
    var here := Enumerate(0, n, size);
    if t < |here| {
      EnumeratedAreIncreasing(0, n, size, t);
    } else {
      CandidatesAreIncreasing(n, size + 1, t - |here|);
    }
  }

  /** Every nonempty, strictly smaller position list is a candidate. */
  lemma {:induction false} EverySmallerListIsACandidate(n: nat, size: nat, indices: Indices) returns (t: nat)
    requires 0 < size <= |indices| < n && Increasing(indices, 0, n)
    ensures t < |Candidates(n, size)| && Candidates(n, size)[t] == indices
    decreases n - size
  {
    hide Increasing, Enumerate, Binomial;
    if |indices| == size {
      t := EveryIncreasingListOccurs(0, n, indices);
    } else {
      var rest := EverySmallerListIsACandidate(n, size + 1, indices);
      t := |Enumerate(0, n, size)| + rest;
    }
  }

  /** Size first, then lexicographic: in particular no candidate occurs twice. */
  lemma {:induction false} CandidatesInOrder(n: nat, size: nat, s: nat, t: nat)
    requires 0 < size && s < t < |Candidates(n, size)|
    ensures var a, b := Candidates(n, size)[s], Candidates(n, size)[t];
      a != b && (|a| < |b| || LexLess(a, b))
    decreases n - size
  {
    hide Increasing, Enumerate, Binomial, LexLess;
    var here := Enumerate(0, n, size);
    if t < |here| {
      EnumeratedInOrder(0, n, size, s, t);
      LexAsymmetric(here[s], here[t]);
    } else if s < |here| {
      EnumeratedAreIncreasing(0, n, size, s);
      CandidatesAreIncreasing(n, size + 1, t - |here|);
    } else {
      CandidatesInOrder(n, size + 1, s - |here|, t - |here|);
    }
  }

  lemma {:induction false} CandidateCount(n: nat, size: nat)
    requires 0 < size <= n
    ensures |Candidates(n, size)| == RowSum(n, n - 1) - RowSum(n, size - 1)
    decreases n - size
  {
    hide Binomial;
    if size < n {
      CandidateCount(n, size + 1);
    }
  }

  lemma {:induction false} DiagonalBinomial(n: nat)
    ensures Binomial(n, n) == 1
  {
    if n > 0 {
      DiagonalBinomial(n - 1);
      BinomialBeyondRow(n - 1, n);
    }
  }

  /** There are 2^n - 2 candidates for n words. */
  lemma AllCandidatesCounted(n: nat)
    requires 0 < n
    ensures |Candidates(n, 1)| == Power2(n) - 2
  {
    CandidateCount(n, 1);
    RowSumsToPower(n);
    DiagonalBinomial(n);
  }

  // ---- Searching ----

  /** A trial that replayed exactly this candidate and did not see the expected signature. */
  ghost predicate Missed(trial: Trial, words: seq<U32>, indices: Indices, expected: Signature) {
    && Increasing(indices, 0, |words|)
    && trial.words == Select(words, indices)
    && trial.observation.Observed? && trial.observation.signature != Some(expected)
  }

  /** The log holds one missed trial for each of the first candidates, in order. */
  ghost predicate AllMissed(log: seq<Trial>, words: seq<U32>, expected: Signature) {
    var candidates := Candidates(|words|, 1);
    |log| <= |candidates| && forall t :: 0 <= t < |log| ==> Missed(log[t], words, candidates[t], expected)
  }

  /** A finished search: every candidate before the one found was replayed and missed, and the one found hit. */
  ghost predicate SearchFound(log: seq<Trial>, words: seq<U32>, expected: Signature, indices: Indices) {
    var candidates := Candidates(|words|, 1);
    && Increasing(indices, 0, |words|) && indices != []
    && if |indices| == |words| then AllMissed(log, words, expected) && |log| == |candidates|
       else
         && 0 < |log| <= |candidates| && indices == candidates[|log| - 1]
         && AllMissed(log[..|log| - 1], words, expected)
         && log[|log| - 1] == Trial(Select(words, indices), Observed(Some(expected)))
  }

  ghost predicate RefusedAt(trials: seq<Trial>, words: seq<U32>, indices: Indices, replay: Replay, error: string) {
    Increasing(indices, 0, |words|) && replay(|trials|, Select(words, indices)) == Refused(error)
  }

  ghost predicate FailedAt(trial: Trial, words: seq<U32>, indices: Indices, error: string) {
    Increasing(indices, 0, |words|) && trial == Trial(Select(words, indices), Failed(error))
  }

  /** A search stopped by the replay of the candidate it had come to: refused, or logged and failed. */
  ghost predicate SearchStopped(
    trials: seq<Trial>, base: nat, words: seq<U32>, expected: Signature, replay: Replay, error: string)
    requires base <= |trials|
  {
    var log, candidates := trials[base..], Candidates(|words|, 1);
    || (|log| < |candidates| && AllMissed(log, words, expected)
        && RefusedAt(trials, words, candidates[|log|], replay, error))
    || (0 < |log| <= |candidates| && AllMissed(log[..|log| - 1], words, expected)
        && FailedAt(log[|log| - 1], words, candidates[|log| - 1], error))
  }

  /** How a search that did not return a result ended. */
  ghost predicate SearchEnded(
    trials: seq<Trial>, base: nat, words: seq<U32>, expected: Signature, replay: Replay, maxEvaluations: nat,
    error: SearchError)
    requires base <= |trials|
  {
    match error
    case BudgetExhausted => |trials| == maxEvaluations && AllMissed(trials[base..], words, expected)
    case ReplayFailed(message) => SearchStopped(trials, base, words, expected, replay, message)
  }

  lemma OneMoreMiss(log: seq<Trial>, trial: Trial, words: seq<U32>, expected: Signature)
    requires AllMissed(log, words, expected) && |log| < |Candidates(|words|, 1)|
    requires Missed(trial, words, Candidates(|words|, 1)[|log|], expected)
    ensures AllMissed(log + [trial], words, expected)
  {
    hide Missed, Candidates;
  }

  /** A refusal, or a failed trial, of the candidate that is next. */
  lemma RefusalStops(trials: seq<Trial>, base: nat, words: seq<U32>, expected: Signature, replay: Replay, error: string,
                     indices: Indices)
    requires base <= |trials| && AllMissed(trials[base..], words, expected)
    requires |trials| - base < |Candidates(|words|, 1)| && Candidates(|words|, 1)[|trials| - base] == indices
    requires Increasing(indices, 0, |words|) && replay(|trials|, Select(words, indices)) == Refused(error)
    ensures SearchStopped(trials, base, words, expected, replay, error)
  {
    hide AllMissed, Candidates, Increasing, Select;
  }

  lemma FailureStops(trials: seq<Trial>, base: nat, words: seq<U32>, expected: Signature, replay: Replay, error: string,
                     indices: Indices)
    requires base < |trials| && AllMissed(trials[base..|trials| - 1], words, expected)
    requires |trials| - 1 - base < |Candidates(|words|, 1)| && Candidates(|words|, 1)[|trials| - 1 - base] == indices
    requires Increasing(indices, 0, |words|)
    requires trials[|trials| - 1] == Trial(Select(words, indices), Failed(error))
    ensures SearchStopped(trials, base, words, expected, replay, error)
  {
    hide AllMissed, Candidates, Increasing, Select;
    assert trials[base..][..|trials| - 1 - base] == trials[base..|trials| - 1];
  }

  lemma HitIsLogged(log: seq<Trial>, words: seq<U32>, expected: Signature, indices: Indices)
    requires AllMissed(log, words, expected) && |log| < |Candidates(|words|, 1)|
    requires Candidates(|words|, 1)[|log|] == indices
    requires Increasing(indices, 0, |words|) && 0 < |indices| < |words|
    ensures SearchFound(log + [Trial(Select(words, indices), Observed(Some(expected)))], words, expected, indices)
  {
    hide Missed, Candidates, Increasing, Select;
    assert (log + [Trial(Select(words, indices), Observed(Some(expected)))])[..|log|] == log;
  }

  /** The candidates of one size open the candidates still to come. */
  lemma CandidatesOpen(words: seq<U32>, log: seq<Trial>, size: nat, t: nat)
    requires 0 < size < |words| && t < |Enumerate(0, |words|, size)| && t <= |log|
    requires |log| - t + |Candidates(|words|, size)| == |Candidates(|words|, 1)|
    requires Candidates(|words|, 1)[|log| - t..] == Candidates(|words|, size)
    ensures |log| < |Candidates(|words|, 1)|
    ensures Candidates(|words|, 1)[|log|] == Enumerate(0, |words|, size)[t]
  {
    hide Enumerate, Binomial;
    assert Candidates(|words|, 1)[|log|] == Candidates(|words|, 1)[|log| - t..][t];
  }

  function Range(size: nat): Indices { seq(size, k => 0 + k) }

  lemma OneMissed(trial: Trial, words: seq<U32>, indices: Indices, expected: Signature)
    requires Increasing(indices, 0, |words|) && trial.words == Select(words, indices)
    requires trial.observation.Observed? && trial.observation.signature != Some(expected)
    ensures Missed(trial, words, indices, expected)
  {
  }

  /** Replay the candidate that is next; `true` when it shows the signature. */
  method TryCandidate(words: seq<U32>, expected: Signature, oracle: ReplayOracle, indices: Indices, ghost base: nat)
    returns (found: Result<bool, SearchError>)
    requires base <= |oracle.trials| && oracle.Honest() && AllMissed(oracle.trials[base..], words, expected)
    requires |oracle.trials| - base < |Candidates(|words|, 1)|
    requires Candidates(|words|, 1)[|oracle.trials| - base] == indices
    requires Increasing(indices, 0, |words|) && 0 < |indices| < |words|
    modifies oracle
    ensures old(oracle.trials) <= oracle.trials && oracle.Honest()
    ensures match found
      case Ok(true) => SearchFound(oracle.trials[base..], words, expected, indices)
      case Ok(false) =>
        AllMissed(oracle.trials[base..], words, expected) && |oracle.trials| == old(|oracle.trials|) + 1
      case Err(error) =>
        SearchEnded(oracle.trials, base, words, expected, oracle.replay, oracle.maxEvaluations, error)
  {
    hide Increasing, Missed, AllAnswered, Candidates, AllMissed, SearchFound, SearchStopped, Select;
    ghost var start, log := |oracle.trials|, oracle.trials[base..];
    var candidate := Select(words, indices);
    var result := oracle.Evaluate(candidate);
    if |oracle.trials| > start {
      assert oracle.trials[base..] == log + [oracle.trials[start]];
      assert oracle.trials[base..|oracle.trials| - 1] == log;
    } else {
      assert oracle.trials[base..] == log;
    }
    if result.Err? {
      if result.error.ReplayFailed? {
        if |oracle.trials| > start {
          FailureStops(oracle.trials, base, words, expected, oracle.replay, result.error.error, indices);
        } else {
          RefusalStops(oracle.trials, base, words, expected, oracle.replay, result.error.error, indices);
        }
      }
      return Err(result.error);
    }
    if result.value == Some(expected) {
      HitIsLogged(log, words, expected, indices);
      return Ok(true);
    }
    OneMissed(oracle.trials[start], words, indices, expected);
    OneMoreMiss(log, oracle.trials[start], words, expected);
    return Ok(false);
  }

  /** The inner loop: every combination of one size, until one has the signature. */
  method SearchSize(words: seq<U32>, expected: Signature, oracle: ReplayOracle, size: nat, ghost base: nat)
    returns (found: Result<Option<Indices>, SearchError>)
    requires 0 < size < |words| && base <= |oracle.trials| && oracle.Honest()
    requires AllMissed(oracle.trials[base..], words, expected)
    requires |oracle.trials| - base + |Candidates(|words|, size)| == |Candidates(|words|, 1)|
    requires Candidates(|words|, 1)[|oracle.trials| - base..] == Candidates(|words|, size)
    modifies oracle
    ensures old(oracle.trials) <= oracle.trials
    ensures match found
      case Ok(Some(indices)) =>
        |indices| == size && SearchFound(oracle.trials[base..], words, expected, indices)
      case Ok(None) =>
        && AllMissed(oracle.trials[base..], words, expected)
        && |oracle.trials| == old(|oracle.trials|) + |Enumerate(0, |words|, size)|
      case Err(error) =>
        SearchEnded(oracle.trials, base, words, expected, oracle.replay, oracle.maxEvaluations, error)
    ensures oracle.Honest()
  {
    hide Increasing, Enumerate, Binomial, Missed, IsSuccessor, AllAnswered;
    hide Candidates, AllMissed, SearchFound, SearchStopped, SearchEnded;
    var n := |words|;
    ghost var start := |oracle.trials|;
    ghost var here := Enumerate(0, n, size);
    var indices := Range(size);
    FirstCombination(0, n, size);
    for t := 0 to *
      invariant t < |here| && indices == here[t] && oracle.Honest()
      invariant old(oracle.trials) <= oracle.trials && |oracle.trials| == start + t
      invariant AllMissed(oracle.trials[base..], words, expected)
      decreases |here| - t
    {
      EnumeratedAreIncreasing(0, n, size, t);
      CandidatesOpen(words, oracle.trials[base..], size, t);
      var found := TryCandidate(words, expected, oracle, indices, base);
      if found.Err? {
        return Err(found.error);
      }
      if found.value {
        return Ok(Some(indices));
      }
      var next := NextCombination(indices, n);
      SuccessorIsNextInEnumeration(n, size, t, next);
      if next.None? {
        return Ok(None);
      }
      indices := next.value;
    }
  }

  lemma RangeIsIncreasing(n: nat)
    ensures Increasing(Range(n), 0, n) && |Range(n)| == n
  {
  }

  /** Every smaller nonempty subsequence is replayed, in order, before a result is returned. */
  method ShortestSubsequence(words: seq<U32>, expected: Signature, oracle: ReplayOracle)
    returns (result: Result<Indices, SearchError>)
    requires words != [] && oracle.Honest()
    modifies oracle
    ensures old(oracle.trials) <= oracle.trials && oracle.Honest()
    ensures match result
      case Ok(indices) => SearchFound(oracle.trials[|old(oracle.trials)|..], words, expected, indices)
      case Err(error) =>
        SearchEnded(oracle.trials, |old(oracle.trials)|, words, expected, oracle.replay, oracle.maxEvaluations, error)
  {
    hide Increasing, Enumerate, Binomial, Missed, AllAnswered, SearchStopped;
    var n := |words|;
    ghost var base := |oracle.trials|;
    ghost var candidates := Candidates(n, 1);
    assert oracle.trials[base..] == [];
    for size := 1 to n
      invariant old(oracle.trials) <= oracle.trials && oracle.Honest()
      invariant AllMissed(oracle.trials[base..], words, expected)
      invariant |oracle.trials| - base + |Candidates(n, size)| == |candidates|
      invariant candidates[|oracle.trials| - base..] == Candidates(n, size)
    {
      ghost var offset := |oracle.trials| - base;
      var found := SearchSize(words, expected, oracle, size, base);
      match found {
        case Err(error) => return Err(error);
        case Ok(Some(indices)) => return Ok(indices);
        case Ok(None) =>
          ghost var here := |Enumerate(0, n, size)|;
          assert candidates[offset..][here..] == candidates[offset + here..];
      }
    }
    RangeIsIncreasing(n);
    return Ok(Range(n));
  }

  // ---- The run ----

  datatype Status = Minimized | Incomplete | Broken

  datatype Report = Report(
    status: Status, minimumProved: bool, minimalWords: seq<U32>, retainedIndices: Indices, trials: seq<Trial>)

  predicate Reproduced(trials: seq<Trial>, words: seq<U32>, expected: Signature) {
    trials != [] && trials[0] == Trial(words, Observed(Some(expected)))
  }

  /** The one shape of log that proves a minimum: original, search, result again. */
  ghost predicate Proves(trials: seq<Trial>, words: seq<U32>, expected: Signature, indices: Indices) {
    var last := |trials| - 1;
    && last > 0 && Reproduced(trials, words, expected)
    && SearchFound(trials[1..last], words, expected, indices)
    && trials[last] == Trial(Select(words, indices), Observed(Some(expected)))
  }

  /** The original reproduced and the search was stopped, or ended just as the budget did. */
  ghost predicate RanOut(trials: seq<Trial>, words: seq<U32>, expected: Signature, maxEvaluations: nat) {
    && |trials| == maxEvaluations && Reproduced(trials, words, expected)
    && (AllMissed(trials[1..], words, expected) || exists indices :: SearchFound(trials[1..], words, expected, indices))
  }

  /** The first replay did not show the signature: it was refused, or it failed or saw something else. */
  ghost predicate NotReproduced(trials: seq<Trial>, words: seq<U32>, expected: Signature, replay: Replay) {
    || (trials == [] && replay(0, words).Refused?)
    || (|trials| == 1 && trials[0].words == words && trials[0].observation != Observed(Some(expected)))
  }

  /** The replay of the result did not show the signature. */
  ghost predicate NotConfirmed(
    trials: seq<Trial>, words: seq<U32>, expected: Signature, replay: Replay, indices: Indices) {
    var last := |trials| - 1;
    && last >= 0 && Reproduced(trials, words, expected)
    && (|| (SearchFound(trials[1..], words, expected, indices) && replay(|trials|, Select(words, indices)).Refused?)
        || (last > 0 && SearchFound(trials[1..last], words, expected, indices)
            && trials[last].words == Select(words, indices) && trials[last].observation != Observed(Some(expected))))
  }

  /** Which replay it was that a run broke at. */
  ghost predicate Broke(trials: seq<Trial>, words: seq<U32>, expected: Signature, replay: Replay) {
    || NotReproduced(trials, words, expected, replay)
    || (Reproduced(trials, words, expected)
        && exists error :: SearchStopped(trials, 1, words, expected, replay, error))
    || (exists indices :: NotConfirmed(trials, words, expected, replay, indices))
  }

  /** Everything a report of the minimizer says about its own log. */
  ghost predicate ReportOfRun(
    report: Report, words: seq<U32>, expected: Signature, replay: Replay, maxEvaluations: nat, sameSources: bool) {
    && |report.trials| <= maxEvaluations && AllAnswered(report.trials, replay)
    && (report.minimumProved <==> report.status == Minimized)
    && match report.status
       case Minimized =>
         && sameSources && Proves(report.trials, words, expected, report.retainedIndices)
         && report.minimalWords == Select(words, report.retainedIndices)
       case Incomplete => RanOut(report.trials, words, expected, maxEvaluations)
       case Broken =>
         || Broke(report.trials, words, expected, replay)
         || (!sameSources && exists indices :: Proves(report.trials, words, expected, indices))
  }

  lemma NothingAnswered(replay: Replay)
    ensures AllAnswered([], replay)
  {
  }

  lemma FoundIsIncreasing(log: seq<Trial>, words: seq<U32>, expected: Signature, indices: Indices)
    requires SearchFound(log, words, expected, indices)
    ensures Increasing(indices, 0, |words|) && indices != []
  {
  }

  method RunFrom(words: seq<U32>, expected: Signature, replay: Replay, maxEvaluations: nat, sameSources: bool)
    returns (report: Report)
    requires words != [] && maxEvaluations >= 2
    ensures ReportOfRun(report, words, expected, replay, maxEvaluations, sameSources)
  {
    hide SearchFound, SearchStopped, AllMissed, Select, Increasing;
    NothingAnswered(replay);
    var oracle := new ReplayOracle(replay, maxEvaluations);
    var reproduced := oracle.Evaluate(words);
    if reproduced != Ok(Some(expected)) {
      return Report(Broken, false, [], [], oracle.trials);
    }
    ghost var original := oracle.trials;
    assert |original| == 1;
    var result := ShortestSubsequence(words, expected, oracle);
    if result.Err? {
      return Report(if result.error.BudgetExhausted? then Incomplete else Broken, false, [], [], oracle.trials);
    }
    ghost var searched := oracle.trials;
    FoundIsIncreasing(searched[1..], words, expected, result.value);
    var minimum := Select(words, result.value);
    var again := oracle.Evaluate(minimum);
    if again.Err? && again.error.BudgetExhausted? {
      return Report(Incomplete, false, [], [], oracle.trials);
    }
    if |oracle.trials| > |searched| {
      assert oracle.trials[1..|oracle.trials| - 1] == searched[1..];
    }
    if again != Ok(Some(expected)) {
      assert NotConfirmed(oracle.trials, words, expected, replay, result.value);
    } else {
      assert Proves(oracle.trials, words, expected, result.value);
    }
    if again != Ok(Some(expected)) || !sameSources {
      return Report(Broken, false, [], [], oracle.trials);
    }
    return Report(Minimized, true, minimum, result.value, oracle.trials);
  }

  // ---- What is refused before any replay ----

  datatype InitialState = InitialState(pc: int, integerRegisters: string)

  const RESET := InitialState(0x8000_0000, "x0..x31 = 0")

  /** The recorded mismatch as the minimizer reads it: the numbers of the file are unbounded integers. */
  datatype Artifact = Artifact(
    schemaVersion: int, instructions: seq<int>, instructionsHex: seq<string>, initialState: InitialState,
    evidence: Evidence)

  datatype Request = Request(
    classification: string, rationale: string, maxEvaluations: int, timeout: int, sailTimeout: int)

  const TRIAGE := ["unclassified_mismatch", "unsupported", "configuration_or_version_difference", "adapter_defect",
                   "ckb_candidate_defect"]

  /** The characters `strip` takes off. */
  predicate IsBlank(c: char) {
    || Text.IsSpace(c) || '\U{1C}' <= c <= '\U{1F}' || '\U{2000}' <= c <= '\U{200A}'
    || c in "\U{85}\U{A0}\U{1680}\U{2028}\U{2029}\U{202F}\U{205F}\U{3000}"
  }

  predicate IsWord(number: int) { 0 <= number < 0x1_0000_0000 }

  function WordOf(number: int): U32
    requires IsWord(number)
  {
    U32(number as bv32)
  }

  function NumberOf(word: U32): (number: int)
    ensures IsWord(number) && WordOf(number) == word
  {
    word.bits as int
  }

  predicate AreWords(numbers: seq<int>) {
    forall k :: 0 <= k < |numbers| ==> IsWord(numbers[k])
  }

  function WordsOf(numbers: seq<int>): (words: seq<U32>)
    requires AreWords(numbers)
    ensures |words| == |numbers| && forall k :: 0 <= k < |words| ==> words[k] == WordOf(numbers[k])
  {
    seq(|numbers|, k requires 0 <= k < |numbers| => WordOf(numbers[k]))
  }

  /** The words of an artifact that the replayer can run from the reset state. */
  function ProgramOf(artifact: Artifact): (program: Result<seq<U32>, string>)
    ensures program.Ok? <==>
      && artifact.schemaVersion == 3 && 0 < |artifact.instructions| <= 256 && AreWords(artifact.instructions)
      && artifact.instructionsHex == Hex.HexWords(WordsOf(artifact.instructions)) && artifact.initialState == RESET
    ensures program.Ok? ==> program.value == WordsOf(artifact.instructions)
  {
    if artifact.schemaVersion != 3 then Err("only source-baseline-aware schema 3 is supported")
    else if !(0 < |artifact.instructions| <= 256 && AreWords(artifact.instructions)) then
      Err("invalid instruction sequence")
    else if artifact.instructionsHex != Hex.HexWords(WordsOf(artifact.instructions)) then
      Err("hex/case instruction mismatch")
    else if artifact.initialState != RESET then Err("replay CLI does not implement arbitrary initial states")
    else Ok(WordsOf(artifact.instructions))
  }

  /** What the producer records of one to 256 words is taken as those words, and of any other number is refused. */
  lemma RecordedProgramsAreTaken(words: seq<U32>, evidence: Evidence)
    ensures var numbers := seq(|words|, k requires 0 <= k < |words| => NumberOf(words[k]));
      var program := ProgramOf(Artifact(3, numbers, Hex.HexWords(words), RESET, evidence));
      && (program.Ok? <==> 0 < |words| <= 256) && (program.Ok? ==> program.value == words)
  {
    hide Hex.HexWord, WordOf, NumberOf;
    var numbers := seq(|words|, k requires 0 <= k < |words| => NumberOf(words[k]));
    assert WordsOf(numbers) == words;
  }

  /** What the minimizer takes, the replayer reads back as the same words. */
  lemma TakenProgramsReplay(artifact: Artifact)
    requires ProgramOf(artifact).Ok?
    ensures var words := ProgramOf(artifact).value;
      && words != [] && |artifact.instructionsHex| == |words|
      && forall k :: 0 <= k < |words| ==> Hex.Reads(artifact.instructionsHex[k], words[k])
  {
    hide Hex.HexWord, WordOf, Hex.Reads;
    Hex.PrintedProgramsRead(ProgramOf(artifact).value);
  }

  /** Replay the original, search, replay the result: `minimum_proved` is claimed only at the end, and only if
      the original evidence and the script are still the same by then. `Err` is refused before any replay. */
  method Run(request: Request, artifact: Artifact, replay: Replay, sameSources: bool)
    returns (outcome: Result<Report, string>)
    ensures outcome.Ok? <==>
      && request.classification in TRIAGE && (exists c :: c in request.rationale && !IsBlank(c))
      && request.maxEvaluations >= 2 && request.timeout > 0 && request.sailTimeout > 0
      && ProgramOf(artifact).Ok?
      && SignatureOf(artifact.evidence).Ok? && SignatureOf(artifact.evidence).value.Some?
    ensures outcome.Ok? ==>
      ReportOfRun(outcome.value, ProgramOf(artifact).value, SignatureOf(artifact.evidence).value.value, replay,
                  request.maxEvaluations, sameSources)
  {
    hide ReportOfRun, SignatureOf, ProgramOf, IsBlank;
    if request.classification !in TRIAGE || forall c :: c in request.rationale ==> IsBlank(c) {
      return Err("classification rationale required");
    }
    if request.maxEvaluations < 2 || request.timeout <= 0 || request.sailTimeout <= 0 {
      return Err("invalid budget/timeout");
    }
    var program := ProgramOf(artifact);
    if program.Err? {
      return Err(program.error);
    }
    var observed := SignatureOf(artifact.evidence);
    if observed.Err? {
      return Err(observed.error);
    }
    if observed.value.None? {
      return Err("matching artifact is not a mismatch to minimize");
    }
    var report := RunFrom(program.value, observed.value.value, replay, request.maxEvaluations, sameSources);
    return Ok(report);
  }

  // ---- What a claimed minimum means ----

  /** A candidate that the search tries before the one it returns. */
  ghost predicate Earlier(candidate: Indices, retained: Indices, n: nat) {
    && candidate != [] && Increasing(candidate, 0, n)
    && (|candidate| < |retained| || LexLess(candidate, retained))
  }

  lemma IncreasingFits(indices: Indices, n: nat)
    requires Increasing(indices, 0, n)
    ensures |indices| <= n
  {
    if indices != [] {
      SpreadOut(indices, 0, |indices| - 1, n);
    }
  }

  lemma IncreasingIsIdentity(indices: Indices, n: nat, k: nat)
    requires Increasing(indices, 0, n) && |indices| >= n && k < |indices|
    ensures indices[k] == k
  {
    SpreadOut(indices, 0, k, n);
    IncreasingBound(indices, k, n);
    IncreasingFits(indices, n);
  }

  lemma EarlierIsNotWhole(candidate: Indices, retained: Indices, n: nat)
    requires Earlier(candidate, retained, n) && Increasing(retained, 0, n)
    ensures |candidate| < n
  {
    if |candidate| >= n {
      forall k | 0 <= k < |candidate|
        ensures candidate[k] == k
      {
        IncreasingIsIdentity(candidate, n, k);
      }
      IncreasingFits(retained, n);
      forall k | 0 <= k < |retained|
        ensures !LessAt(candidate, retained, k)
      {
        if |retained| == |candidate| {
          IncreasingIsIdentity(retained, n, k);
        }
      }
      IncreasingFits(candidate, n);
    }
  }

  /** Every earlier candidate has its own missed trial in the log of a finished search. */
  lemma EarlierWasTried(
    log: seq<Trial>, words: seq<U32>, expected: Signature, retained: Indices, candidate: Indices) returns (t: nat)
    requires SearchFound(log, words, expected, retained) && Earlier(candidate, retained, |words|)
    ensures t < |log| && Missed(log[t], words, candidate, expected)
  {
    hide Missed, Increasing, LessAt, Candidates, Select;
    var n := |words|;
    EarlierIsNotWhole(candidate, retained, n);
    t := EverySmallerListIsACandidate(n, 1, candidate);
    if |retained| < n {
      var found := |log| - 1;
      CandidatesAreIncreasing(n, 1, found);
      if t > found {
        CandidatesInOrder(n, 1, found, t);
      }
      if LexLess(candidate, retained) {
        LexAsymmetric(candidate, retained);
      }
      assert Missed(log[..found][t], words, candidate, expected);
    } else {
      IncreasingFits(retained, n);
    }
  }

  /** A claimed minimum is backed by the log: each of its earlier candidates was replayed and missed. */
  lemma MinimumIsBacked(
    report: Report, words: seq<U32>, expected: Signature, replay: Replay, maxEvaluations: nat, sameSources: bool,
    candidate: Indices) returns (t: nat)
    requires ReportOfRun(report, words, expected, replay, maxEvaluations, sameSources) && report.minimumProved
    requires Earlier(candidate, report.retainedIndices, |words|)
    ensures 0 < t < |report.trials| - 1 && Missed(report.trials[t], words, candidate, expected)
  {
    hide SearchFound, Earlier, Missed, AllAnswered;
    var last := |report.trials| - 1;
    var at := EarlierWasTried(report.trials[1..last], words, expected, report.retainedIndices, candidate);
    t := at + 1;
  }

  // ---- Deterministic replays ----

  type Verdict = seq<U32> -> Option<Signature>

  ghost predicate Deterministic(replay: Replay, verdict: Verdict) {
    forall k, w :: replay(k, w) == Observed(verdict(w))
  }

  /** No strictly shorter nonempty subsequence shows the signature. */
  ghost predicate Irreducible(words: seq<U32>, expected: Signature, verdict: Verdict) {
    forall indices :: indices != [] && |indices| < |words| && Increasing(indices, 0, |words|) ==>
      verdict(Select(words, indices)) != Some(expected)
  }

  /** The claimed minimum has the signature; nothing tried before it, in particular nothing shorter, has it. */
  lemma ClaimedMinimumIsShortest(
    report: Report, words: seq<U32>, expected: Signature, replay: Replay, verdict: Verdict, maxEvaluations: nat,
    sameSources: bool)
    requires ReportOfRun(report, words, expected, replay, maxEvaluations, sameSources) && report.minimumProved
    requires Deterministic(replay, verdict)
    ensures Increasing(report.retainedIndices, 0, |words|) && report.retainedIndices != []
    ensures report.minimalWords == Select(words, report.retainedIndices)
    ensures verdict(report.minimalWords) == Some(expected)
    ensures forall candidate :: Earlier(candidate, report.retainedIndices, |words|) ==>
      verdict(Select(words, candidate)) != Some(expected)
  {
    hide SearchFound, Earlier, Select, Increasing;
    var last := |report.trials| - 1;
    FoundIsIncreasing(report.trials[1..last], words, expected, report.retainedIndices);
    assert report.trials[last].observation == replay(last, report.minimalWords);
    forall candidate | Earlier(candidate, report.retainedIndices, |words|)
      ensures Increasing(candidate, 0, |words|) && verdict(Select(words, candidate)) != Some(expected)
    {
      var t := MinimumIsBacked(report, words, expected, replay, maxEvaluations, sameSources, candidate);
      assert report.trials[t].observation == replay(t, report.trials[t].words);
    }
  }

  lemma SelectAll(words: seq<U32>, indices: Indices)
    requires Increasing(indices, 0, |words|) && |indices| == |words|
    ensures Select(words, indices) == words
  {
    forall k | 0 <= k < |words|
      ensures indices[k] == k
    {
      IncreasingIsIdentity(indices, |words|, k);
    }
  }

  /** What a finished search found really was observed, if the original was. */
  lemma FoundWasObserved(
    trials: seq<Trial>, from: nat, log: seq<Trial>, words: seq<U32>, expected: Signature, indices: Indices,
    replay: Replay, verdict: Verdict)
    requires from + |log| <= |trials| && log == trials[from..from + |log|] && AllAnswered(trials, replay)
    requires Deterministic(replay, verdict) && verdict(words) == Some(expected)
    requires SearchFound(log, words, expected, indices)
    ensures Increasing(indices, 0, |words|) && verdict(Select(words, indices)) == Some(expected)
    ensures Irreducible(words, expected, verdict) ==>
        indices != [] && |indices| == |words| && |log| == |Candidates(|words|, 1)|
  {
    hide AllMissed, Candidates;
    if |indices| == |words| {
      SelectAll(words, indices);
    } else {
      var last := |log| - 1;
      assert log[last] == trials[from + last];
      assert trials[from + last].observation == replay(from + last, trials[from + last].words);
      IncreasingFits(indices, |words|);
    }
  }

  lemma DeterministicSearchesDoNotStop(
    trials: seq<Trial>, words: seq<U32>, expected: Signature, replay: Replay, verdict: Verdict, error: string)
    requires trials != [] && AllAnswered(trials, replay) && Deterministic(replay, verdict)
    ensures !SearchStopped(trials, 1, words, expected, replay, error)
  {
    hide AllMissed, Candidates, Increasing;
    var last := |trials| - 1;
    assert trials[last].observation == replay(last, trials[last].words) == Observed(verdict(trials[last].words));
    assert last > 0 ==> trials[1..][last - 1] == trials[last];
  }

  /** A deterministic mismatch is never reported broken: the run ends in a proof or runs out of budget. */
  lemma DeterministicRunsDoNotBreak(
    report: Report, words: seq<U32>, expected: Signature, replay: Replay, verdict: Verdict, maxEvaluations: nat)
    requires ReportOfRun(report, words, expected, replay, maxEvaluations, true)
    requires Deterministic(replay, verdict) && verdict(words) == Some(expected)
    ensures report.status != Broken
  {
    hide SearchFound, SearchStopped, Select, Increasing;
    if report.status == Broken {
      var trials, last := report.trials, |report.trials| - 1;
      if last >= 0 {
        assert trials[last].observation == replay(last, trials[last].words);
      }
      forall error: string | last >= 0
        ensures !SearchStopped(trials, 1, words, expected, replay, error)
      {
        DeterministicSearchesDoNotStop(trials, words, expected, replay, verdict, error);
      }
      forall indices | last > 0 && SearchFound(trials[1..last], words, expected, indices)
        ensures Increasing(indices, 0, |words|) && verdict(Select(words, indices)) == Some(expected)
      {
        FoundWasObserved(trials, 1, trials[1..last], words, expected, indices, replay, verdict);
      }
    }
  }

  lemma MissesAreFew(log: seq<Trial>, words: seq<U32>, expected: Signature)
    requires AllMissed(log, words, expected)
    ensures |log| <= |Candidates(|words|, 1)|
  {
  }

  lemma RunningOutIsShort(
    trials: seq<Trial>, words: seq<U32>, expected: Signature, replay: Replay, verdict: Verdict, maxEvaluations: nat)
    requires RanOut(trials, words, expected, maxEvaluations) && AllAnswered(trials, replay)
    requires Deterministic(replay, verdict) && verdict(words) == Some(expected)
    requires Irreducible(words, expected, verdict)
    ensures |trials| <= 1 + |Candidates(|words|, 1)|
  {
    hide SearchFound, Select, Increasing, Irreducible, AllAnswered, Deterministic, Candidates;
    if indices :| SearchFound(trials[1..], words, expected, indices) {
      FoundWasObserved(trials, 1, trials[1..], words, expected, indices, replay, verdict);
    } else {
      MissesAreFew(trials[1..], words, expected);
    }
  }

  /** The exact cost of an irreducible mismatch of n words: 2^n replays, no fewer and no more. Any budget below
      that ends incomplete, with nothing claimed and the whole budget spent. */
  lemma IrreducibleCostsPower(
    report: Report, words: seq<U32>, expected: Signature, replay: Replay, verdict: Verdict, maxEvaluations: nat)
    requires words != [] && ReportOfRun(report, words, expected, replay, maxEvaluations, true)
    requires Deterministic(replay, verdict) && verdict(words) == Some(expected)
    requires Irreducible(words, expected, verdict)
    ensures report.minimumProved <==> maxEvaluations >= Power2(|words|)
    ensures report.minimumProved ==> |report.trials| == Power2(|words|) && report.minimalWords == words
    ensures !report.minimumProved ==> report.status == Incomplete && |report.trials| == maxEvaluations
  {
    hide SearchFound, Select, Increasing, Irreducible, AllAnswered, Deterministic, Candidates, Power2, Broke;
    DeterministicRunsDoNotBreak(report, words, expected, replay, verdict, maxEvaluations);
    AllCandidatesCounted(|words|);
    if report.minimumProved {
      var trials, last := report.trials, |report.trials| - 1;
      FoundWasObserved(trials, 1, trials[1..last], words, expected, report.retainedIndices, replay, verdict);
      SelectAll(words, report.retainedIndices);
    } else {
      RunningOutIsShort(report.trials, words, expected, replay, verdict, maxEvaluations);
    }
  }
}
