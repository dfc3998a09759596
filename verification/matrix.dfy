/** Running every mandatory mutation over every case, and what the summary of it can say. */
module Matrix {
  import opened Words
  import opened Event
  import opened Compare
  import opened Mutation

  datatype TestCase = TestCase(id: string, focusStep: nat, instructions: seq<U32>)

  datatype EnginePair = EnginePair(ckb: ExecutionTrace, sail: ExecutionTrace)

  /** Both engines' traces for a case, or the reason one of them failed. */
  type Engines = TestCase -> Result<EnginePair, string>

  datatype MutationReport = MutationReport(
    caseId: string, mutation: MutationKind, applied: bool, skippedBecause: Option<string>, expectedField: Field,
    locatedField: Option<Field>, locatedStep: Option<nat>, detected: bool, passed: bool)

  datatype MutationCoverage = MutationCoverage(
    mutation: MutationKind, expectedField: Field, applied: nat, located: nat, exampleCase: Option<string>)

  datatype MutationSummary = MutationSummary(
    cases: nat, applied: nat, skipped: nat, baselineFailures: seq<string>,
    undetected: seq<(string, MutationKind)>, mislocated: seq<(string, MutationKind)>,
    coverage: seq<MutationCoverage>, reports: seq<MutationReport>, passed: bool)

  function Evaluate(testCase: TestCase, kind: MutationKind, pair: EnginePair, policy: TerminalPolicy): MutationReport {
    match Apply(kind, pair.ckb, testCase.focusStep)
    case Err(reason) =>
      MutationReport(testCase.id, kind, false, Some(reason), ExpectedField(kind), None, None, false, false)
    case Ok(mutated) =>
      var mismatch := CompareWithPolicy(mutated, pair.sail, policy).mismatch;
      var locatedField := if mismatch.Some? then Some(mismatch.value.field) else None;
      var locatedStep := if mismatch.Some? then mismatch.value.step else None;
      MutationReport(testCase.id, kind, true, None, ExpectedField(kind), locatedField, locatedStep,
                     locatedField.Some?, locatedField == Some(ExpectedField(kind)))
  }

  // ---- Summarizing ----

  function Where(reports: seq<MutationReport>, keep: MutationReport -> bool): (kept: seq<MutationReport>)
    ensures forall report :: report in kept <==> report in reports && keep(report)
    ensures |kept| <= |reports|
  {
    if reports == [] then []
    else (if keep(reports[0]) then [reports[0]] else []) + Where(reports[1..], keep)
  }

  function Names(reports: seq<MutationReport>): seq<(string, MutationKind)> {
    seq(|reports|, k requires 0 <= k < |reports| => (reports[k].caseId, reports[k].mutation))
  }

  function CoverageOf(kind: MutationKind, reports: seq<MutationReport>): MutationCoverage {
    var applied := Where(reports, (report: MutationReport) => report.mutation == kind && report.applied);
    var located := Where(reports, (report: MutationReport) => report.mutation == kind && report.passed);
    MutationCoverage(kind, ExpectedField(kind), |applied|, |located|,
                     if located == [] then None else Some(located[0].caseId))
  }

  function Coverage(reports: seq<MutationReport>): seq<MutationCoverage> {
    seq(6, k requires 0 <= k < 6 => CoverageOf(MANDATORY_MUTATIONS[k], reports))
  }

  function Summarize(cases: nat, baselineFailures: seq<string>, reports: seq<MutationReport>): MutationSummary {
    var applied := |Where(reports, (report: MutationReport) => report.applied)|;
    var undetected := Names(Where(reports, (report: MutationReport) => report.applied && !report.detected));
    var mislocated := Names(Where(reports, (report: MutationReport) => report.detected && !report.passed));
    var coverage := Coverage(reports);
    var everyCategoryLocated := forall k :: 0 <= k < 6 ==> coverage[k].located > 0;
    MutationSummary(cases, applied, |reports| - applied, baselineFailures, undetected, mislocated, coverage, reports,
                    everyCategoryLocated && baselineFailures == []
                    && undetected == [] && mislocated == [] && reports != [])
  }

  // ---- The loop over the cases ----

  predicate BaselinePasses(testCase: TestCase, engines: Engines, policy: TerminalPolicy): (passes: bool)
    ensures passes ==> engines(testCase).Ok?
  {
    var run := engines(testCase);
    run.Ok? && CompareWithPolicy(run.value.ckb, run.value.sail, policy).Passed()
  }

  function CaseReports(testCase: TestCase, pair: EnginePair, policy: TerminalPolicy): seq<MutationReport> {
    seq(6, k requires 0 <= k < 6 => Evaluate(testCase, MANDATORY_MUTATIONS[k], pair, policy))
  }

  function ReportsFor(testCase: TestCase, engines: Engines, policy: TerminalPolicy): seq<MutationReport> {
    if BaselinePasses(testCase, engines, policy) then CaseReports(testCase, engines(testCase).value, policy) else []
  }

  function AllReports(cases: seq<TestCase>, engines: Engines, policy: TerminalPolicy): seq<MutationReport> {
    if cases == [] then [] else ReportsFor(cases[0], engines, policy) + AllReports(cases[1..], engines, policy)
  }

  function FailuresFor(testCase: TestCase, engines: Engines, policy: TerminalPolicy): seq<string> {
    if BaselinePasses(testCase, engines, policy) then []
    else
      match engines(testCase)
      case Ok(_) => [testCase.id]
      case Err(error) => [testCase.id + ": " + error]
  }

  function BaselineFailures(cases: seq<TestCase>, engines: Engines, policy: TerminalPolicy): seq<string> {
    if cases == [] then [] else FailuresFor(cases[0], engines, policy) + BaselineFailures(cases[1..], engines, policy)
  }

  function MatrixSummary(cases: seq<TestCase>, engines: Engines, policy: TerminalPolicy): MutationSummary {
    Summarize(|cases|, BaselineFailures(cases, engines, policy), AllReports(cases, engines, policy))
  }

  method EvaluateAll(testCase: TestCase, pair: EnginePair, policy: TerminalPolicy)
      returns (reports: seq<MutationReport>)
    ensures reports == CaseReports(testCase, pair, policy)
  {
    hide Evaluate;
    reports := [];
    for k := 0 to 6
      invariant reports == CaseReports(testCase, pair, policy)[..k]
    {
      reports := reports + [Evaluate(testCase, MANDATORY_MUTATIONS[k], pair, policy)];
    }
  }

  lemma {:induction false} AppendReports(cases: seq<TestCase>, last: TestCase, engines: Engines, policy: TerminalPolicy)
    ensures AllReports(cases + [last], engines, policy) ==
            AllReports(cases, engines, policy) + ReportsFor(last, engines, policy)
  {
    hide ReportsFor;
    if cases == [] {
      assert [last][1..] == [] && cases + [last] == [last];
    } else {
      AppendReports(cases[1..], last, engines, policy);
      assert (cases + [last])[1..] == cases[1..] + [last];
    }
  }

  lemma {:induction false} AppendFailures(cases: seq<TestCase>, last: TestCase, engines: Engines,
      policy: TerminalPolicy)
    ensures BaselineFailures(cases + [last], engines, policy) ==
            BaselineFailures(cases, engines, policy) + FailuresFor(last, engines, policy)
  {
    hide FailuresFor;
    if cases == [] {
      assert [last][1..] == [] && cases + [last] == [last];
    } else {
      AppendFailures(cases[1..], last, engines, policy);
      assert (cases + [last])[1..] == cases[1..] + [last];
    }
  }

  lemma OneMoreCase(cases: seq<TestCase>, i: nat, engines: Engines, policy: TerminalPolicy)
    requires i < |cases|
    ensures AllReports(cases[..i + 1], engines, policy) ==
            AllReports(cases[..i], engines, policy) + ReportsFor(cases[i], engines, policy)
    ensures BaselineFailures(cases[..i + 1], engines, policy) ==
            BaselineFailures(cases[..i], engines, policy) + FailuresFor(cases[i], engines, policy)
  {
    hide ReportsFor, FailuresFor, AllReports, BaselineFailures;
    AppendReports(cases[..i], cases[i], engines, policy);
    AppendFailures(cases[..i], cases[i], engines, policy);
    assert cases[..i + 1] == cases[..i] + [cases[i]];
  }

  /** Each engine pair runs once per case; a case whose baseline fails contributes no report. */
  method RunMutations(cases: seq<TestCase>, engines: Engines, policy: TerminalPolicy) returns (summary: MutationSummary)
    ensures summary == MatrixSummary(cases, engines, policy)
  {
    hide CompareWithPolicy, CaseReports, Summarize;
    var reports, failures := [], [];
    for i := 0 to |cases|
      invariant reports == AllReports(cases[..i], engines, policy)
      invariant failures == BaselineFailures(cases[..i], engines, policy)
    {
      OneMoreCase(cases, i, engines, policy);
      match engines(cases[i]) {
        case Err(error) => failures := failures + [cases[i].id + ": " + error];
        case Ok(pair) =>
          var baseline := CompareWithPolicy(pair.ckb, pair.sail, policy);
          if !baseline.Passed() {
            failures := failures + [cases[i].id];
            continue;
          }
          var evaluated := EvaluateAll(cases[i], pair, policy);
          reports := reports + evaluated;
      }
    }
    assert cases[..|cases|] == cases;
    summary := Summarize(|cases|, failures, reports);
  }

  // ---- What every summary says ----

  /** A report of a mutation of a passing case: located at its own field, or a skipped register mutation. */
  predicate Sound(report: MutationReport) {
    if report.applied then report.detected && report.passed && report.locatedField == Some(report.expectedField)
    else !report.detected && !report.passed && report.skippedBecause.Some? && IsRegisterMutation(report.mutation)
  }

  lemma ReportsAreSound(testCase: TestCase, kind: MutationKind, pair: EnginePair, policy: TerminalPolicy)
    requires CompareWithPolicy(pair.ckb, pair.sail, policy).Passed()
    ensures var report := Evaluate(testCase, kind, pair, policy);
      && Sound(report) && report.mutation == kind
      && (report.applied <==> !IsRegisterMutation(kind) || CommitsAWrite(pair.ckb))
      && (report.applied ==> report.locatedStep == ExpectedStep(kind, pair.ckb, testCase.focusStep))
  {
    hide Apply, CompareWithPolicy, CommitsAWrite, ExpectedStep, FirstDifference;
    EveryApplicableMutationIsLocated(kind, pair.ckb, pair.sail, policy, testCase.focusStep);
  }

  ghost predicate ReportOf(report: MutationReport, testCase: TestCase, engines: Engines, policy: TerminalPolicy) {
    BaselinePasses(testCase, engines, policy)
        && report == Evaluate(testCase, report.mutation, engines(testCase).value, policy)
  }

  lemma OwnReports(report: MutationReport, testCase: TestCase, engines: Engines, policy: TerminalPolicy)
    ensures report in ReportsFor(testCase, engines, policy) <==> ReportOf(report, testCase, engines, policy)
  {
    hide Apply, CompareWithPolicy, BaselinePasses;
    if BaselinePasses(testCase, engines, policy) {
      var reports := CaseReports(testCase, engines(testCase).value, policy);
      var kinds := MANDATORY_MUTATIONS;
      assert kinds[0].AdvancePc? && kinds[1].ChangeIndex? && kinds[2].FlipValue? && kinds[3].InvertTrap? &&
             kinds[4].DropLast? && kinds[5].ChangeEnd?;
      var k :| 0 <= k < 6 && kinds[k] == report.mutation;
      assert reports[k] == Evaluate(testCase, kinds[k], engines(testCase).value, policy);
    }
  }

  /** The reports are exactly the evaluations of the passing cases. */
  lemma {:induction false} ReportsComeFromCases(
    report: MutationReport, cases: seq<TestCase>, engines: Engines, policy: TerminalPolicy)
    ensures report in AllReports(cases, engines, policy) <==>
            exists k :: 0 <= k < |cases| && ReportOf(report, cases[k], engines, policy)
  {
    hide ReportOf, ReportsFor;
    if cases != [] {
      OwnReports(report, cases[0], engines, policy);
      ReportsComeFromCases(report, cases[1..], engines, policy);
      if k :| 0 <= k < |cases[1..]| && ReportOf(report, cases[1..][k], engines, policy) {
        assert cases[1..][k] == cases[k + 1];
      }
      if k :| 0 <= k < |cases| && ReportOf(report, cases[k], engines, policy) && k > 0 {
        assert cases[1..][k - 1] == cases[k];
      }
    }
  }

  /** Six reports for every case that did not fail its baseline. */
  lemma {:induction false} ReportsPerCase(cases: seq<TestCase>, engines: Engines, policy: TerminalPolicy)
    ensures |AllReports(cases, engines, policy)| == 6 * (|cases| - |BaselineFailures(cases, engines, policy)|)
    ensures BaselineFailures(cases, engines, policy) == [] <==>
              forall k :: 0 <= k < |cases| ==> BaselinePasses(cases[k], engines, policy)
  {
    hide Evaluate, BaselinePasses;
    if cases != [] {
      ReportsPerCase(cases[1..], engines, policy);
      assert forall k :: 0 < k < |cases| ==> cases[k] == cases[1..][k - 1];
    }
  }

  ghost predicate SomeCaseWrites(cases: seq<TestCase>, engines: Engines) {
    exists k :: 0 <= k < |cases| && engines(cases[k]).Ok? && CommitsAWrite(engines(cases[k]).value.ckb)
  }

  lemma AllReportsSound(report: MutationReport, cases: seq<TestCase>, engines: Engines, policy: TerminalPolicy)
    requires report in AllReports(cases, engines, policy)
    ensures Sound(report)
  {
    hide Evaluate, Sound, CompareWithPolicy;
    ReportsComeFromCases(report, cases, engines, policy);
    var k :| 0 <= k < |cases| && ReportOf(report, cases[k], engines, policy);
    ReportsAreSound(cases[k], report.mutation, engines(cases[k]).value, policy);
  }

  lemma ReportShape(report: MutationReport)
    requires Sound(report)
    ensures report.applied == report.detected == report.passed
    ensures !report.applied ==> IsRegisterMutation(report.mutation)
  {
  }

  /** Located reports of a register mutation come from traces that commit a write. */
  lemma LocatedRegisterMutationsWrite(report: MutationReport, cases: seq<TestCase>, engines: Engines,
      policy: TerminalPolicy)
    requires report in AllReports(cases, engines, policy) && report.passed && IsRegisterMutation(report.mutation)
    ensures SomeCaseWrites(cases, engines)
  {
    hide Evaluate, CompareWithPolicy, CommitsAWrite, Sound;
    ReportsComeFromCases(report, cases, engines, policy);
    var k :| 0 <= k < |cases| && ReportOf(report, cases[k], engines, policy);
    ReportsAreSound(cases[k], report.mutation, engines(cases[k]).value, policy);
    AllReportsSound(report, cases, engines, policy);
    assert report.applied by { assert Sound(report); ReportShape(report); }
  }

  /** When some passing case commits a write, every category is located. */
  lemma WritingCaseLocatesEverything(
    cases: seq<TestCase>, k: nat, kind: MutationKind, engines: Engines, policy: TerminalPolicy)
    requires k < |cases| && BaselinePasses(cases[k], engines, policy) && CommitsAWrite(engines(cases[k]).value.ckb)
    ensures CoverageOf(kind, AllReports(cases, engines, policy)).located > 0
  {
    hide Evaluate, CompareWithPolicy, CommitsAWrite, Sound, AllReports;
    var report := Evaluate(cases[k], kind, engines(cases[k]).value, policy);
    ReportsAreSound(cases[k], kind, engines(cases[k]).value, policy);
    ReportShape(report);
    assert ReportOf(report, cases[k], engines, policy);
    ReportsComeFromCases(report, cases, engines, policy);
  }

  lemma {:induction false} AppliedIsLocated(reports: seq<MutationReport>, kind: MutationKind)
    requires forall report :: report in reports ==> Sound(report)
    ensures Where(reports, (report: MutationReport) => report.mutation == kind && report.applied) ==
            Where(reports, (report: MutationReport) => report.mutation == kind && report.passed)
  {
    hide IsRegisterMutation;
    if reports != [] {
      assert Sound(reports[0]);
      AppliedIsLocated(reports[1..], kind);
    }
  }

  lemma {:induction false} NothingKept(reports: seq<MutationReport>, keep: MutationReport -> bool)
    requires forall report :: report in reports ==> !keep(report)
    ensures Where(reports, keep) == []
  {
    if reports != [] {
      NothingKept(reports[1..], keep);
    }
  }

  lemma SoundReportsLeaveNothing(reports: seq<MutationReport>)
    requires forall report :: report in reports ==> Sound(report)
    ensures var summary := Summarize(0, [], reports);
      && summary.undetected == [] && summary.mislocated == []
      && forall k :: 0 <= k < 6 ==> summary.coverage[k].applied == summary.coverage[k].located
  {
    hide IsRegisterMutation;
    forall k | 0 <= k < 6
      ensures Coverage(reports)[k].applied == Coverage(reports)[k].located
    {
      AppliedIsLocated(reports, MANDATORY_MUTATIONS[k]);
    }
    NothingKept(reports, (report: MutationReport) => report.applied && !report.detected);
    NothingKept(reports, (report: MutationReport) => report.detected && !report.passed);
  }

  lemma WritingCorpusPasses(cases: seq<TestCase>, engines: Engines, policy: TerminalPolicy)
    requires BaselineFailures(cases, engines, policy) == [] && SomeCaseWrites(cases, engines)
    ensures forall i :: 0 <= i < 6 ==>
        CoverageOf(MANDATORY_MUTATIONS[i], AllReports(cases, engines, policy)).located > 0
  {
    hide Evaluate, CompareWithPolicy, CommitsAWrite, AllReports, BaselineFailures, BaselinePasses, CoverageOf;
    ReportsPerCase(cases, engines, policy);
    var k :| 0 <= k < |cases| && engines(cases[k]).Ok? && CommitsAWrite(engines(cases[k]).value.ckb);
    forall i | 0 <= i < 6
      ensures CoverageOf(MANDATORY_MUTATIONS[i], AllReports(cases, engines, policy)).located > 0
    {
      WritingCaseLocatesEverything(cases, k, MANDATORY_MUTATIONS[i], engines, policy);
    }
  }

  lemma PassingCorpusWrites(cases: seq<TestCase>, engines: Engines, policy: TerminalPolicy)
    requires MatrixSummary(cases, engines, policy).passed
    ensures SomeCaseWrites(cases, engines)
  {
    hide Evaluate, CompareWithPolicy, CommitsAWrite, AllReports, BaselineFailures, BaselinePasses;
    var reports, summary := AllReports(cases, engines, policy), MatrixSummary(cases, engines, policy);
    assert summary.coverage[1] == CoverageOf(ChangeIndex, reports) && summary.coverage[1].located > 0;
    var located := Where(reports, (report: MutationReport) => report.mutation == ChangeIndex && report.passed);
    assert located[0] in located;
    LocatedRegisterMutationsWrite(located[0], cases, engines, policy);
  }

  /** Over every corpus and under either policy: nothing is undetected or mislocated, the counts add up
      to six per case with a passing baseline, only register mutations are skipped, and the matrix
      passes exactly when no baseline failed and some trace commits a register write. */
  lemma MatrixIsEvidence(cases: seq<TestCase>, engines: Engines, policy: TerminalPolicy)
    ensures var summary := MatrixSummary(cases, engines, policy);
      && summary.undetected == [] && summary.mislocated == []
      && summary.applied + summary.skipped == 6 * (|cases| - |summary.baselineFailures|)
      && (forall report :: report in summary.reports && !report.applied ==> IsRegisterMutation(report.mutation))
      && (summary.passed <==> summary.baselineFailures == [] && SomeCaseWrites(cases, engines))
  {
    hide Evaluate, Sound, CompareWithPolicy, CommitsAWrite, AllReports, BaselineFailures, BaselinePasses;
    var reports, failures := AllReports(cases, engines, policy), BaselineFailures(cases, engines, policy);
    var summary := MatrixSummary(cases, engines, policy);
    forall report | report in reports
      ensures Sound(report) && (!report.applied ==> IsRegisterMutation(report.mutation))
    {
      AllReportsSound(report, cases, engines, policy);
      ReportShape(report);
    }
    SoundReportsLeaveNothing(reports);
    ReportsPerCase(cases, engines, policy);
    if failures == [] && SomeCaseWrites(cases, engines) {
      WritingCorpusPasses(cases, engines, policy);
    }
    if summary.passed {
      PassingCorpusWrites(cases, engines, policy);
    }
  }
}
