/** The validator's reading of a mutation summary: recompute every row, recount every total. */
module EvidenceMatrix {
  import opened Words
  import opened Event
  import opened Compare
  import opened Mutation
  import opened Matrix
  import Evidence

  /** What the validator keeps of an accepted artifact. */
  datatype EvidenceCase = EvidenceCase(ckb: ExecutionTrace, sail: ExecutionTrace, focusStep: nat)

  type Cases = map<string, EvidenceCase>

  /** A row agrees with the recomputed mutation and the recomputed comparison. */
  predicate RowAgrees(row: MutationReport, evidence: EvidenceCase) {
    && row.expectedField == ExpectedField(row.mutation)
    && match Evidence.PyMutated(row.mutation, evidence.ckb, evidence.focusStep)
       case IndexError => false
       case NotApplicable =>
         !row.applied && !row.detected && !row.passed && row.locatedField == None && row.locatedStep == None
         && row.skippedBecause.Some? && row.skippedBecause.value != ""
       case Mutant(mutated) =>
         var at := CompareWithPolicy(mutated, evidence.sail, Exact).mismatch;
         && at.Some? && at.value.field == ExpectedField(row.mutation)
         && row.applied && row.detected && row.passed && row.skippedBecause == None
         && row.locatedField == Some(at.value.field) && row.locatedStep == at.value.step
  }

  ghost predicate HasRow(rows: seq<MutationReport>, name: string, kind: MutationKind) {
    exists k :: 0 <= k < |rows| && rows[k].caseId == name && rows[k].mutation == kind
  }

  /** Exactly one row for every case and kind: the right number of rows, over the right keys. */
  ghost predicate RowsCover(rows: seq<MutationReport>, cases: Cases) {
    && |rows| == 6 * |cases|
    && (forall k :: 0 <= k < |rows| ==> rows[k].caseId in cases)
    && (forall name, kind :: name in cases ==> HasRow(rows, name, kind))
  }

  predicate AppliedAs(kind: MutationKind, row: MutationReport) { row.mutation == kind && row.applied }

  function AppliedRows(rows: seq<MutationReport>): seq<MutationReport> {
    Where(rows, (row: MutationReport) => row.applied)
  }

  function RowsOfKind(rows: seq<MutationReport>, kind: MutationKind): seq<MutationReport> {
    Where(rows, (row: MutationReport) => AppliedAs(kind, row))
  }

  function CaseIds(rows: seq<MutationReport>): seq<string> {
    seq(|rows|, k requires 0 <= k < |rows| => rows[k].caseId)
  }

  predicate CoverageAgrees(coverage: MutationCoverage, rows: seq<MutationReport>) {
    var located := RowsOfKind(rows, coverage.mutation);
    && located != [] && coverage.expectedField == ExpectedField(coverage.mutation)
    && coverage.applied == coverage.located == |located|
    && coverage.exampleCase.Some? && coverage.exampleCase.value in CaseIds(located)
  }

  ghost predicate HasKind(coverage: seq<MutationCoverage>, kind: MutationKind) {
    exists k :: 0 <= k < |coverage| && coverage[k].mutation == kind
  }

  ghost predicate CoversEveryKind(coverage: seq<MutationCoverage>) {
    |coverage| == 6 && forall kind: MutationKind :: HasKind(coverage, kind)
  }

  ghost predicate SummaryAccepted(summary: MutationSummary, cases: Cases) {
    && summary.cases == |cases|
    && summary.passed && summary.baselineFailures == [] && summary.undetected == [] && summary.mislocated == []
    && RowsCover(summary.reports, cases)
    && (forall k :: 0 <= k < |summary.reports| ==> RowAgrees(summary.reports[k], cases[summary.reports[k].caseId]))
    && summary.applied == |AppliedRows(summary.reports)|
    && summary.skipped == |summary.reports| - |AppliedRows(summary.reports)|
    && CoversEveryKind(summary.coverage)
    && (forall k :: 0 <= k < |summary.coverage| ==> CoverageAgrees(summary.coverage[k], summary.reports))
  }

  // ---- The validator's loops ----

  lemma {:induction false} WhereAppends(rows: seq<MutationReport>, row: MutationReport, keep: MutationReport -> bool)
    ensures Where(rows + [row], keep) == Where(rows, keep) + if keep(row) then [row] else []
  {
    if rows == [] {
      assert rows + [row] == [row] && [row][1..] == [];
    } else {
      assert (rows + [row])[1..] == rows[1..] + [row];
      WhereAppends(rows[1..], row, keep);
    }
  }

  method CheckRow(row: MutationReport, evidence: EvidenceCase) returns (ok: bool, applied: bool)
    ensures ok == RowAgrees(row, evidence)
    ensures ok ==> applied == row.applied
  {
    hide CompareWithPolicy, Evidence.PyMutated;
    applied := false;
    if row.expectedField != ExpectedField(row.mutation) {
      return false, false;
    }
    var mutant := Evidence.Mutated(evidence.ckb, row.mutation, evidence.focusStep);
    match mutant {
      case IndexError => ok := false;
      case NotApplicable =>
        ok := !row.applied && !row.detected && !row.passed && row.locatedField == None && row.locatedStep == None
              && row.skippedBecause.Some? && row.skippedBecause.value != "";
      case Mutant(mutated) =>
        var field, step := Evidence.FirstDifference(mutated, evidence.sail);
        ok := field == Some(ExpectedField(row.mutation)) && row.applied && row.detected && row.passed
              && row.skippedBecause == None && row.locatedField == field && row.locatedStep == step;
        applied := true;
    }
  }

  type Key = (string, MutationKind)

  function KeyOf(row: MutationReport): Key { (row.caseId, row.mutation) }

  ghost predicate IsKeySet(keys: set<Key>, rows: seq<MutationReport>) {
    forall name, kind :: (name, kind) in keys <==> HasRow(rows, name, kind)
  }

  lemma OneMoreKey(keys: set<Key>, rows: seq<MutationReport>, k: nat)
    requires k < |rows| && IsKeySet(keys, rows[..k])
    ensures IsKeySet(keys + {KeyOf(rows[k])}, rows[..k + 1])
  {
    forall name, kind
      ensures (name, kind) in keys + {KeyOf(rows[k])} <==> HasRow(rows[..k + 1], name, kind)
    {
      if HasRow(rows[..k], name, kind) {
        var j :| 0 <= j < k && rows[..k][j].caseId == name && rows[..k][j].mutation == kind;
        assert rows[..k + 1][j] == rows[..k][j];
      }
      if HasRow(rows[..k + 1], name, kind) {
        var j :| 0 <= j <= k && rows[..k + 1][j].caseId == name && rows[..k + 1][j].mutation == kind;
        if j < k {
          assert rows[..k][j] == rows[..k + 1][j];
        }
      }
      if KeyOf(rows[k]) == (name, kind) {
        assert rows[..k + 1][k] == rows[k];
      }
    }
  }

  method CollectKeys(rows: seq<MutationReport>) returns (keys: set<Key>)
    ensures IsKeySet(keys, rows)
  {
    keys := {};
    for k := 0 to |rows|
      invariant IsKeySet(keys, rows[..k])
    {
      OneMoreKey(keys, rows, k);
      keys := keys + {KeyOf(rows[k])};
    }
    assert rows[..|rows|] == rows;
  }

  predicate AllKinds(keys: set<Key>, name: string) {
    (name, AdvancePc) in keys && (name, ChangeIndex) in keys && (name, FlipValue) in keys &&
    (name, InvertTrap) in keys && (name, DropLast) in keys && (name, ChangeEnd) in keys
  }

  lemma KeysAreRows(rows: seq<MutationReport>, keys: set<Key>, name: string)
    requires IsKeySet(keys, rows)
    ensures AllKinds(keys, name) <==> forall kind :: HasRow(rows, name, kind)
  {
    hide HasRow;
    forall kind | AllKinds(keys, name)
      ensures HasRow(rows, name, kind)
    {
      match kind
      case AdvancePc => case ChangeIndex => case FlipValue => case InvertTrap => case DropLast => case ChangeEnd =>
    }
  }

  /** Whether every case has a row of every kind, by collecting the keys of the rows. */
  method CheckKeys(rows: seq<MutationReport>, cases: Cases) returns (ok: bool)
    ensures ok == RowsCover(rows, cases)
  {
    hide HasRow, AllKinds;
    if |rows| != 6 * |cases| {
      return false;
    }
    for k := 0 to |rows|
      invariant forall j :: 0 <= j < k ==> rows[j].caseId in cases
    {
      if rows[k].caseId !in cases {
        return false;
      }
    }
    var keys := CollectKeys(rows);
    ok := forall name | name in cases :: AllKinds(keys, name);
    forall name
      ensures AllKinds(keys, name) <==> forall kind :: HasRow(rows, name, kind)
    {
      KeysAreRows(rows, keys, name);
    }
  }

  lemma NothingApplied(rows: seq<MutationReport>)
    ensures AppliedRows(rows[..0]) == []
  {
  }

  /** Recompute every row, counting the applied ones. */
  method CheckRows(rows: seq<MutationReport>, cases: Cases) returns (ok: bool, applied: nat)
    requires forall k :: 0 <= k < |rows| ==> rows[k].caseId in cases
    ensures ok <==> forall k :: 0 <= k < |rows| ==> RowAgrees(rows[k], cases[rows[k].caseId])
    ensures ok ==> applied == |AppliedRows(rows)|
  {
    hide RowAgrees, Where;
    applied := 0;
    NothingApplied(rows);
    for k := 0 to |rows|
      invariant forall j :: 0 <= j < k ==> RowAgrees(rows[j], cases[rows[j].caseId])
      invariant applied == |AppliedRows(rows[..k])|
    {
      var agrees, present := CheckRow(rows[k], cases[rows[k].caseId]);
      if !agrees {
        return false, 0;
      }
      WhereAppends(rows[..k], rows[k], (row: MutationReport) => row.applied);
      assert rows[..k + 1] == rows[..k] + [rows[k]];
      if present {
        applied := applied + 1;
      }
    }
    assert rows[..|rows|] == rows;
    ok := true;
  }

  method CheckKinds(coverage: seq<MutationCoverage>) returns (ok: bool)
    ensures ok == CoversEveryKind(coverage)
  {
    if |coverage| != 6 {
      return false;
    }
    var kinds := set k | 0 <= k < 6 :: coverage[k].mutation;
    assert forall kind :: kind in kinds <==> HasKind(coverage, kind);
    ok := AdvancePc in kinds && ChangeIndex in kinds && FlipValue in kinds && InvertTrap in kinds &&
          DropLast in kinds && ChangeEnd in kinds;
    forall kind: MutationKind | ok
      ensures kind in kinds
    {
      match kind
      case AdvancePc => case ChangeIndex => case FlipValue => case InvertTrap => case DropLast => case ChangeEnd =>
    }
  }

  method CheckCoverage(coverage: seq<MutationCoverage>, rows: seq<MutationReport>) returns (ok: bool)
    ensures ok <==> CoversEveryKind(coverage) && forall k :: 0 <= k < |coverage| ==> CoverageAgrees(coverage[k], rows)
  {
    hide CoversEveryKind, CoverageAgrees;
    ok := CheckKinds(coverage);
    if !ok {
      return;
    }
    for k := 0 to |coverage|
      invariant forall j :: 0 <= j < k ==> CoverageAgrees(coverage[j], rows)
    {
      if !CoverageAgrees(coverage[k], rows) {
        return false;
      }
    }
  }

  lemma RowsNamed(rows: seq<MutationReport>, cases: Cases)
    requires RowsCover(rows, cases)
    ensures forall k :: 0 <= k < |rows| ==> rows[k].caseId in cases
  {
  }

  /** Accept a summary exactly when recomputation agrees with all of it. */
  method CheckMutations(summary: MutationSummary, cases: Cases) returns (accepted: bool)
    ensures accepted == SummaryAccepted(summary, cases)
  {
    hide RowsCover, RowAgrees, CoversEveryKind, CoverageAgrees, AppliedRows;
    if summary.cases != |cases| || !summary.passed || summary.baselineFailures != [] || summary.undetected != []
       || summary.mislocated != [] {
      return false;
    }
    var rows := summary.reports;
    var complete := CheckKeys(rows, cases);
    if !complete {
      return false;
    }
    RowsNamed(rows, cases);
    var ok, applied := CheckRows(rows, cases);
    if !ok || summary.applied != applied || summary.skipped != |rows| - applied {
      return false;
    }
    accepted := CheckCoverage(summary.coverage, rows);
  }

  /** Recomputation leaves a row no freedom: two rows of one key that both agree are the same row, up
      to the wording of why a mutation was skipped. So no accepted row can name another field or step. */
  lemma AgreeingRowsAreEqual(row: MutationReport, other: MutationReport, evidence: EvidenceCase)
    requires RowAgrees(row, evidence) && RowAgrees(other, evidence) && KeyOf(row) == KeyOf(other)
    ensures row.(skippedBecause := None) == other.(skippedBecause := None)
    ensures row.skippedBecause.Some? <==> other.skippedBecause.Some?
  {
    hide CompareWithPolicy, Evidence.PyMutated;
  }

  // ---- The producer's summaries ----

  /** One artifact: the two traces and the focus step, as the validator accepts them. */
  ghost predicate RecordedCase(testCase: TestCase, engines: Engines, evidence: Cases) {
    && engines(testCase).Ok? && testCase.id in evidence
    && var pair := engines(testCase).value;
       && evidence[testCase.id] == EvidenceCase(pair.ckb, pair.sail, testCase.focusStep)
       && pair.ckb.end == InjectionComplete && testCase.focusStep < |pair.ckb.events|
  }

  /** The dictionary of artifacts read back for a corpus whose cases all ran on both engines. */
  ghost predicate Recorded(cases: seq<TestCase>, engines: Engines, evidence: Cases) {
    && |evidence| == |cases|
    && (forall k :: 0 <= k < |cases| ==> RecordedCase(cases[k], engines, evidence))
    && (forall name :: name in evidence ==> exists k :: 0 <= k < |cases| && cases[k].id == name)
  }

  lemma ReasonsAreNotEmpty(kind: MutationKind, trace: ExecutionTrace, focusStep: nat)
    ensures Apply(kind, trace, focusStep).Err? ==> Apply(kind, trace, focusStep).error != ""
  {
  }

  /** A report of a recorded case whose baseline passes agrees with recomputation. */
  lemma ReportsAgree(kind: MutationKind, testCase: TestCase, engines: Engines, evidence: Cases)
    requires RecordedCase(testCase, engines, evidence) && BaselinePasses(testCase, engines, Exact)
    ensures RowAgrees(Evaluate(testCase, kind, engines(testCase).value, Exact), evidence[testCase.id])
  {
    hide Apply, Evidence.PyMutated, CompareWithPolicy, FirstDifference, ExpectedStep, CommitsAWrite;
    var pair := engines(testCase).value;
    Evidence.MutationEnginesAgreeExactly(kind, pair.ckb, testCase.focusStep);
    EveryApplicableMutationIsLocated(kind, pair.ckb, pair.sail, Exact, testCase.focusStep);
    ReasonsAreNotEmpty(kind, pair.ckb, testCase.focusStep);
  }

  lemma EvaluateKeepsItsKey(testCase: TestCase, kind: MutationKind, pair: EnginePair)
    ensures KeyOf(Evaluate(testCase, kind, pair, Exact)) == (testCase.id, kind)
  {
    hide Apply, CompareWithPolicy;
  }

  lemma RowsAgree(cases: seq<TestCase>, engines: Engines, evidence: Cases, k: nat)
    requires Recorded(cases, engines, evidence) && k < |AllReports(cases, engines, Exact)|
    ensures var row := AllReports(cases, engines, Exact)[k];
      row.caseId in evidence && RowAgrees(row, evidence[row.caseId])
  {
    hide Evaluate, RowAgrees, BaselinePasses, AllReports;
    var row := AllReports(cases, engines, Exact)[k];
    ReportsComeFromCases(row, cases, engines, Exact);
    var i :| 0 <= i < |cases| && ReportOf(row, cases[i], engines, Exact);
    ReportsAgree(row.mutation, cases[i], engines, evidence);
    EvaluateKeepsItsKey(cases[i], row.mutation, engines(cases[i]).value);
  }

  lemma RowExists(cases: seq<TestCase>, engines: Engines, i: nat, kind: MutationKind)
    requires i < |cases| && BaselinePasses(cases[i], engines, Exact)
    ensures HasRow(AllReports(cases, engines, Exact), cases[i].id, kind)
  {
    hide Evaluate, BaselinePasses, AllReports;
    var row := Evaluate(cases[i], kind, engines(cases[i]).value, Exact);
    EvaluateKeepsItsKey(cases[i], kind, engines(cases[i]).value);
    assert ReportOf(row, cases[i], engines, Exact);
    ReportsComeFromCases(row, cases, engines, Exact);
    var rows := AllReports(cases, engines, Exact);
    var k :| 0 <= k < |rows| && rows[k] == row;
  }

  lemma {:induction false} SameFilter(
    rows: seq<MutationReport>, keep: MutationReport -> bool, same: MutationReport -> bool)
    requires forall row :: keep(row) == same(row)
    ensures Where(rows, keep) == Where(rows, same)
  {
    if rows != [] {
      SameFilter(rows[1..], keep, same);
    }
  }

  lemma CoverageOfSoundRows(rows: seq<MutationReport>, kind: MutationKind)
    requires forall row :: row in rows ==> Sound(row)
    requires CoverageOf(kind, rows).located > 0
    ensures CoverageAgrees(CoverageOf(kind, rows), rows)
  {
    hide Sound;
    AppliedIsLocated(rows, kind);
    var applied := Where(rows, (report: MutationReport) => report.mutation == kind && report.applied);
    SameFilter(rows, (report: MutationReport) => report.mutation == kind && report.applied,
               (row: MutationReport) => AppliedAs(kind, row));
    assert CaseIds(applied)[0] == applied[0].caseId;
  }

  lemma CoverageNamesEveryKind(rows: seq<MutationReport>)
    ensures CoversEveryKind(Coverage(rows))
  {
    var coverage, kinds := Coverage(rows), MANDATORY_MUTATIONS;
    assert kinds[0].AdvancePc? && kinds[1].ChangeIndex? && kinds[2].FlipValue? && kinds[3].InvertTrap? &&
           kinds[4].DropLast? && kinds[5].ChangeEnd?;
    forall kind: MutationKind
      ensures HasKind(coverage, kind)
    {
      var k :| 0 <= k < 6 && kinds[k] == kind;
      assert coverage[k].mutation == kind;
    }
  }

  /** Every passing producer summary over recorded cases is accepted. */
  lemma PassingSummariesAreAccepted(cases: seq<TestCase>, engines: Engines, evidence: Cases)
    requires Recorded(cases, engines, evidence) && MatrixSummary(cases, engines, Exact).passed
    ensures SummaryAccepted(MatrixSummary(cases, engines, Exact), evidence)
  {
    hide Evaluate, RowAgrees, BaselinePasses, AllReports, BaselineFailures, Sound, CommitsAWrite, CoverageAgrees;
    var summary := MatrixSummary(cases, engines, Exact);
    var rows := AllReports(cases, engines, Exact);
    MatrixIsEvidence(cases, engines, Exact);
    ReportsPerCase(cases, engines, Exact);
    forall k | 0 <= k < |rows|
      ensures rows[k].caseId in evidence && RowAgrees(rows[k], evidence[rows[k].caseId])
    {
      RowsAgree(cases, engines, evidence, k);
    }
    forall name, kind | name in evidence
      ensures HasRow(rows, name, kind)
    {
      var i :| 0 <= i < |cases| && cases[i].id == name;
      RowExists(cases, engines, i, kind);
    }
    forall row | row in rows
      ensures Sound(row)
    {
      AllReportsSound(row, cases, engines, Exact);
    }
    forall k | 0 <= k < 6
      ensures CoverageAgrees(summary.coverage[k], rows)
    {
      assert summary.coverage[k].located > 0;
      CoverageOfSoundRows(rows, MANDATORY_MUTATIONS[k]);
    }
    CoverageNamesEveryKind(rows);
  }
}
