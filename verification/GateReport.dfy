/**
 The report of `build_report`: its findings, its rows, and what its verdict means.
 */
module GateReport {
  import opened Ordering
  import opened GateInput
  import opened Gate

  datatype ProcedureRow = ProcedureRow(
    id: string, title: string, requirementIds: seq<string>, caseIds: seq<string>,
    strategy: string, status: CaseStatus)

  datatype RequirementRow = RequirementRow(
    id: string, title: string, procedureIds: seq<string>, caseIds: seq<string>, status: CaseStatus)

  datatype Report = Report(
    metadata: Metadata,
    hostPass: bool,
    issues: seq<Issue>,
    procedures: seq<ProcedureRow>,
    requirements: seq<RequirementRow>,
    cases: seq<Case>,
    passed: nat, failed: nat, incomplete: nat,
    exitCode: int)

  /** The dictionary from identifiers to cases; a later case replaces an earlier one. */
  function CaseMap(cases: seq<Case>): map<string, Case>
    decreases |cases|
  {
    if cases == [] then map[]
    else CaseMap(cases[..|cases| - 1])[cases[|cases| - 1].id := cases[|cases| - 1]]
  }

  /** The statuses of the referenced cases that were returned. */
  function KnownStatuses(ids: seq<string>, m: map<string, Case>): seq<CaseStatus>
    decreases |ids|
  {
    if ids == [] then []
    else
      var front := KnownStatuses(ids[..|ids| - 1], m);
      var id := ids[|ids| - 1];
      if id in m then front + [m[id].status] else front
  }

  /** `_procedure_status`. */
  function ProcedureStatus(p: Procedure, m: map<string, Case>): CaseStatus {
    var statuses := KnownStatuses(p.caseIds, m);
    if |statuses| != |p.caseIds| || Incomplete in statuses then Incomplete
    else if Fail in statuses then Fail
    else Pass
  }

  function Row(p: Procedure, m: map<string, Case>): ProcedureRow {
    ProcedureRow(p.id, p.title, p.requirementIds, p.caseIds, p.strategy, ProcedureStatus(p, m))
  }

  /** The procedures that reference a requirement, in order. */
  function Linked(procedures: seq<Procedure>, requirement: string): seq<Procedure>
    decreases |procedures|
  {
    if procedures == [] then []
    else
      var front := Linked(procedures[..|procedures| - 1], requirement);
      var p := procedures[|procedures| - 1];
      if requirement in p.requirementIds then front + [p] else front
  }

  function AllCaseIds(procedures: seq<Procedure>): seq<string>
    decreases |procedures|
  {
    if procedures == [] then [] else AllCaseIds(procedures[..|procedures| - 1]) + procedures[|procedures| - 1].caseIds
  }

  function Statuses(procedures: seq<Procedure>, m: map<string, Case>): seq<CaseStatus> {
    seq(|procedures|, i requires 0 <= i < |procedures| => ProcedureStatus(procedures[i], m))
  }

  function ProcedureIds(procedures: seq<Procedure>): seq<string> {
    seq(|procedures|, i requires 0 <= i < |procedures| => procedures[i].id)
  }

  /** No procedure, or an incomplete one, leaves a requirement incomplete. */
  function Overall(statuses: seq<CaseStatus>): CaseStatus {
    if statuses == [] || Incomplete in statuses then Incomplete
    else if Fail in statuses then Fail
    else Pass
  }

  function TraceRow(r: Requirement, procedures: seq<Procedure>, m: map<string, Case>): RequirementRow {
    var linked := Linked(procedures, r.id);
    RequirementRow(r.id, r.title, Sort(ProcedureIds(linked), Less), Sort(Dedup(AllCaseIds(linked)), Less),
                   Overall(Statuses(linked, m)))
  }

  function CountStatus(cases: seq<Case>, status: CaseStatus): nat
    decreases |cases|
  {
    if cases == [] then 0
    else CountStatus(cases[..|cases| - 1], status) + if cases[|cases| - 1].status == status then 1 else 0
  }

  // What the report must contain.

  /** Every finding of a report, and nothing else. */
  predicate ReportIssue(
    i: Issue, requirements: seq<Requirement>, procedures: seq<Procedure>, cases: seq<Case>,
    exitCode: int, input: seq<Issue>)
  {
    || i in input
    || TraceIssue(i, requirements, procedures, cases)
    || (exists c | c in cases :: CaseIssue(i, c))
    || (exitCode != 0 && i == ExitNonzero(exitCode))
  }

  ghost predicate IsReport(
    report: Report, requirements: seq<Requirement>, procedures: seq<Procedure>, cases: seq<Case>,
    metadata: Metadata, exitCode: int, input: seq<Issue>)
  {
    && report.metadata == metadata
    && StrictlySorted(report.issues, IssueLess)
    && (forall i :: i in report.issues <==> ReportIssue(i, requirements, procedures, cases, exitCode, input))
    && (report.hostPass <==> report.issues == [])
    && report.procedures == seq(|procedures|, i requires 0 <= i < |procedures| => Row(procedures[i], CaseMap(cases)))
    && report.requirements
       == seq(|requirements|,
              i requires 0 <= i < |requirements| => TraceRow(requirements[i], procedures, CaseMap(cases)))
    && report.cases == cases && report.exitCode == exitCode
    && report.passed == CountStatus(cases, Pass)
    && report.failed == CountStatus(cases, Fail)
    && report.incomplete == CountStatus(cases, Incomplete)
  }

  /** The specification leaves no choice: two reports on the same input are identical. */
  lemma ReportUnique(
    a: Report, b: Report, requirements: seq<Requirement>, procedures: seq<Procedure>, cases: seq<Case>,
    metadata: Metadata, exitCode: int, input: seq<Issue>)
    requires IsReport(a, requirements, procedures, cases, metadata, exitCode, input)
    requires IsReport(b, requirements, procedures, cases, metadata, exitCode, input)
    ensures a == b
  {
    hide IssueLess, ReportIssue, Row, TraceRow, CountStatus;
    IssueOrder();
    SortedByMembers(a.issues, b.issues, IssueLess);
  }

  // The loops.

  method CaseIssues(before: seq<Issue>, cases: seq<Case>) returns (issues: seq<Issue>)
    ensures forall i :: i in issues <==> i in before || exists c | c in cases :: CaseIssue(i, c)
  {
    hide CaseFailed, CaseIncomplete;
    issues := before;
    for index := 0 to |cases|
      invariant forall i :: i in issues <==> i in before || exists c | c in cases[..index] :: CaseIssue(i, c)
    {
      var c := cases[index];
      ghost var was := issues;
      if c.status == Fail {
        issues := issues + [CaseFailed(c.id)];
      } else if c.status == Incomplete {
        issues := issues + [CaseIncomplete(c.id)];
      }
      assert forall i :: i in issues <==> i in was || CaseIssue(i, c);
      assert cases[..index + 1] == cases[..index] + [c];
    }
    assert cases[..|cases|] == cases;
  }

  method CountCases(cases: seq<Case>) returns (passed: nat, failed: nat, incomplete: nat)
    ensures passed == CountStatus(cases, Pass) && failed == CountStatus(cases, Fail)
    ensures incomplete == CountStatus(cases, Incomplete)
    ensures passed + failed + incomplete == |cases|
  {
    passed, failed, incomplete := 0, 0, 0;
    for index := 0 to |cases|
      invariant passed == CountStatus(cases[..index], Pass) && failed == CountStatus(cases[..index], Fail)
      invariant incomplete == CountStatus(cases[..index], Incomplete)
      invariant passed + failed + incomplete == index
    {
      match cases[index].status {
        case Pass => passed := passed + 1;
        case Fail => failed := failed + 1;
        case Incomplete => incomplete := incomplete + 1;
      }
      assert cases[..index + 1][..index] == cases[..index];
    }
    assert cases[..|cases|] == cases;
  }

  method RowsOf(procedures: seq<Procedure>, m: map<string, Case>) returns (rows: seq<ProcedureRow>)
    ensures rows == seq(|procedures|, i requires 0 <= i < |procedures| => Row(procedures[i], m))
  {
    hide Row;
    rows := [];
    for index := 0 to |procedures|
      invariant rows == seq(index, i requires 0 <= i < index => Row(procedures[i], m))
    {
      rows := rows + [Row(procedures[index], m)];
    }
  }

  method TraceRowsOf(requirements: seq<Requirement>, procedures: seq<Procedure>, m: map<string, Case>)
    returns (rows: seq<RequirementRow>)
    ensures rows == seq(|requirements|, i requires 0 <= i < |requirements| => TraceRow(requirements[i], procedures, m))
  {
    hide TraceRow;
    rows := [];
    for index := 0 to |requirements|
      invariant rows == seq(index, i requires 0 <= i < index => TraceRow(requirements[i], procedures, m))
    {
      rows := rows + [TraceRow(requirements[index], procedures, m)];
    }
  }

  /** `build_report`. */
  method BuildReport(
    requirements: seq<Requirement>, procedures: seq<Procedure>, cases: seq<Case>,
    metadata: Metadata, exitCode: int, input: seq<Issue>)
    returns (report: Report)
    ensures IsReport(report, requirements, procedures, cases, metadata, exitCode, input)
  {
    hide IssueLess, Row, TraceRow, CountStatus, ExitNonzero, TraceIssue, CaseIssue, Sort, Dedup;
    var caseById := CaseMap(cases);
    var traced := TraceabilityIssues(requirements, procedures, cases);
    var issues := CaseIssues(input + traced, cases);
    if exitCode != 0 {
      issues := issues + [ExitNonzero(exitCode)];
    }
    IssueOrder();
    SortedDedup(issues, IssueLess);
    var ordered := Sort(Dedup(issues), IssueLess);
    var procedureRows := RowsOf(procedures, caseById);
    var traceRows := TraceRowsOf(requirements, procedures, caseById);
    var passed, failed, incomplete := CountCases(cases);
    report := Report(metadata, ordered == [], ordered, procedureRows, traceRows, cases,
                     passed, failed, incomplete, exitCode);
  }

  // What the verdict means.

  /** The gate opens exactly when nothing is wrong: sound and complete. */
  lemma HostPassIff(
    report: Report, requirements: seq<Requirement>, procedures: seq<Procedure>, cases: seq<Case>,
    metadata: Metadata, exitCode: int, input: seq<Issue>)
    requires IsReport(report, requirements, procedures, cases, metadata, exitCode, input)
    ensures report.hostPass
       <==> (&& exitCode == 0 && input == []
             && Traceable(requirements, procedures, cases)
             && forall c | c in cases :: c.status == Pass)
  {
    hide TraceIssue, Traceable, ExitNonzero, CaseFailed, CaseIncomplete;
    TraceableIff(requirements, procedures, cases);
    if report.hostPass {
      assert forall i :: !ReportIssue(i, requirements, procedures, cases, exitCode, input);
      forall i ensures !TraceIssue(i, requirements, procedures, cases) {
        assert !ReportIssue(i, requirements, procedures, cases, exitCode, input);
      }
      assert input != [] ==> ReportIssue(input[0], requirements, procedures, cases, exitCode, input);
      assert exitCode != 0 ==> ReportIssue(ExitNonzero(exitCode), requirements, procedures, cases, exitCode, input);
      forall c | c in cases ensures c.status == Pass {
        var failed, incomplete := CaseFailed(c.id), CaseIncomplete(c.id);
        assert c.status == Fail ==> CaseIssue(failed, c);
        assert c.status == Incomplete ==> CaseIssue(incomplete, c);
        assert !ReportIssue(failed, requirements, procedures, cases, exitCode, input);
        assert !ReportIssue(incomplete, requirements, procedures, cases, exitCode, input);
      }
    } else {
      assert report.issues[0] in report.issues;
    }
  }

  /** The same, for unique requirement identifiers, in terms of the records alone. */
  lemma HostPassMeans(
    report: Report, requirements: seq<Requirement>, procedures: seq<Procedure>, cases: seq<Case>,
    metadata: Metadata, exitCode: int, input: seq<Issue>)
    requires IsReport(report, requirements, procedures, cases, metadata, exitCode, input)
    requires UniqueKeys(requirements, RequirementId)
    ensures report.hostPass
       <==> (&& exitCode == 0 && input == []
             && Reconciled(requirements, procedures, cases)
             && forall c | c in cases :: c.status == Pass)
  {
    hide Traceable, Reconciled, IsReport, UniqueKeys;
    HostPassIff(report, requirements, procedures, cases, metadata, exitCode, input);
    ReconciledIff(requirements, procedures, cases);
  }

  // The columns of the rows.

  /** Verdict, counts and lists of a report. */
  lemma ReportFields(
    report: Report, requirements: seq<Requirement>, procedures: seq<Procedure>, cases: seq<Case>,
    metadata: Metadata, exitCode: int, input: seq<Issue>)
    requires IsReport(report, requirements, procedures, cases, metadata, exitCode, input)
    ensures report.hostPass <==> report.issues == []
    ensures report.metadata == metadata && report.exitCode == exitCode && report.cases == cases
    ensures report.passed == |Positions(cases, Pass)| && report.failed == |Positions(cases, Fail)|
    ensures report.incomplete == |Positions(cases, Incomplete)|
    ensures |report.requirements| == |requirements|
    ensures forall i | 0 <= i < |requirements| ::
      report.requirements[i] == TraceRow(requirements[i], procedures, CaseMap(cases))
  {
    hide CaseMap, ReportIssue, Row, TraceRow, CountStatus, Positions, IssueLess;
    CountStatusIs(cases, Pass);
    CountStatusIs(cases, Fail);
    CountStatusIs(cases, Incomplete);
  }

  /** Procedure rows keep the order and the columns of the procedures. */
  lemma ProcedureRows(
    report: Report, requirements: seq<Requirement>, procedures: seq<Procedure>, cases: seq<Case>,
    metadata: Metadata, exitCode: int, input: seq<Issue>, i: int)
    requires IsReport(report, requirements, procedures, cases, metadata, exitCode, input)
    requires 0 <= i < |procedures|
    ensures |report.procedures| == |procedures|
    ensures var row, p := report.procedures[i], procedures[i];
      && row.id == p.id && row.title == p.title && row.strategy == p.strategy
      && row.requirementIds == p.requirementIds && row.caseIds == p.caseIds
      && row.status == ProcedureStatus(p, CaseMap(cases))
  {
    hide ProcedureStatus, CaseMap, ReportIssue, TraceRow, CountStatus;
  }

  lemma {:induction false} AllCaseIdsAre(procedures: seq<Procedure>)
    ensures forall c :: c in AllCaseIds(procedures) <==> exists p | p in procedures :: c in p.caseIds
    decreases |procedures|
  {
    if procedures == [] {
    } else {
      var n := |procedures| - 1;
      assert procedures == procedures[..n] + [procedures[n]];
      AllCaseIdsAre(procedures[..n]);
    }
  }

  lemma {:induction false} LinkedCounts(procedures: seq<Procedure>, requirement: string)
    ensures |Linked(procedures, requirement)|
         == |set i | 0 <= i < |procedures| && requirement in procedures[i].requirementIds|
    decreases |procedures|
  {
    if procedures == [] {
    } else {
      var n := |procedures| - 1;
      var front := procedures[..n];
      LinkedCounts(front, requirement);
      var before := set i | 0 <= i < |front| && requirement in front[i].requirementIds;
      var after := set i | 0 <= i < |procedures| && requirement in procedures[i].requirementIds;
      assert after == if requirement in procedures[n].requirementIds then before + {n} else before;
    }
  }

  /** Requirement rows: identifier and title; the identifiers of all procedures that
      reference the requirement, sorted; and the cases those reference, each once, sorted. */
  lemma RequirementRows(r: Requirement, procedures: seq<Procedure>, m: map<string, Case>)
    ensures var row := TraceRow(r, procedures, m);
      && row.id == r.id && row.title == r.title
      && (forall x :: x in row.procedureIds
                 <==> exists p | p in procedures :: r.id in p.requirementIds && p.id == x)
      && |row.procedureIds| == |set i | 0 <= i < |procedures| && r.id in procedures[i].requirementIds|
      && Sorted(row.procedureIds, Less)
      && (forall c :: c in row.caseIds
                 <==> exists p | p in procedures :: r.id in p.requirementIds && c in p.caseIds)
      && StrictlySorted(row.caseIds, Less)
  {
    hide Less, Sort, Dedup, Linked, AllCaseIds, ProcedureStatus;
    var linked := Linked(procedures, r.id);
    var ids := ProcedureIds(linked);
    TextOrder();
    LinkedAre(procedures, r.id);
    LinkedCounts(procedures, r.id);
    SortIsSorted(ids, Less);
    SortMembers(ids, Less);
    SortLength(ids);
    ProcedureIdsAre(linked);
    AllCaseIdsAre(linked);
    SortedDedup(AllCaseIds(linked), Less);
  }

  lemma SortLength(ids: seq<string>)
    ensures |Sort(ids, Less)| == |ids|
  {
    SortElements(ids, Less);
    assert |multiset(ids)| == |ids| && |multiset(Sort(ids, Less))| == |Sort(ids, Less)|;
  }

  lemma ProcedureIdsAre(procedures: seq<Procedure>)
    ensures forall x :: x in ProcedureIds(procedures) <==> exists p | p in procedures :: p.id == x
  {
    var ids := ProcedureIds(procedures);
    forall p | p in procedures ensures p.id in ids {
      var i :| 0 <= i < |procedures| && procedures[i] == p;
      assert ids[i] == p.id;
    }
  }

  /** The positions of the cases with a status. */
  function Positions(cases: seq<Case>, status: CaseStatus): set<int> {
    set i | 0 <= i < |cases| && cases[i].status == status
  }

  lemma PositionsOneMore(front: seq<Case>, c: Case, status: CaseStatus)
    ensures Positions(front + [c], status) == Positions(front, status) + if c.status == status then {|front|} else {}
    ensures |front| !in Positions(front, status)
  {
    var cases := front + [c];
    assert forall i | 0 <= i < |front| :: cases[i] == front[i];
    assert cases[|front|] == c;
  }

  /** Counting cases counts their positions. */
  lemma {:induction false} CountStatusIs(cases: seq<Case>, status: CaseStatus)
    ensures CountStatus(cases, status) == |Positions(cases, status)|
    decreases |cases|
  {
    hide Positions;
    if cases == [] {
      NoPositions(status);
    } else {
      var n := |cases| - 1;
      CountStatusIs(cases[..n], status);
      PositionsOneMore(cases[..n], cases[n], status);
      assert cases == cases[..n] + [cases[n]];
    }
  }

  lemma NoPositions(status: CaseStatus)
    ensures Positions([], status) == {}
  {
  }

  /** A procedure passes exactly when every case it references was returned and passed, is
      incomplete exactly when one is missing or incomplete, and fails exactly when all are
      complete and one failed. */
  lemma ProcedureStatusIff(p: Procedure, m: map<string, Case>)
    ensures ProcedureStatus(p, m) == Pass <==> forall c | c in p.caseIds :: c in m && m[c].status == Pass
    ensures ProcedureStatus(p, m) == Incomplete
       <==> exists c | c in p.caseIds :: c !in m || m[c].status == Incomplete
    ensures ProcedureStatus(p, m) == Fail
       <==> && (forall c | c in p.caseIds :: c in m && m[c].status != Incomplete)
            && exists c | c in p.caseIds :: m[c].status == Fail
  {
    KnownStatusesAre(p.caseIds, m);
  }

  lemma {:induction false} KnownStatusesAre(ids: seq<string>, m: map<string, Case>)
    ensures |KnownStatuses(ids, m)| <= |ids|
    ensures |KnownStatuses(ids, m)| == |ids| <==> forall c | c in ids :: c in m
    ensures forall s :: s in KnownStatuses(ids, m) <==> exists c | c in ids :: c in m && m[c].status == s
    decreases |ids|
  {
    if ids == [] {
    } else {
      var n := |ids| - 1;
      assert ids == ids[..n] + [ids[n]];
      KnownStatusesAre(ids[..n], m);
    }
  }

  lemma {:induction false} CaseMapHas(cases: seq<Case>)
    ensures forall id :: id in CaseMap(cases) <==> id in CaseIds(cases)
    ensures forall id | id in CaseMap(cases) :: CaseMap(cases)[id] in cases
    decreases |cases|
  {
    if cases == [] {
    } else {
      var n := |cases| - 1;
      CaseMapHas(cases[..n]);
      assert cases == cases[..n] + [cases[n]];
      CaseIdsOneMore(cases[..n], cases[n]);
    }
  }

  /** The entry of an identifier is the last case that has it. */
  lemma {:induction false} CaseMapLast(cases: seq<Case>, i: nat)
    requires i < |cases| && forall j | i < j < |cases| :: cases[j].id != cases[i].id
    ensures cases[i].id in CaseMap(cases) && CaseMap(cases)[cases[i].id] == cases[i]
    decreases |cases|
  {
    if i == |cases| - 1 {
    } else {
      CaseMapLast(cases[..|cases| - 1], i);
    }
  }

  lemma CaseIdsOneMore(cases: seq<Case>, c: Case)
    ensures CaseIds(cases + [c]) == CaseIds(cases) + {c.id}
  {
    var more := cases + [c];
    forall id ensures id in CaseIds(more) <==> id in CaseIds(cases) + {c.id} {
      if id in CaseIds(cases) {
        var i :| 0 <= i < |cases| && cases[i].id == id;
        assert more[i].id == id;
      }
      assert more[|cases|] == c;
    }
  }

  lemma {:induction false} LinkedAre(procedures: seq<Procedure>, requirement: string)
    ensures forall p :: p in Linked(procedures, requirement) <==> p in procedures && requirement in p.requirementIds
    decreases |procedures|
  {
    if procedures == [] {
    } else {
      var n := |procedures| - 1;
      LinkedAre(procedures[..n], requirement);
      assert procedures == procedures[..n] + [procedures[n]];
    }
  }

  /** Some procedure that references a requirement has a status. */
  predicate SomeLinked(procedures: seq<Procedure>, requirement: string, status: CaseStatus, m: map<string, Case>) {
    exists p | p in procedures :: requirement in p.requirementIds && ProcedureStatus(p, m) == status
  }

  lemma LinkedStatuses(r: Requirement, procedures: seq<Procedure>, m: map<string, Case>)
    ensures forall status :: status in Statuses(Linked(procedures, r.id), m)
                        <==> SomeLinked(procedures, r.id, status, m)
    ensures Statuses(Linked(procedures, r.id), m) == [] <==> !Maps(procedures, r.id)
  {
    hide ProcedureStatus;
    var linked := Linked(procedures, r.id);
    var statuses := Statuses(linked, m);
    LinkedAre(procedures, r.id);
    forall status ensures status in statuses <==> SomeLinked(procedures, r.id, status, m) {
      if status in statuses {
        var i :| 0 <= i < |statuses| && statuses[i] == status;
        assert linked[i] in linked;
      }
      if SomeLinked(procedures, r.id, status, m) {
        var p :| p in procedures && r.id in p.requirementIds && ProcedureStatus(p, m) == status;
        assert p in linked;
        var i :| 0 <= i < |linked| && linked[i] == p;
        assert statuses[i] == status;
      }
    }
    assert linked != [] ==> linked[0] in linked;
  }

  /** A requirement row passes exactly when some procedure references the requirement and
      all that do pass; it is incomplete exactly when none does or one that does is
      incomplete; it fails exactly when none is incomplete and one fails. */
  lemma RequirementStatusIff(r: Requirement, procedures: seq<Procedure>, m: map<string, Case>)
    ensures TraceRow(r, procedures, m).status == Pass
       <==> Maps(procedures, r.id)
            && forall p | p in procedures && r.id in p.requirementIds :: ProcedureStatus(p, m) == Pass
    ensures TraceRow(r, procedures, m).status == Incomplete
       <==> !Maps(procedures, r.id) || SomeLinked(procedures, r.id, Incomplete, m)
    ensures TraceRow(r, procedures, m).status == Fail
       <==> !SomeLinked(procedures, r.id, Incomplete, m) && SomeLinked(procedures, r.id, Fail, m)
  {
    hide ProcedureStatus, Sort, Dedup, AllCaseIds, Statuses, Linked;
    LinkedStatuses(r, procedures, m);
    if Maps(procedures, r.id)
       && !SomeLinked(procedures, r.id, Incomplete, m) && !SomeLinked(procedures, r.id, Fail, m)
    {
      forall p | p in procedures && r.id in p.requirementIds ensures ProcedureStatus(p, m) == Pass {
        ThreeStatuses(ProcedureStatus(p, m));
      }
    }
  }

  lemma ThreeStatuses(status: CaseStatus)
    ensures status == Pass || status == Fail || status == Incomplete
  {
  }

  /** An open gate means: every procedure row and every requirement row passes, and
      the standalone traceability check finds nothing. */
  lemma HostPassRows(
    report: Report, requirements: seq<Requirement>, procedures: seq<Procedure>, cases: seq<Case>,
    metadata: Metadata, exitCode: int, input: seq<Issue>)
    requires IsReport(report, requirements, procedures, cases, metadata, exitCode, input) && report.hostPass
    ensures forall row | row in report.procedures :: row.status == Pass
    ensures forall row | row in report.requirements :: row.status == Pass
    ensures forall i :: !TraceIssue(i, requirements, procedures, cases)
  {
    var m := CaseMap(cases);
    hide CaseMap, CountStatus, TraceIssue, ProcedureStatus;
    HostPassIff(report, requirements, procedures, cases, metadata, exitCode, input);
    TraceableIff(requirements, procedures, cases);
    CaseMapHas(cases);
    forall p | p in procedures ensures ProcedureStatus(p, m) == Pass {
      ProcedureStatusIff(p, m);
    }
    forall r | r in requirements ensures TraceRow(r, procedures, m).status == Pass {
      RequirementStatusIff(r, procedures, m);
      assert r.id in Ids(requirements);
    }
  }

  /** `report_exit_code`. */
  function ExitCode(report: Report): int {
    if report.hostPass then 0 else 1
  }
}
