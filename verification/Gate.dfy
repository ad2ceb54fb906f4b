/**
 The qualification gate of `tools/qualification.py`: traceability between
 requirements, procedures and cases, and the report built from it.
 */
module Gate {
  import opened Ordering
  import opened GateInput

  datatype Issue = Issue(code: string, message: string, subject: string)

  /** Issues are ordered by code, subject and message. */
  predicate IssueLess(a: Issue, b: Issue) {
    || Less(a.code, b.code)
    || (a.code == b.code && Less(a.subject, b.subject))
    || (a.code == b.code && a.subject == b.subject && Less(a.message, b.message))
  }

  lemma IssueOrder()
    ensures TotalOrder(IssueLess)
  {
    forall a: Issue ensures !IssueLess(a, a) {
      LessIrreflexive(a.code);
      LessIrreflexive(a.subject);
      LessIrreflexive(a.message);
    }
    forall a, b, c | IssueLess(a, b) && IssueLess(b, c) ensures IssueLess(a, c) {
      IssueTransitive(a, b, c);
    }
    forall a, b ensures a == b || IssueLess(a, b) || IssueLess(b, a) {
      LessTotal(a.code, b.code);
      LessTotal(a.subject, b.subject);
      LessTotal(a.message, b.message);
    }
  }

  lemma IssueTransitive(a: Issue, b: Issue, c: Issue)
    requires IssueLess(a, b) && IssueLess(b, c)
    ensures IssueLess(a, c)
  {
    hide Less;
    if Less(a.code, b.code) && Less(b.code, c.code) {
      LessTransitive(a.code, b.code, c.code);
    } else if a.code == b.code == c.code {
      if Less(a.subject, b.subject) && Less(b.subject, c.subject) {
        LessTransitive(a.subject, b.subject, c.subject);
      } else if a.subject == b.subject == c.subject {
        LessTransitive(a.message, b.message, c.message);
      }
    }
  }

  // The issues that can be raised.

  function UnknownRequirement(procedure: string, requirement: string): Issue {
    Issue("UNKNOWN_REQUIREMENT",
          "Procedure '" + procedure + "' references unknown requirement '" + requirement + "'.", procedure)
  }

  function MethodMismatch(procedure: string, strategy: string, requirement: string): Issue {
    Issue("VERIFICATION_METHOD_MISMATCH",
          "Procedure '" + procedure + "' method '" + strategy + "' is not permitted by requirement '"
          + requirement + "'.", procedure)
  }

  function MissingCase(procedure: string, caseId: string): Issue {
    Issue("MISSING_C_CASE",
          "Procedure '" + procedure + "' references C case '" + caseId + "', but it was not returned.", procedure)
  }

  function UnmappedRequirement(requirement: string): Issue {
    Issue("UNMAPPED_REQUIREMENT",
          "Requirement '" + requirement + "' has no valid test-procedure mapping.", requirement)
  }

  function UnknownCase(caseId: string): Issue {
    Issue("UNKNOWN_C_CASE",
          "C test binary returned case '" + caseId + "', but no procedure references it.", caseId)
  }

  function CaseFailed(caseId: string): Issue {
    Issue("CASE_FAILED", "C qualification case '" + caseId + "' failed.", caseId)
  }

  function CaseIncomplete(caseId: string): Issue {
    Issue("CASE_INCOMPLETE", "C qualification case '" + caseId + "' did not complete.", caseId)
  }

  function Decimal(n: int): string
    decreases if n < 0 then 1 - n else n
  {
    if n < 0 then "-" + Decimal(-n)
    else if n < 10 then ["0123456789"[n]]
    else Decimal(n / 10) + ["0123456789"[n % 10]]
  }

  function ExitNonzero(exitCode: int): Issue {
    Issue("BINARY_EXIT_NONZERO", "C test binary exited with status " + Decimal(exitCode) + ".", "")
  }

  // What each issue means.

  function Ids(requirements: seq<Requirement>): set<string> {
    set i | 0 <= i < |requirements| :: requirements[i].id
  }

  function CaseIds(cases: seq<Case>): set<string> {
    set i | 0 <= i < |cases| :: cases[i].id
  }

  /** The first requirement with an identifier. */
  function Find(requirements: seq<Requirement>, id: string): (r: Requirement)
    requires id in Ids(requirements)
    ensures r in requirements && r.id == id
  {
    if requirements[0].id == id then requirements[0] else Find(requirements[1..], id)
  }

  lemma {:induction false} FindFirst(requirements: seq<Requirement>, i: nat)
    requires i < |requirements| && forall j | 0 <= j < i :: requirements[j].id != requirements[i].id
    ensures requirements[i].id in Ids(requirements)
    ensures Find(requirements, requirements[i].id) == requirements[i]
    decreases i
  {
    if i == 0 {
    } else {
      assert requirements[1..][i - 1] == requirements[i];
      FindFirst(requirements[1..], i - 1);
    }
  }

  /** If identifiers are unique, it is the one with that identifier. */
  lemma FindUnique(requirements: seq<Requirement>, q: Requirement)
    requires UniqueKeys(requirements, RequirementId) && q in requirements
    ensures q.id in Ids(requirements) && Find(requirements, q.id) == q
  {
    var r := Find(requirements, q.id);
    var i :| 0 <= i < |requirements| && requirements[i] == q;
    var j :| 0 <= j < |requirements| && requirements[j] == r;
    assert RequirementId(requirements[i]) == RequirementId(requirements[j]);
  }

  predicate Permits(r: Requirement, strategy: string) {
    r.methods == {} || strategy in r.methods
  }

  /** The issue a procedure raises through one of its requirement references. */
  predicate RequirementIssue(i: Issue, requirements: seq<Requirement>, p: Procedure, r: string) {
    if r !in Ids(requirements) then i == UnknownRequirement(p.id, r)
    else !Permits(Find(requirements, r), p.strategy) && i == MethodMismatch(p.id, p.strategy, r)
  }

  predicate ProcedureIssue(i: Issue, requirements: seq<Requirement>, cases: seq<Case>, p: Procedure) {
    || (exists r | r in p.requirementIds :: RequirementIssue(i, requirements, p, r))
    || (exists c | c in p.caseIds :: c !in CaseIds(cases) && i == MissingCase(p.id, c))
  }

  /** Some procedure references a requirement. */
  predicate Maps(procedures: seq<Procedure>, requirement: string) {
    exists p | p in procedures :: requirement in p.requirementIds
  }

  predicate MapsCase(procedures: seq<Procedure>, caseId: string) {
    exists p | p in procedures :: caseId in p.caseIds
  }

  /** Every issue of traceability, and nothing else. */
  predicate TraceIssue(i: Issue, requirements: seq<Requirement>, procedures: seq<Procedure>, cases: seq<Case>) {
    || (exists p | p in procedures :: ProcedureIssue(i, requirements, cases, p))
    || (exists r | r in Ids(requirements) :: !Maps(procedures, r) && i == UnmappedRequirement(r))
    || (exists c | c in CaseIds(cases) :: !MapsCase(procedures, c) && i == UnknownCase(c))
  }

  predicate CaseIssue(i: Issue, c: Case) {
    (c.status == Fail && i == CaseFailed(c.id)) || (c.status == Incomplete && i == CaseIncomplete(c.id))
  }

  /** The relational specification: every reference resolves, every requirement and
      every case is referenced, every method is permitted. */
  predicate Traceable(requirements: seq<Requirement>, procedures: seq<Procedure>, cases: seq<Case>) {
    && (forall p, r | p in procedures && r in p.requirementIds ::
          && r in Ids(requirements)
          && (Find(requirements, r).methods == {} || p.strategy in Find(requirements, r).methods))
    && (forall p, c | p in procedures && c in p.caseIds :: c in CaseIds(cases))
    && (forall r | r in Ids(requirements) :: Maps(procedures, r))
    && (forall c | c in CaseIds(cases) :: MapsCase(procedures, c))
  }

  /** Traceability holds exactly when there is no issue. */
  lemma TraceableIff(requirements: seq<Requirement>, procedures: seq<Procedure>, cases: seq<Case>)
    ensures Traceable(requirements, procedures, cases)
       <==> forall i :: !TraceIssue(i, requirements, procedures, cases)
  {
    hide UnknownRequirement, MethodMismatch, MissingCase, UnmappedRequirement, UnknownCase;
    if forall i :: !TraceIssue(i, requirements, procedures, cases) {
      forall p, r | p in procedures && r in p.requirementIds
        ensures r in Ids(requirements)
        ensures Find(requirements, r).methods == {} || p.strategy in Find(requirements, r).methods
      {
        var unknown, mismatch := UnknownRequirement(p.id, r), MethodMismatch(p.id, p.strategy, r);
        assert RequirementIssue(unknown, requirements, p, r) ==> ProcedureIssue(unknown, requirements, cases, p);
        assert RequirementIssue(mismatch, requirements, p, r) ==> ProcedureIssue(mismatch, requirements, cases, p);
        assert !TraceIssue(unknown, requirements, procedures, cases);
        assert !TraceIssue(mismatch, requirements, procedures, cases);
      }
      forall p, c | p in procedures && c in p.caseIds ensures c in CaseIds(cases) {
        var missing := MissingCase(p.id, c);
        assert c !in CaseIds(cases) ==> ProcedureIssue(missing, requirements, cases, p);
        assert !TraceIssue(missing, requirements, procedures, cases);
      }
      forall r | r in Ids(requirements) ensures Maps(procedures, r) {
        assert !TraceIssue(UnmappedRequirement(r), requirements, procedures, cases);
      }
      forall c | c in CaseIds(cases) ensures MapsCase(procedures, c) {
        assert !TraceIssue(UnknownCase(c), requirements, procedures, cases);
      }
    }
  }

  /** Some requirement has the identifier and permits any method, or this one. */
  predicate Matches(requirements: seq<Requirement>, r: string, strategy: string) {
    exists q | q in requirements :: q.id == r && (q.methods == {} || strategy in q.methods)
  }

  /** The same in terms of the records alone: every reference meets a record, which for a
      requirement permits the method, and every requirement and case is referenced. */
  predicate Reconciled(requirements: seq<Requirement>, procedures: seq<Procedure>, cases: seq<Case>) {
    && (forall p, r | p in procedures && r in p.requirementIds :: Matches(requirements, r, p.strategy))
    && (forall p, c | p in procedures && c in p.caseIds :: exists k | k in cases :: k.id == c)
    && (forall q | q in requirements :: exists p | p in procedures :: q.id in p.requirementIds)
    && (forall k | k in cases :: exists p | p in procedures :: k.id in p.caseIds)
  }

  lemma IdsAre(requirements: seq<Requirement>, cases: seq<Case>)
    ensures forall r :: r in Ids(requirements) <==> exists q | q in requirements :: q.id == r
    ensures forall c :: c in CaseIds(cases) <==> exists k | k in cases :: k.id == c
  {
    assert forall i | 0 <= i < |requirements| :: requirements[i] in requirements;
    assert forall i | 0 <= i < |cases| :: cases[i] in cases;
  }

  /** One requirement reference is in order. */
  predicate Resolves(requirements: seq<Requirement>, r: string, strategy: string) {
    && r in Ids(requirements)
    && (Find(requirements, r).methods == {} || strategy in Find(requirements, r).methods)
  }

  lemma ResolvesIff(requirements: seq<Requirement>, r: string, strategy: string)
    requires UniqueKeys(requirements, RequirementId)
    ensures Resolves(requirements, r, strategy) <==> Matches(requirements, r, strategy)
  {
    hide Ids, CaseIds, UniqueKeys;
    IdsAre(requirements, []);
    forall q | q in requirements ensures q.id in Ids(requirements) && Find(requirements, q.id) == q {
      FindUnique(requirements, q);
    }
  }

  lemma ReferencesIff(requirements: seq<Requirement>, procedures: seq<Procedure>)
    requires UniqueKeys(requirements, RequirementId)
    ensures (forall p, r | p in procedures && r in p.requirementIds :: Resolves(requirements, r, p.strategy))
       <==> (forall p, r | p in procedures && r in p.requirementIds :: Matches(requirements, r, p.strategy))
  {
    hide Resolves, Matches;
    forall p, r | p in procedures && r in p.requirementIds
      ensures Resolves(requirements, r, p.strategy) <==> Matches(requirements, r, p.strategy)
    {
      ResolvesIff(requirements, r, p.strategy);
    }
  }

  lemma ReconciledIff(requirements: seq<Requirement>, procedures: seq<Procedure>, cases: seq<Case>)
    requires UniqueKeys(requirements, RequirementId)
    ensures Traceable(requirements, procedures, cases) <==> Reconciled(requirements, procedures, cases)
  {
    hide Ids, CaseIds, UniqueKeys, Traceable, Matches, Resolves, Maps, MapsCase;
    ReferencesIff(requirements, procedures);
    ReturnedIff(procedures, cases);
    ReferencedIff(requirements, procedures, cases);
    TraceableParts(requirements, procedures, cases);
  }

  lemma TraceableParts(requirements: seq<Requirement>, procedures: seq<Procedure>, cases: seq<Case>)
    ensures Traceable(requirements, procedures, cases)
       <==> && (forall p, r | p in procedures && r in p.requirementIds :: Resolves(requirements, r, p.strategy))
            && (forall p, c | p in procedures && c in p.caseIds :: c in CaseIds(cases))
            && (forall r | r in Ids(requirements) :: Maps(procedures, r))
            && (forall c | c in CaseIds(cases) :: MapsCase(procedures, c))
  {
    hide Ids, CaseIds, Maps, MapsCase;
  }

  lemma ReturnedIff(procedures: seq<Procedure>, cases: seq<Case>)
    ensures (forall p, c | p in procedures && c in p.caseIds :: c in CaseIds(cases))
       <==> forall p, c | p in procedures && c in p.caseIds :: exists k | k in cases :: k.id == c
  {
    hide Ids, CaseIds;
    IdsAre([], cases);
    if forall p, c | p in procedures && c in p.caseIds :: c in CaseIds(cases) {
      forall p, c | p in procedures && c in p.caseIds ensures exists k | k in cases :: k.id == c {
        assert c in CaseIds(cases);
      }
    }
  }

  lemma ReferencedIff(requirements: seq<Requirement>, procedures: seq<Procedure>, cases: seq<Case>)
    ensures (forall r | r in Ids(requirements) :: Maps(procedures, r))
       <==> forall q | q in requirements :: exists p | p in procedures :: q.id in p.requirementIds
    ensures (forall c | c in CaseIds(cases) :: MapsCase(procedures, c))
       <==> forall k | k in cases :: exists p | p in procedures :: k.id in p.caseIds
  {
    hide Ids, CaseIds;
    IdsAre(requirements, cases);
    if forall r | r in Ids(requirements) :: Maps(procedures, r) {
      forall q | q in requirements ensures exists p | p in procedures :: q.id in p.requirementIds {
        assert Maps(procedures, q.id);
      }
    }
    if forall c | c in CaseIds(cases) :: MapsCase(procedures, c) {
      forall k | k in cases ensures exists p | p in procedures :: k.id in p.caseIds {
        assert MapsCase(procedures, k.id);
      }
    }
  }

  // The issues one by one, in the order in which they are raised.

  function RequirementIssues(requirements: seq<Requirement>, p: Procedure, ids: seq<string>): seq<Issue>
    decreases |ids|
  {
    if ids == [] then []
    else
      var front := RequirementIssues(requirements, p, ids[..|ids| - 1]);
      var r := ids[|ids| - 1];
      if r !in Ids(requirements) then front + [UnknownRequirement(p.id, r)]
      else if !Permits(Find(requirements, r), p.strategy) then front + [MethodMismatch(p.id, p.strategy, r)]
      else front
  }

  function MissingCases(cases: seq<Case>, p: Procedure, ids: seq<string>): seq<Issue>
    decreases |ids|
  {
    if ids == [] then []
    else
      var front := MissingCases(cases, p, ids[..|ids| - 1]);
      var c := ids[|ids| - 1];
      if c in CaseIds(cases) then front else front + [MissingCase(p.id, c)]
  }

  function IssuesOf(requirements: seq<Requirement>, procedures: seq<Procedure>, cases: seq<Case>): seq<Issue>
    decreases |procedures|
  {
    if procedures == [] then []
    else
      var p := procedures[|procedures| - 1];
      IssuesOf(requirements, procedures[..|procedures| - 1], cases)
      + RequirementIssues(requirements, p, p.requirementIds) + MissingCases(cases, p, p.caseIds)
  }

  function Outside(ids: seq<string>, mapped: set<string>): seq<string>
    decreases |ids|
  {
    if ids == [] then []
    else
      var front := Outside(ids[..|ids| - 1], mapped);
      if ids[|ids| - 1] in mapped then front else front + [ids[|ids| - 1]]
  }

  /** `sorted(ids - mapped)`. */
  function Difference(ids: seq<string>, mapped: set<string>): seq<string> {
    Sort(Dedup(Outside(ids, mapped)), Less)
  }

  function MappedIds(requirements: seq<Requirement>, procedures: seq<Procedure>): set<string> {
    set r | r in Ids(requirements) && Maps(procedures, r)
  }

  function MappedCases(cases: seq<Case>, procedures: seq<Procedure>): set<string> {
    set c | c in CaseIds(cases) && MapsCase(procedures, c)
  }

  function UnmappedIssues(ids: seq<string>): seq<Issue> {
    seq(|ids|, i requires 0 <= i < |ids| => UnmappedRequirement(ids[i]))
  }

  function UnknownIssues(ids: seq<string>): seq<Issue> {
    seq(|ids|, i requires 0 <= i < |ids| => UnknownCase(ids[i]))
  }

  /** All issues, each as often as it is raised. */
  function Raised(requirements: seq<Requirement>, procedures: seq<Procedure>, cases: seq<Case>): seq<Issue> {
    IssuesOf(requirements, procedures, cases)
    + UnmappedIssues(Difference(Listed(requirements), MappedIds(requirements, procedures)))
    + UnknownIssues(Difference(ListedCases(cases), MappedCases(cases, procedures)))
  }

  lemma {:induction false} RequirementIssuesAre(
    requirements: seq<Requirement>, p: Procedure, ids: seq<string>)
    ensures forall i :: i in RequirementIssues(requirements, p, ids)
                   <==> exists r | r in ids :: RequirementIssue(i, requirements, p, r)
    decreases |ids|
  {
    hide UnknownRequirement, MethodMismatch, Permits, Ids;
    if ids == [] {
    } else {
      var n := |ids| - 1;
      assert ids == ids[..n] + [ids[n]];
      RequirementIssuesAre(requirements, p, ids[..n]);
      assert forall i :: i in RequirementIssues(requirements, p, ids)
                    <==> i in RequirementIssues(requirements, p, ids[..n])
                         || RequirementIssue(i, requirements, p, ids[n]);
    }
  }

  lemma {:induction false} MissingCasesAre(cases: seq<Case>, p: Procedure, ids: seq<string>)
    ensures forall i :: i in MissingCases(cases, p, ids)
                   <==> exists c | c in ids :: c !in CaseIds(cases) && i == MissingCase(p.id, c)
    decreases |ids|
  {
    hide MissingCase, CaseIds;
    if ids == [] {
    } else {
      var n := |ids| - 1;
      assert ids == ids[..n] + [ids[n]];
      MissingCasesAre(cases, p, ids[..n]);
    }
  }

  lemma {:induction false} IssuesOfAre(
    requirements: seq<Requirement>, procedures: seq<Procedure>, cases: seq<Case>)
    ensures forall i :: i in IssuesOf(requirements, procedures, cases)
                   <==> exists p | p in procedures :: ProcedureIssue(i, requirements, cases, p)
    decreases |procedures|
  {
    hide RequirementIssue, MissingCase, CaseIds, RequirementIssues, MissingCases;
    if procedures == [] {
    } else {
      var n := |procedures| - 1;
      var p := procedures[n];
      assert procedures == procedures[..n] + [p];
      IssuesOfAre(requirements, procedures[..n], cases);
      RequirementIssuesAre(requirements, p, p.requirementIds);
      MissingCasesAre(cases, p, p.caseIds);
      assert forall i :: i in IssuesOf(requirements, procedures, cases)
                    <==> i in IssuesOf(requirements, procedures[..n], cases)
                         || ProcedureIssue(i, requirements, cases, p);
      OneMoreProcedure(requirements, procedures, cases);
    }
  }

  lemma OneMoreProcedure(requirements: seq<Requirement>, procedures: seq<Procedure>, cases: seq<Case>)
    requires procedures != []
    ensures var n := |procedures| - 1;
      forall i :: (exists p | p in procedures :: ProcedureIssue(i, requirements, cases, p))
             <==> (exists p | p in procedures[..n] :: ProcedureIssue(i, requirements, cases, p))
                  || ProcedureIssue(i, requirements, cases, procedures[n])
  {
    hide ProcedureIssue;
    var n := |procedures| - 1;
    assert procedures == procedures[..n] + [procedures[n]];
  }

  lemma {:induction false} OutsideAre(ids: seq<string>, mapped: set<string>)
    ensures forall x :: x in Outside(ids, mapped) <==> x in ids && x !in mapped
    decreases |ids|
  {
    if ids == [] {
    } else {
      var n := |ids| - 1;
      assert ids == ids[..n] + [ids[n]];
      OutsideAre(ids[..n], mapped);
    }
  }

  lemma DifferenceAre(ids: seq<string>, mapped: set<string>)
    ensures forall x :: x in Difference(ids, mapped) <==> x in ids && x !in mapped
    ensures StrictlySorted(Difference(ids, mapped), Less)
  {
    hide Sort, Dedup, Less, Outside;
    TextOrder();
    OutsideAre(ids, mapped);
    SortedDedup(Outside(ids, mapped), Less);
  }

  lemma UnmappedIssuesAre(ids: seq<string>)
    ensures forall i :: i in UnmappedIssues(ids) <==> exists r | r in ids :: i == UnmappedRequirement(r)
  {
    hide UnmappedRequirement;
    forall r | r in ids ensures UnmappedRequirement(r) in UnmappedIssues(ids) {
      var k :| 0 <= k < |ids| && ids[k] == r;
      assert UnmappedIssues(ids)[k] == UnmappedRequirement(r);
    }
  }

  lemma UnknownIssuesAre(ids: seq<string>)
    ensures forall i :: i in UnknownIssues(ids) <==> exists c | c in ids :: i == UnknownCase(c)
  {
    hide UnknownCase;
    forall c | c in ids ensures UnknownCase(c) in UnknownIssues(ids) {
      var k :| 0 <= k < |ids| && ids[k] == c;
      assert UnknownIssues(ids)[k] == UnknownCase(c);
    }
  }

  /** What is raised is exactly what the relational specification lists. */
  lemma RaisedAre(requirements: seq<Requirement>, procedures: seq<Procedure>, cases: seq<Case>)
    ensures forall i :: i in Raised(requirements, procedures, cases)
                   <==> TraceIssue(i, requirements, procedures, cases)
  {
    hide ProcedureIssue, IssuesOf, Difference, Ids, CaseIds, Maps, MapsCase, UnmappedRequirement, UnknownCase;
    hide UnmappedIssues, UnknownIssues, TraceIssue;
    var rs := Difference(Listed(requirements), MappedIds(requirements, procedures));
    var cs := Difference(ListedCases(cases), MappedCases(cases, procedures));
    IssuesOfAre(requirements, procedures, cases);
    DifferenceAre(Listed(requirements), MappedIds(requirements, procedures));
    DifferenceAre(ListedCases(cases), MappedCases(cases, procedures));
    UnmappedIssuesAre(rs);
    UnknownIssuesAre(cs);
    forall i ensures i in Raised(requirements, procedures, cases)
                <==> TraceIssue(i, requirements, procedures, cases)
    {
      TraceIssueIs(i, requirements, procedures, cases, rs, cs);
    }
  }

  lemma TraceIssueIs(
    i: Issue, requirements: seq<Requirement>, procedures: seq<Procedure>, cases: seq<Case>,
    rs: seq<string>, cs: seq<string>)
    requires forall r :: r in rs <==> r in Ids(requirements) && !Maps(procedures, r)
    requires forall c :: c in cs <==> c in CaseIds(cases) && !MapsCase(procedures, c)
    ensures TraceIssue(i, requirements, procedures, cases)
       <==> || (exists p | p in procedures :: ProcedureIssue(i, requirements, cases, p))
            || (exists r | r in rs :: i == UnmappedRequirement(r))
            || (exists c | c in cs :: i == UnknownCase(c))
  {
    hide ProcedureIssue, Ids, CaseIds, Maps, MapsCase, UnmappedRequirement, UnknownCase;
  }

  lemma TextOrder()
    ensures TotalOrder(Less)
  {
    forall a ensures !Less(a, a) {
      LessIrreflexive(a);
    }
    forall a, b, c | Less(a, b) && Less(b, c) ensures Less(a, c) {
      LessTransitive(a, b, c);
    }
    forall a, b ensures a == b || Less(a, b) || Less(b, a) {
      LessTotal(a, b);
    }
  }

  function Listed(requirements: seq<Requirement>): (ids: seq<string>)
    ensures forall x :: x in ids <==> x in Ids(requirements)
  {
    var ids := seq(|requirements|, i requires 0 <= i < |requirements| => requirements[i].id);
    assert forall i | 0 <= i < |requirements| :: requirements[i].id == ids[i] && ids[i] in ids;
    ids
  }

  function ListedCases(cases: seq<Case>): (ids: seq<string>)
    ensures forall x :: x in ids <==> x in CaseIds(cases)
  {
    var ids := seq(|cases|, i requires 0 <= i < |cases| => cases[i].id);
    assert forall i | 0 <= i < |cases| :: cases[i].id == ids[i] && ids[i] in ids;
    ids
  }

  // The loops of `traceability_issues`.

  /** One procedure: its issues, and which requirements and cases it maps. */
  method ProcedureIssues(requirements: seq<Requirement>, cases: seq<Case>, p: Procedure)
    returns (issues: seq<Issue>, mapped: set<string>, mappedCases: set<string>)
    ensures issues == RequirementIssues(requirements, p, p.requirementIds) + MissingCases(cases, p, p.caseIds)
    ensures forall i :: i in issues <==> ProcedureIssue(i, requirements, cases, p)
    ensures forall r :: r in mapped <==> r in p.requirementIds && r in Ids(requirements)
    ensures forall c :: c in mappedCases <==> c in p.caseIds && c in CaseIds(cases)
  {
    hide UnknownRequirement, MethodMismatch, MissingCase, Permits, RequirementIssue;
    issues, mapped, mappedCases := [], {}, {};
    var requirementIds := Ids(requirements);
    var caseIds := CaseIds(cases);
    for index := 0 to |p.requirementIds|
      invariant issues == RequirementIssues(requirements, p, p.requirementIds[..index])
      invariant forall r :: r in mapped <==> r in p.requirementIds[..index] && r in requirementIds
    {
      var r := p.requirementIds[index];
      if r !in requirementIds {
        issues := issues + [UnknownRequirement(p.id, r)];
      } else {
        mapped := mapped + {r};
        if !Permits(Find(requirements, r), p.strategy) {
          issues := issues + [MethodMismatch(p.id, p.strategy, r)];
        }
      }
      assert p.requirementIds[..index + 1] == p.requirementIds[..index] + [r];
    }
    assert p.requirementIds[..|p.requirementIds|] == p.requirementIds;
    ghost var fromRequirements := issues;
    for index := 0 to |p.caseIds|
      invariant issues == fromRequirements + MissingCases(cases, p, p.caseIds[..index])
      invariant forall c :: c in mappedCases <==> c in p.caseIds[..index] && c in caseIds
    {
      var c := p.caseIds[index];
      if c !in caseIds {
        issues := issues + [MissingCase(p.id, c)];
      } else {
        mappedCases := mappedCases + {c};
      }
      assert p.caseIds[..index + 1] == p.caseIds[..index] + [c];
    }
    assert p.caseIds[..|p.caseIds|] == p.caseIds;
    RequirementIssuesAre(requirements, p, p.requirementIds);
    MissingCasesAre(cases, p, p.caseIds);
  }

  /** The identifiers that are not mapped, sorted. */
  method Unmapped(listed: seq<string>, mapped: set<string>) returns (missing: seq<string>)
    ensures missing == Difference(listed, mapped)
    ensures forall x :: x in missing <==> x in listed && x !in mapped
    ensures StrictlySorted(missing, Less)
  {
    hide Sort, Dedup, Less;
    var rest: seq<string> := [];
    for index := 0 to |listed|
      invariant rest == Outside(listed[..index], mapped)
    {
      if listed[index] !in mapped {
        rest := rest + [listed[index]];
      }
      assert listed[..index + 1] == listed[..index] + [listed[index]];
    }
    assert listed[..|listed|] == listed;
    missing := Sort(Dedup(rest), Less);
    DifferenceAre(listed, mapped);
  }

  /** `traceability_issues`: exactly the issues of the specification, each as often as it
      is raised, sorted. */
  method TraceabilityIssues(requirements: seq<Requirement>, procedures: seq<Procedure>, cases: seq<Case>)
    returns (result: seq<Issue>)
    ensures forall i :: i in result <==> TraceIssue(i, requirements, procedures, cases)
    ensures multiset(result) == multiset(Raised(requirements, procedures, cases))
    ensures Sorted(result, IssueLess)
  {
    hide ProcedureIssue, UnmappedIssues, UnknownIssues, Ids, CaseIds, IssueLess, Sort, Less, Difference, TraceIssue;
    hide RequirementIssues, MissingCases;
    var issues: seq<Issue> := [];
    var mapped: set<string> := {};
    var mappedCases: set<string> := {};
    for index := 0 to |procedures|
      invariant issues == IssuesOf(requirements, procedures[..index], cases)
      invariant mapped == MappedIds(requirements, procedures[..index])
      invariant mappedCases == MappedCases(cases, procedures[..index])
    {
      var p := procedures[index];
      var found, rs, cs := ProcedureIssues(requirements, cases, p);
      issues, mapped, mappedCases := issues + found, mapped + rs, mappedCases + cs;
      assert procedures[..index + 1] == procedures[..index] + [p];
    }
    assert procedures[..|procedures|] == procedures;
    var missing := Unmapped(Listed(requirements), mapped);
    issues := AppendUnmapped(issues, missing);
    var unknown := Unmapped(ListedCases(cases), mappedCases);
    issues := AppendUnknown(issues, unknown);
    assert issues == Raised(requirements, procedures, cases);
    RaisedAre(requirements, procedures, cases);
    IssueOrder();
    SortIsSorted(issues, IssueLess);
    SortElements(issues, IssueLess);
    SortMembers(issues, IssueLess);
    result := Sort(issues, IssueLess);
  }

  method AppendUnmapped(before: seq<Issue>, missing: seq<string>) returns (issues: seq<Issue>)
    ensures issues == before + UnmappedIssues(missing)
  {
    hide UnmappedRequirement;
    issues := before;
    for index := 0 to |missing|
      invariant issues == before + UnmappedIssues(missing[..index])
    {
      issues := issues + [UnmappedRequirement(missing[index])];
    }
    assert missing[..|missing|] == missing;
  }

  method AppendUnknown(before: seq<Issue>, unknown: seq<string>) returns (issues: seq<Issue>)
    ensures issues == before + UnknownIssues(unknown)
  {
    hide UnknownCase;
    issues := before;
    for index := 0 to |unknown|
      invariant issues == before + UnknownIssues(unknown[..index])
    {
      issues := issues + [UnknownCase(unknown[index])];
    }
    assert unknown[..|unknown|] == unknown;
  }
}
