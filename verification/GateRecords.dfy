/**
 What single records mean to the loaders, with the accepted names, the codes of the
 findings and the fields written out.
 */
module GateRecords {
  import opened Ordering
  import opened GateInput
  import opened Gate

  /** The accepted verification methods and the strategy each is reported as. */
  const METHODS: map<string, string> := map[
    "test" := "test",
    "automated_test" := "test", "automated test" := "test",
    "unit_test" := "test", "unit test" := "test",
    "integration_test" := "test", "integration test" := "test",
    "system_test" := "test", "system test" := "test",
    "qualification_test" := "test", "qualification test" := "test",
    "execution" := "test",
    "analysis" := "analysis", "static_analysis" := "analysis", "static analysis" := "analysis",
    "inspection" := "inspection", "review" := "inspection",
    "demonstration" := "demonstration"]

  lemma MethodsAre(name: string)
    ensures NormalizeMethod(name) == if name in METHODS then Some(METHODS[name]) else None
  {
  }

  const PASS_NAMES: set<string> := {"pass", "passed", "success", "successful", "ok"}
  const FAIL_NAMES: set<string> := {"fail", "failed", "failure", "error"}
  const INCOMPLETE_NAMES: set<string> := {"skip", "skipped", "not_run", "not-run", "not run", "blocked"}

  lemma StatusesAre(name: string, passed: bool)
    ensures NormalizeStatus(Flag(passed)) == Some(if passed then Pass else Fail)
    ensures NormalizeStatus(BadStatus) == None
    ensures NormalizeStatus(Named(name)) == Some(Pass) <==> name in PASS_NAMES
    ensures NormalizeStatus(Named(name)) == Some(Fail) <==> name in FAIL_NAMES
    ensures NormalizeStatus(Named(name)) == Some(Incomplete) <==> name in INCOMPLETE_NAMES
  {
  }

  /** References are accepted if there are some and none repeats, and come out sorted. */
  lemma ReferencesAre(raw: RawReferences)
    ensures ParseReferences(raw).Some?
       <==> raw.References? && raw.ids != [] && forall i, j | 0 <= i < j < |raw.ids| :: raw.ids[i] != raw.ids[j]
    ensures ParseReferences(raw).Some? ==>
      && StrictlySorted(ParseReferences(raw).value, Less)
      && forall x :: x in ParseReferences(raw).value <==> x in raw.ids
  {
    hide Less, Sort;
    if ParseReferences(raw).Some? {
      TextOrder();
      SortSorted(raw.ids, Less);
      SortMembers(raw.ids, Less);
    }
  }

  /** When a requirement record is accepted by itself, and what it becomes. */
  lemma RequirementIs(raw: RawRequirement)
    ensures ParseRequirement(raw).Some?
       <==> && raw.RawRequirement? && raw.id.Some? && !raw.methods.BadMethods?
            && (raw.methods.MethodNames? ==> forall x | x in raw.methods.names :: x in METHODS)
    ensures ParseRequirement(raw).Some? ==>
      ParseRequirement(raw).value
      == Requirement(raw.id.value,
                     if raw.title.Some? then raw.title.value else raw.id.value,
                     if raw.methods.MethodNames? then set x | x in raw.methods.names && x in METHODS :: METHODS[x]
                     else {})
  {
    hide NormalizeMethod, METHODS;
    if raw.RawRequirement? && raw.methods.MethodNames? {
      SupportedIff(raw.methods.names);
      MethodSetIs(raw.methods.names);
    }
  }

  lemma SupportedIff(names: seq<string>)
    ensures Supported(names) <==> forall x | x in names :: x in METHODS
  {
    hide NormalizeMethod, METHODS;
    forall x ensures NormalizeMethod(x).Some? <==> x in METHODS {
      MethodsAre(x);
    }
    assert forall i | 0 <= i < |names| :: names[i] in names;
  }

  lemma MethodSetIs(names: seq<string>)
    ensures MethodSet(names) == set x | x in names && x in METHODS :: METHODS[x]
  {
    hide NormalizeMethod, METHODS;
    forall x ensures NormalizeMethod(x) == if x in METHODS then Some(METHODS[x]) else None {
      MethodsAre(x);
    }
    forall m ensures m in MethodSet(names) <==> exists x :: x in names && x in METHODS && METHODS[x] == m {
      if x :| x in names && x in METHODS && METHODS[x] == m {
        var i :| 0 <= i < |names| && names[i] == x;
        assert NormalizeMethod(names[i]) == Some(m);
      }
    }
  }

  /** The same for procedures. */
  lemma ProcedureIs(raw: RawProcedure)
    ensures ParseProcedure(raw).Some?
       <==> && raw.RawProcedure? && raw.id.Some? && raw.strategy.Some? && raw.strategy.value in METHODS
            && ParseReferences(raw.requirementIds).Some? && ParseReferences(raw.caseIds).Some?
    ensures ParseProcedure(raw).Some? ==>
      ParseProcedure(raw).value
      == Procedure(raw.id.value,
                   if raw.title.Some? then raw.title.value else raw.id.value,
                   ParseReferences(raw.requirementIds).value, ParseReferences(raw.caseIds).value,
                   METHODS[raw.strategy.value])
  {
    hide NormalizeMethod, METHODS, ParseReferences;
    if raw.RawProcedure? && raw.strategy.Some? {
      MethodsAre(raw.strategy.value);
    }
  }

  /** The same for case results. */
  lemma CaseIs(raw: RawCase)
    ensures ParseCase(raw).Some?
       <==> raw.RawCase? && raw.id.Some? && NormalizeStatus(raw.status).Some?
    ensures ParseCase(raw).Some? ==>
      ParseCase(raw).value
      == Case(raw.id.value, if raw.name.Some? then raw.name.value else raw.id.value,
              NormalizeStatus(raw.status).value, raw.message)
  {
    hide NormalizeStatus;
  }

  // The finding about one record of a document, if any.

  /** Requirements: an identifier counts as used as soon as any record has it. */
  lemma RequirementFinding(records: seq<RawRequirement>, i: nat)
    requires i < |records|
    ensures var raw := records[i];
      ProblemAt(records, i, ClaimRequirement, REQUIREMENT_CODES.duplicate)
      == if raw.NotARequirement? || raw.id.None? then Some(Problem("INVALID_SCHEMA", ""))
         else if exists j | 0 <= j < i :: records[j].RawRequirement? && records[j].id == raw.id then
           Some(Problem("DUPLICATE_REQUIREMENT_ID", raw.id.value))
         else if raw.methods.BadMethods? then Some(Problem("INVALID_SCHEMA", raw.id.value))
         else if raw.methods.MethodNames? && exists x | x in raw.methods.names :: x !in METHODS then
           Some(Problem("UNSUPPORTED_VERIFICATION_METHOD", raw.id.value))
         else None
  {
    hide METHODS, Supported;
    ClaimedBefore(records, i, ClaimRequirement);
    if records[i].RawRequirement? && records[i].methods.MethodNames? {
      SupportedIff(records[i].methods.names);
    }
  }

  lemma ClaimedBefore<R>(records: seq<R>, i: nat, claim: R -> Claim)
    requires i < |records|
    ensures forall id :: id in Claimed(records[..i], claim)
                    <==> exists j | 0 <= j < i :: claim(records[j]).Claims? && claim(records[j]).id == id
  {
    var before := records[..i];
    assert forall j | 0 <= j < i :: before[j] == records[j];
    forall id, j | 0 <= j < i && claim(records[j]).Claims? && claim(records[j]).id == id
      ensures id in Claimed(before, claim)
    {
      assert claim(before[j]).id == id;
    }
  }

  lemma ReferenceFinding(raw: RawReferences)
    ensures ReferenceProblem(raw)
         == if raw.BadReferences? || raw.ids == [] then Some(Problem("INVALID_SCHEMA", ""))
            else if exists i, j | 0 <= i < j < |raw.ids| :: raw.ids[i] == raw.ids[j] then
              Some(Problem("DUPLICATE_REFERENCE", ""))
            else None
    ensures ReferenceProblem(raw).None? <==> ParseReferences(raw).Some?
  {
    hide Sort, Less;
  }

  /** The record has an identifier, two good lists of references and a method. */
  predicate Readable(raw: RawProcedure) {
    && raw.RawProcedure? && raw.id.Some? && raw.strategy.Some?
    && ParseReferences(raw.requirementIds).Some? && ParseReferences(raw.caseIds).Some?
  }

  /** Procedures: requirement references are looked at first, then cases, then the method;
      only a readable record uses up an identifier. */
  lemma ProcedureFinding(records: seq<RawProcedure>, i: nat)
    requires i < |records|
    ensures var raw := records[i];
      ProblemAt(records, i, ClaimProcedure, PROCEDURE_CODES.duplicate)
      == if raw.NotAProcedure? || raw.id.None? then Some(Problem("INVALID_SCHEMA", ""))
         else if ReferenceProblem(raw.requirementIds).Some? then ReferenceProblem(raw.requirementIds)
         else if ReferenceProblem(raw.caseIds).Some? then ReferenceProblem(raw.caseIds)
         else if raw.strategy.None? then Some(Problem("INVALID_SCHEMA", ""))
         else if exists j | 0 <= j < i :: Readable(records[j]) && records[j].id == raw.id then
           Some(Problem("DUPLICATE_PROCEDURE_ID", raw.id.value))
         else if raw.strategy.value !in METHODS then
           Some(Problem("UNSUPPORTED_VERIFICATION_METHOD", raw.id.value))
         else None
  {
    hide METHODS, NormalizeMethod, ReferenceProblem, ParseReferences;
    ClaimedBefore(records, i, ClaimProcedure);
    forall j | 0 <= j < i
      ensures ClaimProcedure(records[j]).Claims? <==> Readable(records[j])
      ensures Readable(records[j]) ==> ClaimProcedure(records[j]).id == records[j].id.value
    {
      ReadableClaims(records[j]);
    }
    if records[i].RawProcedure? && records[i].strategy.Some? {
      MethodsAre(records[i].strategy.value);
    }
  }

  lemma ReadableClaims(raw: RawProcedure)
    ensures ClaimProcedure(raw).Claims? <==> Readable(raw)
    ensures Readable(raw) ==> ClaimProcedure(raw).id == raw.id.value
  {
    hide NormalizeMethod, ReferenceProblem, ParseReferences;
    if raw.RawProcedure? {
      ReferenceFinding(raw.requirementIds);
      ReferenceFinding(raw.caseIds);
    }
  }

  /** Case results: only a record with a known status uses up an identifier. */
  lemma CaseFinding(records: seq<RawCase>, i: nat)
    requires i < |records|
    ensures var raw := records[i];
      ProblemAt(records, i, ClaimCase, CASE_CODES.duplicate)
      == if raw.NotACase? then Some(Problem("INVALID_C_RESULT", ""))
         else if raw.id.None? then Some(Problem("INVALID_SCHEMA", ""))
         else if raw.status.BadStatus? then Some(Problem("INVALID_C_RESULT", raw.id.value))
         else if NormalizeStatus(raw.status).None? then Some(Problem("INVALID_C_STATUS", raw.id.value))
         else if exists j | 0 <= j < i ::
                   && records[j].RawCase? && records[j].id == raw.id
                   && NormalizeStatus(records[j].status).Some? then
           Some(Problem("DUPLICATE_C_CASE_ID", raw.id.value))
         else None
  {
    hide NormalizeStatus;
    ClaimedBefore(records, i, ClaimCase);
    NoStatus();
  }

  lemma NoStatus()
    ensures NormalizeStatus(BadStatus).None?
  {
  }

  /** A document without records is refused with its own code. */
  lemma EmptyDocuments()
    ensures Refusals([], ClaimRequirement, REQUIREMENT_CODES) == [OfDocument("EMPTY_REQUIREMENTS")]
    ensures Refusals([], ClaimProcedure, PROCEDURE_CODES) == [OfDocument("EMPTY_PROCEDURES")]
    ensures Refusals([], ClaimCase, CASE_CODES) == [OfDocument("EMPTY_C_RESULTS")]
  {
  }
}
