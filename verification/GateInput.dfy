/**
 The three loaders of `tools/qualification.py`, over already decoded records.

 Texts arrive stripped of surrounding blanks, and the names of methods and statuses
 in lower case.
 */
module GateInput {
  import opened Ordering

  datatype Option<+T> = None | Some(value: T)

  // Decoded records.

  datatype RawMethods = NoMethods | BadMethods | MethodNames(names: seq<string>)

  datatype RawRequirement =
    | NotARequirement
    | RawRequirement(id: Option<string>, title: Option<string>, methods: RawMethods)

  datatype RawReferences = BadReferences | References(ids: seq<string>)

  datatype RawProcedure =
    | NotAProcedure
    | RawProcedure(
        id: Option<string>, title: Option<string>,
        requirementIds: RawReferences, caseIds: RawReferences, strategy: Option<string>)

  datatype RawStatus = BadStatus | Flag(passed: bool) | Named(name: string)

  datatype RawCase =
    | NotACase
    | RawCase(id: Option<string>, name: Option<string>, status: RawStatus, message: string)

  // Loaded records.

  datatype Metadata = Metadata(project: string, version: string, baseline: string)

  datatype Requirement = Requirement(id: string, title: string, methods: set<string>)

  datatype Procedure = Procedure(
    id: string, title: string, requirementIds: seq<string>, caseIds: seq<string>, strategy: string)

  datatype CaseStatus = Pass | Fail | Incomplete

  datatype Case = Case(id: string, name: string, status: CaseStatus, message: string)

  function OrElse(o: Option<string>, default: string): string {
    if o.Some? then o.value else default
  }

  /** `_normalize_method`. */
  function NormalizeMethod(value: string): Option<string> {
    if value in ["test", "automated_test", "automated test", "unit_test", "unit test", "integration_test",
                 "integration test", "system_test", "system test", "qualification_test",
                 "qualification test", "execution"] then Some("test")
    else if value in ["analysis", "static_analysis", "static analysis"] then Some("analysis")
    else if value in ["inspection", "review"] then Some("inspection")
    else if value == "demonstration" then Some("demonstration")
    else None
  }

  /** `_normalize_status`. */
  function NormalizeStatus(raw: RawStatus): Option<CaseStatus> {
    match raw
    case BadStatus => None
    case Flag(passed) => Some(if passed then Pass else Fail)
    case Named(name) =>
      if name in ["pass", "passed", "success", "successful", "ok"] then Some(Pass)
      else if name in ["fail", "failed", "failure", "error"] then Some(Fail)
      else if name in ["skip", "skipped", "not_run", "not-run", "not run", "blocked"] then Some(Incomplete)
      else None
  }

  /** The references of `_string_references`: at least one, none twice, sorted. */
  function ParseReferences(raw: RawReferences): Option<seq<string>> {
    match raw
    case BadReferences => None
    case References(ids) =>
      if ids != [] && Distinct(ids) then Some(Sort(ids, Less)) else None
  }

  predicate Distinct(ids: seq<string>) {
    forall i, j | 0 <= i < j < |ids| :: ids[i] != ids[j]
  }

  /** Every name is a known method. */
  predicate Supported(names: seq<string>) {
    forall i | 0 <= i < |names| :: NormalizeMethod(names[i]).Some?
  }

  function MethodSet(names: seq<string>): set<string> {
    set i | 0 <= i < |names| && NormalizeMethod(names[i]).Some? :: NormalizeMethod(names[i]).value
  }

  // What one record means, if it is well formed.

  function ParseRequirement(raw: RawRequirement): Option<Requirement> {
    match raw
    case NotARequirement => None
    case RawRequirement(id, title, methods) =>
      if id.None? || methods.BadMethods? then None
      else
        var names := if methods.MethodNames? then methods.names else [];
        if !Supported(names) then None
        else Some(Requirement(id.value, OrElse(title, id.value), MethodSet(names)))
  }

  function ParseProcedure(raw: RawProcedure): Option<Procedure> {
    match raw
    case NotAProcedure => None
    case RawProcedure(id, title, requirementIds, caseIds, strategy) =>
      if id.None? || strategy.None? then None
      else
        var rs, cs, m := ParseReferences(requirementIds), ParseReferences(caseIds), NormalizeMethod(strategy.value);
        if rs.None? || cs.None? || m.None? then None
        else Some(Procedure(id.value, OrElse(title, id.value), rs.value, cs.value, m.value))
  }

  function ParseCase(raw: RawCase): Option<Case> {
    match raw
    case NotACase => None
    case RawCase(id, name, status, message) =>
      if id.None? || NormalizeStatus(status).None? then None
      else Some(Case(id.value, OrElse(name, id.value), NormalizeStatus(status).value, message))
  }

  // What a loader accepts, and what it returns.

  /** All records well formed, in order. */
  predicate AllParse<R, T>(records: seq<R>, parse: R -> Option<T>) {
    forall i | 0 <= i < |records| :: parse(records[i]).Some?
  }

  function Parsed<R, T>(records: seq<R>, parse: R -> Option<T>): (items: seq<T>)
    requires AllParse(records, parse)
    ensures |items| == |records|
  {
    seq(|records|, i requires 0 <= i < |records| => parse(records[i]).value)
  }

  predicate UniqueKeys<T>(items: seq<T>, key: T -> string) {
    forall i, j | 0 <= i < j < |items| :: key(items[i]) != key(items[j])
  }

  predicate Acceptable<R, T>(records: seq<R>, parse: R -> Option<T>, key: T -> string) {
    records != [] && AllParse(records, parse) && UniqueKeys(Parsed(records, parse), key)
  }

  function ByKey<T>(key: T -> string): (T, T) -> bool {
    (x, y) => Less(key(x), key(y))
  }

  /** The result of a loader: the items sorted by identifier, or a rejection. */
  function Loaded<R, T>(records: seq<R>, parse: R -> Option<T>, key: T -> string): Option<seq<T>> {
    if Acceptable(records, parse, key) then Some(Sort(Parsed(records, parse), ByKey(key))) else None
  }

  function RequirementId(r: Requirement): string { r.id }

  function ProcedureId(p: Procedure): string { p.id }

  function CaseId(c: Case): string { c.id }

  // Why records and documents are refused.

  /** Code and subject of what is wrong with a record. */
  datatype Problem = Problem(code: string, subject: string)

  datatype Finding = OfRecord(index: nat, problem: Problem) | OfDocument(code: string)

  /** The codes that differ between the loaders. */
  datatype Codes = Codes(duplicate: string, empty: string)

  const REQUIREMENT_CODES := Codes("DUPLICATE_REQUIREMENT_ID", "EMPTY_REQUIREMENTS")
  const PROCEDURE_CODES := Codes("DUPLICATE_PROCEDURE_ID", "EMPTY_PROCEDURES")
  const CASE_CODES := Codes("DUPLICATE_C_CASE_ID", "EMPTY_C_RESULTS")

  const INVALID_SCHEMA := Problem("INVALID_SCHEMA", "")

  /** A record by itself: it cannot be read, or it claims an identifier and may have a
      problem that counts only if nobody claimed that identifier before. */
  datatype Claim = Unreadable(problem: Problem) | Claims(id: string, late: Option<Problem>)

  function ClaimRequirement(raw: RawRequirement): Claim {
    match raw
    case NotARequirement => Unreadable(INVALID_SCHEMA)
    case RawRequirement(id, _, methods) =>
      if id.None? then Unreadable(INVALID_SCHEMA)
      else if methods.BadMethods? then Claims(id.value, Some(Problem("INVALID_SCHEMA", id.value)))
      else if methods.MethodNames? && !Supported(methods.names) then
        Claims(id.value, Some(Problem("UNSUPPORTED_VERIFICATION_METHOD", id.value)))
      else Claims(id.value, None)
  }

  /** What `_string_references` raises. */
  function ReferenceProblem(raw: RawReferences): Option<Problem> {
    match raw
    case BadReferences => Some(INVALID_SCHEMA)
    case References(ids) =>
      if ids == [] then Some(INVALID_SCHEMA)
      else if !Distinct(ids) then Some(Problem("DUPLICATE_REFERENCE", ""))
      else None
  }

  function ClaimProcedure(raw: RawProcedure): Claim {
    match raw
    case NotAProcedure => Unreadable(INVALID_SCHEMA)
    case RawProcedure(id, _, requirementIds, caseIds, strategy) =>
      if id.None? then Unreadable(INVALID_SCHEMA)
      else if ReferenceProblem(requirementIds).Some? then Unreadable(ReferenceProblem(requirementIds).value)
      else if ReferenceProblem(caseIds).Some? then Unreadable(ReferenceProblem(caseIds).value)
      else if strategy.None? then Unreadable(INVALID_SCHEMA)
      else if NormalizeMethod(strategy.value).None? then
        Claims(id.value, Some(Problem("UNSUPPORTED_VERIFICATION_METHOD", id.value)))
      else Claims(id.value, None)
  }

  function ClaimCase(raw: RawCase): Claim {
    match raw
    case NotACase => Unreadable(Problem("INVALID_C_RESULT", ""))
    case RawCase(id, _, status, _) =>
      if id.None? then Unreadable(INVALID_SCHEMA)
      else if status.BadStatus? then Unreadable(Problem("INVALID_C_RESULT", id.value))
      else if NormalizeStatus(status).None? then Unreadable(Problem("INVALID_C_STATUS", id.value))
      else Claims(id.value, None)
  }

  /** The identifiers claimed by some record. */
  function Claimed<R>(records: seq<R>, claim: R -> Claim): set<string> {
    set i | 0 <= i < |records| && claim(records[i]).Claims? :: claim(records[i]).id
  }

  /** What is wrong with a record, if anything: being unreadable, claiming an identifier
      that an earlier record claims, or its own late problem. */
  function Judge(c: Claim, earlier: set<string>, duplicate: string): Option<Problem> {
    match c
    case Unreadable(problem) => Some(problem)
    case Claims(id, late) => if id in earlier then Some(Problem(duplicate, id)) else late
  }

  function ProblemAt<R>(records: seq<R>, index: nat, claim: R -> Claim, duplicate: string): Option<Problem>
    requires index < |records|
  {
    Judge(claim(records[index]), Claimed(records[..index], claim), duplicate)
  }

  /** One finding for each record with a problem, in order. */
  function Findings<R>(records: seq<R>, claim: R -> Claim, duplicate: string): seq<Finding>
    decreases |records|
  {
    if records == [] then []
    else
      var n := |records| - 1;
      var front := Findings(records[..n], claim, duplicate);
      match ProblemAt(records, n, claim, duplicate)
      case Some(problem) => front + [OfRecord(n, problem)]
      case None => front
  }

  function Refusals<R>(records: seq<R>, claim: R -> Claim, codes: Codes): seq<Finding> {
    Findings(records, claim, codes.duplicate) + if records == [] then [OfDocument(codes.empty)] else []
  }

  lemma ProblemAtPrefix<R>(records: seq<R>, n: nat, index: nat, claim: R -> Claim, duplicate: string)
    requires index < n <= |records|
    ensures ProblemAt(records[..n], index, claim, duplicate) == ProblemAt(records, index, claim, duplicate)
  {
    assert records[..n][..index] == records[..index];
  }

  /** The findings are exactly the problems of the records. */
  lemma {:induction false} FindingsAre<R>(records: seq<R>, claim: R -> Claim, duplicate: string)
    ensures forall f :: f in Findings(records, claim, duplicate)
                   <==> f.OfRecord? && f.index < |records|
                        && ProblemAt(records, f.index, claim, duplicate) == Some(f.problem)
    decreases |records|
  {
    hide ProblemAt;
    if records == [] {
    } else {
      var n := |records| - 1;
      FindingsAre(records[..n], claim, duplicate);
      forall i: nat | i < n
        ensures ProblemAt(records[..n], i, claim, duplicate) == ProblemAt(records, i, claim, duplicate)
      {
        ProblemAtPrefix(records, n, i, claim, duplicate);
      }
    }
  }

  lemma FindingsOneMore<R>(done: seq<R>, r: R, claim: R -> Claim, duplicate: string)
    ensures Findings(done + [r], claim, duplicate)
         == Findings(done, claim, duplicate)
            + if Judge(claim(r), Claimed(done, claim), duplicate).Some?
              then [OfRecord(|done|, Judge(claim(r), Claimed(done, claim), duplicate).value)] else []
    ensures Claimed(done + [r], claim)
         == Claimed(done, claim) + if claim(r).Claims? then {claim(r).id} else {}
  {
    var more := done + [r];
    assert more[..|done|] == done && more[|done|] == r;
    forall id ensures id in Claimed(more, claim)
                 <==> id in Claimed(done, claim) || (claim(r).Claims? && id == claim(r).id)
    {
      if id in Claimed(done, claim) {
        var i :| 0 <= i < |done| && claim(done[i]).Claims? && claim(done[i]).id == id;
        assert more[i] == done[i];
      }
    }
  }

  /** A record parses exactly if it is readable and has no late problem, and its item has
      the identifier it claims. */
  ghost predicate Agrees<R(!new), T>(parse: R -> Option<T>, key: T -> string, claim: R -> Claim) {
    forall r ::
      && (parse(r).Some? <==> claim(r).Claims? && claim(r).late.None?)
      && (parse(r).Some? ==> key(parse(r).value) == claim(r).id)
  }

  lemma RequirementsAgree()
    ensures Agrees(ParseRequirement, RequirementId, ClaimRequirement)
  {
    hide NormalizeMethod, MethodSet;
  }

  lemma ProceduresAgree()
    ensures Agrees(ParseProcedure, ProcedureId, ClaimProcedure)
  {
    hide NormalizeMethod, Sort;
  }

  lemma CasesAgree()
    ensures Agrees(ParseCase, CaseId, ClaimCase)
  {
  }

  lemma ParseOneMore<R, T>(done: seq<R>, r: R, parse: R -> Option<T>)
    ensures AllParse(done + [r], parse) <==> AllParse(done, parse) && parse(r).Some?
    ensures AllParse(done + [r], parse) ==>
      Parsed(done + [r], parse) == Parsed(done, parse) + [parse(r).value]
  {
    if AllParse(done + [r], parse) {
      forall i | 0 <= i < |done| ensures parse(done[i]).Some? {
        assert (done + [r])[i] == done[i];
      }
      assert (done + [r])[|done|] == r;
    }
  }

  lemma KeyOneMore<T>(items: seq<T>, x: T, key: T -> string)
    ensures UniqueKeys(items + [x], key)
       <==> UniqueKeys(items, key) && forall i | 0 <= i < |items| :: key(items[i]) != key(x)
  {
    var more := items + [x];
    if UniqueKeys(more, key) {
      assert forall i | 0 <= i < |items| :: more[i] == items[i];
      assert more[|items|] == x;
    }
  }

  /** There is no finding exactly if all records parse and no identifier repeats. */
  lemma {:induction false} CleanIff<R(!new), T>(
    records: seq<R>, parse: R -> Option<T>, key: T -> string, claim: R -> Claim, duplicate: string)
    requires Agrees(parse, key, claim)
    ensures Findings(records, claim, duplicate) == []
       <==> AllParse(records, parse) && UniqueKeys(Parsed(records, parse), key)
    decreases |records|
  {
    hide UniqueKeys, Claimed;
    if records == [] {
      EmptyUnique(key);
    } else {
      var n := |records| - 1;
      var done, r := records[..n], records[n];
      assert records == done + [r];
      CleanIff(done, parse, key, claim, duplicate);
      ParseOneMore(done, r, parse);
      FindingsOneMore(done, r, claim, duplicate);
      if AllParse(records, parse) {
        KeyOneMore(Parsed(done, parse), parse(r).value, key);
        ClaimedKeys(done, parse, key, claim);
      }
    }
  }

  /** Records that all parse claim the identifiers of their items. */
  lemma ClaimedKeys<R(!new), T>(records: seq<R>, parse: R -> Option<T>, key: T -> string, claim: R -> Claim)
    requires Agrees(parse, key, claim) && AllParse(records, parse)
    ensures forall id :: id in Claimed(records, claim)
                    <==> exists i | 0 <= i < |records| :: key(Parsed(records, parse)[i]) == id
  {
    var items := Parsed(records, parse);
    forall i | 0 <= i < |records| ensures claim(records[i]).Claims? && key(items[i]) == claim(records[i]).id {
      assert parse(records[i]).Some?;
    }
  }

  lemma EmptyUnique<T>(key: T -> string)
    ensures UniqueKeys([], key)
  {
  }

  /** A document is refused exactly if there is a finding. */
  lemma RefusedIff<R(!new), T>(
    records: seq<R>, parse: R -> Option<T>, key: T -> string, claim: R -> Claim, codes: Codes)
    requires Agrees(parse, key, claim)
    ensures Refusals(records, claim, codes) != [] <==> Loaded(records, parse, key).None?
  {
    hide Sort, UniqueKeys;
    CleanIff(records, parse, key, claim, codes.duplicate);
  }

  // The loops.

  datatype LoadResult<T> = Accepted(items: seq<T>) | Invalid(findings: seq<Finding>)

  /** The methods of a requirement and the names that are not methods. */
  method NormalizeMethods(names: seq<string>) returns (methods: set<string>, unsupported: seq<string>)
    ensures unsupported == [] <==> Supported(names)
    ensures methods == MethodSet(names)
  {
    hide NormalizeMethod;
    methods, unsupported := {}, [];
    for index := 0 to |names|
      invariant unsupported == [] <==> forall i | 0 <= i < index :: NormalizeMethod(names[i]).Some?
      invariant methods
             == set i | 0 <= i < index && NormalizeMethod(names[i]).Some? :: NormalizeMethod(names[i]).value
    {
      var normalized := NormalizeMethod(names[index]);
      if normalized.None? {
        unsupported := unsupported + [names[index]];
      } else {
        methods := methods + {normalized.value};
      }
    }
  }

  /** The end of every loader: an empty document is refused, findings reject it, and
      otherwise the items are returned sorted by identifier. */
  method Conclude<R(!new), T>(
    ghost records: seq<R>, empty: bool, ghost parse: R -> Option<T>, key: T -> string,
    ghost claim: R -> Claim, codes: Codes, items: seq<T>, found: seq<Finding>)
    returns (result: LoadResult<T>)
    requires empty <==> records == []
    requires Agrees(parse, key, claim) && found == Findings(records, claim, codes.duplicate)
    requires found == [] ==> AllParse(records, parse) && items == Parsed(records, parse)
    ensures match Loaded(records, parse, key)
            case Some(sorted) => result == Accepted(sorted)
            case None => result == Invalid(Refusals(records, claim, codes))
  {
    hide Sort, UniqueKeys, AllParse, Parsed;
    RefusedIff(records, parse, key, claim, codes);
    var findings := found;
    if empty {
      findings := findings + [OfDocument(codes.empty)];
    }
    if findings != [] {
      return Invalid(findings);
    }
    return Accepted(Sort(items, ByKey(key)));
  }

  /** `load_requirements`. */
  method LoadRequirements(records: seq<RawRequirement>) returns (result: LoadResult<Requirement>)
    ensures match Loaded(records, ParseRequirement, RequirementId)
            case Some(items) => result == Accepted(items)
            case None => result == Invalid(Refusals(records, ClaimRequirement, REQUIREMENT_CODES))
  {
    hide NormalizeMethod, Sort, Supported, MethodSet, Findings, Claimed, AllParse, Parsed;
    var requirements: seq<Requirement> := [];
    var findings: seq<Finding> := [];
    var seen: set<string> := {};
    NothingYet(ParseRequirement, ClaimRequirement, REQUIREMENT_CODES.duplicate);
    for index := 0 to |records|
      invariant findings == Findings(records[..index], ClaimRequirement, REQUIREMENT_CODES.duplicate)
      invariant seen == Claimed(records[..index], ClaimRequirement)
      invariant findings == [] ==> AllParse(records[..index], ParseRequirement)
                                   && requirements == Parsed(records[..index], ParseRequirement)
    {
      var raw := records[index];
      assert records[..index + 1] == records[..index] + [raw];
      FindingsOneMore(records[..index], raw, ClaimRequirement, REQUIREMENT_CODES.duplicate);
      ParseOneMore(records[..index], raw, ParseRequirement);
      if raw.NotARequirement? || raw.id.None? {
        findings := findings + [OfRecord(index, INVALID_SCHEMA)];
      } else if raw.id.value in seen {
        findings := findings + [OfRecord(index, Problem("DUPLICATE_REQUIREMENT_ID", raw.id.value))];
      } else {
        seen := seen + {raw.id.value};
        if raw.methods.BadMethods? {
          findings := findings + [OfRecord(index, Problem("INVALID_SCHEMA", raw.id.value))];
        } else {
          var names := if raw.methods.MethodNames? then raw.methods.names else [];
          var methods, unsupported := NormalizeMethods(names);
          NoNames();
          if unsupported != [] {
            findings := findings + [OfRecord(index, Problem("UNSUPPORTED_VERIFICATION_METHOD", raw.id.value))];
          } else {
            requirements := requirements + [Requirement(raw.id.value, OrElse(raw.title, raw.id.value), methods)];
          }
        }
      }
    }
    assert records[..|records|] == records;
    RequirementsAgree();
    result := Conclude(records, |records| == 0, ParseRequirement, RequirementId, ClaimRequirement,
                       REQUIREMENT_CODES, requirements, findings);
  }

  lemma NothingYet<R, T>(parse: R -> Option<T>, claim: R -> Claim, duplicate: string)
    ensures Findings([], claim, duplicate) == [] && Claimed([], claim) == {}
    ensures AllParse([], parse) && Parsed([], parse) == []
  {
  }

  lemma NoNames()
    ensures Supported([])
  {
  }

  /** `load_procedures`. */
  method LoadProcedures(records: seq<RawProcedure>) returns (result: LoadResult<Procedure>)
    ensures match Loaded(records, ParseProcedure, ProcedureId)
            case Some(items) => result == Accepted(items)
            case None => result == Invalid(Refusals(records, ClaimProcedure, PROCEDURE_CODES))
  {
    hide NormalizeMethod, Sort, Distinct, Findings, Claimed, AllParse, Parsed;
    var procedures: seq<Procedure> := [];
    var findings: seq<Finding> := [];
    var seen: set<string> := {};
    NothingYet(ParseProcedure, ClaimProcedure, PROCEDURE_CODES.duplicate);
    for index := 0 to |records|
      invariant findings == Findings(records[..index], ClaimProcedure, PROCEDURE_CODES.duplicate)
      invariant seen == Claimed(records[..index], ClaimProcedure)
      invariant findings == [] ==> AllParse(records[..index], ParseProcedure)
                                   && procedures == Parsed(records[..index], ParseProcedure)
    {
      var raw := records[index];
      assert records[..index + 1] == records[..index] + [raw];
      FindingsOneMore(records[..index], raw, ClaimProcedure, PROCEDURE_CODES.duplicate);
      ParseOneMore(records[..index], raw, ParseProcedure);
      if raw.NotAProcedure? || raw.id.None? {
        findings := findings + [OfRecord(index, INVALID_SCHEMA)];
      } else {
        var requirementProblem, caseProblem := ReferenceProblem(raw.requirementIds), ReferenceProblem(raw.caseIds);
        if requirementProblem.Some? {
          findings := findings + [OfRecord(index, requirementProblem.value)];
        } else if caseProblem.Some? {
          findings := findings + [OfRecord(index, caseProblem.value)];
        } else if raw.strategy.None? {
          findings := findings + [OfRecord(index, INVALID_SCHEMA)];
        } else if raw.id.value in seen {
          findings := findings + [OfRecord(index, Problem("DUPLICATE_PROCEDURE_ID", raw.id.value))];
        } else {
          seen := seen + {raw.id.value};
          var strategy := NormalizeMethod(raw.strategy.value);
          if strategy.None? {
            findings := findings + [OfRecord(index, Problem("UNSUPPORTED_VERIFICATION_METHOD", raw.id.value))];
          } else {
            procedures := procedures + [
              Procedure(raw.id.value, OrElse(raw.title, raw.id.value),
                        ParseReferences(raw.requirementIds).value, ParseReferences(raw.caseIds).value,
                        strategy.value)];
          }
        }
      }
    }
    assert records[..|records|] == records;
    ProceduresAgree();
    result := Conclude(records, |records| == 0, ParseProcedure, ProcedureId, ClaimProcedure,
                       PROCEDURE_CODES, procedures, findings);
  }

  /** `parse_c_results`. */
  method ParseCaseResults(records: seq<RawCase>) returns (result: LoadResult<Case>)
    ensures match Loaded(records, ParseCase, CaseId)
            case Some(items) => result == Accepted(items)
            case None => result == Invalid(Refusals(records, ClaimCase, CASE_CODES))
  {
    hide Sort, Findings, Claimed, AllParse, Parsed;
    var cases: seq<Case> := [];
    var findings: seq<Finding> := [];
    var seen: set<string> := {};
    NothingYet(ParseCase, ClaimCase, CASE_CODES.duplicate);
    for index := 0 to |records|
      invariant findings == Findings(records[..index], ClaimCase, CASE_CODES.duplicate)
      invariant seen == Claimed(records[..index], ClaimCase)
      invariant findings == [] ==> AllParse(records[..index], ParseCase)
                                   && cases == Parsed(records[..index], ParseCase)
    {
      var raw := records[index];
      assert records[..index + 1] == records[..index] + [raw];
      FindingsOneMore(records[..index], raw, ClaimCase, CASE_CODES.duplicate);
      ParseOneMore(records[..index], raw, ParseCase);
      if raw.NotACase? {
        findings := findings + [OfRecord(index, Problem("INVALID_C_RESULT", ""))];
      } else if raw.id.None? {
        findings := findings + [OfRecord(index, INVALID_SCHEMA)];
      } else if raw.status.BadStatus? {
        findings := findings + [OfRecord(index, Problem("INVALID_C_RESULT", raw.id.value))];
      } else {
        var status := NormalizeStatus(raw.status);
        if status.None? {
          findings := findings + [OfRecord(index, Problem("INVALID_C_STATUS", raw.id.value))];
        } else if raw.id.value in seen {
          findings := findings + [OfRecord(index, Problem("DUPLICATE_C_CASE_ID", raw.id.value))];
        } else {
          seen := seen + {raw.id.value};
          cases := cases + [Case(raw.id.value, OrElse(raw.name, raw.id.value), status.value, raw.message)];
        }
      }
    }
    assert records[..|records|] == records;
    CasesAgree();
    result := Conclude(records, |records| == 0, ParseCase, CaseId, ClaimCase, CASE_CODES, cases, findings);
  }
}
