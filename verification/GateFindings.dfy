/**
 Codes, subjects and texts of the gate's findings, and which of them appears when, with
 everything written out.
 */
module GateFindings {
  import opened Ordering
  import opened GateInput
  import opened Gate
  import opened GateReport

  /** Code and subject of every finding. */
  lemma CodesAndSubjects(p: string, s: string, x: string, n: int)
    ensures var i := UnknownRequirement(p, x); i.code == "UNKNOWN_REQUIREMENT" && i.subject == p
    ensures var i := MethodMismatch(p, s, x); i.code == "VERIFICATION_METHOD_MISMATCH" && i.subject == p
    ensures var i := MissingCase(p, x); i.code == "MISSING_C_CASE" && i.subject == p
    ensures var i := UnmappedRequirement(x); i.code == "UNMAPPED_REQUIREMENT" && i.subject == x
    ensures var i := UnknownCase(x); i.code == "UNKNOWN_C_CASE" && i.subject == x
    ensures var i := CaseFailed(x); i.code == "CASE_FAILED" && i.subject == x
    ensures var i := CaseIncomplete(x); i.code == "CASE_INCOMPLETE" && i.subject == x
    ensures var i := ExitNonzero(n); i.code == "BINARY_EXIT_NONZERO" && i.subject == ""
  {
  }

  /** The wording of every finding. */
  lemma Texts(p: string, s: string, x: string, n: int)
    ensures UnknownRequirement(p, x).message
         == "Procedure '" + p + "' references unknown requirement '" + x + "'."
    ensures MethodMismatch(p, s, x).message
         == "Procedure '" + p + "' method '" + s + "' is not permitted by requirement '" + x + "'."
    ensures MissingCase(p, x).message
         == "Procedure '" + p + "' references C case '" + x + "', but it was not returned."
    ensures UnmappedRequirement(x).message == "Requirement '" + x + "' has no valid test-procedure mapping."
    ensures UnknownCase(x).message
         == "C test binary returned case '" + x + "', but no procedure references it."
    ensures CaseFailed(x).message == "C qualification case '" + x + "' failed."
    ensures CaseIncomplete(x).message == "C qualification case '" + x + "' did not complete."
    ensures ExitNonzero(n).message == "C test binary exited with status " + Decimal(n) + "."
  {
  }

  // Decimal numbers.

  function DigitValue(c: char): int {
    c as int - '0' as int
  }

  /** The number a string of digits stands for. */
  function NumberOf(s: string): int
    decreases |s|
  {
    if s == [] then 0 else 10 * NumberOf(s[..|s| - 1]) + DigitValue(s[|s| - 1])
  }

  function ReadDecimal(s: string): int {
    if s != [] && s[0] == '-' then -NumberOf(s[1..]) else NumberOf(s)
  }

  /** No sign, only digits, no leading zero unless alone. */
  predicate Plain(s: string) {
    && s != [] && (forall i | 0 <= i < |s| :: '0' <= s[i] <= '9')
    && (s[0] == '0' ==> |s| == 1)
  }

  lemma {:induction false} DecimalDigits(n: nat)
    ensures Plain(Decimal(n)) && NumberOf(Decimal(n)) == n
    ensures n > 0 ==> Decimal(n)[0] != '0'
    decreases n
  {
    Digit(n % 10);
    if n < 10 {
      assert Decimal(n)[..0] == "";
    } else {
      var s := Decimal(n / 10);
      DecimalDigits(n / 10);
      assert Decimal(n) == s + ["0123456789"[n % 10]];
      assert Decimal(n)[..|s|] == s;
    }
  }

  lemma Digit(d: nat)
    requires d < 10
    ensures DigitValue("0123456789"[d]) == d && '0' <= "0123456789"[d] <= '9'
    ensures d > 0 ==> "0123456789"[d] != '0'
  {
  }

  /** A number in a text reads back, without leading zeros. */
  lemma DecimalReads(n: int)
    ensures ReadDecimal(Decimal(n)) == n
    ensures n >= 0 ==> Plain(Decimal(n))
    ensures n < 0 ==> Decimal(n)[0] == '-' && Plain(Decimal(n)[1..])
  {
    if n >= 0 {
      DecimalDigits(n);
    } else {
      DecimalDigits(-n);
      assert Decimal(n)[1..] == Decimal(-n);
    }
  }

  // When each code appears.

  lemma CodesDiffer()
    ensures |"UNKNOWN_REQUIREMENT"| == 19 && |"VERIFICATION_METHOD_MISMATCH"| == 28
    ensures |"UNMAPPED_REQUIREMENT"| == 20 && |"MISSING_C_CASE"| == 14 && |"UNKNOWN_C_CASE"| == 14
    ensures "MISSING_C_CASE"[0] != "UNKNOWN_C_CASE"[0]
  {
  }

  /** A method mismatch is reported exactly for a procedure and a requirement it references
      that has methods, none of them the procedure's. */
  lemma MismatchIff(i: Issue, requirements: seq<Requirement>, procedures: seq<Procedure>, cases: seq<Case>)
    ensures TraceIssue(i, requirements, procedures, cases) && i.code == "VERIFICATION_METHOD_MISMATCH"
       <==> exists p, r | p in procedures && r in p.requirementIds ::
              && r in Ids(requirements)
              && Find(requirements, r).methods != {} && p.strategy !in Find(requirements, r).methods
              && i == MethodMismatch(p.id, p.strategy, r)
  {
    hide UnknownRequirement, MethodMismatch, MissingCase, UnmappedRequirement, UnknownCase;
    CodesDiffer();
    KnownCodes();
  }

  lemma KnownCodes()
    ensures forall p, x :: UnknownRequirement(p, x).code == "UNKNOWN_REQUIREMENT"
    ensures forall p, s, x :: MethodMismatch(p, s, x).code == "VERIFICATION_METHOD_MISMATCH"
    ensures forall p, x :: MissingCase(p, x).code == "MISSING_C_CASE"
    ensures forall x :: UnmappedRequirement(x).code == "UNMAPPED_REQUIREMENT"
    ensures forall x :: UnknownCase(x).code == "UNKNOWN_C_CASE"
  {
  }

  /** An unknown requirement is reported exactly for each reference without a record. */
  lemma UnknownRequirementIff(
    i: Issue, requirements: seq<Requirement>, procedures: seq<Procedure>, cases: seq<Case>)
    ensures TraceIssue(i, requirements, procedures, cases) && i.code == "UNKNOWN_REQUIREMENT"
       <==> exists p, r | p in procedures && r in p.requirementIds ::
              r !in Ids(requirements) && i == UnknownRequirement(p.id, r)
  {
    hide UnknownRequirement, MethodMismatch, MissingCase, UnmappedRequirement, UnknownCase;
    CodesDiffer();
    KnownCodes();
  }

  /** A missing case is reported exactly for each case reference without a result. */
  lemma MissingCaseIff(i: Issue, requirements: seq<Requirement>, procedures: seq<Procedure>, cases: seq<Case>)
    ensures TraceIssue(i, requirements, procedures, cases) && i.code == "MISSING_C_CASE"
       <==> exists p, c | p in procedures && c in p.caseIds :: c !in CaseIds(cases) && i == MissingCase(p.id, c)
  {
    hide UnknownRequirement, MethodMismatch, MissingCase, UnmappedRequirement, UnknownCase;
    CodesDiffer();
    KnownCodes();
  }

  /** Unmapped requirements and unknown cases are reported exactly if nothing references them. */
  lemma UnreferencedIff(i: Issue, requirements: seq<Requirement>, procedures: seq<Procedure>, cases: seq<Case>)
    ensures TraceIssue(i, requirements, procedures, cases) && i.code == "UNMAPPED_REQUIREMENT"
       <==> exists q | q in requirements ::
              (forall p | p in procedures :: q.id !in p.requirementIds) && i == UnmappedRequirement(q.id)
    ensures TraceIssue(i, requirements, procedures, cases) && i.code == "UNKNOWN_C_CASE"
       <==> exists k | k in cases ::
              (forall p | p in procedures :: k.id !in p.caseIds) && i == UnknownCase(k.id)
  {
    hide UnknownRequirement, MethodMismatch, MissingCase, UnmappedRequirement, UnknownCase;
    CodesDiffer();
    KnownCodes();
    IdsAre(requirements, cases);
  }

  lemma ReportCodes()
    ensures forall x :: CaseFailed(x).code == "CASE_FAILED"
    ensures forall x :: CaseIncomplete(x).code == "CASE_INCOMPLETE"
    ensures forall n :: ExitNonzero(n).code == "BINARY_EXIT_NONZERO"
    ensures |"CASE_FAILED"| == 11 && |"CASE_INCOMPLETE"| == 15 && "CASE_INCOMPLETE"[0] == 'C'
    ensures |"BINARY_EXIT_NONZERO"| == 19 && "BINARY_EXIT_NONZERO"[0] != "UNKNOWN_REQUIREMENT"[0]
  {
  }

  /** Without issues of the input, failed and incomplete cases and the exit code are
      reported exactly as they are. */
  lemma ResultIssueIff(
    i: Issue, requirements: seq<Requirement>, procedures: seq<Procedure>, cases: seq<Case>, exitCode: int)
    ensures ReportIssue(i, requirements, procedures, cases, exitCode, []) && i.code == "CASE_FAILED"
       <==> exists c | c in cases :: c.status == Fail && i == CaseFailed(c.id)
    ensures ReportIssue(i, requirements, procedures, cases, exitCode, []) && i.code == "CASE_INCOMPLETE"
       <==> exists c | c in cases :: c.status == Incomplete && i == CaseIncomplete(c.id)
    ensures ReportIssue(i, requirements, procedures, cases, exitCode, []) && i.code == "BINARY_EXIT_NONZERO"
       <==> exitCode != 0 && i == ExitNonzero(exitCode)
  {
    hide UnknownRequirement, MethodMismatch, MissingCase, UnmappedRequirement, UnknownCase;
    hide CaseFailed, CaseIncomplete, ExitNonzero;
    CodesDiffer();
    KnownCodes();
    ReportCodes();
  }

  /** Findings are listed by code, then subject, then text. */
  lemma ListedByCode(issues: seq<Issue>, i: int, j: int)
    requires Sorted(issues, IssueLess) && 0 <= i < j < |issues|
    ensures var a, b := issues[i], issues[j];
      && !Less(b.code, a.code)
      && (a.code == b.code ==> !Less(b.subject, a.subject))
      && (a.code == b.code && a.subject == b.subject ==> !Less(b.message, a.message))
  {
    hide Less;
    assert !IssueLess(issues[j], issues[i]);
  }
}
