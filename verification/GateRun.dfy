/**
 The gate from decoded documents to exit code, and its independence from the order
 in which anything is listed.
 */
module GateRun {
  import opened Ordering
  import opened GateInput
  import opened Gate
  import opened GateReport

  /** Where the case results come from: the return code of the binary if one is run, whether
      a captured document is given, and the captured exit code, 0 if none is given. */
  datatype Source = Source(live: Option<int>, captured: bool, capturedExitCode: int)

  /** One source, and a captured exit code that is not negative and belongs to a captured
      document. The return code of a binary may be anything: a signal makes it negative. */
  predicate Usable(source: Source) {
    && source.live.Some? != source.captured
    && source.capturedExitCode >= 0
    && (source.live.Some? ==> source.capturedExitCode == 0)
  }

  /** The exit code that enters the report. */
  function ObservedExitCode(source: Source): int {
    if source.live.Some? then source.live.value else source.capturedExitCode
  }

  /** The three decoded documents; one without its three metadata texts has no metadata. */
  datatype Documents = Documents(
    requirementsMetadata: Option<Metadata>, requirements: seq<RawRequirement>,
    proceduresMetadata: Option<Metadata>, procedures: seq<RawProcedure>,
    casesMetadata: Option<Metadata>, cases: seq<RawCase>)

  datatype Verdict = Reported(report: Report) | Refused

  /** The source is usable, the documents agree about project, version and baseline, and
      every loader accepts its own. */
  predicate WellFormed(d: Documents, source: Source) {
    && Usable(source)
    && d.requirementsMetadata.Some?
    && d.requirementsMetadata == d.proceduresMetadata == d.casesMetadata
    && Acceptable(d.requirements, ParseRequirement, RequirementId)
    && Acceptable(d.procedures, ParseProcedure, ProcedureId)
    && Acceptable(d.cases, ParseCase, CaseId)
  }

  ghost predicate IsVerdict(v: Verdict, d: Documents, source: Source) {
    if WellFormed(d, source) then
      v.Reported? && IsReport(
        v.report,
        Loaded(d.requirements, ParseRequirement, RequirementId).value,
        Loaded(d.procedures, ParseProcedure, ProcedureId).value,
        Loaded(d.cases, ParseCase, CaseId).value,
        d.requirementsMetadata.value, ObservedExitCode(source), [])
    else v.Refused?
  }

  /** `run_qualification` after decoding, with the process exit code. */
  method Qualify(d: Documents, source: Source) returns (verdict: Verdict, code: int)
    ensures IsVerdict(verdict, d, source)
    ensures code == match verdict case Refused => 2 case Reported(report) => if report.hostPass then 0 else 1
  {
    hide Acceptable, Sort, IsReport, Refusals;
    verdict, code := Refused, 2;
    if source.live.None? == !source.captured
       || source.capturedExitCode < 0
       || (source.live.Some? && source.capturedExitCode != 0)
    {
      return;
    }
    if d.requirementsMetadata.None? || d.requirementsMetadata != d.proceduresMetadata {
      return;
    }
    var requirements := LoadRequirements(d.requirements);
    if requirements.Invalid? {
      return;
    }
    var procedures := LoadProcedures(d.procedures);
    if procedures.Invalid? {
      return;
    }
    var exitCode := if source.live.Some? then source.live.value else source.capturedExitCode;
    if d.requirementsMetadata != d.casesMetadata {
      return;
    }
    var cases := ParseCaseResults(d.cases);
    if cases.Invalid? {
      return;
    }
    var report := BuildReport(requirements.items, procedures.items, cases.items,
                              d.requirementsMetadata.value, exitCode, []);
    verdict, code := Reported(report), ExitCode(report);
  }

  // Loaded records are sorted by unique identifiers.

  lemma KeyOrder<T(!new)>(key: T -> string)
    ensures StrictOrder(ByKey(key))
  {
    var less := ByKey(key);
    forall x ensures !less(x, x) {
      LessIrreflexive(key(x));
    }
    forall x, y, z | less(x, y) && less(y, z) ensures less(x, z) {
      LessTransitive(key(x), key(y), key(z));
    }
  }

  lemma KeysComparable<T>(items: seq<T>, key: T -> string)
    requires UniqueKeys(items, key)
    ensures Comparable(items, ByKey(key))
  {
    var less := ByKey(key);
    forall i, j | 0 <= i < j < |items| ensures less(items[i], items[j]) || less(items[j], items[i]) {
      LessTotal(key(items[i]), key(items[j]));
    }
  }

  /** What a loader returns is strictly sorted by identifier, so identifiers are unique,
      and holds exactly the parsed records. */
  lemma LoadedSorted<R, T(!new)>(records: seq<R>, parse: R -> Option<T>, key: T -> string)
    requires Loaded(records, parse, key).Some?
    ensures var items := Loaded(records, parse, key).value;
      forall i, j | 0 <= i < j < |items| :: Less(key(items[i]), key(items[j]))
    ensures multiset(Loaded(records, parse, key).value) == multiset(Parsed(records, parse))
  {
    KeyOrder(key);
    KeysComparable(Parsed(records, parse), key);
    SortSorted(Parsed(records, parse), ByKey(key));
    SortElements(Parsed(records, parse), ByKey(key));
    KeysAscend(Loaded(records, parse, key).value, key);
  }

  lemma KeysAscend<T>(items: seq<T>, key: T -> string)
    requires StrictlySorted(items, ByKey(key))
    ensures forall i, j | 0 <= i < j < |items| :: Less(key(items[i]), key(items[j]))
  {
    var less := ByKey(key);
    assert forall i, j | 0 <= i < j < |items| :: less(items[i], items[j]);
  }

  // What the verdict means.

  lemma SortedUniqueKeys<T>(items: seq<T>, key: T -> string)
    requires forall i, j | 0 <= i < j < |items| :: Less(key(items[i]), key(items[j]))
    ensures UniqueKeys(items, key)
  {
    forall i, j | 0 <= i < j < |items| ensures key(items[i]) != key(items[j]) {
      assert Less(key(items[i]), key(items[j]));
      LessIrreflexive(key(items[i]));
    }
  }

  /** Exactly when there is a report: one source of results, with a captured exit code that
      is not negative, and none beside a binary; metadata that are present and agree; and
      three documents that load. */
  lemma ReportedIff(v: Verdict, d: Documents, source: Source)
    requires IsVerdict(v, d, source)
    ensures v.Reported?
       <==> && (|| (source.live.Some? && !source.captured && source.capturedExitCode == 0)
                || (source.live.None? && source.captured && source.capturedExitCode >= 0))
            && d.requirementsMetadata.Some?
            && d.proceduresMetadata == d.requirementsMetadata && d.casesMetadata == d.requirementsMetadata
            && Loaded(d.requirements, ParseRequirement, RequirementId).Some?
            && Loaded(d.procedures, ParseProcedure, ProcedureId).Some?
            && Loaded(d.cases, ParseCase, CaseId).Some?
    ensures v.Reported? ==>
      && v.report.metadata == d.requirementsMetadata.value
      && v.report.cases == Loaded(d.cases, ParseCase, CaseId).value
  {
    hide Acceptable, Sort, CountStatus, Row, TraceRow, CaseMap, ReportIssue, IssueLess;
  }

  /** From decoded documents to the exit code: the gate reports success exactly when there
      is a report, the binary returned 0 or its captured exit code is 0, every case passed
      and the loaded records are reconciled. */
  lemma SuccessIff(v: Verdict, d: Documents, source: Source)
    requires IsVerdict(v, d, source)
    ensures v.Reported? && v.report.hostPass
       <==> (&& v.Reported?
             && (source.live == Some(0) || (source.live.None? && source.capturedExitCode == 0))
             && Reconciled(Loaded(d.requirements, ParseRequirement, RequirementId).value,
                           Loaded(d.procedures, ParseProcedure, ProcedureId).value,
                           Loaded(d.cases, ParseCase, CaseId).value)
             && forall c | c in Loaded(d.cases, ParseCase, CaseId).value :: c.status == Pass)
  {
    hide Acceptable, Sort, IsReport, Reconciled, UniqueKeys;
    if WellFormed(d, source) {
      LoadedSorted(d.requirements, ParseRequirement, RequirementId);
      SortedUniqueKeys(Loaded(d.requirements, ParseRequirement, RequirementId).value, RequirementId);
      HostPassMeans(v.report,
                    Loaded(d.requirements, ParseRequirement, RequirementId).value,
                    Loaded(d.procedures, ParseProcedure, ProcedureId).value,
                    Loaded(d.cases, ParseCase, CaseId).value,
                    d.requirementsMetadata.value, ObservedExitCode(source), []);
    }
  }

  /** A report on a binary that returned anything but 0, a signal's negative code included,
      is a failure with a finding about that code, and so is one on a captured code. */
  lemma ExitCodeReported(v: Verdict, d: Documents, source: Source)
    requires IsVerdict(v, d, source) && v.Reported?
    ensures source.live.Some? && source.live.value != 0 ==>
      !v.report.hostPass && ExitNonzero(source.live.value) in v.report.issues
    ensures source.live.None? && source.capturedExitCode != 0 ==>
      !v.report.hostPass && ExitNonzero(source.capturedExitCode) in v.report.issues
    ensures v.report.exitCode == if source.live.Some? then source.live.value else source.capturedExitCode
  {
    hide Acceptable, Sort, ExitNonzero, Row, TraceRow, CountStatus, CaseMap, IssueLess;
    if ObservedExitCode(source) != 0 {
      assert ExitNonzero(ObservedExitCode(source)) in v.report.issues;
    }
  }

  // Order independence.

  lemma RemoveAt<R>(ys: seq<R>, j: int, xs: seq<R>, x: R)
    requires 0 <= j < |ys| && ys[j] == x && multiset(ys) == multiset(xs + [x])
    ensures multiset(ys[..j] + ys[j + 1..]) == multiset(xs)
  {
    assert ys == ys[..j] + [x] + ys[j + 1..];
    assert multiset(ys) == multiset(ys[..j]) + multiset{x} + multiset(ys[j + 1..]);
    assert multiset(xs + [x]) == multiset(xs) + multiset{x};
    assert multiset(ys[..j] + ys[j + 1..]) == multiset(ys) - multiset{x};
  }

  /** Parsing permuted records gives permuted items. */
  lemma {:induction false} ParsedPermuted<R, T>(xs: seq<R>, ys: seq<R>, parse: R -> Option<T>)
    requires multiset(xs) == multiset(ys) && AllParse(xs, parse)
    ensures AllParse(ys, parse) && multiset(Parsed(xs, parse)) == multiset(Parsed(ys, parse))
    decreases |xs|
  {
    assert |multiset(xs)| == |xs| && |multiset(ys)| == |ys|;
    if xs == [] {
    } else {
      var n := |xs| - 1;
      var x := xs[n];
      assert xs == xs[..n] + [x];
      assert x in multiset(xs) && x in ys;
      var j :| 0 <= j < |ys| && ys[j] == x;
      RemoveAt(ys, j, xs[..n], x);
      ParseOneMore(xs[..n], x, parse);
      ParsedPermuted(xs[..n], ys[..j] + ys[j + 1..], parse);
      ParsedAround(ys, j, parse);
    }
  }

  lemma ParsedAround<R, T>(ys: seq<R>, j: int, parse: R -> Option<T>)
    requires 0 <= j < |ys| && AllParse(ys[..j] + ys[j + 1..], parse) && parse(ys[j]).Some?
    ensures AllParse(ys, parse)
    ensures multiset(Parsed(ys, parse))
         == multiset(Parsed(ys[..j] + ys[j + 1..], parse)) + multiset{parse(ys[j]).value}
  {
    var rest := ys[..j] + ys[j + 1..];
    forall i | 0 <= i < |ys| ensures parse(ys[i]).Some? {
      assert i < j ==> rest[i] == ys[i];
      assert i > j ==> rest[i - 1] == ys[i];
    }
    var p, q := Parsed(ys, parse), Parsed(rest, parse);
    assert q == p[..j] + p[j + 1..];
    assert p == p[..j] + [p[j]] + p[j + 1..];
  }

  lemma DistinctOneMore(s: seq<string>, x: string)
    ensures Distinct(s + [x]) <==> Distinct(s) && x !in s
  {
    var more := s + [x];
    if Distinct(more) {
      forall i, j | 0 <= i < j < |s| ensures s[i] != s[j] {
        assert more[i] == s[i] && more[j] == s[j];
      }
      forall i | 0 <= i < |s| ensures s[i] != x {
        assert more[i] == s[i] && more[|s|] == x;
      }
    }
  }

  lemma {:induction false} DistinctByCount(s: seq<string>)
    ensures Distinct(s) <==> forall x :: multiset(s)[x] <= 1
    decreases |s|
  {
    hide Distinct;
    if s == [] {
      EmptyDistinct();
    } else {
      var n := |s| - 1;
      var front, x := s[..n], s[n];
      assert s == front + [x];
      DistinctByCount(front);
      DistinctOneMore(front, x);
      assert x in front <==> x in multiset(front);
      assert multiset(s) == multiset(front) + multiset{x};
      assert multiset(s)[x] == multiset(front)[x] + 1;
      assert forall y | y != x :: multiset(s)[y] == multiset(front)[y];
    }
  }

  lemma EmptyDistinct()
    ensures Distinct([])
  {
  }

  function Keys<T>(items: seq<T>, key: T -> string): seq<string> {
    Parsed(items, x => Some(key(x)))
  }

  lemma UniqueIsDistinct<T>(items: seq<T>, key: T -> string)
    ensures UniqueKeys(items, key) <==> Distinct(Keys(items, key))
  {
    var keys := Keys(items, key);
    assert forall i | 0 <= i < |items| :: keys[i] == key(items[i]);
  }

  lemma UniquePermuted<T>(items: seq<T>, items': seq<T>, key: T -> string)
    requires multiset(items) == multiset(items')
    ensures UniqueKeys(items, key) <==> UniqueKeys(items', key)
  {
    ParsedPermuted(items, items', x => Some(key(x)));
    UniqueIsDistinct(items, key);
    UniqueIsDistinct(items', key);
    DistinctByCount(Keys(items, key));
    DistinctByCount(Keys(items', key));
  }

  /** A loader accepts permuted records or rejects them in every order, and returns
      the same items. */
  lemma LoadedPermuted<R, T(!new)>(xs: seq<R>, ys: seq<R>, parse: R -> Option<T>, key: T -> string)
    requires multiset(xs) == multiset(ys)
    ensures Loaded(xs, parse, key) == Loaded(ys, parse, key)
  {
    hide UniqueKeys, Sort, AllParse, Parsed;
    assert |multiset(xs)| == |xs| && |multiset(ys)| == |ys|;
    if AllParse(xs, parse) {
      ParsedPermuted(xs, ys, parse);
      var p, q := Parsed(xs, parse), Parsed(ys, parse);
      UniquePermuted(p, q, key);
      if UniqueKeys(p, key) {
        KeyOrder(key);
        KeysComparable(p, key);
        KeysComparable(q, key);
        SortForgetsOrder(p, q, ByKey(key));
      }
    } else if AllParse(ys, parse) {
      ParsedPermuted(ys, xs, parse);
    }
  }

  /** A procedure record with its references in canonical order. */
  function CanonicalReferences(raw: RawReferences): RawReferences {
    if raw.References? then References(Sort(raw.ids, Less)) else raw
  }

  function Canonical(raw: RawProcedure): RawProcedure {
    if raw.NotAProcedure? then raw
    else raw.(requirementIds := CanonicalReferences(raw.requirementIds), caseIds := CanonicalReferences(raw.caseIds))
  }

  lemma ReferencesForgetOrder(raw: RawReferences)
    ensures ParseReferences(CanonicalReferences(raw)) == ParseReferences(raw)
  {
    hide Sort, Less;
    if raw.References? {
      var ids := raw.ids;
      var sorted := Sort(ids, Less);
      SortElements(ids, Less);
      assert |multiset(sorted)| == |sorted| && |multiset(ids)| == |ids|;
      DistinctByCount(ids);
      DistinctByCount(sorted);
      if Distinct(ids) {
        TextOrder();
        SortForgetsOrder(ids, sorted, Less);
      }
    }
  }

  lemma CanonicalParses(raw: RawProcedure)
    ensures ParseProcedure(Canonical(raw)) == ParseProcedure(raw)
  {
    hide ParseReferences, NormalizeMethod, CanonicalReferences;
    if raw.RawProcedure? {
      ReferencesForgetOrder(raw.requirementIds);
      ReferencesForgetOrder(raw.caseIds);
    }
  }

  // The methods a requirement permits are a set, too.

  /** A requirement record with its methods in canonical order, each once. */
  function CanonicalMethods(raw: RawRequirement): RawRequirement {
    if raw.RawRequirement? && raw.methods.MethodNames?
    then raw.(methods := MethodNames(Sort(Dedup(raw.methods.names), Less))) else raw
  }

  lemma SameNames(names: seq<string>, names': seq<string>)
    requires forall x :: x in names <==> x in names'
    ensures Supported(names) <==> Supported(names')
    ensures MethodSet(names) == MethodSet(names')
  {
    hide NormalizeMethod;
    SupportedMembers(names);
    SupportedMembers(names');
    MethodSetMembers(names);
    MethodSetMembers(names');
  }

  lemma SupportedMembers(names: seq<string>)
    ensures Supported(names) <==> forall x | x in names :: NormalizeMethod(x).Some?
  {
    hide NormalizeMethod;
    assert forall i | 0 <= i < |names| :: names[i] in names;
  }

  lemma MethodSetMembers(names: seq<string>)
    ensures MethodSet(names) == set x | x in names && NormalizeMethod(x).Some? :: NormalizeMethod(x).value
  {
    hide NormalizeMethod;
    forall m ensures m in MethodSet(names)
                     <==> exists x :: x in names && NormalizeMethod(x).Some? && NormalizeMethod(x).value == m
    {
      if x :| x in names && NormalizeMethod(x).Some? && NormalizeMethod(x).value == m {
        var i :| 0 <= i < |names| && names[i] == x;
      }
    }
  }

  lemma MethodsForgetOrder(raw: RawRequirement)
    ensures ParseRequirement(CanonicalMethods(raw)) == ParseRequirement(raw)
  {
    hide Sort, Dedup, Less, Supported, MethodSet;
    if raw.RawRequirement? && raw.methods.MethodNames? {
      TextOrder();
      SortedDedup(raw.methods.names, Less);
      SameNames(Sort(Dedup(raw.methods.names), Less), raw.methods.names);
    }
  }

  function Each<R>(records: seq<R>, canonical: R -> R): (c: seq<R>)
    ensures |c| == |records|
  {
    seq(|records|, i requires 0 <= i < |records| => canonical(records[i]))
  }

  /** A loader does not see a change of records that parsing does not see. */
  lemma CanonicalLoaded<R(!new), T>(
    records: seq<R>, canonical: R -> R, parse: R -> Option<T>, key: T -> string)
    requires forall r :: parse(canonical(r)) == parse(r)
    ensures Loaded(Each(records, canonical), parse, key) == Loaded(records, parse, key)
  {
    hide UniqueKeys, Sort;
    var c := Each(records, canonical);
    if AllParse(records, parse) {
      assert Parsed(c, parse) == Parsed(records, parse);
    } else {
      var i :| 0 <= i < |records| && parse(records[i]).None?;
      assert parse(c[i]).None?;
    }
  }

  lemma CanonicalRequirements(records: seq<RawRequirement>)
    ensures Loaded(Each(records, CanonicalMethods), ParseRequirement, RequirementId)
         == Loaded(records, ParseRequirement, RequirementId)
  {
    hide CanonicalMethods, ParseRequirement, Loaded;
    forall r ensures ParseRequirement(CanonicalMethods(r)) == ParseRequirement(r) {
      MethodsForgetOrder(r);
    }
    CanonicalLoaded(records, CanonicalMethods, ParseRequirement, RequirementId);
  }

  lemma CanonicalProcedures(records: seq<RawProcedure>)
    ensures Loaded(Each(records, Canonical), ParseProcedure, ProcedureId)
         == Loaded(records, ParseProcedure, ProcedureId)
  {
    hide Canonical, ParseProcedure, Loaded;
    forall r ensures ParseProcedure(Canonical(r)) == ParseProcedure(r) {
      CanonicalParses(r);
    }
    CanonicalLoaded(records, Canonical, ParseProcedure, ProcedureId);
  }

  /** The same documents, listed in another order: records permuted, references permuted
      inside any procedure, methods permuted or repeated inside any requirement. */
  ghost predicate SameUpToOrder(d: Documents, d': Documents) {
    && d.requirementsMetadata == d'.requirementsMetadata
    && d.proceduresMetadata == d'.proceduresMetadata
    && d.casesMetadata == d'.casesMetadata
    && multiset(Each(d.requirements, CanonicalMethods)) == multiset(Each(d'.requirements, CanonicalMethods))
    && multiset(Each(d.procedures, Canonical)) == multiset(Each(d'.procedures, Canonical))
    && multiset(d.cases) == multiset(d'.cases)
  }

  /** Order does not matter: documents that differ only in order are refused together
      or give the identical report. */
  lemma OrderIndependent(d: Documents, d': Documents, source: Source, v: Verdict, v': Verdict)
    requires SameUpToOrder(d, d')
    requires IsVerdict(v, d, source) && IsVerdict(v', d', source)
    ensures v == v'
  {
    hide Acceptable, IsReport, Sort, Each;
    LoadedPermuted(Each(d.requirements, CanonicalMethods), Each(d'.requirements, CanonicalMethods),
                   ParseRequirement, RequirementId);
    CanonicalRequirements(d.requirements);
    CanonicalRequirements(d'.requirements);
    LoadedPermuted(Each(d.procedures, Canonical), Each(d'.procedures, Canonical), ParseProcedure, ProcedureId);
    CanonicalProcedures(d.procedures);
    CanonicalProcedures(d'.procedures);
    LoadedPermuted(d.cases, d'.cases, ParseCase, CaseId);
    if WellFormed(d, source) {
      ReportUnique(v.report, v'.report,
                   Loaded(d.requirements, ParseRequirement, RequirementId).value,
                   Loaded(d.procedures, ParseProcedure, ProcedureId).value,
                   Loaded(d.cases, ParseCase, CaseId).value,
                   d.requirementsMetadata.value, ObservedExitCode(source), []);
    }
  }
}
