/** Pre-test governance: requirement judgments, the first controlling blocker, and the handoff to execution. */
module Governance {
  import opened Common
  import opened Ordering

  datatype Availability = Present | Absent | AvailabilityUnresolved
  datatype Admission = DiagnosticAdmitted | DescriptiveOnly | Inadmissible | AdmissionUnresolved
  datatype Fitness = Passed | FitnessFailed | FitnessUnresolved
  datatype Origin = GovernedInternal | GovernedExternal | DescriptiveEvidence | MechanicalResult | ModelKnowledge
  datatype Class = Internal | External | Either
  datatype Outcome = Satisfied | Failed | Missing | Unresolved | NotApplicable | ExternalUnmet | PresentButInadmissible
  datatype Consequence = Blocking | Qualifying | NoConsequence
  datatype Applicability = Required | Conditional | Inapplicable

  datatype Assessment = Assessment(availability: Availability, admission: Admission, fitness: Fitness, origin: Origin,
                                   kind: Class)

  /** A dimension decision; an empty requirement reference is absent. */
  datatype Decision = Decision(dimension: string, applicability: Applicability, requirement: string)
  datatype Dependency = Dependency(requirement: string, kind: Class)
  datatype Family = Family(id: string, missingInternalOnly: bool)

  datatype Judgment = Judgment(requirement: string, outcome: Outcome, reason: string, dimension: Option<string>,
                               kind: Class, consequence: Consequence)

  datatype Claim = Diagnostic | OtherClaim

  datatype Disposition = ClarificationRequired | ExternalEvidenceRequired | MissingEvidence | ConflictingEvidence
                       | EligibleNotExecuted | HypothesisOnly
  datatype Readiness = ReadyForTest | ReadinessUnresolved | NeedsExternal | MissingInternalEvidence
  datatype Blocker = ClaimClassRestricted | ExternalEvidenceUnmet(requirement: string)
                   | Defective(reason: string, requirement: string)
                   | UnresolvedConflict(id: string) | ExecutionAuthorityUnavailable | MethodAuthorityUnavailable

  datatype Verdict = Verdict(disposition: Disposition, readiness: Readiness, eligible: bool, blocker: Option<Blocker>)

  datatype Conflict = Conflict(id: string, unresolved: bool)
  datatype Authority = Authority(testMethod: string, testMethodVersion: string, criterion: string,
                                 criterionVersion: string,
                                 profile: string, profileVersion: string)

  datatype PretestResult = PretestResult(judgments: seq<Judgment>, verdict: Verdict, authority: Option<Authority>)

  // ---- _assessment_outcome ----

  function AssessmentOutcome(a: Assessment): (Outcome, string) {
    if a.fitness == FitnessFailed then (Failed, "evidence_fitness_failed")
    else if a.availability == Absent then
      if a.kind == External then (ExternalUnmet, "external_evidence_unmet") else (Missing, "evidence_missing")
    else if a.availability == AvailabilityUnresolved then (Unresolved, "evidence_availability_unresolved")
    else if a.origin == MechanicalResult then (PresentButInadmissible, "r4_mechanical_result_not_diagnostic_support")
    else if a.origin == ModelKnowledge then (PresentButInadmissible, "model_general_knowledge_not_evidence")
    else if a.origin == DescriptiveEvidence || a.admission == DescriptiveOnly then
      (PresentButInadmissible, "descriptive_admission_not_diagnostic_admission")
    else if a.admission == Inadmissible then (PresentButInadmissible, "diagnostic_evidence_inadmissible")
    else if a.admission == AdmissionUnresolved then (Unresolved, "diagnostic_admission_unresolved")
    else if a.fitness == FitnessUnresolved then (Unresolved, "evidence_fitness_unresolved")
    else (Satisfied, "authenticated_requirement_satisfied")
  }

  /** Evidence that satisfies a requirement: present, governed, admitted for diagnosis and fit. */
  predicate Supports(a: Assessment) {
    && a.fitness == Passed && a.availability == Present && a.admission == DiagnosticAdmitted
    && (a.origin == GovernedInternal || a.origin == GovernedExternal)
  }

  /** Present evidence that is not unfit and comes from a governed source. */
  predicate Considered(a: Assessment) {
    && a.fitness != FitnessFailed && a.availability == Present
    && (a.origin == GovernedInternal || a.origin == GovernedExternal)
  }

  /** The one reason that holds of an assessment. */
  predicate ReasonHolds(a: Assessment, reason: string) {
    || (reason == "evidence_fitness_failed" && a.fitness == FitnessFailed)
    || (a.fitness != FitnessFailed && a.availability == Absent
        && reason == if a.kind == External then "external_evidence_unmet" else "evidence_missing")
    || (reason == "evidence_availability_unresolved"
        && a.fitness != FitnessFailed && a.availability == AvailabilityUnresolved)
    || (a.fitness != FitnessFailed && a.availability == Present
        && (|| (a.origin == MechanicalResult && reason == "r4_mechanical_result_not_diagnostic_support")
            || (a.origin == ModelKnowledge && reason == "model_general_knowledge_not_evidence")
            || (a.origin == DescriptiveEvidence && reason == "descriptive_admission_not_diagnostic_admission")))
    || (Considered(a)
        && (match a.admission
            case DescriptiveOnly => reason == "descriptive_admission_not_diagnostic_admission"
            case Inadmissible => reason == "diagnostic_evidence_inadmissible"
            case AdmissionUnresolved => reason == "diagnostic_admission_unresolved"
            case DiagnosticAdmitted => reason == if a.fitness == Passed then "authenticated_requirement_satisfied"
                                                 else "evidence_fitness_unresolved"))
  }

  /** What an assessment makes of a requirement, outcome by outcome. */
  predicate OutcomeHolds(a: Assessment, outcome: Outcome) {
    match outcome
    case Failed => a.fitness == FitnessFailed
    case Missing => a.fitness != FitnessFailed && a.availability == Absent && a.kind != External
    case ExternalUnmet => a.fitness != FitnessFailed && a.availability == Absent && a.kind == External
    case Unresolved =>
      || (a.fitness != FitnessFailed && a.availability == AvailabilityUnresolved)
      || (Considered(a) && a.admission == AdmissionUnresolved)
      || (Considered(a) && a.admission == DiagnosticAdmitted && a.fitness == FitnessUnresolved)
    case PresentButInadmissible =>
      && a.fitness != FitnessFailed && a.availability == Present
      && (!Considered(a) || a.admission == DescriptiveOnly || a.admission == Inadmissible)
    case Satisfied => Supports(a)
    case NotApplicable => false
  }

  /** Exactly one outcome holds of an assessment, and exactly one reason; they are the ones given. */
  lemma OutcomeExactly(a: Assessment, outcome: Outcome, reason: string)
    ensures AssessmentOutcome(a) == (outcome, reason) <==> OutcomeHolds(a, outcome) && ReasonHolds(a, reason)
  {
    OutcomeIs(a, outcome);
    ReasonIs(a, reason);
    hide AssessmentOutcome, OutcomeHolds, ReasonHolds;
  }

  lemma OutcomeIs(a: Assessment, outcome: Outcome)
    ensures AssessmentOutcome(a).0 == outcome <==> OutcomeHolds(a, outcome)
  {}

  lemma ReasonIs(a: Assessment, reason: string)
    ensures AssessmentOutcome(a).1 == reason <==> ReasonHolds(a, reason)
  {
    hide AssessmentOutcome, ReasonHolds;
    ReasonGiven(a);
    if ReasonHolds(a, reason) { OneReason(a, reason, AssessmentOutcome(a).1); }
  }

  lemma ReasonGiven(a: Assessment)
    ensures ReasonHolds(a, AssessmentOutcome(a).1)
  {}

  lemma OneReason(a: Assessment, x: string, y: string)
    requires ReasonHolds(a, x) && ReasonHolds(a, y)
    ensures x == y
  {}

  // ---- _judgment_from_assessment ----

  function JudgmentFrom(requirement: string, assessment: Option<Assessment>, dimension: Option<string>,
                        kind: Class): Judgment {
    match assessment
    case None =>
      if kind == External
        then Judgment(requirement, ExternalUnmet, "external_evidence_unmet", dimension, kind, Blocking)
      else Judgment(requirement, Missing, "evidence_missing", dimension, kind, Blocking)
    case Some(a) =>
      var (outcome, reason) := AssessmentOutcome(a);
      Judgment(requirement, outcome, reason, dimension, a.kind, Blocking)
  }

  function Lookup(assessments: map<string, Assessment>, requirement: string): Option<Assessment> {
    if requirement in assessments then Some(assessments[requirement]) else None
  }

  /** The requirement a decision names, else the family with the dimension. */
  function RequirementOf(family: Family, d: Decision): string {
    if d.requirement == "" then family.id + ":" + d.dimension else d.requirement
  }

  function JudgeDecision(family: Family, familyClass: Class, assessments: map<string, Assessment>,
                         d: Decision): Judgment {
    if d.applicability == Inapplicable then
      Judgment(family.id + ":" + d.dimension, NotApplicable, "governed_not_applicable", Some(d.dimension), familyClass,
               NoConsequence)
    else
      JudgmentFrom(RequirementOf(family, d), Lookup(assessments, RequirementOf(family, d)), Some(d.dimension),
                   familyClass)
  }

  function JudgeDependency(family: Family, assessments: map<string, Assessment>, d: Dependency): Judgment {
    var found := Lookup(assessments, d.requirement);
    var assessment :=
      if family.missingInternalOnly && found.Some? && AssessmentOutcome(found.value).0 == Satisfied then None
      else found;
    JudgmentFrom(d.requirement, assessment, None, d.kind)
  }

  /** The judgment says what the assessment of its requirement, or the lack of one, makes of it. */
  ghost predicate SaysOf(j: Judgment, assessment: Option<Assessment>, kind: Class) {
    && j.consequence == Blocking
    && match assessment
       case None =>
         && j.kind == kind && j.outcome == (if kind == External then ExternalUnmet else Missing)
         && j.reason == if kind == External then "external_evidence_unmet" else "evidence_missing"
       case Some(a) => j.kind == a.kind && OutcomeHolds(a, j.outcome) && ReasonHolds(a, j.reason)
  }

  ghost predicate AssessedAs(assessments: map<string, Assessment>, requirement: string, a: Option<Assessment>) {
    if a.None? then requirement !in assessments
    else requirement in assessments && assessments[requirement] == a.value
  }

  /** The judgment on a dimension: not applicable, or what the evidence for its requirement says. */
  ghost predicate DecidedBy(j: Judgment, family: Family, kind: Class, assessments: map<string, Assessment>,
                            d: Decision) {
    && j.dimension == Some(d.dimension)
    && if d.applicability == Inapplicable
       then
         && j.requirement == family.id + ":" + d.dimension && j.outcome == NotApplicable && j.kind == kind
         && j.reason == "governed_not_applicable" && j.consequence == NoConsequence
       else
         && j.requirement == (if d.requirement == "" then family.id + ":" + d.dimension else d.requirement)
         && exists a :: AssessedAs(assessments, j.requirement, a) && SaysOf(j, a, kind)
  }

  /**
   * The judgment on a dependency; supporting evidence does not count for a family that only records missing evidence.
   */
  ghost predicate RequiredBy(j: Judgment, family: Family, assessments: map<string, Assessment>, d: Dependency) {
    && j.dimension.None? && j.requirement == d.requirement
    && exists a :: AssessedAs(assessments, d.requirement, a)
         && SaysOf(j, if family.missingInternalOnly && a.Some? && Supports(a.value) then None else a, d.kind)
  }

  lemma JudgmentSays(requirement: string, assessment: Option<Assessment>, dimension: Option<string>, kind: Class,
                     j: Judgment)
    ensures j == JudgmentFrom(requirement, assessment, dimension, kind) <==>
      j.requirement == requirement && j.dimension == dimension && SaysOf(j, assessment, kind)
  {
    if assessment.Some? {
      OutcomeExactly(assessment.value, j.outcome, j.reason);
      var (outcome, reason) := AssessmentOutcome(assessment.value);
      OutcomeExactly(assessment.value, outcome, reason);
    }
    hide AssessmentOutcome, OutcomeHolds, ReasonHolds;
  }

  lemma DecidedIs(j: Judgment, family: Family, kind: Class, assessments: map<string, Assessment>, d: Decision)
    ensures j == JudgeDecision(family, kind, assessments, d) <==> DecidedBy(j, family, kind, assessments, d)
  {
    var requirement := if d.requirement == "" then family.id + ":" + d.dimension else d.requirement;
    JudgmentSays(requirement, Lookup(assessments, requirement), Some(d.dimension), kind, j);
    assert AssessedAs(assessments, requirement, Lookup(assessments, requirement));
    hide JudgmentFrom, SaysOf;
  }

  lemma RequiredIs(j: Judgment, family: Family, assessments: map<string, Assessment>, d: Dependency)
    ensures j == JudgeDependency(family, assessments, d) <==> RequiredBy(j, family, assessments, d)
  {
    var found := Lookup(assessments, d.requirement);
    assert AssessedAs(assessments, d.requirement, found);
    if found.Some? { SatisfiedExactly(found.value); }
    JudgmentSays(d.requirement, found, None, d.kind, j);
    JudgmentSays(d.requirement, None, None, d.kind, j);
    hide JudgmentFrom, SaysOf, AssessmentOutcome, Supports;
  }

  /** The contract every judgment must meet. */
  predicate Valid(j: Judgment) {
    && (j.outcome == NotApplicable ==> j.consequence != Blocking)
    && (j.outcome == ExternalUnmet ==> j.kind == External)
  }

  predicate RefLe(a: Judgment, b: Judgment) { StringLe(a.requirement, b.requirement) }
  predicate DependencyLe(a: Dependency, b: Dependency) { StringLe(a.requirement, b.requirement) }

  /** _build_judgments: one judgment per decision and per dependency, in order of requirement. */
  method BuildJudgments(family: Family, dependencies: seq<Dependency>, decisions: seq<Decision>,
                        assessments: map<string, Assessment>)
    returns (judgments: seq<Judgment>)
    requires dependencies != []
    ensures Sorted(judgments, RefLe) && |judgments| == |decisions| + |dependencies|
    ensures forall j :: j in judgments <==> IsJudged(family, dependencies, decisions, assessments, j)
    ensures forall j :: j in judgments ==> Valid(j)
  {
    hide JudgeDecision, JudgeDependency, StringLe, Sort, Valid;
    var familyClass := dependencies[0].kind;
    var found: seq<Judgment> := [];
    for i := 0 to |decisions|
      invariant |found| == i
      invariant forall k :: 0 <= k < i ==> found[k] == JudgeDecision(family, familyClass, assessments, decisions[k])
    {
      found := found + [JudgeDecision(family, familyClass, assessments, decisions[i])];
    }
    var sorted := Sort(dependencies, DependencyLe);
    for i := 0 to |sorted|
      invariant |found| == |decisions| + i
      invariant forall k :: 0 <= k < |decisions| ==>
        found[k] == JudgeDecision(family, familyClass, assessments, decisions[k])
      invariant forall k :: |decisions| <= k < |found| ==>
        found[k] == JudgeDependency(family, assessments, sorted[k - |decisions|])
    {
      found := found + [JudgeDependency(family, assessments, sorted[i])];
    }
    judgments := Sort(found, RefLe);
    SortMembers(dependencies, DependencyLe);
    SortMembers(found, RefLe);
    RefPreorder();
    SortSorted(found, RefLe);
    forall j ensures j in found <==> IsJudged(family, dependencies, decisions, assessments, j) {
      JudgedExactly(family, dependencies, decisions, assessments, found, sorted, j);
    }
    forall j | j in judgments ensures Valid(j) { JudgedValid(family, dependencies, decisions, assessments, j); }
  }

  /** j is what some decision or some dependency is judged to be. */
  ghost predicate IsJudged(family: Family, dependencies: seq<Dependency>, decisions: seq<Decision>,
                           assessments: map<string, Assessment>, j: Judgment)
    requires dependencies != []
  {
    || (exists d :: d in decisions && DecidedBy(j, family, dependencies[0].kind, assessments, d))
    || (exists d :: d in dependencies && RequiredBy(j, family, assessments, d))
  }

  lemma JudgedMeans(family: Family, dependencies: seq<Dependency>, decisions: seq<Decision>,
                    assessments: map<string, Assessment>, j: Judgment)
    requires dependencies != []
    ensures IsJudged(family, dependencies, decisions, assessments, j) <==>
      || (exists d :: d in decisions && JudgeDecision(family, dependencies[0].kind, assessments, d) == j)
      || (exists d :: d in dependencies && JudgeDependency(family, assessments, d) == j)
  {
    forall d ensures j == JudgeDecision(family, dependencies[0].kind, assessments, d) <==>
      DecidedBy(j, family, dependencies[0].kind, assessments, d)
    {
      DecidedIs(j, family, dependencies[0].kind, assessments, d);
    }
    forall d ensures j == JudgeDependency(family, assessments, d) <==> RequiredBy(j, family, assessments, d) {
      RequiredIs(j, family, assessments, d);
    }
    hide JudgeDecision, JudgeDependency, DecidedBy, RequiredBy;
  }

  lemma JudgedExactly(family: Family, dependencies: seq<Dependency>, decisions: seq<Decision>,
                      assessments: map<string, Assessment>,
                      found: seq<Judgment>, sorted: seq<Dependency>, j: Judgment)
    requires dependencies != [] && |found| == |decisions| + |sorted|
    requires forall d :: d in sorted <==> d in dependencies
    requires forall k :: 0 <= k < |decisions| ==>
      found[k] == JudgeDecision(family, dependencies[0].kind, assessments, decisions[k])
    requires forall k :: |decisions| <= k < |found| ==>
      found[k] == JudgeDependency(family, assessments, sorted[k - |decisions|])
    ensures j in found <==> IsJudged(family, dependencies, decisions, assessments, j)
  {
    JudgedMeans(family, dependencies, decisions, assessments, j);
    hide JudgeDecision, JudgeDependency, IsJudged;
    if j in found {
      var k :| 0 <= k < |found| && found[k] == j;
      if k < |decisions| { assert decisions[k] in decisions; } else { assert sorted[k - |decisions|] in sorted; }
    }
    if d :| d in decisions && JudgeDecision(family, dependencies[0].kind, assessments, d) == j {
      var k :| 0 <= k < |decisions| && decisions[k] == d;
      assert found[k] == j;
    } else if d :| d in dependencies && JudgeDependency(family, assessments, d) == j {
      var k :| 0 <= k < |sorted| && sorted[k] == d;
      assert found[|decisions| + k] == j;
    }
  }

  lemma JudgedValid(family: Family, dependencies: seq<Dependency>, decisions: seq<Decision>,
                    assessments: map<string, Assessment>, j: Judgment)
    requires dependencies != [] && IsJudged(family, dependencies, decisions, assessments, j)
    ensures Valid(j)
  {
    JudgedMeans(family, dependencies, decisions, assessments, j);
    hide JudgmentFrom, Valid, AssessmentOutcome, RequirementOf, IsJudged;
    forall d ensures Valid(JudgeDecision(family, dependencies[0].kind, assessments, d)) {
      InapplicableValid(family.id + ":" + d.dimension, d.dimension, dependencies[0].kind);
      FromAssessmentValid(RequirementOf(family, d), Lookup(assessments, RequirementOf(family, d)), Some(d.dimension),
                          dependencies[0].kind);
    }
    forall d ensures Valid(JudgeDependency(family, assessments, d)) {
      FromAssessmentValid(d.requirement, Lookup(assessments, d.requirement), None, d.kind);
      FromAssessmentValid(d.requirement, None, None, d.kind);
    }
  }

  lemma InapplicableValid(requirement: string, dimension: string, kind: Class)
    ensures Valid(Judgment(requirement, NotApplicable, "governed_not_applicable", Some(dimension), kind, NoConsequence))
  {}

  lemma FromAssessmentValid(requirement: string, assessment: Option<Assessment>, dimension: Option<string>, kind: Class)
    ensures Valid(JudgmentFrom(requirement, assessment, dimension, kind))
  {
    if assessment.Some? { UnmetOutsideIsExternal(assessment.value); }
    hide AssessmentOutcome;
  }

  lemma UnmetOutsideIsExternal(a: Assessment)
    ensures AssessmentOutcome(a).0 == ExternalUnmet ==> a.kind == External
    ensures AssessmentOutcome(a).0 != NotApplicable
  {}

  lemma RefPreorder()
    ensures Preorder(RefLe)
  {
    hide StringLe;
    StringOrder();
    forall x, y ensures RefLe(x, y) || RefLe(y, x) {}
    forall x, y, z | RefLe(x, y) && RefLe(y, z) ensures RefLe(x, z) {}
  }

  // ---- _derive_first_blocker ----

  predicate Defect(j: Judgment) {
    j.outcome in {Failed, Missing, Unresolved, PresentButInadmissible}
  }

  predicate Unmet(j: Judgment) {
    Defect(j) || j.outcome == ExternalUnmet
  }

  predicate ExternalBlock(j: Judgment) {
    j.kind == External && Unmet(j)
  }

  function Precedence(o: Outcome): nat {
    match o
    case Failed => 0
    case Missing => 1
    case Unresolved => 2
    case _ => 3
  }

  /** (precedence, requirement). */
  predicate DefectLe(a: Judgment, b: Judgment) {
    var p, q := Precedence(a.outcome), Precedence(b.outcome);
    p < q || (p == q && StringLe(a.requirement, b.requirement))
  }

  function Select(judgments: seq<Judgment>, test: Judgment -> bool): seq<Judgment> {
    if judgments == [] then []
    else
      var n := |judgments| - 1;
      Select(judgments[..n], test) + if test(judgments[n]) then [judgments[n]] else []
  }

  function FirstBlocker(claim: Claim, judgments: seq<Judgment>, conflict: Option<Conflict>, hasMethods: bool,
                        authority: Option<Authority>): Verdict {
    var external := Select(judgments, ExternalBlock);
    var defective := Sort(Select(judgments, Defect), DefectLe);
    if claim != Diagnostic then Verdict(ClarificationRequired, ReadinessUnresolved, false, Some(ClaimClassRestricted))
    else if external != [] then
      Verdict(ExternalEvidenceRequired, NeedsExternal, false, Some(ExternalEvidenceUnmet(external[0].requirement)))
    else if defective != [] then
      Verdict(MissingEvidence, MissingInternalEvidence, false,
              Some(Defective(defective[0].reason, defective[0].requirement)))
    else if conflict.Some? && conflict.value.unresolved then
      Verdict(ConflictingEvidence, ReadinessUnresolved, false, Some(UnresolvedConflict(conflict.value.id)))
    else if authority.Some? then Verdict(EligibleNotExecuted, ReadyForTest, true, None)
    else Verdict(HypothesisOnly, ReadyForTest, false,
                 Some(if hasMethods then ExecutionAuthorityUnavailable else MethodAuthorityUnavailable))
  }

  /** Judgments that do not stand in the way of a test. */
  predicate Met(j: Judgment) {
    j.outcome == Satisfied || j.outcome == NotApplicable
  }

  predicate NoConflict(conflict: Option<Conflict>) {
    conflict.Some? ==> !conflict.value.unresolved
  }

  lemma {:induction false} SelectMembers(judgments: seq<Judgment>, test: Judgment -> bool)
    ensures forall j :: j in Select(judgments, test) <==> j in judgments && test(j)
  {
    if judgments != [] {
      var n := |judgments| - 1;
      SelectMembers(judgments[..n], test);
      assert judgments == judgments[..n] + [judgments[n]];
    }
  }

  lemma NothingSelected(judgments: seq<Judgment>, test: Judgment -> bool)
    ensures Select(judgments, test) == [] <==> forall j :: j in judgments ==> !test(j)
  {
    hide Select;
    SelectMembers(judgments, test);
    var s := Select(judgments, test);
    if s != [] { assert s[0] in s; }
  }

  /**
   * A test is allowed exactly for a diagnostic claim with every judgment met, no unresolved conflict and an execution
   * authority.
   */
  lemma EligibleExactly(claim: Claim, judgments: seq<Judgment>, conflict: Option<Conflict>, hasMethods: bool,
                        authority: Option<Authority>)
    requires forall j :: j in judgments ==> Valid(j)
    ensures FirstBlocker(claim, judgments, conflict, hasMethods, authority).eligible <==>
      claim == Diagnostic && (forall j :: j in judgments ==> Met(j)) && NoConflict(conflict) && authority.Some?
  {
    hide Select, Sort, DefectLe;
    NothingSelected(judgments, ExternalBlock);
    NothingSelected(judgments, Defect);
    assert forall j :: j in judgments ==> (Met(j) <==> !ExternalBlock(j) && !Defect(j));
  }

  lemma DefectPreorder()
    ensures Preorder(DefectLe)
  {
    hide StringLe;
    StringOrder();
    forall x, y ensures DefectLe(x, y) || DefectLe(y, x) {}
    forall x, y, z | DefectLe(x, y) && DefectLe(y, z) ensures DefectLe(x, z) {}
  }

  lemma {:induction false} SelectFirst(judgments: seq<Judgment>, test: Judgment -> bool)
    requires Sorted(judgments, RefLe)
    ensures Sorted(Select(judgments, test), RefLe)
  {
    hide RefLe;
    if judgments != [] {
      var n := |judgments| - 1;
      SelectFirst(judgments[..n], test);
      SelectMembers(judgments[..n], test);
      var kept := Select(judgments[..n], test);
      forall i | 0 <= i < |kept| ensures RefLe(kept[i], judgments[n]) {
        assert kept[i] in kept;
        var k :| 0 <= k < n && judgments[..n][k] == kept[i];
      }
    }
  }

  /** An external requirement that is not met stands in the way first. */
  ghost predicate ExternalFirst(judgments: seq<Judgment>, j: Judgment) {
    j in judgments && j.kind == External && j.outcome != Satisfied && j.outcome != NotApplicable
  }

  ghost predicate DefectOf(judgments: seq<Judgment>, j: Judgment, outcome: Outcome) {
    j in judgments && j.outcome == outcome
  }

  /** Then a failed requirement, then a missing one, then an unresolved one, then one with inadmissible evidence. */
  ghost predicate FirstDefect(judgments: seq<Judgment>, j: Judgment) {
    && j in judgments
    && (j.outcome == Failed
        || ((forall k :: !DefectOf(judgments, k, Failed))
            && (j.outcome == Missing
                || ((forall k :: !DefectOf(judgments, k, Missing))
                    && (j.outcome == Unresolved
                        || ((forall k :: !DefectOf(judgments, k, Unresolved))
                            && j.outcome == PresentButInadmissible))))))
    && forall k :: DefectOf(judgments, k, j.outcome) ==> StringLe(j.requirement, k.requirement)
  }

  ghost predicate AllMet(judgments: seq<Judgment>) {
    forall j :: j in judgments ==> Met(j)
  }

  /** The blocker names the external requirement of least reference, else the first defect, else a later gate. */
  ghost predicate Controls(b: Blocker, judgments: seq<Judgment>) {
    match b
    case ExternalEvidenceUnmet(r) =>
      exists j :: ExternalFirst(judgments, j) && j.requirement == r
                  && forall k :: ExternalFirst(judgments, k) ==> StringLe(r, k.requirement)
    case Defective(reason, r) =>
      && (forall k :: !ExternalFirst(judgments, k))
      && exists j :: FirstDefect(judgments, j) && j.requirement == r && j.reason == reason
    case UnresolvedConflict(_) => AllMet(judgments)
    case ExecutionAuthorityUnavailable => AllMet(judgments)
    case MethodAuthorityUnavailable => AllMet(judgments)
    case ClaimClassRestricted => true
  }

  /** Which gate a verdict stops at, in the order claim, evidence, conflict, authority. */
  ghost predicate StopsAt(v: Verdict, claim: Claim, judgments: seq<Judgment>, conflict: Option<Conflict>,
                          hasMethods: bool, authority: Option<Authority>) {
    && (v.blocker == Some(ClaimClassRestricted) <==> claim != Diagnostic)
    && (v.blocker.Some? && (v.blocker.value.ExternalEvidenceUnmet? || v.blocker.value.Defective?) <==>
         claim == Diagnostic && !AllMet(judgments))
    && (forall id :: v.blocker == Some(UnresolvedConflict(id)) <==>
         claim == Diagnostic && AllMet(judgments) && conflict == Some(Conflict(id, true)))
    && (v.blocker == Some(ExecutionAuthorityUnavailable) <==>
         claim == Diagnostic && AllMet(judgments) && NoConflict(conflict) && authority.None? && hasMethods)
    && (v.blocker == Some(MethodAuthorityUnavailable) <==>
         claim == Diagnostic && AllMet(judgments) && NoConflict(conflict) && authority.None? && !hasMethods)
  }

  /** What each gate makes of the evidence and the proposition. */
  ghost predicate Disposes(v: Verdict) {
    match v.blocker
    case None => v.disposition == EligibleNotExecuted && v.readiness == ReadyForTest && v.eligible
    case Some(b) =>
      && !v.eligible
      && match b
         case ClaimClassRestricted => v.disposition == ClarificationRequired && v.readiness == ReadinessUnresolved
         case ExternalEvidenceUnmet(_) => v.disposition == ExternalEvidenceRequired && v.readiness == NeedsExternal
         case Defective(_, _) => v.disposition == MissingEvidence && v.readiness == MissingInternalEvidence
         case UnresolvedConflict(_) => v.disposition == ConflictingEvidence && v.readiness == ReadinessUnresolved
         case ExecutionAuthorityUnavailable => v.disposition == HypothesisOnly && v.readiness == ReadyForTest
         case MethodAuthorityUnavailable => v.disposition == HypothesisOnly && v.readiness == ReadyForTest
  }

  lemma VerdictTells(claim: Claim, judgments: seq<Judgment>, conflict: Option<Conflict>, hasMethods: bool,
                     authority: Option<Authority>)
    requires forall j :: j in judgments ==> Valid(j)
    ensures var v := FirstBlocker(claim, judgments, conflict, hasMethods, authority);
      StopsAt(v, claim, judgments, conflict, hasMethods, authority) && Disposes(v)
  {
    hide Select, Sort, DefectLe;
    NothingSelected(judgments, ExternalBlock);
    NothingSelected(judgments, Defect);
    assert forall j :: j in judgments ==> (Met(j) <==> !ExternalBlock(j) && !Defect(j));
  }

  lemma {:induction false} BlockerControls(claim: Claim, judgments: seq<Judgment>, conflict: Option<Conflict>,
                                           hasMethods: bool, authority: Option<Authority>)
    requires Sorted(judgments, RefLe) && forall j :: j in judgments ==> Valid(j)
    ensures var v := FirstBlocker(claim, judgments, conflict, hasMethods, authority);
      v.blocker.Some? ==> Controls(v.blocker.value, judgments)
  {
    hide Select, Sort, StringLe;
    NothingSelected(judgments, ExternalBlock);
    NothingSelected(judgments, Defect);
    SelectMembers(judgments, ExternalBlock);
    SelectMembers(judgments, Defect);
    assert forall j :: ExternalFirst(judgments, j) <==> j in judgments && ExternalBlock(j);
    assert forall j :: j in judgments ==> (Met(j) <==> !ExternalBlock(j) && !Defect(j));
    var external, defects := Select(judgments, ExternalBlock), Select(judgments, Defect);
    if external != [] {
      SelectFirst(judgments, ExternalBlock);
      FirstIsLeast(external);
      assert external[0] in external;
    } else if defects != [] {
      LeastDefect(defects);
      DefectFirst(judgments, Sort(defects, DefectLe)[0]);
    }
  }

  /** A defect that precedes every other is the first one. */
  lemma DefectFirst(judgments: seq<Judgment>, first: Judgment)
    requires first in judgments && Defect(first) && forall k :: k in judgments && Defect(k) ==> DefectLe(first, k)
    ensures FirstDefect(judgments, first)
  {
    hide StringLe;
  }

  lemma FirstIsLeast(s: seq<Judgment>)
    requires s != [] && Sorted(s, RefLe)
    ensures forall k :: k in s ==> RefLe(s[0], k)
  {
    hide StringLe;
    RefPreorder();
    assert RefLe(s[0], s[0]);
  }

  lemma LeastDefect(defects: seq<Judgment>)
    requires defects != []
    ensures var first := Sort(defects, DefectLe)[0];
      first in defects && forall k :: k in defects ==> DefectLe(first, k)
  {
    hide StringLe, Sort, DefectLe;
    DefectPreorder();
    SortSorted(defects, DefectLe);
    SortMembers(defects, DefectLe);
    var s := Sort(defects, DefectLe);
    assert s[0] in s && DefectLe(s[0], s[0]);
    forall k | k in defects ensures DefectLe(s[0], k) {
      var i :| 0 <= i < |s| && s[i] == k;
    }
  }

  // ---- govern_pretest ----

  /** A claim that is not diagnostic is judged without evidence, conflict, methods or authority. */
  method GovernPretest(family: Family, dependencies: seq<Dependency>, decisions: seq<Decision>,
                       assessments: map<string, Assessment>,
                       claim: Claim, conflict: Option<Conflict>, hasMethods: bool, authority: Option<Authority>)
    returns (r: PretestResult)
    requires dependencies != []
    ensures (forall j :: j in r.judgments ==> Valid(j)) && Sorted(r.judgments, RefLe)
    ensures forall j :: j in r.judgments <==>
      IsJudged(family, dependencies, decisions, if claim == Diagnostic then assessments else map[], j)
    ensures r.authority == if claim == Diagnostic then authority else None
    ensures r.verdict == if claim == Diagnostic then FirstBlocker(claim, r.judgments, conflict, hasMethods, authority)
                         else FirstBlocker(claim, r.judgments, None, false, None)
    ensures r.verdict.eligible <==>
      && claim == Diagnostic && NoConflict(conflict) && authority.Some? && !family.missingInternalOnly
      && (forall d :: d in decisions ==> DecisionMet(family, assessments, d))
      && (forall d :: d in dependencies ==> EvidenceSupports(assessments, d.requirement))
    ensures r.verdict.blocker.Some? ==> Controls(r.verdict.blocker.value, r.judgments)
    ensures StopsAt(r.verdict, claim, r.judgments, conflict, hasMethods, authority) && Disposes(r.verdict)
    ensures HandoffHolds(BuildHandoff(r)) && HandoffCarries(BuildHandoff(r), r)
    ensures Classified(dependencies, assessments) ==> HandoffComplete(r)
  {
    hide FirstBlocker, Valid, Controls, HandoffHolds, HandoffComplete, Classified, BuildHandoff, DecisionMet,
         EvidenceSupports, RefLe, IsJudged, StopsAt, Disposes, HandoffCarries;
    if claim != Diagnostic {
      var js := BuildJudgments(family, dependencies, decisions, map[]);
      r := PretestResult(js, FirstBlocker(claim, js, None, false, None), None);
      EligibleExactly(claim, js, None, false, None);
      BlockerControls(claim, js, None, false, None);
      VerdictTells(claim, js, None, false, None);
      OtherClaims(r.verdict, claim, js, conflict, hasMethods, authority);
      HandoffSays(r);
      HandoffMeetsContract(claim, js, None, false, None);
      if Classified(dependencies, assessments) {
        WithoutAssessments(dependencies, assessments);
        ClassifiedJudgments(family, dependencies, decisions, map[], js);
        HandoffListsUnmet(r);
      }
    } else {
      var js := BuildJudgments(family, dependencies, decisions, assessments);
      r := PretestResult(js, FirstBlocker(claim, js, conflict, hasMethods, authority), authority);
      EligibleExactly(claim, js, conflict, hasMethods, authority);
      BlockerControls(claim, js, conflict, hasMethods, authority);
      VerdictTells(claim, js, conflict, hasMethods, authority);
      HandoffSays(r);
      HandoffMeetsContract(claim, js, conflict, hasMethods, authority);
      AllMetExactly(family, dependencies, decisions, assessments, js);
      if Classified(dependencies, assessments) {
        ClassifiedJudgments(family, dependencies, decisions, assessments, js);
        HandoffListsUnmet(r);
      }
    }
  }

  lemma OtherClaims(v: Verdict, claim: Claim, judgments: seq<Judgment>, conflict: Option<Conflict>, hasMethods: bool,
                    authority: Option<Authority>)
    requires claim != Diagnostic && StopsAt(v, claim, judgments, None, false, None)
    ensures StopsAt(v, claim, judgments, conflict, hasMethods, authority)
  {}

  predicate EvidenceSupports(assessments: map<string, Assessment>, requirement: string) {
    requirement in assessments && Supports(assessments[requirement])
  }

  predicate DecisionMet(family: Family, assessments: map<string, Assessment>, d: Decision) {
    || d.applicability == Inapplicable
    || EvidenceSupports(assessments, if d.requirement == "" then family.id + ":" + d.dimension else d.requirement)
  }

  /** One outcome is satisfaction: exactly for supporting evidence. */
  lemma SatisfiedExactly(a: Assessment)
    ensures AssessmentOutcome(a).0 == Satisfied <==> Supports(a)
  {}

  lemma JudgmentMet(requirement: string, assessment: Option<Assessment>, dimension: Option<string>, kind: Class)
    ensures Met(JudgmentFrom(requirement, assessment, dimension, kind)) <==>
      assessment.Some? && Supports(assessment.value)
  {
    if assessment.Some? {
      SatisfiedExactly(assessment.value);
      UnmetOutsideIsExternal(assessment.value);
    }
    hide AssessmentOutcome;
  }

  /**
   * All judgments are met exactly when every applicable requirement has supporting evidence, and never for a family
   * that only records missing evidence.
   */
  lemma AllMetExactly(family: Family, dependencies: seq<Dependency>, decisions: seq<Decision>,
                      assessments: map<string, Assessment>, judgments: seq<Judgment>)
    requires dependencies != []
    requires forall j :: j in judgments <==> IsJudged(family, dependencies, decisions, assessments, j)
    ensures (forall j :: j in judgments ==> Met(j)) <==>
      && !family.missingInternalOnly
      && (forall d :: d in decisions ==> DecisionMet(family, assessments, d))
      && (forall d :: d in dependencies ==> EvidenceSupports(assessments, d.requirement))
  {
    var kind := dependencies[0].kind;
    forall j ensures IsJudged(family, dependencies, decisions, assessments, j) <==>
      || (exists d :: d in decisions && JudgeDecision(family, kind, assessments, d) == j)
      || (exists d :: d in dependencies && JudgeDependency(family, assessments, d) == j)
    {
      JudgedMeans(family, dependencies, decisions, assessments, j);
    }
    hide IsJudged;
    forall d | d in decisions
      ensures JudgeDecision(family, kind, assessments, d) in judgments
      ensures Met(JudgeDecision(family, kind, assessments, d)) <==> DecisionMet(family, assessments, d)
    {
      JudgmentMet(RequirementOf(family, d), Lookup(assessments, RequirementOf(family, d)), Some(d.dimension), kind);
      hide JudgmentFrom;
    }
    forall d | d in dependencies
      ensures JudgeDependency(family, assessments, d) in judgments
      ensures Met(JudgeDependency(family, assessments, d)) <==>
        !family.missingInternalOnly && EvidenceSupports(assessments, d.requirement)
    {
      DependencyMet(family, assessments, d);
      hide JudgeDependency, EvidenceSupports;
    }
    assert dependencies[0] in dependencies;
    hide JudgeDecision, JudgeDependency, Met, DecisionMet, EvidenceSupports;
  }

  lemma DependencyMet(family: Family, assessments: map<string, Assessment>, d: Dependency)
    ensures Met(JudgeDependency(family, assessments, d)) <==>
      !family.missingInternalOnly && EvidenceSupports(assessments, d.requirement)
  {
    hide AssessmentOutcome;
    var found := Lookup(assessments, d.requirement);
    if found.Some? { SatisfiedExactly(found.value); }
    JudgmentMet(d.requirement, found, None, d.kind);
    JudgmentMet(d.requirement, None, None, d.kind);
    hide JudgmentFrom;
  }

  // ---- _build_handoff ----

  datatype Handoff = Handoff(readiness: Readiness, missingInternal: seq<string>, unmetExternal: seq<string>,
                             testMethod: Option<(string, string)>, criterion: Option<(string, string)>,
                             profile: Option<(string, string)>,
                             eligible: bool, blocker: Option<Blocker>)

  predicate InternalDefect(j: Judgment) { j.kind == Internal && Defect(j) }

  function Refs(judgments: seq<Judgment>): seq<string> {
    seq(|judgments|, i requires 0 <= i < |judgments| => judgments[i].requirement)
  }

  function Requirements(judgments: seq<Judgment>): seq<string> {
    Sort(Refs(judgments), StringLe)
  }

  function BuildHandoff(r: PretestResult): Handoff {
    var a := r.authority;
    Handoff(r.verdict.readiness, Requirements(Select(r.judgments, InternalDefect)),
            Requirements(Select(r.judgments, ExternalBlock)),
            if a.Some? then Some((a.value.testMethod, a.value.testMethodVersion)) else None,
            if a.Some? then Some((a.value.criterion, a.value.criterionVersion)) else None,
            if a.Some? then Some((a.value.profile, a.value.profileVersion)) else None,
            r.verdict.eligible, r.verdict.blocker)
  }

  /**
   * The contract of a handoff: an eligible one is ready and unblocked with nothing unmet; an ineligible one names its
   * blocker.
   */
  predicate HandoffHolds(h: Handoff) {
    if h.eligible then h.readiness == ReadyForTest && h.blocker.None? && h.missingInternal == []
      && h.unmetExternal == []
    else h.blocker.Some?
  }

  ghost predicate InternalUnmet(judgments: seq<Judgment>, j: Judgment) {
    j.kind == Internal
    && (DefectOf(judgments, j, Failed) || DefectOf(judgments, j, Missing) || DefectOf(judgments, j, Unresolved)
        || DefectOf(judgments, j, PresentButInadmissible))
  }

  /** The handoff passes the verdict and the authority on, and lists requirements in order. */
  ghost predicate HandoffCarries(h: Handoff, r: PretestResult) {
    && h.readiness == r.verdict.readiness && h.eligible == r.verdict.eligible && h.blocker == r.verdict.blocker
    && h.testMethod == (match r.authority case None => None case Some(a) => Some((a.testMethod, a.testMethodVersion)))
    && h.criterion == (match r.authority case None => None case Some(a) => Some((a.criterion, a.criterionVersion)))
    && h.profile == (match r.authority case None => None case Some(a) => Some((a.profile, a.profileVersion)))
    && Sorted(h.missingInternal, StringLe) && Sorted(h.unmetExternal, StringLe)
    && (forall x :: x in h.missingInternal <==> exists j :: InternalUnmet(r.judgments, j) && j.requirement == x)
    && (forall x :: x in h.unmetExternal <==> exists j :: ExternalFirst(r.judgments, j) && j.requirement == x)
  }

  lemma RequirementsAre(judgments: seq<Judgment>, test: Judgment -> bool, x: string)
    ensures x in Requirements(Select(judgments, test)) <==>
      exists j :: j in judgments && test(j) && j.requirement == x
    ensures Sorted(Requirements(Select(judgments, test)), StringLe)
  {
    hide StringLe, Sort, Select;
    var kept := Select(judgments, test);
    SelectMembers(judgments, test);
    StringOrder();
    SortSorted(Refs(kept), StringLe);
    SortMembers(Refs(kept), StringLe);
    if j :| j in judgments && test(j) && j.requirement == x {
      var i :| 0 <= i < |kept| && kept[i] == j;
      assert Refs(kept)[i] == x;
    }
    if x in Refs(kept) {
      var i :| 0 <= i < |kept| && Refs(kept)[i] == x;
      assert kept[i] in kept;
    }
  }

  lemma HandoffSays(r: PretestResult)
    ensures HandoffCarries(BuildHandoff(r), r)
  {
    hide Requirements, Select, StringLe;
    forall x ensures x in BuildHandoff(r).missingInternal <==>
      exists j :: j in r.judgments && InternalDefect(j) && j.requirement == x
    {
      RequirementsAre(r.judgments, InternalDefect, x);
    }
    forall x ensures x in BuildHandoff(r).unmetExternal <==>
      exists j :: j in r.judgments && ExternalBlock(j) && j.requirement == x
    {
      RequirementsAre(r.judgments, ExternalBlock, x);
    }
    RequirementsAre(r.judgments, InternalDefect, "");
    RequirementsAre(r.judgments, ExternalBlock, "");
    assert forall j :: ExternalFirst(r.judgments, j) <==> j in r.judgments && ExternalBlock(j);
    assert forall j :: InternalUnmet(r.judgments, j) <==> j in r.judgments && InternalDefect(j);
  }

  /** The handoff of any governed result meets its contract. */
  lemma HandoffMeetsContract(claim: Claim, judgments: seq<Judgment>, conflict: Option<Conflict>, hasMethods: bool,
                             authority: Option<Authority>)
    requires forall j :: j in judgments ==> Valid(j)
    ensures HandoffHolds(BuildHandoff(PretestResult(judgments,
        FirstBlocker(claim, judgments, conflict, hasMethods, authority), authority)))
  {
    hide Select, DefectLe, Sort, Requirements;
    EligibleExactly(claim, judgments, conflict, hasMethods, authority);
    NothingSelected(judgments, InternalDefect);
    NothingSelected(judgments, ExternalBlock);
    NothingRequired();
  }

  lemma NothingRequired()
    ensures Requirements([]) == []
  {}

  // ---- What the handoff lists ----

  /**
   * Dependencies are internal or external, and every assessment has the class of the dependency it is expected to
   * match.
   */
  ghost predicate Classified(dependencies: seq<Dependency>, assessments: map<string, Assessment>) {
    && (forall d :: d in dependencies ==> d.kind != Either)
    && forall r :: r in assessments ==> exists d :: d in dependencies && d.kind == assessments[r].kind
  }

  /** The handoff lists the requirement of every unmet judgment once, as internal or external, and nothing else. */
  ghost predicate HandoffComplete(r: PretestResult) {
    var h := BuildHandoff(r);
    multiset(h.missingInternal) + multiset(h.unmetExternal) == multiset(Refs(Select(r.judgments, Unmet)))
  }

  lemma WithoutAssessments(dependencies: seq<Dependency>, assessments: map<string, Assessment>)
    requires Classified(dependencies, assessments)
    ensures Classified(dependencies, map[])
  {}

  lemma ClassifiedJudgments(family: Family, dependencies: seq<Dependency>, decisions: seq<Decision>,
                            assessments: map<string, Assessment>, judgments: seq<Judgment>)
    requires dependencies != [] && Classified(dependencies, assessments)
    requires forall j :: j in judgments <==> IsJudged(family, dependencies, decisions, assessments, j)
    ensures forall j :: j in judgments ==> j.kind != Either
  {
    assert dependencies[0] in dependencies;
    forall j ensures IsJudged(family, dependencies, decisions, assessments, j) <==>
      || (exists d :: d in decisions && JudgeDecision(family, dependencies[0].kind, assessments, d) == j)
      || (exists d :: d in dependencies && JudgeDependency(family, assessments, d) == j)
    {
      JudgedMeans(family, dependencies, decisions, assessments, j);
    }
    hide IsJudged;
    forall requirement, assessment: Option<Assessment>, dimension, kind: Class | kind != Either
      && (assessment.Some? ==> assessment.value.kind != Either)
      ensures JudgmentFrom(requirement, assessment, dimension, kind).kind != Either
    {
      hide AssessmentOutcome;
    }
    hide JudgmentFrom, RequirementOf, AssessmentOutcome;
  }

  /** Without class EITHER the two lists split the unmet judgments. */
  lemma {:induction false} ListsSplit(judgments: seq<Judgment>)
    requires forall j :: j in judgments ==> Valid(j) && j.kind != Either
    ensures multiset(Refs(Select(judgments, InternalDefect))) + multiset(Refs(Select(judgments, ExternalBlock)))
         == multiset(Refs(Select(judgments, Unmet)))
  {
    if judgments == [] {
      assert Refs([]) == [];
    } else {
      var n := |judgments| - 1;
      var j := judgments[n];
      assert j in judgments && forall k :: k in judgments[..n] ==> k in judgments;
      ListsSplit(judgments[..n]);
      SelectLast(judgments, n, InternalDefect);
      SelectLast(judgments, n, ExternalBlock);
      SelectLast(judgments, n, Unmet);
      assert Unmet(j) <==> InternalDefect(j) || ExternalBlock(j);
      assert !(InternalDefect(j) && ExternalBlock(j));
      hide Select, Refs, Valid;
    }
  }

  lemma SelectLast(judgments: seq<Judgment>, n: nat, test: Judgment -> bool)
    requires |judgments| == n + 1
    ensures multiset(Refs(Select(judgments, test)))
         == multiset(Refs(Select(judgments[..n], test))) + if test(judgments[n]) then multiset{judgments[n].requirement}
           else multiset{}
  {
    var before := Select(judgments[..n], test);
    if test(judgments[n]) {
      assert Refs(before + [judgments[n]]) == Refs(before) + [judgments[n].requirement];
    } else {
      assert before + [] == before;
    }
  }

  lemma HandoffListsUnmet(r: PretestResult)
    requires forall j :: j in r.judgments ==> Valid(j) && j.kind != Either
    ensures HandoffComplete(r)
  {
    hide Select, Refs, Sort, Valid;
    ListsSplit(r.judgments);
  }
}
