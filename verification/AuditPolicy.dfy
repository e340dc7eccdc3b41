/** The complete policy of a pack's audit declaration, expanded and re-validated (src/functions/audit_policy.ts). */
module AuditPolicy {
  import opened Wrappers
  import opened Utf8
  import opened AuditTypes
  import opened AuditTemplate

  datatype Declaration = Declaration(
    cacheKey: string,
    model: string,
    lenses: seq<Lens>,
    passVerdict: string,
    failVerdict: string,
    timeoutMs: Option<nat>,
    subjectTemplate: Option<string>)

  /** A process step; `declaration` is what parsing its arguments as a lens-mode audit gives. */
  datatype Step = Step(call: string, declaration: Option<Declaration>)
  datatype Rule = TrackCheck(process: seq<Step>) | OtherRule
  datatype Skill = Skill(rules: seq<Rule>)
  datatype Pack = Pack(name: string, skills: seq<Skill>)

  datatype Policy = Policy(
    cacheKey: string,
    model: string,
    lenses: seq<Lens>,
    passVerdict: string,
    failVerdict: string,
    subject: string,
    timeoutMs: Option<nat>)

  function MaterializedCriteria(criteria: seq<string>, rubric: string, diff: string): Option<seq<string>> {
    if criteria == [] then Some([])
    else
      var k := |criteria| - 1;
      match (MaterializedCriteria(criteria[..k], rubric, diff),
             Materialized(criteria[k], rubric, diff, false, MAX_CRITERION_BYTES))
      case (Some(front), Some(last)) => Some(front + [last])
      case _ => None
  }

  function MaterializedLens(lens: Lens, rubric: string, diff: string): Option<Lens> {
    match Materialized(lens.prompt, rubric, diff, true, MAX_TEXT_BYTES)
    case None => None
    case Some(prompt) =>
      match lens.criteria
      case None => Some(Lens(lens.id, prompt, None))
      case Some(declared) =>
        match MaterializedCriteria(declared, rubric, diff)
        case None => None
        case Some(criteria) => Some(Lens(lens.id, prompt, Some(criteria)))
  }

  predicate Matches(step: Step, auditCacheKey: string) {
    && step.call == "cached_audit"
    && step.declaration.Some?
    && step.declaration.value.cacheKey == auditCacheKey
    && step.declaration.value.subjectTemplate == Some(DIFF)
  }

  /** The policy of one declaration: every lens expands, and the expanded set is itself a valid lens set. */
  ghost predicate IsPolicyOf(r: Option<Policy>, d: Declaration, rubric: string, diff: string) {
    && (r.Some? ==>
          && r.value.cacheKey == d.cacheKey && r.value.model == d.model && r.value.timeoutMs == d.timeoutMs
          && r.value.passVerdict == d.passVerdict && r.value.failVerdict == d.failVerdict
          && r.value.subject == diff && IsAuditText(diff)
          && IsLensSet(r.value.lenses)
          && |r.value.lenses| == |d.lenses|
          && forall i | 0 <= i < |d.lenses| ::
               MaterializedLens(d.lenses[i], rubric, diff) == Some(r.value.lenses[i]))
    && (r.None? ==>
          || !IsAuditText(diff)
          || (exists i | 0 <= i < |d.lenses| :: MaterializedLens(d.lenses[i], rubric, diff).None?)
          || exists lenses: seq<Lens> ::
               && |lenses| == |d.lenses| && !IsLensSet(lenses)
               && forall i | 0 <= i < |d.lenses| :: MaterializedLens(d.lenses[i], rubric, diff) == Some(lenses[i]))
  }

  function OrElse<T>(a: Option<T>, b: Option<T>): Option<T> {
    if a.Some? then a else b
  }

  function FirstInSteps(steps: seq<Step>, key: string): Option<Declaration> {
    if steps == [] then None
    else if Matches(steps[0], key) then steps[0].declaration
    else FirstInSteps(steps[1..], key)
  }

  function FirstInRules(rules: seq<Rule>, key: string): Option<Declaration> {
    if rules == [] then None
    else
      OrElse(if rules[0].TrackCheck? then FirstInSteps(rules[0].process, key) else None,
             FirstInRules(rules[1..], key))
  }

  /** The first matching declaration in document order. */
  function FirstInSkills(skills: seq<Skill>, key: string): Option<Declaration> {
    if skills == [] then None else OrElse(FirstInRules(skills[0].rules, key), FirstInSkills(skills[1..], key))
  }

  function FirstNamed(packs: seq<Pack>, packId: string): Option<Pack> {
    if packs == [] then None else if packs[0].name == packId then Some(packs[0]) else FirstNamed(packs[1..], packId)
  }

  /**
    What the gate sees: nothing when the pack is unknown, an input is over its bound or no step matches;
    otherwise the policy of the first matching step, and of no later one even when the first fails.
  */
  ghost predicate IsPackPolicy(
    r: Option<Policy>, packs: seq<Pack>, packId: string, key: string, rubric: string, diff: string)
  {
    match FirstNamed(packs, packId)
    case None => r.None?
    case Some(pack) =>
      if !IsAuditText(rubric) || !IsAuditText(diff) then r.None?
      else
        match FirstInSkills(pack.skills, key)
        case None => r.None?
        case Some(d) => IsPolicyOf(r, d, rubric, diff)
  }

  method MaterializeCriteria(criteria: seq<string>, rubric: string, diff: string) returns (r: Option<seq<string>>)
    ensures r == MaterializedCriteria(criteria, rubric, diff)
  {
    hide Materialized;
    var all: Option<seq<string>> := Some([]);
    for i := 0 to |criteria|
      invariant all == MaterializedCriteria(criteria[..i], rubric, diff)
    {
      assert criteria[..i + 1][..i] == criteria[..i];
      var criterion := MaterializeTemplate(criteria[i], rubric, diff, false, MAX_CRITERION_BYTES);
      all := match (all, criterion)
        case (Some(front), Some(last)) => Some(front + [last])
        case _ => None;
    }
    assert criteria[..|criteria|] == criteria;
    return all;
  }

  /** One declaration: expand lens by lens, stop at the first that fails, then validate the whole set again. */
  method MaterializeDeclaration(d: Declaration, rubric: string, diff: string) returns (r: Option<Policy>)
    ensures IsPolicyOf(r, d, rubric, diff)
  {
    hide Materialized, MaterializedCriteria, IsLensSet, IsAuditText;
    var lenses: seq<Lens> := [];
    for i := 0 to |d.lenses|
      invariant |lenses| == i
      invariant forall k | 0 <= k < i :: MaterializedLens(d.lenses[k], rubric, diff) == Some(lenses[k])
    {
      var lens := d.lenses[i];
      var prompt := MaterializeTemplate(lens.prompt, rubric, diff, true, MAX_TEXT_BYTES);
      if prompt.None? {
        assert MaterializedLens(lens, rubric, diff).None?;
        return None;
      }
      var criteria: Option<seq<string>> := None;
      if lens.criteria.Some? {
        criteria := MaterializeCriteria(lens.criteria.value, rubric, diff);
        if criteria.None? {
          assert MaterializedLens(lens, rubric, diff).None?;
          return None;
        }
      }
      lenses := lenses + [Lens(lens.id, prompt.value, criteria)];
    }
    if !IsLensSet(lenses) || !IsAuditText(diff) { return None; }
    return Some(Policy(d.cacheKey, d.model, lenses, d.passVerdict, d.failVerdict, diff, d.timeoutMs));
  }

  method MaterializePackAuditPolicy(
    packs: seq<Pack>, packId: string, auditCacheKey: string, rubric: string, diff: string)
      returns (r: Option<Policy>)
    ensures IsPackPolicy(r, packs, packId, auditCacheKey, rubric, diff)
  {
    hide IsPolicyOf, IsAuditText, Matches;
    var p := 0;
    while p < |packs| && packs[p].name != packId
      invariant p <= |packs|
      invariant FirstNamed(packs, packId) == FirstNamed(packs[p..], packId)
    {
      p := p + 1;
    }
    if p == |packs| { return None; }
    if !IsAuditText(rubric) || !IsAuditText(diff) { return None; }
    var skills := packs[p].skills;
    for s := 0 to |skills|
      invariant FirstInSkills(skills, auditCacheKey) == FirstInSkills(skills[s..], auditCacheKey)
    {
      var rules := skills[s].rules;
      for x := 0 to |rules|
        invariant FirstInSkills(skills, auditCacheKey) ==
            OrElse(FirstInRules(rules[x..], auditCacheKey), FirstInSkills(skills[s + 1..], auditCacheKey))
      {
        if !rules[x].TrackCheck? { continue; }
        var process := rules[x].process;
        for i := 0 to |process|
          invariant FirstInRules(rules[x..], auditCacheKey) ==
              OrElse(FirstInSteps(process[i..], auditCacheKey), FirstInRules(rules[x + 1..], auditCacheKey))
        {
          if !Matches(process[i], auditCacheKey) { continue; }
          HasDeclaration(process[i], auditCacheKey);
          r := MaterializeDeclaration(process[i].declaration.value, rubric, diff);
          return;
        }
      }
    }
    return None;
  }

  lemma HasDeclaration(step: Step, key: string)
    requires Matches(step, key)
    ensures step.declaration.Some?
  {
  }

  lemma {:induction false} CriteriaAreExpanded(declared: seq<string>, rubric: string, diff: string, j: nat)
    requires MaterializedCriteria(declared, rubric, diff).Some?
    ensures |MaterializedCriteria(declared, rubric, diff).value| == |declared|
    ensures j < |declared| ==>
      && MaterializedCriteria(declared, rubric, diff).value[j] == Render(Parse(declared[j]), rubric, diff)
      && ByteLength(MaterializedCriteria(declared, rubric, diff).value[j]) <= MAX_CRITERION_BYTES
    decreases |declared|
  {
    hide Expand, Admissible, Parse, Render, ByteLength;
    if declared != [] {
      var k := |declared| - 1;
      CriteriaAreExpanded(declared[..k], rubric, diff, j);
      ExpandFillsHoles(declared[k], rubric, diff);
    }
  }

  /**
    A materialised policy asks exactly the declared reviewers, in order, each with the single-pass
    expansion of its own prompt and of each of its own criteria; the artifact is the subject, verbatim, and
    every bound holds again.
  */
  lemma {:induction false} PolicyIsTheDeclaration(r: Policy, d: Declaration, rubric: string, diff: string, i: nat)
    requires IsPolicyOf(Some(r), d, rubric, diff) && i < |d.lenses|
    ensures r.subject == diff && r.model == d.model && r.timeoutMs == d.timeoutMs
    ensures r.passVerdict == d.passVerdict && r.failVerdict == d.failVerdict
    ensures IsLensSet(r.lenses) && |r.lenses| == |d.lenses| && r.lenses[i].id == d.lenses[i].id
    ensures r.lenses[i].prompt == Render(Parse(d.lenses[i].prompt), rubric, diff)
    ensures ByteLength(r.lenses[i].prompt) <= MAX_TEXT_BYTES
    ensures match d.lenses[i].criteria
      case None => r.lenses[i].criteria == None
      case Some(declared) =>
        && r.lenses[i].criteria.Some? && |r.lenses[i].criteria.value| == |declared|
        && forall j | 0 <= j < |declared| ::
             && r.lenses[i].criteria.value[j] == Render(Parse(declared[j]), rubric, diff)
             && ByteLength(r.lenses[i].criteria.value[j]) <= MAX_CRITERION_BYTES
  {
    hide Expand, IsLensSet, Admissible, Parse, Render, ByteLength, MaterializedCriteria;
    assert MaterializedLens(d.lenses[i], rubric, diff) == Some(r.lenses[i]);
    ExpandFillsHoles(d.lenses[i].prompt, rubric, diff);
    if d.lenses[i].criteria.Some? {
      var declared := d.lenses[i].criteria.value;
      CriteriaAreExpanded(declared, rubric, diff, |declared|);
      forall j | 0 <= j < |declared|
        ensures r.lenses[i].criteria.value[j] == Render(Parse(declared[j]), rubric, diff)
        ensures ByteLength(r.lenses[i].criteria.value[j]) <= MAX_CRITERION_BYTES
      {
        CriteriaAreExpanded(declared, rubric, diff, j);
      }
    }
  }
}
