/**
  The validator's typo suggestions (src/packs/validate_functions.ts): the edit-distance table, the
  nearest registered name, and the walk that reports every unknown call of a pack.

  The table is proved against edit scripts: it is the least number of insertions, deletions and
  substitutions in any script from one string to the other, from which the metric laws follow.
*/
module EditDistance {
  import opened Wrappers

  /** One column of an alignment of two strings. */
  datatype Edit =
    | Keep(c: char)
    | Insert(c: char)
    | Delete(c: char)
    | Substitute(c: char, d: char)

  type Script = seq<Edit>

  function EditSource(e: Edit): string {
    match e
    case Keep(c) => [c]
    case Insert(_) => []
    case Delete(c) => [c]
    case Substitute(c, _) => [c]
  }

  function EditTarget(e: Edit): string {
    match e
    case Keep(c) => [c]
    case Insert(c) => [c]
    case Delete(_) => []
    case Substitute(_, d) => [d]
  }

  function EditCost(e: Edit): nat {
    if e.Keep? then 0 else 1
  }

  /** The string a script starts from. */
  function Source(s: Script): string {
    if s == [] then [] else Source(Init(s)) + EditSource(Last(s))
  }

  /** The string a script produces. */
  function Target(s: Script): string {
    if s == [] then [] else Target(Init(s)) + EditTarget(Last(s))
  }

  function Cost(s: Script): nat {
    if s == [] then 0 else Cost(Init(s)) + EditCost(Last(s))
  }

  ghost predicate Transforms(s: Script, a: string, b: string) {
    Source(s) == a && Target(s) == b
  }

  function Init<T>(s: seq<T>): seq<T>
    requires |s| > 0
  {
    s[..|s| - 1]
  }

  function Last<T>(s: seq<T>): T
    requires |s| > 0
  {
    s[|s| - 1]
  }

  function Min(x: nat, y: nat): nat {
    if x <= y then x else y
  }

  /** The recurrence that the table tabulates, on whole prefixes. */
  function Distance(a: string, b: string): nat
    decreases |a| + |b|
  {
    if a == [] then |b|
    else if b == [] then |a|
    else
      Min(Min(Distance(Init(a), b) + 1, Distance(a, Init(b)) + 1),
          Distance(Init(a), Init(b)) + if Last(a) == Last(b) then 0 else 1)
  }

  // ---------------------------------------------------------------------------------------------
  // The recurrence is the least script cost
  // ---------------------------------------------------------------------------------------------

  lemma ExtendScript(s: Script, e: Edit)
    ensures Source(s + [e]) == Source(s) + EditSource(e)
    ensures Target(s + [e]) == Target(s) + EditTarget(e)
    ensures Cost(s + [e]) == Cost(s) + EditCost(e)
  {
    assert Init(s + [e]) == s;
  }

  lemma SplitLast(a: string)
    requires a != []
    ensures a == Init(a) + [Last(a)]
  {
  }

  /** The recurrence, for proofs in which the definition itself is hidden. */
  lemma {:induction false} DistanceRecurrence(a: string, b: string)
    ensures a == [] ==> Distance(a, b) == |b|
    ensures b == [] ==> Distance(a, b) == |a|
    ensures a != [] && b != [] ==>
        Distance(a, b) ==
        Min(Min(Distance(Init(a), b) + 1, Distance(a, Init(b)) + 1),
            Distance(Init(a), Init(b)) + if Last(a) == Last(b) then 0 else 1)
  {
    hide Min, Init, Last;
  }

  /** Some script from `a` to `b` costs exactly `Distance(a, b)`. */
  lemma {:induction false} CheapestScript(a: string, b: string) returns (s: Script)
    ensures Transforms(s, a, b)
    ensures Cost(s) == Distance(a, b)
    decreases |a| + |b|
  {
    if a == [] && b == [] {
      s := [];
    } else if a == [] || (b != [] && Distance(a, b) == Distance(a, Init(b)) + 1) {
      var p := CheapestScript(a, Init(b));
      s := p + [Insert(Last(b))];
      ExtendScript(p, Insert(Last(b)));
      SplitLast(b);
    } else if b == [] || Distance(a, b) == Distance(Init(a), b) + 1 {
      var p := CheapestScript(Init(a), b);
      s := p + [Delete(Last(a))];
      ExtendScript(p, Delete(Last(a)));
      SplitLast(a);
    } else {
      var p := CheapestScript(Init(a), Init(b));
      var e := if Last(a) == Last(b) then Keep(Last(a)) else Substitute(Last(a), Last(b));
      s := p + [e];
      ExtendScript(p, e);
      SplitLast(a);
      SplitLast(b);
    }
  }

  lemma DistanceStep(a: string, b: string, e: Edit)
    ensures Distance(a + EditSource(e), b + EditTarget(e)) <= Distance(a, b) + EditCost(e)
  {
    var a', b' := a + EditSource(e), b + EditTarget(e);
    assert EditSource(e) != [] ==> Init(a') == a;
    assert EditTarget(e) != [] ==> Init(b') == b;
    assert EditSource(e) == [] ==> a' == a;
    assert EditTarget(e) == [] ==> b' == b;
  }

  /** No script is cheaper than the distance between its two ends. */
  lemma {:induction false} NoCheaperScript(s: Script)
    ensures Distance(Source(s), Target(s)) <= Cost(s)
  {
    if s != [] {
      NoCheaperScript(Init(s));
      DistanceStep(Source(Init(s)), Target(Init(s)), Last(s));
    }
  }

  // ---------------------------------------------------------------------------------------------
  // The metric laws
  // ---------------------------------------------------------------------------------------------

  lemma {:induction false} FreeScriptKeeps(s: Script)
    requires Cost(s) == 0
    ensures Source(s) == Target(s)
  {
    if s != [] {
      FreeScriptKeeps(Init(s));
    }
  }

  lemma {:induction false} DistanceToSelf(a: string)
    ensures Distance(a, a) == 0
  {
    if a != [] {
      DistanceToSelf(Init(a));
    }
  }

  lemma {:induction false} ZeroIffEqual(a: string, b: string)
    ensures Distance(a, b) == 0 <==> a == b
  {
    var s := CheapestScript(a, b);
    if Cost(s) == 0 {
      FreeScriptKeeps(s);
    }
    DistanceToSelf(a);
  }

  lemma {:induction false} Symmetric(a: string, b: string)
    ensures Distance(a, b) == Distance(b, a)
    decreases |a| + |b|
  {
    if a != [] && b != [] {
      Symmetric(Init(a), b);
      Symmetric(a, Init(b));
      Symmetric(Init(a), Init(b));
    }
  }

  /** The column left when a column of a second script consumes the character a first one produced. */
  function Merge(e: Edit, f: Edit): (r: Script)
    requires EditTarget(e) != [] && EditTarget(e) == EditSource(f)
    ensures r == [] ==> EditSource(e) == [] && EditTarget(f) == []
    ensures r != [] ==>
        && |r| == 1 && EditSource(r[0]) == EditSource(e) && EditTarget(r[0]) == EditTarget(f)
        && EditCost(r[0]) <= EditCost(e) + EditCost(f)
  {
    match f
    case Delete(_) => if EditSource(e) == [] then [] else [Delete(EditSource(e)[0])]
    case Substitute(_, d) => if EditSource(e) == [] then [Insert(d)] else [Substitute(EditSource(e)[0], d)]
    case _ => [e]
  }

  lemma ExtendByMerge(p: Script, e: Edit, f: Edit)
    requires EditTarget(e) != [] && EditTarget(e) == EditSource(f)
    ensures Source(p + Merge(e, f)) == Source(p) + EditSource(e)
    ensures Target(p + Merge(e, f)) == Target(p) + EditTarget(f)
    ensures Cost(p + Merge(e, f)) <= Cost(p) + EditCost(e) + EditCost(f)
  {
    hide Source, Target, Cost, EditSource, EditTarget, EditCost;
    var merged := Merge(e, f);
    if merged == [] {
      assert p + merged == p;
    } else {
      ExtendScript(p, merged[0]);
      assert p + merged == p + [merged[0]];
    }
  }

  lemma MatchingColumns(s: Script, t: Script)
    requires s != [] && t != [] && Target(s) == Source(t)
    requires EditTarget(Last(s)) != [] && EditSource(Last(t)) != []
    ensures Target(Init(s)) == Source(Init(t)) && EditTarget(Last(s)) == EditSource(Last(t))
  {
    assert Init(Target(s)) == Target(Init(s)) && Init(Source(t)) == Source(Init(t));
    assert Last(Target(s)) == EditTarget(Last(s))[0] && Last(Source(t)) == EditSource(Last(t))[0];
  }

  /** Running one script after another: the middle string disappears and no cost is added. */
  lemma {:induction false} Compose(s: Script, t: Script) returns (r: Script)
    requires Target(s) == Source(t)
    ensures Transforms(r, Source(s), Target(t))
    ensures Cost(r) <= Cost(s) + Cost(t)
    decreases |s| + |t|
  {
    if t != [] && Last(t).Insert? {
      var p := Compose(s, Init(t));
      r := p + [Last(t)];
      ExtendScript(p, Last(t));
    } else if s != [] && Last(s).Delete? {
      var p := Compose(Init(s), t);
      r := p + [Last(s)];
      ExtendScript(p, Last(s));
    } else if s == [] || t == [] {
      assert s == [] && t == [];
      r := [];
    } else {
      MatchingColumns(s, t);
      var p := Compose(Init(s), Init(t));
      r := p + Merge(Last(s), Last(t));
      ExtendByMerge(p, Last(s), Last(t));
    }
  }

  lemma {:induction false} TriangleInequality(a: string, b: string, c: string)
    ensures Distance(a, c) <= Distance(a, b) + Distance(b, c)
  {
    var s := CheapestScript(a, b);
    var t := CheapestScript(b, c);
    var r := Compose(s, t);
    NoCheaperScript(r);
  }

  // ---------------------------------------------------------------------------------------------
  // The table and the nearest name
  // ---------------------------------------------------------------------------------------------

  /** The dynamic program: fills the whole (m+1) x (n+1) table in place and reads its corner. */
  method Levenshtein(a: string, b: string) returns (d: nat)
    ensures forall s: Script | Transforms(s, a, b) :: d <= Cost(s)
    ensures exists s: Script :: Transforms(s, a, b) && Cost(s) == d
    ensures d == Distance(a, b)
  {
    hide Distance;
    var m, n := |a|, |b|;
    var dp := new nat[m + 1, n + 1]((_, _) => 0);
    for i := 0 to m + 1
      invariant forall k | 0 <= k < i :: dp[k, 0] == Distance(a[..k], [])
    {
      DistanceRecurrence(a[..i], []);
      dp[i, 0] := i;
    }
    for j := 0 to n + 1
      invariant forall k | 0 <= k <= m :: dp[k, 0] == Distance(a[..k], [])
      invariant forall k | 0 <= k < j :: dp[0, k] == Distance([], b[..k])
    {
      DistanceRecurrence([], b[..j]);
      dp[0, j] := j;
    }
    for i := 1 to m + 1
      invariant forall p, q | 0 <= p < i && 0 <= q <= n :: dp[p, q] == Distance(a[..p], b[..q])
      invariant forall p | 0 <= p <= m :: dp[p, 0] == Distance(a[..p], [])
    {
      for j := 1 to n + 1
        invariant forall p, q | 0 <= p < i && 0 <= q <= n :: dp[p, q] == Distance(a[..p], b[..q])
        invariant forall p | 0 <= p <= m :: dp[p, 0] == Distance(a[..p], [])
        invariant forall q | 0 <= q < j :: dp[i, q] == Distance(a[..i], b[..q])
      {
        var cost := if a[i - 1] == b[j - 1] then 0 else 1;
        DistanceRecurrence(a[..i], b[..j]);
        assert Init(a[..i]) == a[..i - 1] && Init(b[..j]) == b[..j - 1];
        dp[i, j] := Min(Min(dp[i - 1, j] + 1, dp[i, j - 1] + 1), dp[i - 1, j - 1] + cost);
      }
    }
    d := dp[m, n];
    assert a[..m] == a && b[..n] == b;
    var s := CheapestScript(a, b);
    forall s: Script | Transforms(s, a, b)
      ensures d <= Cost(s)
    {
      NoCheaperScript(s);
    }
  }

  /** Candidate `k` is within the cap, nearer than every earlier one and no farther than any later one. */
  ghost predicate IsFirstLeast(target: string, candidates: seq<string>, maxDist: nat, k: nat)
    requires k < |candidates|
  {
    var d := Distance(target, candidates[k]);
    && d <= maxDist
    && (forall i | 0 <= i < k :: Distance(target, candidates[i]) > d)
    && (forall i | k < i < |candidates| :: Distance(target, candidates[i]) >= d)
  }

  /** `r` is the first of the candidates at the least distance from `target`, if that is within the cap. */
  ghost predicate IsClosest(target: string, candidates: seq<string>, maxDist: nat, r: Option<string>) {
    match r
    case None => forall c | c in candidates :: Distance(target, c) > maxDist
    case Some(name) =>
      exists k | 0 <= k < |candidates| :: candidates[k] == name && IsFirstLeast(target, candidates, maxDist, k)
  }

  method Closest(target: string, candidates: seq<string>, maxDist: nat) returns (r: Option<string>)
    ensures IsClosest(target, candidates, maxDist, r)
  {
    hide Distance;
    var best: Option<(string, nat)> := None;
    ghost var at := 0;
    for i := 0 to |candidates|
      invariant best.None? ==> forall k | 0 <= k < i :: Distance(target, candidates[k]) > maxDist
      invariant best.Some? ==>
          && 0 <= at < i && candidates[at] == best.value.0
          && best.value.1 == Distance(target, candidates[at]) <= maxDist
          && (forall k | 0 <= k < at :: Distance(target, candidates[k]) > best.value.1)
          && (forall k | at < k < i :: Distance(target, candidates[k]) >= best.value.1)
    {
      var c := candidates[i];
      var d := Levenshtein(target, c);
      if d <= maxDist && (best.None? || d < best.value.1) {
        best := Some((c, d));
        at := i;
      }
    }
    if best.Some? {
      assert IsFirstLeast(target, candidates, maxDist, at);
      r := Some(best.value.0);
    } else {
      r := None;
    }
  }

  /** The suggestion is a function of the inputs: two closest names are the same name. */
  lemma ClosestIsUnique(target: string, candidates: seq<string>, maxDist: nat, r: Option<string>, r': Option<string>)
    requires IsClosest(target, candidates, maxDist, r)
    requires IsClosest(target, candidates, maxDist, r')
    ensures r == r'
  {
    hide Distance;
    if r.Some? && r'.Some? {
      var k :| 0 <= k < |candidates| && candidates[k] == r.value && IsFirstLeast(target, candidates, maxDist, k);
      var k' :| 0 <= k' < |candidates| && candidates[k'] == r'.value && IsFirstLeast(target, candidates, maxDist, k');
      assert k == k';
    }
  }

  // ---------------------------------------------------------------------------------------------
  // Walking a pack
  // ---------------------------------------------------------------------------------------------

  /** A rule either carries a process of calls or is a destination check, which has none. */
  datatype Rule = TrackCheck(id: string, calls: seq<string>) | DestinationCheck(id: string)
  datatype Skill = Skill(name: string, rules: seq<Rule>)
  datatype Pack = Pack(name: string, skills: seq<Skill>)

  datatype Issue = Issue(
    pack: string, skill: string, ruleId: string, step: nat, missing: string, suggestion: Option<string>)

  /** The issue reports the call at position `(s, r, i)` of the pack, and suggests the nearest known name. */
  ghost predicate Reports(issue: Issue, pack: Pack, known: seq<string>, s: nat, r: nat, i: nat) {
    && s < |pack.skills| && r < |pack.skills[s].rules|
    && pack.skills[s].rules[r].TrackCheck? && i < |pack.skills[s].rules[r].calls|
    && issue.pack == pack.name
    && issue.skill == pack.skills[s].name
    && issue.ruleId == pack.skills[s].rules[r].id
    && issue.step == i
    && issue.missing == pack.skills[s].rules[r].calls[i]
    && issue.missing !in known
    && IsClosest(issue.missing, known, 2, issue.suggestion)
  }

  /** Position order: skill, then rule, then step. */
  predicate Before(x: (nat, nat, nat), y: (nat, nat, nat)) {
    x.0 < y.0 || (x.0 == y.0 && (x.1 < y.1 || (x.1 == y.1 && x.2 < y.2)))
  }

  /** Position `(s, r, i)` is an unknown call. */
  predicate UnknownAt(pack: Pack, known: seq<string>, p: (nat, nat, nat)) {
    && p.0 < |pack.skills| && p.1 < |pack.skills[p.0].rules|
    && pack.skills[p.0].rules[p.1].TrackCheck? && p.2 < |pack.skills[p.0].rules[p.1].calls|
    && pack.skills[p.0].rules[p.1].calls[p.2] !in known
  }

  /** `at[k]` is where issue `k` was found; together they are the unknown calls before `bound`, in order. */
  ghost predicate Covers(
    issues: seq<Issue>, at: seq<(nat, nat, nat)>, pack: Pack, known: seq<string>, bound: (nat, nat, nat))
  {
    && |issues| == |at|
    && (forall k | 0 <= k < |at| ::
          Reports(issues[k], pack, known, at[k].0, at[k].1, at[k].2) && Before(at[k], bound))
    && (forall k, l | 0 <= k < l < |at| :: Before(at[k], at[l]))
    && (forall p | UnknownAt(pack, known, p) && Before(p, bound) :: p in at)
  }

  /** Reports every unknown call once, in document order, without stopping at the first. */
  method ValidatePackFunctions(pack: Pack, known: seq<string>)
      returns (issues: seq<Issue>, ghost at: seq<(nat, nat, nat)>)
    ensures Covers(issues, at, pack, known, (|pack.skills|, 0, 0))
    ensures issues == [] <==> forall p :: !UnknownAt(pack, known, p)
  {
    hide Distance, IsClosest;
    issues, at := [], [];
    for s := 0 to |pack.skills|
      invariant Covers(issues, at, pack, known, (s, 0, 0))
    {
      var skill := pack.skills[s];
      for r := 0 to |skill.rules|
        invariant Covers(issues, at, pack, known, (s, r, 0))
      {
        if skill.rules[r].DestinationCheck? { continue; }
        var calls := skill.rules[r].calls;
        for i := 0 to |calls|
          invariant Covers(issues, at, pack, known, (s, r, i))
        {
          if calls[i] !in known {
            var suggestion := Closest(calls[i], known, 2);
            issues := issues + [Issue(pack.name, skill.name, skill.rules[r].id, i, calls[i], suggestion)];
            at := at + [(s, r, i)];
          }
        }
      }
    }
    if issues == [] {
      forall p ensures !UnknownAt(pack, known, p) {}
    } else {
      assert UnknownAt(pack, known, at[0]);
    }
  }
}
