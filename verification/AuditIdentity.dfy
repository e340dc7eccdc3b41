/**
  The two content hashes of the audit cache (src/functions/cached_audit.ts). The hashed text is modelled
  down to its characters; SHA-256 itself is taken to be injective.
*/
module AuditIdentity {
  import opened Wrappers
  import opened AuditTypes
  import opened Json

  /** A digest, known by what was hashed. */
  datatype Digest = Sha256(input: Hashed)

  /** Either a plain text, or the two-field object that binds an identity to its subject's digest. */
  datatype Hashed = Text(text: string) | Bound(identity: string, subjectHash: Digest)

  function HashText(text: string): Digest {
    Sha256(Text(text))
  }

  /** One lens under one verdict policy: everything that may change what its reviewer is asked or accepted for. */
  datatype LensPolicy = LensPolicy(
    model: string, lens: Lens, passVerdict: string, failVerdict: string, timeoutMs: Option<nat>)

  datatype Review = PromptReview(prompt: string) | LensReview(lenses: seq<Lens>)

  datatype Declaration = Declaration(
    model: string,
    review: Review,
    passVerdict: string,
    failVerdict: string,
    timeoutMs: Option<nat>,
    subject: Option<string>)

  function Strings(s: seq<string>): (items: seq<Json>)
    ensures |items| == |s| && forall i | 0 <= i < |s| :: items[i] == Str(s[i])
  {
    seq(|s|, i requires 0 <= i < |s| => Str(s[i]))
  }

  /** An absent field is left out of the object. */
  function CriteriaField(criteria: Option<seq<string>>): seq<Member> {
    if criteria.Some? then [Member("criteria", Arr(Strings(criteria.value)))] else []
  }

  function TimeoutField(key: string, timeoutMs: Option<nat>): seq<Member> {
    if timeoutMs.Some? then [Member(key, Num(timeoutMs.value))] else []
  }

  function LensPolicyJson(p: LensPolicy): Json {
    Obj([Member("model", Str(p.model)), Member("id", Str(p.lens.id)), Member("prompt", Str(p.lens.prompt))]
        + (CriteriaField(p.lens.criteria)
           + ([Member("passVerdict", Str(p.passVerdict)), Member("failVerdict", Str(p.failVerdict))]
              + TimeoutField("timeoutMs", p.timeoutMs))))
  }

  function LensPolicyHash(p: LensPolicy): Digest {
    HashText(Stringify(LensPolicyJson(p)))
  }

  function LensJson(lens: Lens): Json {
    Obj([Member("id", Str(lens.id)), Member("prompt", Str(lens.prompt))] + CriteriaField(lens.criteria))
  }

  function LensesJson(lenses: seq<Lens>): (items: seq<Json>)
    ensures |items| == |lenses| && forall i | 0 <= i < |lenses| :: items[i] == LensJson(lenses[i])
  {
    seq(|lenses|, i requires 0 <= i < |lenses| => LensJson(lenses[i]))
  }

  function ReviewFields(model: string, review: Review): seq<Member> {
    match review
    case LensReview(lenses) =>
      [Member("mode", Str("lenses")), Member("model", Str(model)), Member("lenses", Arr(LensesJson(lenses)))]
    case PromptReview(prompt) =>
      [Member("mode", Str("prompt")), Member("model", Str(model)), Member("prompt", Str(prompt))]
  }

  /** The identity text of a declaration, without its subject. */
  function IdentityJson(d: Declaration): Json {
    Obj(ReviewFields(d.model, d.review)
        + ([Member("pass_verdict", Str(d.passVerdict)), Member("fail_verdict", Str(d.failVerdict))]
           + TimeoutField("timeout_ms", d.timeoutMs)))
  }

  function SubjectHash(subject: Option<string>): Option<Digest> {
    if subject.Some? then Some(HashText(subject.value)) else None
  }

  function DeclarationHash(d: Declaration): Digest {
    var identity := Stringify(IdentityJson(d));
    match SubjectHash(d.subject)
    case None => HashText(identity)
    case Some(subjectHash) => Sha256(Bound(identity, subjectHash))
  }

  // ---------------------------------------------------------------------------------------------
  // A hash is an exact identity
  // ---------------------------------------------------------------------------------------------

  lemma SplitFields(a: seq<Member>, b: seq<Member>, x: seq<Member>, y: seq<Member>)
    requires |a| == |b| && a + x == b + y
    ensures a == b && x == y
  {
    assert a == (a + x)[..|a|] && b == (b + y)[..|b|];
    assert x == (a + x)[|a|..] && y == (b + y)[|b|..];
  }

  lemma SameStrings(s: seq<string>, t: seq<string>)
    requires Strings(s) == Strings(t)
    ensures s == t
  {
    assert |Strings(s)| == |Strings(t)|;
    forall i | 0 <= i < |s| ensures s[i] == t[i] {
      assert Strings(s)[i] == Strings(t)[i];
    }
  }

  lemma SameCriteria(c: Option<seq<string>>, d: Option<seq<string>>, x: seq<Member>, y: seq<Member>)
    requires CriteriaField(c) + x == CriteriaField(d) + y
    requires x != [] ==> x[0].key != "criteria"
    requires y != [] ==> y[0].key != "criteria"
    ensures c == d && x == y
  {
    var l, r := CriteriaField(c) + x, CriteriaField(d) + y;
    assert c.Some? ==> l[0].key == "criteria";
    assert d.Some? ==> r[0].key == "criteria";
    assert c.None? ==> l == x;
    assert d.None? ==> r == y;
    SplitFields(CriteriaField(c), CriteriaField(d), x, y);
    if c.Some? {
      assert CriteriaField(c)[0] == CriteriaField(d)[0];
      SameStrings(c.value, d.value);
    }
  }

  lemma SameTimeout(key: string, t: Option<nat>, u: Option<nat>)
    requires TimeoutField(key, t) == TimeoutField(key, u)
    ensures t == u
  {
    if t.Some? && u.Some? { assert TimeoutField(key, t)[0] == TimeoutField(key, u)[0]; }
  }

  lemma SameVerdictFields(passKey: string, failKey: string, timeKey: string,
                          p: string, f: string, t: Option<nat>, p': string, f': string, t': Option<nat>)
    requires [Member(passKey, Str(p)), Member(failKey, Str(f))] + TimeoutField(timeKey, t)
          == [Member(passKey, Str(p')), Member(failKey, Str(f'))] + TimeoutField(timeKey, t')
    ensures p == p' && f == f' && t == t'
  {
    var a, b := [Member(passKey, Str(p)), Member(failKey, Str(f))], [Member(passKey, Str(p')), Member(failKey, Str(f'))];
    SplitFields(a, b, TimeoutField(timeKey, t), TimeoutField(timeKey, t'));
    assert a[0] == b[0] && a[1] == b[1];
    SameTimeout(timeKey, t, t');
  }

  /** Two lens policies share a hash only when they agree on every field that reaches the reviewer. */
  lemma {:induction false} LensPolicyHashIsExact(p: LensPolicy, q: LensPolicy)
    ensures LensPolicyHash(p) == LensPolicyHash(q) <==> p == q
  {
    if LensPolicyHash(p) == LensPolicyHash(q) {
      hide Stringify, CriteriaField, TimeoutField;
      StringifyInjective(LensPolicyJson(p), LensPolicyJson(q));
      var a := [Member("model", Str(p.model)), Member("id", Str(p.lens.id)), Member("prompt", Str(p.lens.prompt))];
      var b := [Member("model", Str(q.model)), Member("id", Str(q.lens.id)), Member("prompt", Str(q.lens.prompt))];
      var x := [Member("passVerdict", Str(p.passVerdict)), Member("failVerdict", Str(p.failVerdict))]
        + TimeoutField("timeoutMs", p.timeoutMs);
      var y := [Member("passVerdict", Str(q.passVerdict)), Member("failVerdict", Str(q.failVerdict))]
        + TimeoutField("timeoutMs", q.timeoutMs);
      SplitFields(a, b, CriteriaField(p.lens.criteria) + x, CriteriaField(q.lens.criteria) + y);
      assert a[0] == b[0] && a[1] == b[1] && a[2] == b[2];
      DifferentFirstLetter();
      assert x[0].key == "passVerdict" && y[0].key == "passVerdict";
      SameCriteria(p.lens.criteria, q.lens.criteria, x, y);
      SameVerdictFields("passVerdict", "failVerdict", "timeoutMs",
                        p.passVerdict, p.failVerdict, p.timeoutMs, q.passVerdict, q.failVerdict, q.timeoutMs);
    }
  }

  lemma DifferentFirstLetter()
    ensures "passVerdict" != "criteria" && "lenses" != "prompt"
  {
    assert "passVerdict"[0] != "criteria"[0] && "lenses"[0] != "prompt"[0];
  }

  lemma SameLens(l: Lens, m: Lens)
    requires LensJson(l) == LensJson(m)
    ensures l == m
  {
    hide CriteriaField;
    var a := [Member("id", Str(l.id)), Member("prompt", Str(l.prompt))];
    var b := [Member("id", Str(m.id)), Member("prompt", Str(m.prompt))];
    SplitFields(a, b, CriteriaField(l.criteria), CriteriaField(m.criteria));
    assert a[0] == b[0] && a[1] == b[1];
    assert CriteriaField(l.criteria) + [] == CriteriaField(l.criteria);
    assert CriteriaField(m.criteria) + [] == CriteriaField(m.criteria);
    SameCriteria(l.criteria, m.criteria, [], []);
  }

  lemma SameLenses(s: seq<Lens>, t: seq<Lens>)
    requires LensesJson(s) == LensesJson(t)
    ensures s == t
  {
    hide LensJson;
    assert |LensesJson(s)| == |LensesJson(t)|;
    forall i | 0 <= i < |s| ensures s[i] == t[i] {
      assert LensesJson(s)[i] == LensesJson(t)[i];
      SameLens(s[i], t[i]);
    }
  }

  lemma SameReview(m: string, r: Review, m': string, r': Review)
    requires ReviewFields(m, r) == ReviewFields(m', r')
    ensures m == m' && r == r'
  {
    hide LensesJson;
    var a, b := ReviewFields(m, r), ReviewFields(m', r');
    assert a[0] == b[0] && a[1] == b[1] && a[2] == b[2];
    DifferentFirstLetter();
    if r.LensReview? { SameLenses(r.lenses, r'.lenses); }
  }

  /** Two declarations share a hash only when they are the same declaration of the same subject, in the same mode. */
  lemma {:induction false} DeclarationHashIsExact(d: Declaration, e: Declaration)
    ensures DeclarationHash(d) == DeclarationHash(e) <==> d == e
  {
    if DeclarationHash(d) == DeclarationHash(e) {
      hide Stringify, ReviewFields, TimeoutField;
      StringifyInjective(IdentityJson(d), IdentityJson(e));
      ReviewFieldCount(d.model, d.review);
      ReviewFieldCount(e.model, e.review);
      SplitFields(
        ReviewFields(d.model, d.review), ReviewFields(e.model, e.review),
        [Member("pass_verdict", Str(d.passVerdict)), Member("fail_verdict", Str(d.failVerdict))]
        + TimeoutField("timeout_ms", d.timeoutMs),
        [Member("pass_verdict", Str(e.passVerdict)), Member("fail_verdict", Str(e.failVerdict))]
        + TimeoutField("timeout_ms", e.timeoutMs));
      SameReview(d.model, d.review, e.model, e.review);
      SameVerdictFields("pass_verdict", "fail_verdict", "timeout_ms",
                        d.passVerdict, d.failVerdict, d.timeoutMs, e.passVerdict, e.failVerdict, e.timeoutMs);
    }
  }

  lemma ReviewFieldCount(model: string, review: Review)
    ensures |ReviewFields(model, review)| == 3
  {
  }
}
