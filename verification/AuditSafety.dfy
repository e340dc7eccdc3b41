/** Provenance of audit verdicts, over every run. */
module AuditSafety {
  import opened Wrappers
  import opened Text
  import opened Utf8
  import opened AuditTypes
  import opened AuditIdentity
  import opened AuditEvidence
  import opened CachedAudit
  import opened AuditRuns

  // ---------------------------------------------------------------------------------------------
  // One step
  // ---------------------------------------------------------------------------------------------

  /** Whatever happens during a call, the store holds nothing that no review said. */
  lemma {:induction false} StepKeepsBacked(s: Store, c: Call, w: World, log: set<Evidence>)
    requires IsCall(c) && IsStoreBacked(s, log)
    ensures IsStoreBacked(Step(s, c, w).store, log + Gathered(c, w, Step(s, c, w).started))
  {
    hide TruncateUtf8, FanoutEntry, StartedBy, IsExactHit, Aggregate, IsEntry, IsBacked, IsStoreBacked, CandidatesOf,
      Push, Contains, DeclarationHash, SubjectHash, Gathered;
    var e := Step(s, c, w);
    var more := log + Gathered(c, w, e.started);
    var found := CandidatesOf(s, c, w);
    StoreBackedByMore(s, log, more);
    CandidatesAreBacked(s, c, w, log);
    var best := BestExact(found, DeclarationHash(DeclarationOf(c)));
    if best.Some? {
      var k :| 0 <= k < |found| && found[k] == best.value;
      assert AllBacked(found, log);
      BackedByMore(best.value, log, more);
      PushKeepsBacked(s, c.cacheKey, best.value, more);
    }
    if c.review.LensReview? {
      FanoutEntryIsBacked(s, c, w, log);
      if e.started == StartedBy(s, c, w) {
        PushKeepsBacked(s, c.cacheKey, FanoutEntry(s, c, w), more);
      }
    } else if w.promptReply.Replied? && e.started == [PROMPT_REVIEW] {
      PromptEntryIsBacked(c, w, log);
      var kept := TruncateUtf8(w.promptReply.text, MAX_RESULT_BYTES);
      var entry := Single(DeclarationHash(DeclarationOf(c)), kept, SubjectHash(c.subject));
      if IsBacked(entry, more) { PushKeepsBacked(s, c.cacheKey, entry, more); }
    }
  }

  lemma PromptEntryIsBacked(c: Call, w: World, log: set<Evidence>)
    requires c.review.PromptReview? && w.promptReply.Replied?
    ensures var kept := TruncateUtf8(w.promptReply.text, MAX_RESULT_BYTES);
            var entry := Single(DeclarationHash(DeclarationOf(c)), kept, SubjectHash(c.subject));
            IsEntry(entry) && Contains(kept, MARK) ==> IsBacked(entry, log + Gathered(c, w, [PROMPT_REVIEW]))
  {
    hide TruncateUtf8, DeclarationHash, ByteLength, IsTruncationOf;
    var text := w.promptReply.text;
    var kept := TruncateUtf8(text, MAX_RESULT_BYTES);
    TruncateBounds(text, MAX_RESULT_BYTES);
    if Contains(kept, MARK) {
      KeptMarkIsReal(text, kept);
      var ev := PromptEvidence(DeclarationOf(c), text);
      assert ev in log + Gathered(c, w, [PROMPT_REVIEW]);
      assert IsSingleOf(Single(DeclarationHash(DeclarationOf(c)), kept, SubjectHash(c.subject)), ev);
    }
  }

  /** A verdict mark that survives truncation was in the text: the cut marker holds no colon. */
  lemma KeptMarkIsReal(raw: string, out: string)
    requires IsTruncationOf(out, raw) && Contains(out, MARK)
    ensures Contains(raw, MARK)
  {
    var i :| 0 <= i <= |out| && OccursAt(out, MARK, i);
    if out == raw {
      assert OccursAt(raw, MARK, i);
    } else {
      var k :| LEAST_KEPT <= k <= |raw| && out == raw[..k] + SUFFIX;
      MarkerHasNoColon(raw[..k]);
      assert out[i + 7] == out[i..i + |MARK|][7] == ':';
      assert out[i..i + |MARK|] == raw[i..i + |MARK|];
      assert OccursAt(raw, MARK, i);
    }
  }

  lemma MarkerHasNoColon(front: string)
    ensures forall p | |front| <= p < |front + SUFFIX| :: (front + SUFFIX)[p] != ':'
  {
    assert forall p | |front| <= p < |front + SUFFIX| :: (front + SUFFIX)[p] == SUFFIX[p - |front|];
  }

  // ---------------------------------------------------------------------------------------------
  // Every run
  // ---------------------------------------------------------------------------------------------

  /** A call together with what the outside did during it. */
  datatype Event = Event(call: Call, world: World)

  ghost predicate IsRun(events: seq<Event>) {
    forall i | 0 <= i < |events| :: IsCall(events[i].call)
  }

  const EMPTY := Store(map[], map[])

  /** The store after a run. */
  ghost function RunStore(s: Store, events: seq<Event>): Store
    requires IsRun(events)
  {
    if events == [] then s
    else
      var last := events[|events| - 1];
      Step(RunStore(s, events[..|events| - 1]), last.call, last.world).store
  }

  /** The reviews accepted during a run. */
  ghost function RunLog(s: Store, events: seq<Event>): set<Evidence>
    requires IsRun(events)
  {
    if events == [] then {}
    else
      var k := |events| - 1;
      RunLog(s, events[..k])
      + Gathered(events[k].call, events[k].world,
                 Step(RunStore(s, events[..k]), events[k].call, events[k].world).started)
  }

  /** Over every run from an empty task, everything stored is backed by a review accepted in that run. */
  lemma {:induction false} ReachableStoreIsBacked(events: seq<Event>)
    requires IsRun(events)
    ensures IsStoreBacked(RunStore(EMPTY, events), RunLog(EMPTY, events))
    decreases |events|
  {
    if events != [] {
      var k := |events| - 1;
      ReachableStoreIsBacked(events[..k]);
      StepKeepsBacked(RunStore(EMPTY, events[..k]), events[k].call, events[k].world, RunLog(EMPTY, events[..k]));
    }
  }

  /** The model gave this reply, with a verdict mark, when asked by event `k` for exactly this policy and subject. */
  ghost predicate IsReplyAt(ev: Evidence, events: seq<Event>, k: nat) {
    && k < |events|
    && match ev
       case LensEvidence(policy, subject, raw) =>
         && events[k].call.review.LensReview?
         && policy.lens in events[k].call.review.lenses
         && policy == PolicyOf(events[k].call, policy.lens)
         && subject == events[k].call.subject
         && events[k].world.lensReply(policy.lens) == Replied(raw) && Contains(raw, MARK)
       case PromptEvidence(d, raw) =>
         && d == DeclarationOf(events[k].call) && d.review.PromptReview?
         && events[k].world.promptReply == Replied(raw) && Contains(raw, MARK)
  }

  /** The log holds real replies only. */
  lemma {:induction false} EvidenceIsAReply(s: Store, events: seq<Event>, ev: Evidence) returns (k: nat)
    requires IsRun(events) && ev in RunLog(s, events)
    ensures IsReplyAt(ev, events, k)
    decreases |events|
  {
    hide Step, Contains;
    var n := |events| - 1;
    if ev in RunLog(s, events[..n]) {
      k := EvidenceIsAReply(s, events[..n], ev);
      assert events[..n][k] == events[k];
    } else {
      k := n;
    }
  }

  // ---------------------------------------------------------------------------------------------
  // Verdicts
  // ---------------------------------------------------------------------------------------------

  /** `ev` was accepted for exactly the policy of `lens` under this call and for exactly its subject. */
  ghost predicate IsExactEvidence(v: LensVerdict, c: Call, lens: Lens, ev: Evidence) {
    && ev.LensEvidence?
    && ev.policy == PolicyOf(c, lens)
    && ev.subject == c.subject
    && v.id == lens.id
    && IsTruncationOf(v.output, ev.raw)
  }

  ghost predicate HasExactEvidence(v: LensVerdict, c: Call, lens: Lens, log: set<Evidence>) {
    exists ev | ev in log :: IsExactEvidence(v, c, lens, ev)
  }

  /** One output per declared lens, in declaration order, each from an exact review in the log. */
  ghost predicate IsProvenance(outputs: seq<LensVerdict>, c: Call, log: set<Evidence>)
    requires c.review.LensReview?
  {
    && |outputs| == |c.review.lenses|
    && forall i | 0 <= i < |outputs| :: HasExactEvidence(outputs[i], c, c.review.lenses[i], log)
  }

  lemma SameSubject(a: Option<string>, b: Option<string>)
    requires SubjectHash(a) == SubjectHash(b)
    ensures a == b
  {
  }

  lemma ExactFromHash(v: LensVerdict, c: Call, lens: Lens, log: set<Evidence>)
    requires v.promptHash == LensPolicyHash(PolicyOf(c, lens))
    requires HasEvidence(v, SubjectHash(c.subject), log)
    ensures HasExactEvidence(v, c, lens, log)
  {
    hide SubjectHash, IsTruncationOf, LensPolicyHash;
    var ev :| ev in log && IsBackedBy(v, SubjectHash(c.subject), ev);
    LensPolicyHashIsExact(ev.policy, PolicyOf(c, lens));
    SameSubject(ev.subject, c.subject);
    assert IsExactEvidence(v, c, lens, ev);
  }

  /** A complete backed entry under the hash of a call is that call's own evidence, lens by lens. */
  lemma {:induction false} CompleteEntryIsProvenance(e: Entry, c: Call, log: set<Evidence>)
    requires IsCall(c) && c.review.LensReview?
    requires IsBacked(e, log) && e.Fanout? && e.complete && e.hash == DeclarationHash(DeclarationOf(c))
    ensures IsProvenance(e.lenses, c, log) && IsSoundSet(e.lenses) && IsExactHit(e, c)
    ensures e.passVerdict == c.passVerdict && e.failVerdict == c.failVerdict
  {
    hide LensPolicyHash, DeclarationHash, SubjectHash, HasEvidence, TotalBytes, IsLensId, IsLensSet, IsVerdictToken;
    var d :| IsFanoutOf(e, d);
    DeclarationHashIsExact(d, DeclarationOf(c));
    forall i | 0 <= i < |e.lenses|
      ensures HasExactEvidence(e.lenses[i], c, c.review.lenses[i], log)
    {
      assert HasEvidence(e.lenses[i], e.subjectHash, log);
      ExactFromHash(e.lenses[i], c, c.review.lenses[i], log);
    }
    var ids := EvidenceIds(e.lenses, e.failures);
    assert forall i | 0 <= i < |e.lenses| :: ids[i] == e.lenses[i].id;
  }

  /**
    Every `ok` verdict of a lens-mode call aggregates exactly one output per declared lens, in
    declaration order, each a bounded truncation of a review accepted for that lens policy and that
    subject: evidence never crosses policies or artifacts, whether it was fetched now or reused.
  */
  lemma {:induction false} OkVerdictIsBacked(s: Store, c: Call, w: World, log: set<Evidence>)
      returns (outputs: seq<LensVerdict>)
    requires IsCall(c) && c.review.LensReview? && IsStoreBacked(s, log)
    requires Step(s, c, w).result.Ok?
    ensures IsProvenance(outputs, c, log + Gathered(c, w, Step(s, c, w).started))
    ensures IsSoundSet(outputs)
    ensures Step(s, c, w).result.value == Aggregate(outputs, c.passVerdict, c.failVerdict)
  {
    hide FanoutEntry, StartedBy, IsExactHit, Aggregate, IsEntry, IsBacked, IsStoreBacked, CandidatesOf, Push,
      DeclarationHash, SubjectHash, Gathered, IsSoundSet, IsProvenance, ByteLength;
    var more := log + Gathered(c, w, Step(s, c, w).started);
    var found := CandidatesOf(s, c, w);
    CandidatesAreBacked(s, c, w, log);
    var best := BestExact(found, DeclarationHash(DeclarationOf(c)));
    if best.Some? && IsExactHit(best.value, c) {
      var k :| 0 <= k < |found| && found[k] == best.value;
      assert AllBacked(found, log);
      BackedByMore(best.value, log, more);
      HitIsComplete(best.value, c);
      CompleteEntryIsProvenance(best.value, c, more);
      outputs := best.value.lenses;
    } else {
      FanoutEntryIsBacked(s, c, w, log);
      var entry := FanoutEntry(s, c, w);
      EntryHash(s, c, w);
      CompleteEntryIsProvenance(entry, c, more);
      outputs := entry.lenses;
      AggregateFits(outputs, c.passVerdict, c.failVerdict);
    }
  }

  lemma HitIsComplete(e: Entry, c: Call)
    requires c.review.LensReview? && IsExactHit(e, c)
    ensures e.Fanout? && e.complete
  {
  }

  lemma EntryHash(s: Store, c: Call, w: World)
    requires c.review.LensReview? && |c.review.lenses| > 0
    ensures FanoutEntry(s, c, w).Fanout? && FanoutEntry(s, c, w).hash == DeclarationHash(DeclarationOf(c))
  {
  }

  /** The same over every run: the reviews behind the verdict were all given to calls of this task. */
  lemma {:induction false} OkVerdictOverRuns(events: seq<Event>, c: Call, w: World) returns (outputs: seq<LensVerdict>)
    requires IsRun(events + [Event(c, w)]) && IsCall(c) && c.review.LensReview?
    requires IsRun(events) && Step(RunStore(EMPTY, events), c, w).result.Ok?
    ensures Step(RunStore(EMPTY, events), c, w).result.value == Aggregate(outputs, c.passVerdict, c.failVerdict)
    ensures IsProvenance(outputs, c, RunLog(EMPTY, events + [Event(c, w)]))
  {
    hide Step, IsProvenance, IsStoreBacked, Aggregate, Gathered;
    ReachableStoreIsBacked(events);
    outputs := OkVerdictIsBacked(RunStore(EMPTY, events), c, w, RunLog(EMPTY, events));
    assert (events + [Event(c, w)])[..|events|] == events;
  }

  /**
    A pass is never manufactured: when the verdict's first line is the pass line, every declared
    reviewer's own reply, as the model gave it, had exactly that first line.
  */
  lemma {:induction false} PassMeansEveryReviewerPassed(s: Store, c: Call, w: World, log: set<Evidence>, i: nat)
      returns (ev: Evidence)
    requires IsCall(c) && c.review.LensReview? && IsStoreBacked(s, log)
    requires Step(s, c, w).result.Ok? && i < |c.review.lenses|
    requires FirstLine(Step(s, c, w).result.value) == VerdictLine(c.passVerdict)
    ensures ev in log + Gathered(c, w, Step(s, c, w).started)
    ensures ev.LensEvidence? && ev.policy == PolicyOf(c, c.review.lenses[i]) && ev.subject == c.subject
    ensures FirstLine(ev.raw) == VerdictLine(c.passVerdict)
  {
    hide Step, IsStoreBacked, Aggregate, Gathered, FirstLine, IsSoundSet;
    var outputs := OkVerdictIsBacked(s, c, w, log);
    AggregatePassesIff(outputs, c.passVerdict, c.failVerdict);
    assert HasExactEvidence(outputs[i], c, c.review.lenses[i], log + Gathered(c, w, Step(s, c, w).started));
    ev :| ev in log + Gathered(c, w, Step(s, c, w).started)
      && IsExactEvidence(outputs[i], c, c.review.lenses[i], ev);
    VerdictLineIsPlain(c.passVerdict);
    TruncationKeepsFirstLine(ev.raw, outputs[i].output, VerdictLine(c.passVerdict));
  }
}
