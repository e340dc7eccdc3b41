/** No review is paid for twice: what the audit cache remembers across retries, changed policies and runs. */
module AuditProgress {
  import opened Wrappers
  import Text
  import opened Utf8
  import opened AuditTypes
  import opened AuditIdentity
  import opened AuditEvidence
  import opened AuditFanout
  import opened CachedAudit
  import opened AuditRuns
  import opened AuditSafety

  /** The entry holds a completed review of this policy for this subject. */
  ghost predicate EntryHolds(e: Entry, policy: LensPolicy, subject: Option<string>) {
    && e.Fanout? && e.subjectHash == SubjectHash(subject)
    && exists i | 0 <= i < |e.lenses| ::
         e.lenses[i].id == policy.lens.id && e.lenses[i].promptHash == LensPolicyHash(policy)
  }

  /** The lens is completed for the subject: some attempt that a call would read holds it. */
  ghost predicate IsCompleted(s: Store, key: string, policy: LensPolicy, subject: Option<string>) {
    exists i | 0 <= i < |Visible(s, key, true)| :: EntryHolds(Visible(s, key, true)[i], policy, subject)
  }

  lemma {:induction false} PriorMapHas(
    lenses: seq<Lens>, entries: seq<Entry>, hash: Lens -> Digest, limit: nat, i: nat)
    requires UniqueIds(lenses) && i < |lenses|
    ensures lenses[i].id in PriorMap(lenses, entries, hash, limit) <==>
            PriorLens(entries, lenses[i].id, hash(lenses[i])).Some?
    ensures lenses[i].id in PriorMap(lenses, entries, hash, limit) ==>
            PriorMap(lenses, entries, hash, limit)[lenses[i].id].promptHash == hash(lenses[i])
    decreases |lenses|
  {
    hide TruncateUtf8;
    var front := lenses[..|lenses| - 1];
    forall k | 0 <= k < |front| ensures front[k].id != lenses[|front|].id {
      assert lenses[k].id != lenses[|front|].id;
    }
    if i < |front| {
      PriorMapHas(front, entries, hash, limit, i);
    } else if lenses[i].id in PriorMap(front, entries, hash, limit) {
      var _ := PriorComesFrom(front, entries, hash, limit, lenses[i].id);
    }
  }

  lemma {:induction false} PriorComesFrom(
    lenses: seq<Lens>, entries: seq<Entry>, hash: Lens -> Digest, limit: nat, id: string) returns (k: nat)
    requires id in PriorMap(lenses, entries, hash, limit)
    ensures k < |lenses| && lenses[k].id == id
    decreases |lenses|
  {
    hide TruncateUtf8;
    k := |lenses| - 1;
    if id != lenses[k].id {
      k := PriorComesFrom(lenses[..k], entries, hash, limit, id);
    }
  }

  lemma CompletedIsPrior(s: Store, c: Call, w: World, lens: Lens)
    requires w.readable && IsCompleted(s, c.cacheKey, PolicyOf(c, lens), c.subject)
    ensures PriorLens(CandidatesOf(s, c, w), lens.id, LensHash(c)(lens)).Some?
  {
    hide LensPolicyHash, SubjectHash;
    var visible, found := Visible(s, c.cacheKey, true), CandidatesOf(s, c, w);
    var i :| 0 <= i < |visible| && EntryHolds(visible[i], PolicyOf(c, lens), c.subject);
    assert visible[i] in found;
    var k :| 0 <= k < |found| && found[k] == visible[i];
    var j :| 0 <= j < |visible[i].lenses| && visible[i].lenses[j].id == lens.id
      && visible[i].lenses[j].promptHash == LensPolicyHash(PolicyOf(c, lens));
    assert visible[i].lenses[j] in found[k].lenses;
  }

  lemma CompletedIsReused(s: Store, c: Call, w: World, i: nat)
    requires IsCall(c) && c.review.LensReview? && i < |c.review.lenses| && w.readable
    requires IsCompleted(s, c.cacheKey, PolicyOf(c, c.review.lenses[i]), c.subject)
    ensures IsReused(c.review.lenses[i],
                     PriorMap(c.review.lenses, CandidatesOf(s, c, w), LensHash(c), PerLensLimit(|c.review.lenses|)),
                     LensHash(c))
  {
    hide LensPolicyHash, SubjectHash, IsCompleted, PriorMap, IsLens, CandidatesOf;
    CompletedIsPrior(s, c, w, c.review.lenses[i]);
    PriorMapHas(c.review.lenses, CandidatesOf(s, c, w), LensHash(c), PerLensLimit(|c.review.lenses|), i);
  }

  /** A lens completed for a policy and a subject is not reviewed again by a call that can read the store. */
  lemma {:induction false} NoSecondReview(s: Store, c: Call, w: World, i: nat)
    requires IsCall(c) && c.review.LensReview? && i < |c.review.lenses| && w.readable
    requires IsCompleted(s, c.cacheKey, PolicyOf(c, c.review.lenses[i]), c.subject)
    ensures c.review.lenses[i].id !in Step(s, c, w).started
  {
    hide FanoutEntry, IsExactHit, Aggregate, IsEntry, CandidatesOf, Push, DeclarationHash, IsCompleted, PriorMap, IsLens,
      Started, TruncateUtf8, IsReused, BestExact;
    CompletedIsReused(s, c, w, i);
    StartedIff(c.review.lenses,
               PriorMap(c.review.lenses, CandidatesOf(s, c, w), LensHash(c), PerLensLimit(|c.review.lenses|)),
               LensHash(c), i);
  }

  // ---------------------------------------------------------------------------------------------
  // What a call writes
  // ---------------------------------------------------------------------------------------------

  /** The entry a call adds to the history of its key, if it adds one. */
  ghost function Written(s: Store, c: Call, w: World): Option<Entry>
    requires IsCall(c)
  {
    var best := BestExact(CandidatesOf(s, c, w), DeclarationHash(DeclarationOf(c)));
    if !w.lockGranted || !w.writable then None
    else
      match c.review
      case LensReview(_) =>
        if best.Some? && IsExactHit(best.value, c) then (if IsEntry(best.value) then best else None)
        else if w.configLoads && w.modelKnown && w.admitted && IsEntry(FanoutEntry(s, c, w))
        then Some(FanoutEntry(s, c, w))
        else None
      case PromptReview(_) =>
        if best.Some? && best.value.Single? && best.value.verdict != ""
        then (if IsEntry(best.value) then best else None)
        else if w.configLoads && w.modelKnown && w.promptReply.Replied? then
          var kept := TruncateUtf8(w.promptReply.text, MAX_RESULT_BYTES);
          var entry := Single(DeclarationHash(DeclarationOf(c)), kept, SubjectHash(c.subject));
          if Text.Contains(kept, MARK) && IsEntry(entry) then Some(entry) else None
        else None
  }

  /** A step changes the store by that entry and nothing else. */
  lemma {:induction false} StepWrites(s: Store, c: Call, w: World)
    requires IsCall(c)
    ensures Step(s, c, w).store ==
            match Written(s, c, w)
            case None => s
            case Some(e) => Push(s, c.cacheKey, e)
  {
    hide FanoutEntry, StartedBy, IsExactHit, Aggregate, IsEntry, CandidatesOf, Push, DeclarationHash, TruncateUtf8,
      Text.Contains, BestExact, SubjectHash;
  }

  lemma FoundInCompleted(c: Call, w: World, cached: Cache, limit: nat, i: nat)
    requires c.review.LensReview? && i < |c.review.lenses|
    requires forall id | id in cached :: cached[id].id == id
    requires Succeeds(c.review.lenses[i], cached, LensHash(c), ReviewOf(w, limit))
    ensures exists k | 0 <= k < |CompletedOf(c.review.lenses, cached, LensHash(c), ReviewOf(w, limit))| ::
              var v := CompletedOf(c.review.lenses, cached, LensHash(c), ReviewOf(w, limit))[k];
              v.id == c.review.lenses[i].id && v.promptHash == LensPolicyHash(PolicyOf(c, c.review.lenses[i]))
  {
    hide CompletedOf, FailuresOf, LensPolicyHash, TruncateUtf8;
    Partition(c.review.lenses, cached, LensHash(c), ReviewOf(w, limit), i);
  }

  /** The model answered this lens with a verdict mark during this call. */
  ghost predicate AnsweredNow(c: Call, w: World, lens: Lens) {
    w.lensReply(lens).Replied? && Text.Contains(w.lensReply(lens).text, MARK)
  }

  lemma {:induction false} PriorIdsAreOwn(lenses: seq<Lens>, entries: seq<Entry>, hash: Lens -> Digest, limit: nat)
    ensures forall id | id in PriorMap(lenses, entries, hash, limit) :: PriorMap(lenses, entries, hash, limit)[id].id == id
    decreases |lenses|
  {
    hide TruncateUtf8;
    if lenses != [] { PriorIdsAreOwn(lenses[..|lenses| - 1], entries, hash, limit); }
  }

  /**
    Partial completion is kept: whatever a persisted call already had or has just received is in the
    entry it writes, even when other lenses failed.
  */
  lemma {:induction false} CallRecords(s: Store, c: Call, w: World, i: nat)
    requires IsCall(c) && c.review.LensReview? && i < |c.review.lenses|
    requires Written(s, c, w).Some?
    requires || (w.readable && IsCompleted(s, c.cacheKey, PolicyOf(c, c.review.lenses[i]), c.subject))
             || AnsweredNow(c, w, c.review.lenses[i])
    ensures EntryHolds(Written(s, c, w).value, PolicyOf(c, c.review.lenses[i]), c.subject)
  {
    hide Aggregate, IsEntry, CandidatesOf, DeclarationHash, IsCompleted, PriorMap, IsLens, TruncateUtf8, CompletedOf,
      FailuresOf, LensPolicyHash, Text.Contains, SubjectHash;
    var lenses, hash := c.review.lenses, LensHash(c);
    var found := CandidatesOf(s, c, w);
    var best := BestExact(found, DeclarationHash(DeclarationOf(c)));
    if best.Some? && IsExactHit(best.value, c) {
      assert best.value.subjectHash == SubjectHash(c.subject) by { CandidateSubject(s, c, w, best.value); }
      assert best.value.lenses[i].id == lenses[i].id;
    } else {
      var limit := PerLensLimit(|lenses|);
      var cached := PriorMap(lenses, found, hash, limit);
      PriorIdsAreOwn(lenses, found, hash, limit);
      if w.readable && IsCompleted(s, c.cacheKey, PolicyOf(c, lenses[i]), c.subject) {
        CompletedIsReused(s, c, w, i);
      }
      FoundInCompleted(c, w, cached, limit, i);
    }
  }

  lemma CandidateSubject(s: Store, c: Call, w: World, e: Entry)
    requires e in CandidatesOf(s, c, w)
    ensures e.subjectHash == SubjectHash(c.subject)
  {
  }

  // ---------------------------------------------------------------------------------------------
  // Over runs
  // ---------------------------------------------------------------------------------------------

  /** The newest attempt holds the lens. */
  ghost predicate NewestHolds(s: Store, key: string, policy: LensPolicy, subject: Option<string>) {
    HistoryOf(s, key) != [] && EntryHolds(HistoryOf(s, key)[0], policy, subject)
  }

  lemma NewestIsCompleted(s: Store, key: string, policy: LensPolicy, subject: Option<string>)
    requires NewestHolds(s, key, policy, subject)
    ensures IsCompleted(s, key, policy, subject)
  {
    hide EntryHolds;
    assert Visible(s, key, true)[0] == HistoryOf(s, key)[0];
  }

  /** The event declares the lens under this policy for this subject and can read the store. */
  ghost predicate Declares(e: Event, policy: LensPolicy, subject: Option<string>) {
    && e.call.review.LensReview? && policy.lens in e.call.review.lenses
    && PolicyOf(e.call, policy.lens) == policy
    && e.call.subject == subject
    && e.world.readable
  }

  /** Within its own declarations, a completed lens stays completed and is kept in the newest attempt. */
  lemma {:induction false} NewestStays(s: Store, e: Event, key: string, policy: LensPolicy, subject: Option<string>)
    requires IsCall(e.call) && NewestHolds(s, key, policy, subject)
    requires e.call.cacheKey == key ==> Declares(e, policy, subject)
    ensures NewestHolds(Step(s, e.call, e.world).store, key, policy, subject)
    ensures e.call.cacheKey == key ==> policy.lens.id !in Step(s, e.call, e.world).started
  {
    hide Step, EntryHolds, IsCompleted, Written;
    StepWrites(s, e.call, e.world);
    if e.call.cacheKey == key {
      var i :| 0 <= i < |e.call.review.lenses| && e.call.review.lenses[i] == policy.lens;
      NewestIsCompleted(s, key, policy, subject);
      NoSecondReview(s, e.call, e.world, i);
      if Written(s, e.call, e.world).Some? {
        CallRecords(s, e.call, e.world, i);
      }
    }
  }

  /**
    No review is paid for twice. Once an attempt holds a lens, no call of any later run reviews it again,
    however many calls there are and whatever else they declare, fail or write, as long as the calls on
    this key keep declaring the lens for the same subject.
  */
  lemma {:induction false} NeverReviewedAgain(
    s: Store, events: seq<Event>, key: string, policy: LensPolicy, subject: Option<string>, k: nat)
    requires IsRun(events) && NewestHolds(s, key, policy, subject) && k <= |events|
    requires forall j | 0 <= j < |events| && events[j].call.cacheKey == key :: Declares(events[j], policy, subject)
    ensures NewestHolds(RunStore(s, events[..k]), key, policy, subject)
    ensures k < |events| && events[k].call.cacheKey == key ==>
            policy.lens.id !in Step(RunStore(s, events[..k]), events[k].call, events[k].world).started
    decreases k
  {
    hide Step, NewestHolds, Declares;
    if k > 0 {
      NeverReviewedAgain(s, events, key, policy, subject, k - 1);
      NewestStays(RunStore(s, events[..k - 1]), events[k - 1], key, policy, subject);
      assert events[..k][..k - 1] == events[..k - 1];
    }
    if k < |events| {
      NewestStays(RunStore(s, events[..k]), events[k], key, policy, subject);
    }
  }

  /** How many attempts a run adds to the history of a key. */
  ghost function Writes(s: Store, events: seq<Event>, key: string): nat
    requires IsRun(events)
  {
    if events == [] then 0
    else
      var k := |events| - 1;
      Writes(s, events[..k], key)
      + if events[k].call.cacheKey == key && Written(RunStore(s, events[..k]), events[k].call, events[k].world).Some?
        then 1 else 0
  }

  /** An attempt moves back by one place per later write to its key and is dropped at the hundredth. */
  lemma {:induction false} AttemptAges(s: Store, events: seq<Event>, key: string, p: nat)
    requires IsRun(events) && p < |HistoryOf(s, key)|
    requires p + Writes(s, events, key) < HISTORY_LIMIT
    ensures var q := p + Writes(s, events, key);
            q < |HistoryOf(RunStore(s, events), key)| && HistoryOf(RunStore(s, events), key)[q] == HistoryOf(s, key)[p]
    decreases |events|
  {
    hide Step, Written;
    if events != [] {
      var k := |events| - 1;
      AttemptAges(s, events[..k], key, p);
      StepWrites(RunStore(s, events[..k]), events[k].call, events[k].world);
    }
  }

  /**
    The window: whatever is called in between, a review stays usable while fewer than a hundred attempts
    have been written after it, so a readable call that declares it again does not repeat it.
  */
  lemma {:induction false} ReusableWithinTheWindow(
    s: Store, events: seq<Event>, key: string, policy: LensPolicy, subject: Option<string>, p: nat, e: Event)
    requires IsRun(events) && IsCall(e.call)
    requires p < |HistoryOf(s, key)| && EntryHolds(HistoryOf(s, key)[p], policy, subject)
    requires p + Writes(s, events, key) < HISTORY_LIMIT
    requires e.call.cacheKey == key && Declares(e, policy, subject)
    ensures policy.lens.id !in Step(RunStore(s, events), e.call, e.world).started
  {
    hide Step, EntryHolds, Writes;
    AttemptAges(s, events, key, p);
    var now := RunStore(s, events);
    var q := p + Writes(s, events, key);
    assert Visible(now, key, true)[q] == HistoryOf(now, key)[q];
    var i :| 0 <= i < |e.call.review.lenses| && e.call.review.lenses[i] == policy.lens;
    NoSecondReview(now, e.call, e.world, i);
  }

  // ---------------------------------------------------------------------------------------------
  // A full declaration is free
  // ---------------------------------------------------------------------------------------------

  /** Nothing outside goes wrong, except that the models need not answer at all. */
  ghost predicate IsHealthy(w: World) {
    w.lockGranted && w.readable && w.configLoads && w.modelKnown && w.admitted && w.writable
  }

  /** Once every lens is completed, the call makes no review and succeeds without any model. */
  lemma {:induction false} FullMeansFree(s: Store, c: Call, w: World, log: set<Evidence>)
    requires IsCall(c) && c.review.LensReview? && IsHealthy(w) && IsStoreBacked(s, log)
    requires forall i | 0 <= i < |c.review.lenses| ::
               IsCompleted(s, c.cacheKey, PolicyOf(c, c.review.lenses[i]), c.subject)
    ensures Step(s, c, w).started == [] && Step(s, c, w).result.Ok?
  {
    hide Aggregate, IsEntry, DeclarationHash, IsCompleted, IsLens, TruncateUtf8, LensPolicyHash, IsStoreBacked, PriorMap,
      IsBacked, CandidatesOf, Push, SubjectHash, IsVerdictToken, IsAuditText, IsExactHit, Started, CompletedOf, FailuresOf;
    var lenses, hash := c.review.lenses, LensHash(c);
    var limit := PerLensLimit(|lenses|);
    var cached := PriorMap(lenses, CandidatesOf(s, c, w), hash, limit);
    forall i | 0 <= i < |lenses| ensures IsReused(lenses[i], cached, hash) {
      CompletedIsReused(s, c, w, i);
    }
    AllReused(lenses, cached, hash, ReviewOf(w, limit));
    FanoutEntryIsEntry(s, c, w, log);
    var best := BestExact(CandidatesOf(s, c, w), DeclarationHash(DeclarationOf(c)));
    if best.Some? {
      assert IsEntry(best.value) by { CandidateIsEntry(s, c, w, log, best.value); }
    }
  }

  lemma {:induction false} AllReused(lenses: seq<Lens>, cached: Cache, hash: Lens -> Digest, review: Lens -> Outcome)
    requires forall i | 0 <= i < |lenses| :: IsReused(lenses[i], cached, hash)
    ensures Started(lenses, cached, hash) == [] && FailuresOf(lenses, cached, hash, review) == []
    decreases |lenses|
  {
    if lenses != [] { AllReused(lenses[..|lenses| - 1], cached, hash, review); }
  }

  lemma CandidateIsEntry(s: Store, c: Call, w: World, log: set<Evidence>, e: Entry)
    requires IsStoreBacked(s, log) && e in CandidatesOf(s, c, w)
    ensures IsBacked(e, log) && IsEntry(e)
  {
    hide IsEntry;
    CandidatesAreBacked(s, c, w, log);
    var found := CandidatesOf(s, c, w);
    var k :| 0 <= k < |found| && found[k] == e;
    assert IsBacked(found[k], log);
  }

  /**
    The cached verdict is the fresh verdict: after a successful call, the identical call answers with the
    same text from the store alone, with no model, no configuration and no fan-out slot.
  */
  lemma {:induction false} RepeatIsFreeAndSame(s: Store, c: Call, w: World, w': World, log: set<Evidence>)
    requires IsCall(c) && c.review.LensReview? && IsStoreBacked(s, log)
    requires Step(s, c, w).result.Ok? && w'.lockGranted && w'.readable && w'.writable
    ensures var again := Step(Step(s, c, w).store, c, w');
            again.started == [] && again.result == Step(s, c, w).result
  {
    hide Aggregate, IsEntry, DeclarationHash, LensPolicyHash, IsStoreBacked, IsBacked, SubjectHash, IsExactHit,
      FanoutEntry, StartedBy, TruncateUtf8, Gathered, IsProvenance, IsSoundSet, CandidatesOf, Push, Step;
    var e := OkLensCallWrites(s, c, w, log);
    var s' := Push(s, c.cacheKey, e);
    FreshEntryIsBest(s, c, w', e);
    assert IsExactHit(e, c);
    StepOnHit(s', c, w', e);
  }

  lemma StepOnHit(s: Store, c: Call, w: World, e: Entry)
    requires IsCall(c) && c.review.LensReview? && w.lockGranted && w.writable && IsEntry(e)
    requires BestExact(CandidatesOf(s, c, w), DeclarationHash(DeclarationOf(c))) == Some(e)
    requires e.Fanout? && IsExactHit(e, c)
    ensures Step(s, c, w).started == []
    ensures Step(s, c, w).result == Ok(Aggregate(e.lenses, e.passVerdict, e.failVerdict))
  {
    hide Aggregate, IsEntry, CandidatesOf, DeclarationHash, IsExactHit;
  }

  /** An entry about the call's subject and under its hash, once written, is what the next call finds. */
  lemma FreshEntryIsBest(s: Store, c: Call, w: World, e: Entry)
    requires w.readable && e.hash == DeclarationHash(DeclarationOf(c)) && e.subjectHash == SubjectHash(c.subject)
    ensures BestExact(CandidatesOf(Push(s, c.cacheKey, e), c, w), DeclarationHash(DeclarationOf(c))) == Some(e)
  {
    hide DeclarationHash, SubjectHash;
    var h := HistoryOf(Push(s, c.cacheKey, e), c.cacheKey);
    assert h == Newest([e] + HistoryOf(s, c.cacheKey)) && h[0] == e;
    assert Visible(Push(s, c.cacheKey, e), c.cacheKey, true) == h;
    assert Authorized(h, SubjectHash(c.subject))[0] == e;
  }

  /** A successful lens-mode call writes a complete exact entry and answers with its aggregate. */
  lemma {:induction false} OkLensCallWrites(s: Store, c: Call, w: World, log: set<Evidence>) returns (e: Entry)
    requires IsCall(c) && c.review.LensReview? && IsStoreBacked(s, log) && Step(s, c, w).result.Ok?
    ensures Step(s, c, w).store == Push(s, c.cacheKey, e) && IsEntry(e)
    ensures e.Fanout? && IsExactHit(e, c)
    ensures e.hash == DeclarationHash(DeclarationOf(c)) && e.subjectHash == SubjectHash(c.subject)
    ensures Step(s, c, w).result == Ok(Aggregate(e.lenses, e.passVerdict, e.failVerdict))
  {
    hide Aggregate, IsEntry, DeclarationHash, LensPolicyHash, IsStoreBacked, IsBacked, SubjectHash, IsExactHit,
      FanoutEntry, StartedBy, ByteLength, Gathered, IsProvenance, IsSoundSet, CandidatesOf, Push;
    var best := BestExact(CandidatesOf(s, c, w), DeclarationHash(DeclarationOf(c)));
    if best.Some? && IsExactHit(best.value, c) {
      e := best.value;
      CandidateSubject(s, c, w, e);
      HitIsComplete(e, c);
    } else {
      e := FanoutEntry(s, c, w);
      FanoutEntryFields(s, c, w);
      FanoutEntryIsBacked(s, c, w, log);
      CompleteEntryIsProvenance(e, c, log + Gathered(c, w, StartedBy(s, c, w)));
      AggregateFits(e.lenses, c.passVerdict, c.failVerdict);
    }
  }

  lemma FanoutEntryFields(s: Store, c: Call, w: World)
    requires c.review.LensReview? && |c.review.lenses| > 0
    ensures FanoutEntry(s, c, w).Fanout?
    ensures FanoutEntry(s, c, w).hash == DeclarationHash(DeclarationOf(c))
    ensures FanoutEntry(s, c, w).subjectHash == SubjectHash(c.subject)
  {
  }
}
