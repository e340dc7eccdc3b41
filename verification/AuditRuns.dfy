/**
  What the audit cache guarantees over every run of calls and outside decisions: provenance of every
  verdict, and no review paid for twice.
*/
module AuditRuns {
  import opened Wrappers
  import opened Text
  import opened Utf8
  import opened AuditTypes
  import opened AuditIdentity
  import opened AuditEvidence
  import opened AuditFanout
  import opened CachedAudit

  // ---------------------------------------------------------------------------------------------
  // Provenance
  // ---------------------------------------------------------------------------------------------

  /** A model reply that was accepted as a review, with exactly what it reviewed. */
  datatype Evidence =
    | LensEvidence(policy: LensPolicy, subject: Option<string>, raw: string)
    | PromptEvidence(declaration: Declaration, raw: string)

  /** The reviews a step paid for that came back with a verdict mark. */
  ghost function Gathered(c: Call, w: World, started: seq<string>): set<Evidence> {
    match c.review
    case LensReview(lenses) =>
      set i | 0 <= i < |lenses| && lenses[i].id in started
              && w.lensReply(lenses[i]).Replied? && Contains(w.lensReply(lenses[i]).text, MARK) ::
        LensEvidence(PolicyOf(c, lenses[i]), c.subject, w.lensReply(lenses[i]).text)
    case PromptReview(_) =>
      if started != [] && w.promptReply.Replied? && Contains(w.promptReply.text, MARK)
      then {PromptEvidence(DeclarationOf(c), w.promptReply.text)} else {}
  }

  /** The verdict is a bounded truncation of a review accepted for this very policy and subject. */
  ghost predicate IsBackedBy(v: LensVerdict, subjectHash: Option<Digest>, ev: Evidence) {
    && ev.LensEvidence?
    && v.id == ev.policy.lens.id
    && v.promptHash == LensPolicyHash(ev.policy)
    && subjectHash == SubjectHash(ev.subject)
    && IsTruncationOf(v.output, ev.raw)
  }

  ghost predicate HasEvidence(v: LensVerdict, subjectHash: Option<Digest>, log: set<Evidence>) {
    exists ev | ev in log :: IsBackedBy(v, subjectHash, ev)
  }

  /** A fan-out entry written for declaration `d`. */
  ghost predicate IsFanoutOf(e: Entry, d: Declaration) {
    && e.Fanout? && d.review.LensReview?
    && e.hash == DeclarationHash(d)
    && e.subjectHash == SubjectHash(d.subject)
    && e.passVerdict == d.passVerdict && e.failVerdict == d.failVerdict
    && (e.complete ==>
          && |e.lenses| == |d.review.lenses|
          && forall i | 0 <= i < |e.lenses| ::
               && e.lenses[i].id == d.review.lenses[i].id
               && e.lenses[i].promptHash ==
                  LensPolicyHash(LensPolicy(d.model, d.review.lenses[i], d.passVerdict, d.failVerdict, d.timeoutMs)))
  }

  ghost predicate IsSingleOf(e: Entry, ev: Evidence) {
    && e.Single? && ev.PromptEvidence?
    && e.hash == DeclarationHash(ev.declaration)
    && e.subjectHash == SubjectHash(ev.declaration.subject)
    && IsTruncationOf(e.verdict, ev.raw)
  }

  ghost predicate IsBacked(e: Entry, log: set<Evidence>) {
    && IsEntry(e)
    && (e.Fanout? ==>
          && (exists d :: IsFanoutOf(e, d))
          && forall i | 0 <= i < |e.lenses| :: HasEvidence(e.lenses[i], e.subjectHash, log))
    && (e.Single? ==> exists ev | ev in log :: IsSingleOf(e, ev))
  }

  ghost predicate AllBacked(entries: seq<Entry>, log: set<Evidence>) {
    forall i | 0 <= i < |entries| :: IsBacked(entries[i], log)
  }

  /** Nothing in the store was ever made up. */
  ghost predicate IsStoreBacked(s: Store, log: set<Evidence>) {
    && (forall key | key in s.history :: AllBacked(s.history[key], log))
    && (forall key | key in s.latest :: IsBacked(s.latest[key], log))
  }

  lemma BackedByMore(e: Entry, log: set<Evidence>, more: set<Evidence>)
    requires IsBacked(e, log) && log <= more
    ensures IsBacked(e, more)
  {
    if e.Fanout? {
      forall i | 0 <= i < |e.lenses| ensures HasEvidence(e.lenses[i], e.subjectHash, more) {
        assert HasEvidence(e.lenses[i], e.subjectHash, log);
      }
    }
  }

  lemma StoreBackedByMore(s: Store, log: set<Evidence>, more: set<Evidence>)
    requires IsStoreBacked(s, log) && log <= more
    ensures IsStoreBacked(s, more)
  {
    hide IsBacked;
    forall key, i | key in s.history && 0 <= i < |s.history[key]| ensures IsBacked(s.history[key][i], more) {
      assert AllBacked(s.history[key], log);
      BackedByMore(s.history[key][i], log, more);
    }
    forall key | key in s.latest ensures IsBacked(s.latest[key], more) {
      BackedByMore(s.latest[key], log, more);
    }
  }

  lemma CandidatesAreBacked(s: Store, c: Call, w: World, log: set<Evidence>)
    requires IsStoreBacked(s, log)
    ensures AllBacked(CandidatesOf(s, c, w), log)
    ensures forall i | 0 <= i < |CandidatesOf(s, c, w)| ::
              CandidatesOf(s, c, w)[i].subjectHash == SubjectHash(c.subject)
  {
    hide IsBacked;
    var visible := Visible(s, c.cacheKey, w.readable);
    assert AllBacked(visible, log);
    var found := CandidatesOf(s, c, w);
    forall i | 0 <= i < |found| ensures IsBacked(found[i], log) && found[i].subjectHash == SubjectHash(c.subject) {
      assert found[i] in found;
    }
  }

  lemma PushKeepsBacked(s: Store, key: string, e: Entry, log: set<Evidence>)
    requires IsStoreBacked(s, log) && IsBacked(e, log)
    ensures IsStoreBacked(Push(s, key, e), log)
  {
    hide IsBacked;
    var s' := Push(s, key, e);
    assert AllBacked(HistoryOf(s, key), log);
    assert AllBacked(s'.history[key], log);
  }

  /** Reused outputs keep their evidence: cutting them again still leaves a truncation of what was accepted. */
  lemma {:induction false} PriorMapIsBacked(
    lenses: seq<Lens>, entries: seq<Entry>, hash: Lens -> Digest, limit: nat,
    subjectHash: Option<Digest>, log: set<Evidence>)
    requires limit >= 1_024 && AllBacked(entries, log)
    requires forall i | 0 <= i < |entries| :: entries[i].subjectHash == subjectHash
    ensures forall id | id in PriorMap(lenses, entries, hash, limit) ::
              var v := PriorMap(lenses, entries, hash, limit)[id];
              v.id == id && WithinBytes(v.output, limit) && HasEvidence(v, subjectHash, log)
    decreases |lenses|
  {
    hide IsEntry, TruncateUtf8, ByteLength;
    if lenses != [] {
      var lens := lenses[|lenses| - 1];
      PriorMapIsBacked(lenses[..|lenses| - 1], entries, hash, limit, subjectHash, log);
      var prior := PriorLens(entries, lens.id, hash(lens));
      if prior.Some? {
        CutIsBacked(entries, prior.value, limit, subjectHash, log);
      }
    }
  }

  lemma CutIsBacked(entries: seq<Entry>, v: LensVerdict, limit: nat, subjectHash: Option<Digest>, log: set<Evidence>)
    requires limit >= 1_024 && AllBacked(entries, log)
    requires exists i | 0 <= i < |entries| ::
               entries[i].Fanout? && entries[i].subjectHash == subjectHash && v in entries[i].lenses
    ensures var cut := v.(output := TruncateUtf8(v.output, limit));
            WithinBytes(cut.output, limit) && HasEvidence(cut, subjectHash, log)
  {
    hide TruncateUtf8, ByteLength, IsTruncationOf;
    var i :| 0 <= i < |entries| && entries[i].Fanout? && entries[i].subjectHash == subjectHash
      && v in entries[i].lenses;
    assert IsBacked(entries[i], log);
    var k :| 0 <= k < |entries[i].lenses| && entries[i].lenses[k] == v;
    assert HasEvidence(entries[i].lenses[k], subjectHash, log);
    var ev :| ev in log && IsBackedBy(v, subjectHash, ev);
    TruncateBounds(v.output, limit);
    TruncateAgain(ev.raw, v.output, limit);
    assert IsBackedBy(v.(output := TruncateUtf8(v.output, limit)), subjectHash, ev);
  }

  // ---------------------------------------------------------------------------------------------
  // What a fan-out writes
  // ---------------------------------------------------------------------------------------------

  /** Every usable prior output is filed under its own lens id and within the limit. */
  ghost predicate IsSoundCache(cached: Cache, limit: nat, subjectHash: Option<Digest>, log: set<Evidence>) {
    forall id | id in cached ::
      cached[id].id == id && WithinBytes(cached[id].output, limit) && HasEvidence(cached[id], subjectHash, log)
  }

  lemma VerdictIsSound(c: Call, w: World, i: nat, cached: Cache, limit: nat, log: set<Evidence>)
    requires IsCall(c) && c.review.LensReview? && i < |c.review.lenses| && limit >= 1_024
    requires IsSoundCache(cached, limit, SubjectHash(c.subject), log)
    requires Succeeds(c.review.lenses[i], cached, LensHash(c), ReviewOf(w, limit))
    ensures var v := VerdictOf(c.review.lenses[i], cached, LensHash(c), ReviewOf(w, limit));
            && v.id == c.review.lenses[i].id && WithinBytes(v.output, limit)
            && v.promptHash == LensPolicyHash(PolicyOf(c, c.review.lenses[i]))
            && HasEvidence(v, SubjectHash(c.subject),
                           log + Gathered(c, w, Started(c.review.lenses, cached, LensHash(c))))
  {
    hide TruncateUtf8, ByteLength, IsTruncationOf, IsLens, LensPolicyHash, Started;
    var lens := c.review.lenses[i];
    var v := VerdictOf(lens, cached, LensHash(c), ReviewOf(w, limit));
    var started := Started(c.review.lenses, cached, LensHash(c));
    StartedIff(c.review.lenses, cached, LensHash(c), i);
    if IsReused(lens, cached, LensHash(c)) {
      var ev :| ev in log && IsBackedBy(v, SubjectHash(c.subject), ev);
      assert ev in log + Gathered(c, w, started);
    } else {
      var text := w.lensReply(lens).text;
      TruncateBounds(text, limit);
      var ev := LensEvidence(PolicyOf(c, lens), c.subject, text);
      assert ev in Gathered(c, w, started);
      assert IsBackedBy(v, SubjectHash(c.subject), ev);
    }
  }

  /** No id appears twice among the completed and failed outcomes. */
  lemma {:induction false} OutcomeIdsDistinct(
    lenses: seq<Lens>, cached: Cache, hash: Lens -> Digest, review: Lens -> Outcome)
    requires UniqueIds(lenses)
    requires forall id | id in cached :: cached[id].id == id
    ensures var a, b := CompletedOf(lenses, cached, hash, review), FailuresOf(lenses, cached, hash, review);
      && (forall j, k | 0 <= j < k < |a| :: a[j].id != a[k].id)
      && (forall j, k | 0 <= j < k < |b| :: b[j].id != b[k].id)
      && (forall j, k | 0 <= j < |a| && 0 <= k < |b| :: a[j].id != b[k].id)
    decreases |lenses|
  {
    if lenses != [] {
      var n := |lenses| - 1;
      var front := lenses[..n];
      OutcomeIdsDistinct(front, cached, hash, review);
      var a, b := CompletedOf(front, cached, hash, review), FailuresOf(front, cached, hash, review);
      forall k | 0 <= k < |a| ensures a[k].id != lenses[n].id {
        var i := CompletedComesFrom(front, cached, hash, review, k);
        assert lenses[i].id != lenses[n].id;
      }
      forall k | 0 <= k < |b| ensures b[k].id != lenses[n].id {
        var i := FailureComesFrom(front, cached, hash, review, k);
        assert lenses[i].id != lenses[n].id;
      }
      var ok := Succeeds(lenses[n], cached, hash, review);
      var a', b' := CompletedOf(lenses, cached, hash, review), FailuresOf(lenses, cached, hash, review);
      assert ok ==> b' == b && a' == a + [VerdictOf(lenses[n], cached, hash, review)];
      assert !ok ==> a' == a;
      assert forall k | 0 <= k < |a| :: a'[k].id == a[k].id;
      assert !ok ==> b' == b + [Failure(lenses[n].id, review(lenses[n]).error)];
      assert forall k | 0 <= k < |b| :: b'[k].id == b[k].id;
    }
  }

  lemma {:induction false} TotalBytesBound(lenses: seq<LensVerdict>, limit: nat)
    requires forall i | 0 <= i < |lenses| :: ByteLength(lenses[i].output) <= limit
    ensures TotalBytes(lenses) <= |lenses| * limit
  {
    if lenses != [] {
      TotalBytesBound(lenses[..|lenses| - 1], limit);
      assert |lenses| * limit == (|lenses| - 1) * limit + limit;
    }
  }

  lemma LimitBounds(n: nat)
    requires LENS_MIN <= n <= LENS_MAX
    ensures 1_024 <= PerLensLimit(n) <= MAX_RESULT_BYTES
    ensures forall m: nat | m <= n :: m * PerLensLimit(n) <= MAX_AGGREGATE_BYTES
  {
    var limit := PerLensLimit(n);
    forall m: nat | m <= n ensures m * limit <= MAX_AGGREGATE_BYTES {
      assert m == 0 || m == 1 || m == 2 || m == 3 || m == 4;
    }
  }

  /** Completed and failed verdicts come from lenses of the declaration. */
  lemma {:induction false} CompletedComesFrom(
    lenses: seq<Lens>, cached: Cache, hash: Lens -> Digest, review: Lens -> Outcome, k: nat) returns (i: nat)
    requires k < |CompletedOf(lenses, cached, hash, review)|
    ensures i < |lenses| && Succeeds(lenses[i], cached, hash, review)
    ensures CompletedOf(lenses, cached, hash, review)[k] == VerdictOf(lenses[i], cached, hash, review)
    decreases |lenses|
  {
    var front := lenses[..|lenses| - 1];
    if k < |CompletedOf(front, cached, hash, review)| {
      i := CompletedComesFrom(front, cached, hash, review, k);
    } else {
      i := |lenses| - 1;
    }
  }

  lemma {:induction false} FailureComesFrom(
    lenses: seq<Lens>, cached: Cache, hash: Lens -> Digest, review: Lens -> Outcome, k: nat) returns (i: nat)
    requires k < |FailuresOf(lenses, cached, hash, review)|
    ensures i < |lenses| && FailuresOf(lenses, cached, hash, review)[k].id == lenses[i].id
    decreases |lenses|
  {
    var front := lenses[..|lenses| - 1];
    if k < |FailuresOf(front, cached, hash, review)| {
      i := FailureComesFrom(front, cached, hash, review, k);
    } else {
      i := |lenses| - 1;
    }
  }

  /** Every outcome of a fan-out fits the schema of the store: the write is never refused for its content. */
  lemma {:induction false} FanoutEntryIsEntry(s: Store, c: Call, w: World, log: set<Evidence>)
    requires IsCall(c) && c.review.LensReview? && IsStoreBacked(s, log)
    ensures IsEntry(FanoutEntry(s, c, w))
  {
    hide TruncateUtf8, ByteLength, IsTruncationOf, LensPolicyHash, DeclarationHash, CompletedOf, FailuresOf, Started,
      PriorMap, IsLensId, IsStoreBacked, HasEvidence, CandidatesOf, TotalBytes, Gathered, SubjectHash, IsVerdictToken;
    var lenses, hash := c.review.lenses, LensHash(c);
    var limit := PerLensLimit(|lenses|);
    var review := ReviewOf(w, limit);
    var found := CandidatesOf(s, c, w);
    LimitBounds(|lenses|);
    CandidatesAreBacked(s, c, w, log);
    PriorMapIsBacked(lenses, found, hash, limit, SubjectHash(c.subject), log);
    var cached := PriorMap(lenses, found, hash, limit);
    var completed, failures := CompletedOf(lenses, cached, hash, review), FailuresOf(lenses, cached, hash, review);
    PartitionSizes(lenses, cached, hash, review);
    OutcomeIdsDistinct(lenses, cached, hash, review);
    forall k | 0 <= k < |completed|
      ensures IsLensId(completed[k].id) && WithinBytes(completed[k].output, limit)
    {
      var i := CompletedComesFrom(lenses, cached, hash, review, k);
      VerdictIsSound(c, w, i, cached, limit, log);
      assert IsLens(lenses[i]);
    }
    forall k | 0 <= k < |failures|
      ensures IsLensId(failures[k].id) && WithinBytes(Described(failures)[k].error, 4_096)
    {
      var i := FailureComesFrom(lenses, cached, hash, review, k);
      assert IsLens(lenses[i]);
      TruncateBounds(Describe(failures[k].error), 4_096);
    }
    TotalBytesBound(completed, limit);
    EvidenceIdsDistinct(completed, Described(failures));
  }

  lemma EvidenceIdsDistinct(a: seq<LensVerdict>, b: seq<Failure>)
    requires forall j, k | 0 <= j < k < |a| :: a[j].id != a[k].id
    requires forall j, k | 0 <= j < k < |b| :: b[j].id != b[k].id
    requires forall j, k | 0 <= j < |a| && 0 <= k < |b| :: a[j].id != b[k].id
    ensures Distinct(EvidenceIds(a, b))
  {
    var ids := EvidenceIds(a, b);
    assert forall i | 0 <= i < |a| :: ids[i] == a[i].id;
    assert forall i | |a| <= i < |ids| :: ids[i] == b[i - |a|].id;
  }

  lemma {:induction false} FanoutEntryIsBacked(s: Store, c: Call, w: World, log: set<Evidence>)
    requires IsCall(c) && c.review.LensReview? && IsStoreBacked(s, log)
    ensures IsBacked(FanoutEntry(s, c, w), log + Gathered(c, w, StartedBy(s, c, w)))
  {
    FanoutEntryIsEntry(s, c, w, log);
    hide TruncateUtf8, ByteLength, IsTruncationOf, LensPolicyHash, DeclarationHash, CompletedOf, FailuresOf, Started,
      PriorMap, IsEntry, IsStoreBacked, HasEvidence, CandidatesOf, Gathered, SubjectHash, IsLens;
    var lenses, hash := c.review.lenses, LensHash(c);
    var limit := PerLensLimit(|lenses|);
    var review := ReviewOf(w, limit);
    var found := CandidatesOf(s, c, w);
    LimitBounds(|lenses|);
    CandidatesAreBacked(s, c, w, log);
    PriorMapIsBacked(lenses, found, hash, limit, SubjectHash(c.subject), log);
    var cached := PriorMap(lenses, found, hash, limit);
    var entry := FanoutEntry(s, c, w);
    forall k | 0 <= k < |entry.lenses|
      ensures HasEvidence(entry.lenses[k], entry.subjectHash, log + Gathered(c, w, StartedBy(s, c, w)))
    {
      var i := CompletedComesFrom(lenses, cached, hash, review, k);
      VerdictIsSound(c, w, i, cached, limit, log);
    }
    hide IsFanoutOf;
    FanoutEntryIsOfItsCall(s, c, w, log);
  }

  lemma {:induction false} FanoutEntryIsOfItsCall(s: Store, c: Call, w: World, log: set<Evidence>)
    requires IsCall(c) && c.review.LensReview? && IsStoreBacked(s, log)
    ensures IsFanoutOf(FanoutEntry(s, c, w), DeclarationOf(c))
  {
    hide TruncateUtf8, ByteLength, IsTruncationOf, LensPolicyHash, DeclarationHash, CompletedOf, FailuresOf, Started,
      PriorMap, IsEntry, IsStoreBacked, HasEvidence, CandidatesOf, Gathered, SubjectHash, IsLens;
    var lenses, hash := c.review.lenses, LensHash(c);
    var limit := PerLensLimit(|lenses|);
    var review := ReviewOf(w, limit);
    var found := CandidatesOf(s, c, w);
    LimitBounds(|lenses|);
    CandidatesAreBacked(s, c, w, log);
    PriorMapIsBacked(lenses, found, hash, limit, SubjectHash(c.subject), log);
    var cached := PriorMap(lenses, found, hash, limit);
    var entry := FanoutEntry(s, c, w);
    if entry.complete {
      CompleteIsWhole(lenses, cached, hash, review);
      forall i | 0 <= i < |lenses|
        ensures entry.lenses[i].id == lenses[i].id && entry.lenses[i].promptHash == LensPolicyHash(PolicyOf(c, lenses[i]))
      {
        VerdictIsSound(c, w, i, cached, limit, log);
      }
    }
  }
}
