/**
  The cached audit primitive (src/functions/cached_audit.ts) over one task's durable store
  (src/runtime/loop/task_audit_cache.ts). A call owns the lock of its cache key from its first read to
  its last write, so it is one step on the store; what the outside world does during the call (locks,
  reads, writes, model replies) is a parameter of the step.
*/
module CachedAudit {
  import opened Wrappers
  import opened Text
  import opened Utf8
  import opened AuditTypes
  import opened AuditIdentity
  import opened AuditEvidence
  import opened AuditFanout

  const HISTORY_LIMIT := 100

  datatype Call = Call(
    cacheKey: string,
    model: string,
    review: Review,
    passVerdict: string,
    failVerdict: string,
    timeoutMs: Option<nat>,
    subject: Option<string>)

  /** The argument schema of the primitive. */
  predicate IsCall(c: Call) {
    && c.cacheKey != "" && c.model != ""
    && IsVerdictToken(c.passVerdict) && IsVerdictToken(c.failVerdict) && c.passVerdict != c.failVerdict
    && (c.timeoutMs.Some? ==> 1 <= c.timeoutMs.value <= 600_000)
    && (c.subject.Some? ==> IsAuditText(c.subject.value))
    && match c.review
       case PromptReview(prompt) => prompt != "" && IsAuditText(prompt)
       case LensReview(lenses) => IsLensSet(lenses)
  }

  function DeclarationOf(c: Call): Declaration {
    Declaration(c.model, c.review, c.passVerdict, c.failVerdict, c.timeoutMs, c.subject)
  }

  function PolicyOf(c: Call, lens: Lens): LensPolicy {
    LensPolicy(c.model, lens, c.passVerdict, c.failVerdict, c.timeoutMs)
  }

  /** The hash under which a lens of this call is filed. */
  function LensHash(c: Call): Lens -> Digest {
    lens => LensPolicyHash(PolicyOf(c, lens))
  }

  datatype Reply = Replied(text: string) | Threw(message: string)

  /** Everything the outside decides during one call. */
  datatype World = World(
    lockGranted: bool,
    readable: bool,
    configLoads: bool,
    modelKnown: bool,
    admitted: bool,
    writable: bool,
    lensReply: Lens -> Reply,
    promptReply: Reply)

  datatype AuditError =
    | LockRefused
    | ConfigFailed
    | UnknownModel
    | NotAdmitted
    | NotRepublished
    | NotPersisted
    | Incomplete(failures: seq<Failure>)
    | VerdictOutsideBound
    | ReviewFailed(message: string)

  // ---------------------------------------------------------------------------------------------
  // The store
  // ---------------------------------------------------------------------------------------------

  /** Per cache key: the attempts, newest first, and the latest row. */
  datatype Store = Store(history: map<string, seq<Entry>>, latest: map<string, Entry>)

  function HistoryOf(s: Store, key: string): seq<Entry> {
    if key in s.history then s.history[key] else []
  }

  function Newest(entries: seq<Entry>): seq<Entry> {
    if |entries| <= HISTORY_LIMIT then entries else entries[..HISTORY_LIMIT]
  }

  /** Upserts the latest row, prepends the attempt, and drops what falls out of the history. */
  function Push(s: Store, key: string, e: Entry): Store {
    Store(s.history[key := Newest([e] + HistoryOf(s, key))], s.latest[key := e])
  }

  /** What a call reads: the bounded history, else the latest row; an unreadable store reads as empty. */
  function Visible(s: Store, key: string, readable: bool): seq<Entry> {
    if !readable then []
    else if HistoryOf(s, key) != [] then Newest(HistoryOf(s, key))
    else if key in s.latest then [s.latest[key]]
    else []
  }

  /** Only evidence about the very same subject is ever considered. */
  function Authorized(entries: seq<Entry>, subjectHash: Option<Digest>): (r: seq<Entry>)
    ensures forall e :: e in r <==> e in entries && e.subjectHash == subjectHash
  {
    if entries == [] then []
    else (if entries[0].subjectHash == subjectHash then [entries[0]] else []) + Authorized(entries[1..], subjectHash)
  }

  /** `bestExactEntry`: the newest entry with the hash. */
  function BestExact(entries: seq<Entry>, hash: Digest): (r: Option<Entry>)
    ensures r.Some? ==> r.value in entries && r.value.hash == hash
    ensures r.None? ==> forall e | e in entries :: e.hash != hash
  {
    if entries == [] then None else if entries[0].hash == hash then Some(entries[0]) else BestExact(entries[1..], hash)
  }

  function FindLens(lenses: seq<LensVerdict>, id: string, hash: Digest): (r: Option<LensVerdict>)
    ensures r.Some? ==> r.value in lenses && r.value.id == id && r.value.promptHash == hash
    ensures r.None? ==> forall v | v in lenses :: v.id != id || v.promptHash != hash
  {
    if lenses == [] then None
    else if lenses[0].id == id && lenses[0].promptHash == hash then Some(lenses[0])
    else FindLens(lenses[1..], id, hash)
  }

  /** The newest output filed under exactly this lens and policy. */
  function PriorLens(entries: seq<Entry>, id: string, hash: Digest): (r: Option<LensVerdict>)
    ensures r.Some? ==> r.value.id == id && r.value.promptHash == hash
    ensures r.Some? ==> exists i | 0 <= i < |entries| :: entries[i].Fanout? && r.value in entries[i].lenses
    ensures r.None? ==>
        forall i | 0 <= i < |entries| && entries[i].Fanout? :: FindLens(entries[i].lenses, id, hash).None?
  {
    if entries == [] then None
    else
      var here := if entries[0].Fanout? then FindLens(entries[0].lenses, id, hash) else None;
      if here.Some? then here
      else
        var r := PriorLens(entries[1..], id, hash);
        assert forall i | 0 <= i < |entries| - 1 :: entries[1..][i] == entries[i + 1];
        assert forall i | 1 <= i < |entries| :: entries[i] == entries[1..][i - 1];
        r
  }

  // ---------------------------------------------------------------------------------------------
  // Lens mode
  // ---------------------------------------------------------------------------------------------

  function PerLensLimit(n: nat): nat
    requires n > 0
  {
    var share := MAX_AGGREGATE_BYTES / n;
    if share >= 1_024 then share else 1_024
  }

  /** A complete entry of this very declaration, lens by lens. */
  predicate IsExactHit(e: Entry, c: Call)
    requires c.review.LensReview?
  {
    var lenses := c.review.lenses;
    && e.Fanout? && e.complete
    && |e.lenses| == |lenses|
    && forall i | 0 <= i < |lenses| ::
         e.lenses[i].id == lenses[i].id && e.lenses[i].promptHash == LensHash(c)(lenses[i])
  }

  /** Prior outputs of the declared lenses, cut to this declaration's share. */
  function PriorMap(lenses: seq<Lens>, entries: seq<Entry>, hash: Lens -> Digest, limit: nat): Cache {
    if lenses == [] then map[]
    else
      var lens := lenses[|lenses| - 1];
      var rest := PriorMap(lenses[..|lenses| - 1], entries, hash, limit);
      match PriorLens(entries, lens.id, hash(lens))
      case None => rest
      case Some(v) => rest[lens.id := v.(output := TruncateUtf8(v.output, limit))]
  }

  /** A reply counts only with a verdict mark; what is kept of it is bounded. */
  function ReviewOf(w: World, limit: nat): Lens -> Outcome {
    (lens: Lens) =>
      match w.lensReply(lens)
      case Threw(message) => Error(message)
      case Replied(text) =>
        if Contains(text, MARK) then Output(TruncateUtf8(text, limit))
        else Error("audit lens " + lens.id + " returned no VERDICT line")
  }

  function Describe(error: string): (d: string)
    ensures d != ""
  {
    if error == "" then "unknown audit failure" else error
  }

  function Described(failures: seq<Failure>): (r: seq<Failure>)
    ensures |r| == |failures|
    ensures forall i | 0 <= i < |r| ::
        r[i] == Failure(failures[i].id, TruncateUtf8(Describe(failures[i].error), 4_096))
  {
    seq(|failures|, i requires 0 <= i < |failures| =>
      Failure(failures[i].id, TruncateUtf8(Describe(failures[i].error), 4_096)))
  }

  /** What a call leaves behind: the store, its answer, and the reviews it paid for. */
  datatype Effect = Effect(store: Store, result: Result<string, AuditError>, started: seq<string>)

  /** The entry a fan-out writes. */
  function FanoutEntry(s: Store, c: Call, w: World): Entry
    requires c.review.LensReview? && |c.review.lenses| > 0
  {
    var lenses, hash := c.review.lenses, LensHash(c);
    var limit := PerLensLimit(|lenses|);
    var cached := PriorMap(lenses, CandidatesOf(s, c, w), hash, limit);
    var failures := FailuresOf(lenses, cached, hash, ReviewOf(w, limit));
    Fanout(DeclarationHash(DeclarationOf(c)), failures == [], CompletedOf(lenses, cached, hash, ReviewOf(w, limit)),
           Described(failures), c.passVerdict, c.failVerdict, SubjectHash(c.subject))
  }

  function CandidatesOf(s: Store, c: Call, w: World): seq<Entry> {
    Authorized(Visible(s, c.cacheKey, w.readable), SubjectHash(c.subject))
  }

  function StartedBy(s: Store, c: Call, w: World): seq<string>
    requires c.review.LensReview? && |c.review.lenses| > 0
  {
    var lenses, hash := c.review.lenses, LensHash(c);
    Started(lenses, PriorMap(lenses, CandidatesOf(s, c, w), hash, PerLensLimit(|lenses|)), hash)
  }

  /** Runs the missing lenses and persists what came of it, complete or not. */
  function FanoutStep(s: Store, c: Call, w: World): Effect
    requires c.review.LensReview? && |c.review.lenses| > 0
  {
    if !w.configLoads then Effect(s, Err(ConfigFailed), [])
    else if !w.modelKnown then Effect(s, Err(UnknownModel), [])
    else if !w.admitted then Effect(s, Err(NotAdmitted), [])
    else
      var entry := FanoutEntry(s, c, w);
      if !w.writable || !IsEntry(entry) then Effect(s, Err(NotPersisted), StartedBy(s, c, w))
      else
        Effect(
          Push(s, c.cacheKey, entry),
          if entry.complete
          then Ok(TruncateUtf8(Aggregate(entry.lenses, c.passVerdict, c.failVerdict), MAX_RESULT_BYTES))
          else Err(Incomplete(entry.failures)),
          StartedBy(s, c, w))
  }

  function LensStep(s: Store, c: Call, w: World): Effect
    requires c.review.LensReview? && |c.review.lenses| > 0
  {
    if !w.lockGranted then Effect(s, Err(LockRefused), [])
    else
      var best := BestExact(CandidatesOf(s, c, w), DeclarationHash(DeclarationOf(c)));
      if best.Some? && IsExactHit(best.value, c) then
        if !w.writable || !IsEntry(best.value) then Effect(s, Err(NotRepublished), [])
        else
          Effect(Push(s, c.cacheKey, best.value),
                 Ok(Aggregate(best.value.lenses, best.value.passVerdict, best.value.failVerdict)), [])
      else FanoutStep(s, c, w)
  }

  // ---------------------------------------------------------------------------------------------
  // Single-review mode
  // ---------------------------------------------------------------------------------------------

  /** The one review of a prompt call has no lens id. */
  const PROMPT_REVIEW := ""

  function PromptReviewStep(s: Store, c: Call, w: World): Effect {
    if !w.configLoads then Effect(s, Err(ConfigFailed), [])
    else if !w.modelKnown then Effect(s, Err(UnknownModel), [])
    else
      match w.promptReply
      case Threw(message) => Effect(s, Err(ReviewFailed(message)), [PROMPT_REVIEW])
      case Replied(text) =>
        var kept := TruncateUtf8(text, MAX_RESULT_BYTES);
        if !Contains(kept, MARK) then
          Effect(s, if Contains(text, MARK) then Err(VerdictOutsideBound) else Ok(kept), [PROMPT_REVIEW])
        else
          var entry := Single(DeclarationHash(DeclarationOf(c)), kept, SubjectHash(c.subject));
          if !w.writable || !IsEntry(entry) then Effect(s, Err(NotPersisted), [PROMPT_REVIEW])
          else Effect(Push(s, c.cacheKey, entry), Ok(kept), [PROMPT_REVIEW])
  }

  function PromptStep(s: Store, c: Call, w: World): Effect {
    if !w.lockGranted then Effect(s, Err(LockRefused), [])
    else
      var best := BestExact(CandidatesOf(s, c, w), DeclarationHash(DeclarationOf(c)));
      if best.Some? && best.value.Single? && best.value.verdict != "" then
        if !w.writable || !IsEntry(best.value) then Effect(s, Err(NotRepublished), [])
        else Effect(Push(s, c.cacheKey, best.value), Ok(best.value.verdict), [])
      else PromptReviewStep(s, c, w)
  }

  /** One call. */
  function Step(s: Store, c: Call, w: World): Effect
    requires IsCall(c)
  {
    if c.review.LensReview? then LensStep(s, c, w) else PromptStep(s, c, w)
  }

  // ---------------------------------------------------------------------------------------------
  // The code
  // ---------------------------------------------------------------------------------------------

  lemma NextPrior(lenses: seq<Lens>, entries: seq<Entry>, hash: Lens -> Digest, limit: nat, i: nat)
    requires i < |lenses|
    ensures PriorMap(lenses[..i + 1], entries, hash, limit) ==
            match PriorLens(entries, lenses[i].id, hash(lenses[i]))
            case None => PriorMap(lenses[..i], entries, hash, limit)
            case Some(v) =>
              PriorMap(lenses[..i], entries, hash, limit)[lenses[i].id := v.(output := TruncateUtf8(v.output, limit))]
  {
    assert lenses[..i + 1][..i] == lenses[..i];
  }

  /** One task's durable audit rows, and the primitive that reads and writes them. */
  class AuditTask {
    var history: map<string, seq<Entry>>
    var latest: map<string, Entry>

    constructor ()
      ensures Contents() == Store(map[], map[])
    {
      history, latest := map[], map[];
    }

    function Contents(): Store
      reads this
    {
      Store(history, latest)
    }

    /** Validates, then writes row and attempt in one batch. */
    method WriteTaskCache(key: string, entry: Entry, writable: bool) returns (persisted: bool)
      modifies this
      ensures persisted <==> writable && IsEntry(entry)
      ensures Contents() == if persisted then Push(old(Contents()), key, entry) else old(Contents())
    {
      if !writable || !IsEntry(entry) { return false; }
      latest := latest[key := entry];
      var attempts := [entry] + if key in history then history[key] else [];
      if |attempts| > HISTORY_LIMIT { attempts := attempts[..HISTORY_LIMIT]; }
      history := history[key := attempts];
      return true;
    }

    /** Collects what may be reused of the declared lenses. */
    method SelectPriorLenses(lenses: seq<Lens>, entries: seq<Entry>, hash: Lens -> Digest, limit: nat)
        returns (priorLenses: Cache)
      ensures priorLenses == PriorMap(lenses, entries, hash, limit)
    {
      hide PriorMap;
      priorLenses := map[];
      assert PriorMap(lenses[..0], entries, hash, limit) == map[] by { EmptyPrior(entries, hash, limit); }
      for i := 0 to |lenses|
        invariant priorLenses == PriorMap(lenses[..i], entries, hash, limit)
      {
        NextPrior(lenses, entries, hash, limit, i);
        var prior := PriorLens(entries, lenses[i].id, hash(lenses[i]));
        if prior.Some? {
          priorLenses := priorLenses[lenses[i].id :=
            prior.value.(output := TruncateUtf8(prior.value.output, limit))];
        }
      }
      assert lenses[..|lenses|] == lenses;
    }

    method ExecuteLenses(c: Call, w: World) returns (result: Result<string, AuditError>, started: seq<string>)
      requires IsCall(c) && c.review.LensReview?
      modifies this
      ensures Effect(Contents(), result, started) == LensStep(old(Contents()), c, w)
    {
      hide Aggregate, IsEntry, PriorMap, CompletedOf, FailuresOf, Started, IsLens, Authorized, DeclarationHash,
        LensPolicyHash, TruncateUtf8;
      started := [];
      if !w.lockGranted { return Err(LockRefused), []; }
      var lenses, hash := c.review.lenses, LensHash(c);
      var entries := Authorized(Visible(Contents(), c.cacheKey, w.readable), SubjectHash(c.subject));
      var cached := BestExact(entries, DeclarationHash(DeclarationOf(c)));
      if cached.Some? && IsExactHit(cached.value, c) {
        var republished := WriteTaskCache(c.cacheKey, cached.value, w.writable);
        if !republished { return Err(NotRepublished), []; }
        return Ok(Aggregate(cached.value.lenses, cached.value.passVerdict, cached.value.failVerdict)), [];
      }
      if !w.configLoads { return Err(ConfigFailed), []; }
      if !w.modelKnown { return Err(UnknownModel), []; }
      var perLensLimit := PerLensLimit(|lenses|);
      var priorLenses := SelectPriorLenses(lenses, entries, hash, perLensLimit);
      if !w.admitted { return Err(NotAdmitted), []; }
      var fanout, reviews, _ := Run(lenses, priorLenses, hash, ReviewOf(w, perLensLimit));
      started := reviews;
      var complete := fanout.value.failures == [];
      var verdict := if complete
        then TruncateUtf8(Aggregate(fanout.value.completed, c.passVerdict, c.failVerdict), MAX_RESULT_BYTES) else "";
      var entry := Fanout(DeclarationHash(DeclarationOf(c)), complete, fanout.value.completed,
                          Described(fanout.value.failures), c.passVerdict, c.failVerdict, SubjectHash(c.subject));
      var persisted := WriteTaskCache(c.cacheKey, entry, w.writable);
      if !persisted { return Err(NotPersisted), started; }
      if !complete { return Err(Incomplete(entry.failures)), started; }
      return Ok(verdict), started;
    }

    method ExecutePrompt(c: Call, w: World) returns (result: Result<string, AuditError>, started: seq<string>)
      modifies this
      ensures Effect(Contents(), result, started) == PromptStep(old(Contents()), c, w)
    {
      hide IsEntry, Authorized, DeclarationHash, TruncateUtf8, Contains;
      started := [];
      if !w.lockGranted { return Err(LockRefused), []; }
      var entries := Authorized(Visible(Contents(), c.cacheKey, w.readable), SubjectHash(c.subject));
      var cached := BestExact(entries, DeclarationHash(DeclarationOf(c)));
      if cached.Some? && cached.value.Single? && cached.value.verdict != "" {
        var republished := WriteTaskCache(c.cacheKey, cached.value, w.writable);
        if !republished { return Err(NotRepublished), []; }
        return Ok(cached.value.verdict), [];
      }
      if !w.configLoads { return Err(ConfigFailed), []; }
      if !w.modelKnown { return Err(UnknownModel), []; }
      started := [PROMPT_REVIEW];
      match w.promptReply {
        case Threw(message) =>
          return Err(ReviewFailed(message)), started;
        case Replied(text) =>
          var cacheableOutput := TruncateUtf8(text, MAX_RESULT_BYTES);
          var hasVerdict := Contains(cacheableOutput, MARK);
          if !hasVerdict && Contains(text, MARK) { return Err(VerdictOutsideBound), started; }
          if hasVerdict {
            var persisted := WriteTaskCache(
              c.cacheKey, Single(DeclarationHash(DeclarationOf(c)), cacheableOutput, SubjectHash(c.subject)), w.writable);
            if !persisted { return Err(NotPersisted), started; }
          }
          return Ok(cacheableOutput), started;
      }
    }

    /** The primitive: its whole effect on the store, its answer and its reviews are those of the step. */
    method Execute(c: Call, w: World) returns (result: Result<string, AuditError>, started: seq<string>)
      requires IsCall(c)
      modifies this
      ensures Effect(Contents(), result, started) == Step(old(Contents()), c, w)
    {
      if c.review.LensReview? {
        result, started := ExecuteLenses(c, w);
      } else {
        result, started := ExecutePrompt(c, w);
      }
    }
  }

  lemma EmptyPrior(entries: seq<Entry>, hash: Lens -> Digest, limit: nat)
    ensures PriorMap([], entries, hash, limit) == map[]
  {
  }
}
