/** Running the missing lenses of an audit concurrently (src/functions/audit_fanout.ts). */
module AuditFanout {
  import opened Wrappers
  import opened AuditTypes
  import opened AuditIdentity
  import opened AuditEvidence

  // ---------------------------------------------------------------------------------------------
  // One attempt
  // ---------------------------------------------------------------------------------------------

  datatype Attempt = Pending | Reused | Running | Completed | Failed
  datatype AttemptEvent = Reuse | Start | Resolve | Reject

  /** The transition table. */
  function StepAttempt(state: Attempt, event: AttemptEvent): Attempt {
    match (state, event)
    case (Pending, Reuse) => Reused
    case (Pending, Start) => Running
    case (Pending, _) => Failed
    case (Running, Resolve) => Completed
    case (Running, _) => Failed
    case (_, _) => state
  }

  function RunAttempt(state: Attempt, events: seq<AttemptEvent>): Attempt
    decreases |events|
  {
    if events == [] then state else RunAttempt(StepAttempt(state, events[0]), events[1..])
  }

  lemma {:induction false} TerminalAttemptsStay(state: Attempt, events: seq<AttemptEvent>)
    requires !state.Pending? && !state.Running?
    ensures RunAttempt(state, events) == state
    decreases |events|
  {
    if events != [] { TerminalAttemptsStay(StepAttempt(state, events[0]), events[1..]); }
  }

  /** An attempt counts as completed only if it was started and its review then resolved, in that order and first. */
  lemma {:induction false} CompletedIffStartedThenResolved(events: seq<AttemptEvent>)
    ensures RunAttempt(Pending, events).Completed? <==> [Start, Resolve] <= events
    ensures RunAttempt(Pending, events).Reused? <==> [Reuse] <= events
  {
    if events != [] {
      var one := StepAttempt(Pending, events[0]);
      if one.Running? {
        if |events| > 1 {
          assert events[1..][0] == events[1];
          TerminalAttemptsStay(StepAttempt(one, events[1]), events[1..][1..]);
        }
      } else {
        TerminalAttemptsStay(one, events[1..]);
      }
    }
  }

  // ---------------------------------------------------------------------------------------------
  // The fan-out
  // ---------------------------------------------------------------------------------------------

  /** What a review came to. */
  datatype Outcome = Output(output: string) | Error(error: string)

  datatype FanoutResult = FanoutResult(completed: seq<LensVerdict>, failures: seq<Failure>)

  type Cache = map<string, LensVerdict>

  predicate IsReused(lens: Lens, cached: Cache, hash: Lens -> Digest) {
    lens.id in cached && cached[lens.id].promptHash == hash(lens)
  }

  predicate Succeeds(lens: Lens, cached: Cache, hash: Lens -> Digest, review: Lens -> Outcome) {
    IsReused(lens, cached, hash) || review(lens).Output?
  }

  function VerdictOf(lens: Lens, cached: Cache, hash: Lens -> Digest, review: Lens -> Outcome): LensVerdict
    requires Succeeds(lens, cached, hash, review)
  {
    if IsReused(lens, cached, hash) then cached[lens.id] else LensVerdict(lens.id, hash(lens), review(lens).output)
  }

  /** The completed lenses of a declaration, in its order. */
  function CompletedOf(lenses: seq<Lens>, cached: Cache, hash: Lens -> Digest, review: Lens -> Outcome): seq<LensVerdict> {
    if lenses == [] then []
    else
      var lens := lenses[|lenses| - 1];
      CompletedOf(lenses[..|lenses| - 1], cached, hash, review)
      + if Succeeds(lens, cached, hash, review) then [VerdictOf(lens, cached, hash, review)] else []
  }

  /** The failed lenses of a declaration, in its order. */
  function FailuresOf(lenses: seq<Lens>, cached: Cache, hash: Lens -> Digest, review: Lens -> Outcome): seq<Failure> {
    if lenses == [] then []
    else
      var lens := lenses[|lenses| - 1];
      FailuresOf(lenses[..|lenses| - 1], cached, hash, review)
      + if Succeeds(lens, cached, hash, review) then [] else [Failure(lens.id, review(lens).error)]
  }

  /** The lenses whose review is started: those without usable prior evidence. */
  function Started(lenses: seq<Lens>, cached: Cache, hash: Lens -> Digest): seq<string> {
    if lenses == [] then []
    else
      var lens := lenses[|lenses| - 1];
      Started(lenses[..|lenses| - 1], cached, hash) + if IsReused(lens, cached, hash) then [] else [lens.id]
  }

  /** How many of the first lenses succeed: the place of the next success among the completed. */
  function Successes(lenses: seq<Lens>, cached: Cache, hash: Lens -> Digest, review: Lens -> Outcome): nat {
    |CompletedOf(lenses, cached, hash, review)|
  }

  /**
    Completed and failed lenses partition the declaration and keep its order: a lens that succeeds is
    completed at the place given by the successes before it, any other is a failure at the place given
    by the failures before it, and there is nothing else in either list.
  */
  lemma {:induction false} Partition(
    lenses: seq<Lens>, cached: Cache, hash: Lens -> Digest, review: Lens -> Outcome, i: nat)
    requires i < |lenses|
    ensures Successes(lenses, cached, hash, review) + |FailuresOf(lenses, cached, hash, review)| == |lenses|
    ensures Succeeds(lenses[i], cached, hash, review) ==>
        var k := Successes(lenses[..i], cached, hash, review);
        k < Successes(lenses, cached, hash, review)
        && CompletedOf(lenses, cached, hash, review)[k] == VerdictOf(lenses[i], cached, hash, review)
    ensures !Succeeds(lenses[i], cached, hash, review) ==>
        var k := i - Successes(lenses[..i], cached, hash, review);
        0 <= k < |FailuresOf(lenses, cached, hash, review)|
        && FailuresOf(lenses, cached, hash, review)[k] == Failure(lenses[i].id, review(lenses[i]).error)
    decreases |lenses|
  {
    var front := lenses[..|lenses| - 1];
    PartitionSizes(front, cached, hash, review);
    PartitionSizes(lenses[..i], cached, hash, review);
    if i < |front| {
      Partition(front, cached, hash, review, i);
      assert front[..i] == lenses[..i];
    } else {
      assert lenses[..i] == front;
    }
  }

  lemma {:induction false} PartitionSizes(
    lenses: seq<Lens>, cached: Cache, hash: Lens -> Digest, review: Lens -> Outcome)
    ensures Successes(lenses, cached, hash, review) + |FailuresOf(lenses, cached, hash, review)| == |lenses|
    decreases |lenses|
  {
    if lenses != [] { PartitionSizes(lenses[..|lenses| - 1], cached, hash, review); }
  }

  /** With no failure, the completed lenses are the declaration, one for one. */
  lemma {:induction false} CompleteIsWhole(
    lenses: seq<Lens>, cached: Cache, hash: Lens -> Digest, review: Lens -> Outcome)
    requires FailuresOf(lenses, cached, hash, review) == []
    ensures |CompletedOf(lenses, cached, hash, review)| == |lenses|
    ensures forall i | 0 <= i < |lenses| ::
              && Succeeds(lenses[i], cached, hash, review)
              && CompletedOf(lenses, cached, hash, review)[i] == VerdictOf(lenses[i], cached, hash, review)
    decreases |lenses|
  {
    if lenses != [] { CompleteIsWhole(lenses[..|lenses| - 1], cached, hash, review); }
  }

  lemma {:induction false} StartedIff(lenses: seq<Lens>, cached: Cache, hash: Lens -> Digest, i: nat)
    requires UniqueIds(lenses) && i < |lenses|
    ensures lenses[i].id in Started(lenses, cached, hash) <==> !IsReused(lenses[i], cached, hash)
    decreases |lenses|
  {
    var front := lenses[..|lenses| - 1];
    StartedAreDeclared(front, cached, hash);
    if i < |front| { StartedIff(front, cached, hash, i); }
  }

  lemma {:induction false} StartedAreDeclared(lenses: seq<Lens>, cached: Cache, hash: Lens -> Digest)
    ensures forall id | id in Started(lenses, cached, hash) :: exists i | 0 <= i < |lenses| :: lenses[i].id == id
    decreases |lenses|
  {
    if lenses != [] {
      var front := lenses[..|lenses| - 1];
      StartedAreDeclared(front, cached, hash);
      forall id | id in Started(lenses, cached, hash) ensures exists i | 0 <= i < |lenses| :: lenses[i].id == id {
        if id in Started(front, cached, hash) {
          var i :| 0 <= i < |front| && front[i].id == id;
          assert lenses[i].id == id;
        }
      }
    }
  }

  /** The state every attempt must end in. */
  function FinalState(lens: Lens, cached: Cache, hash: Lens -> Digest, review: Lens -> Outcome): Attempt {
    if IsReused(lens, cached, hash) then Reused else if review(lens).Output? then Completed else Failed
  }

  /** The state of an attempt once its review, if it needs one, is under way. */
  function StartedState(lens: Lens, cached: Cache, hash: Lens -> Digest): Attempt {
    if IsReused(lens, cached, hash) then Reused else Running
  }

  /** The reviews under way: one per lens without usable prior evidence, each with the outcome it will have. */
  ghost predicate IsUnderWay(
    lenses: seq<Lens>, cached: Cache, hash: Lens -> Digest, review: Lens -> Outcome,
    pending: map<string, Outcome>, states: map<string, Attempt>)
  {
    forall k | 0 <= k < |lenses| ::
      && lenses[k].id in states && states[lenses[k].id] == StartedState(lenses[k], cached, hash)
      && (!IsReused(lenses[k], cached, hash) ==>
            lenses[k].id in pending && pending[lenses[k].id] == review(lenses[k]))
  }

  lemma NextStarted(lenses: seq<Lens>, cached: Cache, hash: Lens -> Digest, i: nat)
    requires i < |lenses|
    ensures Started(lenses[..i + 1], cached, hash) ==
            Started(lenses[..i], cached, hash) + if IsReused(lenses[i], cached, hash) then [] else [lenses[i].id]
  {
    assert lenses[..i + 1][..i] == lenses[..i];
  }

  /** Creates every review before any is awaited. */
  method StartReviews(lenses: seq<Lens>, cached: Cache, hash: Lens -> Digest, review: Lens -> Outcome)
      returns (pending: map<string, Outcome>, states: map<string, Attempt>, started: seq<string>)
    requires UniqueIds(lenses)
    ensures IsUnderWay(lenses, cached, hash, review, pending, states)
    ensures started == Started(lenses, cached, hash)
  {
    hide Started;
    pending, states, started := map[], map[], [];
    assert Started(lenses[..0], cached, hash) == [] by { NothingStarted(cached, hash); }
    for i := 0 to |lenses|
      invariant started == Started(lenses[..i], cached, hash)
      invariant IsUnderWay(lenses[..i], cached, hash, review, pending, states)
    {
      var lens := lenses[i];
      NextStarted(lenses, cached, hash, i);
      if IsReused(lens, cached, hash) {
        states := states[lens.id := StepAttempt(Pending, Reuse)];
        continue;
      }
      states := states[lens.id := StepAttempt(Pending, Start)];
      started := started + [lens.id];
      pending := pending[lens.id := review(lens)];
    }
    assert lenses[..|lenses|] == lenses;
  }

  lemma NothingStarted(cached: Cache, hash: Lens -> Digest)
    ensures Started([], cached, hash) == []
  {
  }

  /** Waits for all of them; any one of those still waiting may settle next. */
  method AwaitAll(pending: map<string, Outcome>) returns (settled: map<string, Outcome>)
    ensures settled == pending
  {
    settled := map[];
    var waiting := pending.Keys;
    while waiting != {}
      invariant waiting <= pending.Keys && settled.Keys == pending.Keys - waiting
      invariant forall id | id in settled :: settled[id] == pending[id]
      decreases |waiting|
    {
      var id :| id in waiting;
      settled := settled[id := pending[id]];
      waiting := waiting - {id};
    }
  }

  lemma NextCollected(lenses: seq<Lens>, cached: Cache, hash: Lens -> Digest, review: Lens -> Outcome, i: nat)
    requires i < |lenses|
    ensures CompletedOf(lenses[..i + 1], cached, hash, review) ==
            CompletedOf(lenses[..i], cached, hash, review)
            + if Succeeds(lenses[i], cached, hash, review) then [VerdictOf(lenses[i], cached, hash, review)] else []
    ensures FailuresOf(lenses[..i + 1], cached, hash, review) ==
            FailuresOf(lenses[..i], cached, hash, review)
            + if Succeeds(lenses[i], cached, hash, review) then []
              else [Failure(lenses[i].id, review(lenses[i]).error)]
  {
    assert lenses[..i + 1][..i] == lenses[..i];
  }

  lemma NothingCollected(cached: Cache, hash: Lens -> Digest, review: Lens -> Outcome)
    ensures CompletedOf([], cached, hash, review) == [] && FailuresOf([], cached, hash, review) == []
  {
  }

  /**
    Starts every missing review before waiting for any, lets them settle in whatever order they please,
    and reports in declaration order. The result is a function of the inputs: the order never shows.
  */
  method Run(lenses: seq<Lens>, cached: Cache, hash: Lens -> Digest, review: Lens -> Outcome)
      returns (r: Result<FanoutResult, string>, started: seq<string>, ghost finalStates: map<string, Attempt>)
    ensures r.Ok? <==> IsLensSet(lenses)
    ensures r.Err? ==> started == []
    ensures r.Ok? ==> started == Started(lenses, cached, hash)
    ensures r.Ok? ==> r.value.completed == CompletedOf(lenses, cached, hash, review)
    ensures r.Ok? ==> r.value.failures == FailuresOf(lenses, cached, hash, review)
    ensures r.Ok? ==> forall i | 0 <= i < |lenses| ::
        lenses[i].id in finalStates && finalStates[lenses[i].id] == FinalState(lenses[i], cached, hash, review)
  {
    hide IsLens, Started, CompletedOf, FailuresOf;
    started, finalStates := [], map[];
    if !IsLensSet(lenses) {
      return Err("invalid audit lens set"), started, finalStates;
    }
    var pending, states;
    pending, states, started := StartReviews(lenses, cached, hash, review);
    var settled := AwaitAll(pending);
    var completed: seq<LensVerdict> := [];
    var failures: seq<Failure> := [];
    assert lenses[..0] == [];
    NothingCollected(cached, hash, review);
    for i := 0 to |lenses|
      invariant completed == CompletedOf(lenses[..i], cached, hash, review)
      invariant failures == FailuresOf(lenses[..i], cached, hash, review)
      invariant forall k | 0 <= k < |lenses| :: lenses[k].id in states
      invariant forall k | 0 <= k < i :: states[lenses[k].id] == FinalState(lenses[k], cached, hash, review)
      invariant forall k | i <= k < |lenses| :: states[lenses[k].id] == StartedState(lenses[k], cached, hash)
    {
      var lens := lenses[i];
      NextCollected(lenses, cached, hash, review, i);
      if IsReused(lens, cached, hash) {
        completed := completed + [cached[lens.id]];
        continue;
      }
      if lens.id in settled && settled[lens.id].Output? {
        states := states[lens.id := StepAttempt(states[lens.id], Resolve)];
        completed := completed + [LensVerdict(lens.id, hash(lens), settled[lens.id].output)];
      } else {
        states := states[lens.id := StepAttempt(states[lens.id], Reject)];
        var error := if lens.id !in settled then "audit lens did not settle" else settled[lens.id].error;
        failures := failures + [Failure(lens.id, error)];
      }
    }
    assert lenses[..|lenses|] == lenses;
    finalStates := states;
    r := Ok(FanoutResult(completed, failures));
  }
}
