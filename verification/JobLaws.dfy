/** What a job's status and outcome say about its past, over all runs of the job protocol, late writes included. */
module JobLaws {
  import opened Options
  import opened JobProtocol
  import opened JobTable
  import opened LateWrites

  // ---- How a status changes ----

  predicate Finishes(e: LateEvent, id: JobId, ok: bool) {
    match e
    case Whole(Finish(other, outcome, _)) => other == id && outcome == ok
    case Whole(_) => false
    case Write(other, _, intent) => other == id && intent.Done? && intent.ok == ok
  }

  /** The stale reset of the background task finds the job silent. */
  predicate Sweeps(e: LateEvent, at: Time, job: Job) {
    e.Whole? && e.event.ResetStale? && Silent(job, at - e.event.timeout)
  }

  predicate SpentBudget(e: LateEvent, job: Job) {
    e.Whole? && e.event.ResetStale? && e.event.maxRetries > 0 && job.staleResets >= e.event.maxRetries
  }

  /** A claim that finds the job pending. */
  predicate Claims(e: LateEvent, id: JobId, job: Job) {
    e == Whole(Claim(id)) && job.status == Pending
  }

  /** A stale reset within budget, a reset of the web route, or a retry. */
  predicate PutsBack(e: LateEvent, at: Time, id: JobId, job: Job) {
    match e
    case Whole(WebReset(timeout)) => Silent(job, at - timeout)
    case Whole(Retry(other)) => other == id && job.status == Failed
    case Whole(_) => Sweeps(e, at, job) && !SpentBudget(e, job)
    case Write(other, read, intent) => other == id && (intent.Reset? || intent.Again?) && Allowed(read, intent, at)
  }

  /** Ids are handed out once. */
  ghost predicate IdsBehind(s: State) {
    s.history.Keys >= s.jobs.Keys && forall id <- s.jobs :: id < s.nextId
  }

  lemma {:induction false} RunKeepsIdsBehind(s: State, steps: seq<LateStep>)
    requires IdsBehind(s)
    ensures IdsBehind(RunLate(s, steps))
    decreases |steps|
  {
    if steps != [] { RunKeepsIdsBehind(ApplyLate(s, steps[0].event, steps[0].at), steps[1..]); }
  }

  /** Status changes for these reasons only; a late result that read the status it writes changes nothing. */
  lemma StatusMoves(s: State, e: LateEvent, at: Time, id: JobId)
    requires IdsBehind(s) && id in s.jobs && id in ApplyLate(s, e, at).jobs
    ensures var before, after := s.jobs[id], ApplyLate(s, e, at).jobs[id];
      after.status != before.status ==>
        match after.status
        case Running => Claims(e, id, before)
        case Completed => Finishes(e, id, true)
        case Failed => Finishes(e, id, false) || (Sweeps(e, at, before) && SpentBudget(e, before))
        case Pending => PutsBack(e, at, id, before)
  {
  }

  /** And for each of them it does. */
  lemma ReasonsMove(s: State, e: LateEvent, at: Time, id: JobId)
    requires IdsBehind(s) && id in s.jobs && id in ApplyLate(s, e, at).jobs
    ensures var before, after := s.jobs[id], ApplyLate(s, e, at).jobs[id];
      && (Claims(e, id, before) ==> after.status == Running)
      && (e.Whole? && Finishes(e, id, true) ==> after.status == Completed)
      && (e.Whole? && Finishes(e, id, false) ==> after.status == Failed)
      && (Sweeps(e, at, before) && SpentBudget(e, before) ==> after.status == Failed)
      && (PutsBack(e, at, id, before) ==> after.status == Pending)
  {
  }

  /** New rows are pending, of the key asked for, and rows only go when cancelled while pending. */
  lemma RowsComeAndGo(s: State, e: LateEvent, at: Time, id: JobId)
    requires IdsBehind(s)
    ensures var after := ApplyLate(s, e, at).jobs;
      && (id in after && id !in s.jobs ==> e == Whole(Request(after[id].key)) && after[id].status == Pending)
      && (id in s.jobs && id !in after <==>
            id in s.jobs && e == Whole(CancelDelete(id)) && s.jobs[id].status == Pending)
      && (id in s.jobs && id in after ==> after[id].key == s.jobs[id].key)
  {
  }

  // ---- What the history counts ----

  predicate Requests(s: State, e: LateEvent, id: JobId) {
    e.Whole? && e.event.Request? && id == s.nextId
    && forall other <- s.jobs :: s.jobs[other].key == e.event.key ==> s.jobs[other].status in {Completed, Failed}
  }

  /** A heartbeat that lands on a running job, and when it was stamped. */
  predicate BeatsAt(e: LateEvent, at: Time, id: JobId, job: Job, stamp: Time) {
    job.status == Running &&
    match e
    case Whole(Report(other, _)) => other == id && stamp == at
    case Whole(_) => false
    case Write(other, read, Beat(_, t)) => other == id && read.status == Running && t == stamp && t <= at
    case Write(_, _, _) => false
  }

  predicate ByHand(e: LateEvent) {
    match e
    case Whole(event) => event.WebReset? || event.Retry?
    case Write(_, _, intent) => intent.Reset? || intent.Again?
  }

  /** The history of a job counts its claims and resets, and remembers the last claim and the beats since. */
  lemma HistoryMoves(s: State, e: LateEvent, at: Time, id: JobId)
    requires IdsBehind(s) && id in s.jobs
    ensures id in s.history && id in ApplyLate(s, e, at).history
    ensures var job, h, after := s.jobs[id], s.history[id], ApplyLate(s, e, at).history[id];
      var claims, back := Claims(e, id, job), PutsBack(e, at, id, job);
      && after.claims == h.claims + (if claims then 1 else 0)
      && after.resets == h.resets + (if back then 1 else 0)
      && after.lastClaim == (if claims then at else h.lastClaim)
      && after.claimsSinceManual
         == (if back && ByHand(e) then 0 else h.claimsSinceManual + if claims then 1 else 0)
      && (claims ==> after.beats == [])
      && (!claims && (forall stamp :: !BeatsAt(e, at, id, job, stamp)) ==> after.beats == h.beats)
      && (forall stamp :: BeatsAt(e, at, id, job, stamp) ==> after.beats == h.beats + [stamp])
  {
    assert e.Whole? && e.event.Report? ==> BeatsAt(e, at, e.event.id, s.jobs[id], at) || s.jobs[id].status != Running;
    if e.Write? && e.intent.Beat? && e.id == id && e.read.status == Running && s.jobs[id].status == Running {
      assert e.intent.stamp <= at ==> BeatsAt(e, at, id, s.jobs[id], e.intent.stamp);
    }
  }

  /** A new job's history is empty, and a job's history outlives it. */
  lemma HistoryComes(s: State, e: LateEvent, at: Time, id: JobId)
    requires IdsBehind(s) && id !in s.jobs && forall known <- s.history :: known < s.nextId
    ensures var after := ApplyLate(s, e, at);
      && (Requests(s, e, id) <==> id in after.jobs)
      && (id in after.history <==> id in s.history || Requests(s, e, id))
      && (id in s.history ==> after.history[id] == s.history[id])
      && (Requests(s, e, id) ==> after.history[id] == History(0, 0, at, [], 0))
      && after.nextId == s.nextId + if Requests(s, e, s.nextId) then 1 else 0
  {
    if e.Whole? && e.event.Request? { NoneActiveIff(s.jobs, e.event.key); }
  }

  // ---- What a status says about the past ----

  /** Step `k` ends the job so. */
  ghost predicate EndsAt(steps: seq<LateStep>, k: nat, id: JobId, end: Status)
    requires k < |steps|
  {
    var s, e, at := RunLate(EMPTY, steps[..k]), steps[k].event, steps[k].at;
    && id in s.jobs
    && (if end == Completed then Finishes(e, id, true)
        else Finishes(e, id, false) || (Sweeps(e, at, s.jobs[id]) && SpentBudget(e, s.jobs[id])))
  }

  ghost predicate ClaimsAt(steps: seq<LateStep>, k: nat, id: JobId)
    requires k < |steps|
  {
    var s := RunLate(EMPTY, steps[..k]);
    id in s.jobs && Claims(steps[k].event, id, s.jobs[id])
  }

  /** It was ended so, and not claimed since. */
  ghost predicate EndedSinceClaim(steps: seq<LateStep>, id: JobId, end: Status) {
    exists k: nat :: k < |steps| && EndsAt(steps, k, id, end) && NotClaimedAfter(steps, k, id)
  }

  ghost predicate NotClaimedAfter(steps: seq<LateStep>, k: nat, id: JobId) {
    forall j: nat | k < j < |steps| :: !ClaimsAt(steps, j, id)
  }

  lemma AtPrefix(steps: seq<LateStep>, step: LateStep, k: nat, id: JobId, end: Status)
    requires k < |steps|
    ensures EndsAt(steps + [step], k, id, end) <==> EndsAt(steps, k, id, end)
    ensures ClaimsAt(steps + [step], k, id) <==> ClaimsAt(steps, k, id)
  {
    assert (steps + [step])[..k] == steps[..k];
  }

  lemma EndedBefore(steps: seq<LateStep>, step: LateStep, id: JobId, end: Status)
    requires EndedSinceClaim(steps, id, end) && !ClaimsAt(steps + [step], |steps|, id)
    ensures EndedSinceClaim(steps + [step], id, end)
  {
    var k: nat :| k < |steps| && EndsAt(steps, k, id, end) && NotClaimedAfter(steps, k, id);
    AtPrefix(steps, step, k, id, end);
    forall j: nat | k < j < |steps + [step]| ensures !ClaimsAt(steps + [step], j, id) {
      if j < |steps| { AtPrefix(steps, step, j, id, end); }
    }
  }

  lemma EndsNow(steps: seq<LateStep>, step: LateStep, id: JobId, end: Status)
    requires EndsAt(steps + [step], |steps|, id, end)
    ensures EndedSinceClaim(steps + [step], id, end)
  {
    assert NotClaimedAfter(steps + [step], |steps|, id);
  }

  lemma StatusNext(steps: seq<LateStep>, step: LateStep, id: JobId, end: Status)
    requires end == Completed || end == Failed
    requires var s := RunLate(EMPTY, steps);
      id in s.jobs && s.jobs[id].status == end ==> EndedSinceClaim(steps, id, end)
    requires var s := RunLate(EMPTY, steps + [step]); id in s.jobs && s.jobs[id].status == end
    ensures EndedSinceClaim(steps + [step], id, end)
  {
    var s := RunLate(EMPTY, steps);
    RunLateSnoc(EMPTY, steps, step);
    RunKeepsIdsBehind(EMPTY, steps);
    assert (steps + [step])[..|steps|] == steps;
    RowsComeAndGo(s, step.event, step.at, id);
    StatusMoves(s, step.event, step.at, id);
    if s.jobs[id].status == end {
      EndedBefore(steps, step, id, end);
    } else {
      EndsNow(steps, step, id, end);
    }
  }

  /**
    A job is completed only if a success was reported since its last claim, and
    failed only if a failure was, or a stale reset found it silent and its budget spent.
   */
  lemma {:induction false} StatusIsDeserved(steps: seq<LateStep>, id: JobId)
    requires id in RunLate(EMPTY, steps).jobs
    ensures var status := RunLate(EMPTY, steps).jobs[id].status;
      status == Completed || status == Failed ==> EndedSinceClaim(steps, id, status)
    decreases |steps|
  {
    var status := RunLate(EMPTY, steps).jobs[id].status;
    if steps != [] && (status == Completed || status == Failed) {
      var init, last := steps[..|steps| - 1], steps[|steps| - 1];
      assert steps == init + [last];
      if id in RunLate(EMPTY, init).jobs { StatusIsDeserved(init, id); }
      StatusNext(init, last, id, status);
    }
  }

  // ---- The success column ----

  /** What a finished row shows, and an unfinished one does not. */
  ghost predicate Shown(job: Job) {
    && (job.status == Completed <==> job.success == Some(true))
    && (job.status == Failed <==> job.success == Some(false))
    && (job.completedAt.Some? <==> job.success.Some?)
  }

  lemma StepShowsOutcome(s: State, e: Event, at: Time)
    requires s.history.Keys >= s.jobs.Keys && forall id <- s.jobs :: Shown(s.jobs[id])
    ensures forall id <- Apply(s, e, at).jobs :: Shown(Apply(s, e, at).jobs[id])
  {
    var next := Apply(s, e, at);
    forall id <- next.jobs ensures Shown(next.jobs[id]) {
      if id in s.jobs { assert Shown(s.jobs[id]); }
    }
  }

  /** When each request is one step, the outcome columns always say what the status says. */
  lemma {:induction false} RunShowsOutcome(s: State, steps: seq<Step>)
    requires s.history.Keys >= s.jobs.Keys && forall id <- s.jobs :: Shown(s.jobs[id])
    ensures forall id <- Run(s, steps).jobs :: Shown(Run(s, steps).jobs[id])
    decreases |steps|
  {
    if steps != [] {
      var next := Apply(s, steps[0].event, steps[0].at);
      HistoryKept(s, steps[0]);
      StepShowsOutcome(s, steps[0].event, steps[0].at);
      RunShowsOutcome(next, steps[1..]);
    }
  }

  lemma SuccessMoves(s: State, e: LateEvent, at: Time, id: JobId)
    requires IdsBehind(s) && id in ApplyLate(s, e, at).jobs && ApplyLate(s, e, at).jobs[id].success == Some(true)
    ensures id in s.jobs && (s.jobs[id].success == Some(true) || Finishes(e, id, true))
  {
  }

  /** So far every row that says success was reported to be one since its last claim. */
  ghost predicate SuccessIsFresh(steps: seq<LateStep>) {
    forall id <- RunLate(EMPTY, steps).jobs ::
      RunLate(EMPTY, steps).jobs[id].success == Some(true) ==> EndedSinceClaim(steps, id, Completed)
  }

  /** The step claims no row that still says success. */
  ghost predicate ClaimsClean(steps: seq<LateStep>, step: LateStep) {
    var s := RunLate(EMPTY, steps);
    forall id <- s.jobs :: Claims(step.event, id, s.jobs[id]) ==> s.jobs[id].success != Some(true)
  }

  lemma FreshNext(steps: seq<LateStep>, step: LateStep, id: JobId)
    requires SuccessIsFresh(steps) && ClaimsClean(steps, step)
    requires var s := RunLate(EMPTY, steps + [step]); id in s.jobs && s.jobs[id].success == Some(true)
    ensures EndedSinceClaim(steps + [step], id, Completed)
  {
    var s := RunLate(EMPTY, steps);
    RunLateSnoc(EMPTY, steps, step);
    RunKeepsIdsBehind(EMPTY, steps);
    assert (steps + [step])[..|steps|] == steps;
    SuccessMoves(s, step.event, step.at, id);
    if Finishes(step.event, id, true) {
      EndsNow(steps, step, id, Completed);
    } else {
      EndedBefore(steps, step, id, Completed);
    }
  }

  lemma ClaimOfSuccess(steps: seq<LateStep>, step: LateStep)
    requires !ClaimsClean(steps, step)
    ensures !SuccessIsFresh(steps + [step])
  {
    var s := RunLate(EMPTY, steps);
    RunKeepsIdsBehind(EMPTY, steps);
    RunLateSnoc(EMPTY, steps, step);
    var id :| id in s.jobs && Claims(step.event, id, s.jobs[id]) && s.jobs[id].success == Some(true);
    var all := steps + [step];
    assert all[..|steps|] == steps;
    assert ClaimsAt(all, |steps|, id) && !EndsAt(all, |steps|, id, Completed);
    assert id in RunLate(EMPTY, all).jobs && RunLate(EMPTY, all).jobs[id].success == Some(true);
    assert !EndedSinceClaim(all, id, Completed) by {
      forall k: nat | k < |all| && EndsAt(all, k, id, Completed) ensures !NotClaimedAfter(all, k, id) {
        assert k < |steps| && ClaimsAt(all, |steps|, id);
      }
    }
  }

  /** With late writes, success stays fresh through a step if and only if the step claims no row that says success. */
  lemma SuccessStaysFreshIff(steps: seq<LateStep>, step: LateStep)
    requires SuccessIsFresh(steps)
    ensures SuccessIsFresh(steps + [step]) <==> ClaimsClean(steps, step)
  {
    if ClaimsClean(steps, step) {
      forall id <- RunLate(EMPTY, steps + [step]).jobs
        | RunLate(EMPTY, steps + [step]).jobs[id].success == Some(true)
        ensures EndedSinceClaim(steps + [step], id, Completed)
      {
        FreshNext(steps, step, id);
      }
    } else {
      ClaimOfSuccess(steps, step);
    }
  }

  ghost predicate AlwaysFresh(steps: seq<LateStep>) {
    forall n: nat | n <= |steps| :: SuccessIsFresh(steps[..n])
  }

  ghost predicate AlwaysClaimsClean(steps: seq<LateStep>) {
    forall n: nat | n < |steps| :: ClaimsClean(steps[..n], steps[n])
  }

  /** Throughout a run a row says success only for its last claim if and only if no claim finds one that says so. */
  lemma AlwaysFreshIff(steps: seq<LateStep>)
    ensures AlwaysFresh(steps) <==> AlwaysClaimsClean(steps)
  {
    if AlwaysFresh(steps) {
      forall n: nat | n < |steps| ensures ClaimsClean(steps[..n], steps[n]) {
        assert steps[..n + 1] == steps[..n] + [steps[n]];
        assert SuccessIsFresh(steps[..n]) && SuccessIsFresh(steps[..n + 1]);
        SuccessStaysFreshIff(steps[..n], steps[n]);
      }
    }
    if AlwaysClaimsClean(steps) {
      forall n: nat | n <= |steps| ensures SuccessIsFresh(steps[..n]) {
        FreshUpTo(steps, n);
      }
    }
  }

  lemma {:induction false} FreshUpTo(steps: seq<LateStep>, n: nat)
    requires n <= |steps| && AlwaysClaimsClean(steps)
    ensures SuccessIsFresh(steps[..n])
  {
    if n > 0 {
      FreshUpTo(steps, n - 1);
      assert steps[..n] == steps[..n - 1] + [steps[n - 1]];
      assert ClaimsClean(steps[..n - 1], steps[n - 1]);
      SuccessStaysFreshIff(steps[..n - 1], steps[n - 1]);
    }
  }

  /** A job that finished while the web route was about to reset it is claimed with the old success on its row. */
  lemma OldSuccessIsClaimed(key: Key)
    ensures exists steps :: InLateOrder(steps, 0) && !AlwaysFresh(steps)
  {
    var steps := ClaimedOnce(key);
    var read := RunningJob(key, 1);
    steps := ThenWrite(steps, read, 1, [], 1, read, Done(true, None, 4), 4);
    var done := read.(status := Completed, success := Some(true), completedAt := Some(4));
    steps := ThenWrite(steps, done, 1, [], 4, read, Reset, 5);
    var back := NewJob(key).(success := Some(true), completedAt := Some(4));
    var s :| Reached(steps, s, 5) && HoldsOne(s, back, 1, []);
    var all, next := Then(steps, s, 5, Whole(Claim(0)), 6);
    var step := LateStep(Whole(Claim(0)), 6);
    var again := steps + [step];
    OrderSnoc(steps, step, 0);
    assert Claims(step.event, 0, s.jobs[0]);
    assert again[..|steps|] == steps && !ClaimsClean(again[..|steps|], again[|steps|]);
    AlwaysFreshIff(again);
  }
}
