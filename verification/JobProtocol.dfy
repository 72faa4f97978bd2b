/**
  The analysis job protocol as a state machine over a clock: request, claim,
  heartbeat, finish, cancel, stale reset and retry (myapp/blueprints/api.py,
  myapp/blueprints/analysis.py, myapp/services/analysis_queue.py).
 */
module JobProtocol {
  import opened Options

  type JobId = nat
  type Time = int

  datatype Status = Pending | Running | Completed | Failed

  /** What makes two jobs the same work. */
  datatype Key = Key(artefact: Option<nat>, kind: nat, hints: Option<string>)

  /** An analyses row; `result` stands for the fields a worker fills in. */
  datatype Job = Job(key: Key, status: Status, startedAt: Option<Time>, completedAt: Option<Time>,
                     heartbeatAt: Option<Time>, progress: Option<string>, result: Option<string>,
                     success: Option<bool>, staleResets: nat)

  /** What happened to a job, which its row forgets. */
  datatype History = History(claims: nat, resets: nat, lastClaim: Time, beats: seq<Time>, claimsSinceManual: nat)

  datatype State = State(jobs: map<JobId, Job>, nextId: JobId, history: map<JobId, History>)

  datatype Event =
    | Request(key: Key)
    | Claim(id: JobId)
    | Report(id: JobId, message: Option<string>)
    | Finish(id: JobId, ok: bool, result: Option<string>)
    | CancelDelete(id: JobId)
    | ResetStale(timeout: nat, maxRetries: int)
    | WebReset(timeout: nat)
    | Retry(id: JobId)

  // ---- Rows ----

  function NewJob(key: Key): Job {
    Job(key, Pending, None, None, None, None, None, None, 0)
  }

  predicate Active(job: Job) {
    job.status == Pending || job.status == Running
  }

  /** last_activity_at, and the coalesce of the SQL paths. */
  function LastActivity(job: Job): Option<Time> {
    if job.heartbeatAt.Some? then job.heartbeatAt else job.startedAt
  }

  /** The row filter of both stale resets; a comparison with NULL selects nothing. */
  predicate Stale(job: Job, cutoff: Time) {
    job.status == Running && LastActivity(job).Some? && LastActivity(job).value < cutoff
  }

  /** _reset_for_retry. */
  function Requeued(job: Job): Job {
    NewJob(job.key)
  }

  /** The re-queue and dead-letter updates of reset_stale_analyses_core. */
  function Recovered(job: Job, maxRetries: int, now: Time): Job {
    if maxRetries > 0 && job.staleResets >= maxRetries then
      job.(status := Failed, success := Some(false), completedAt := Some(now), progress := None, heartbeatAt := None)
    else NewJob(job.key).(staleResets := job.staleResets + 1)
  }

  function Reported(job: Job, message: Option<string>, now: Time): Job {
    job.(progress := if message.Some? then message else job.progress,
         heartbeatAt := if job.status == Running then Some(now) else job.heartbeatAt)
  }

  function Finished(job: Job, ok: bool, result: Option<string>, now: Time): Job {
    job.(status := if ok then Completed else Failed, success := Some(ok), completedAt := Some(now),
         result := if result.Some? then result else job.result, progress := None, heartbeatAt := None)
  }

  // ---- Steps ----

  function ActiveWith(jobs: map<JobId, Job>, key: Key): set<JobId> {
    set id <- jobs | jobs[id].key == key && Active(jobs[id])
  }

  ghost function Apply(s: State, e: Event, now: Time): State
    requires s.history.Keys >= s.jobs.Keys
  {
    match e
    case Request(key) =>
      if ActiveWith(s.jobs, key) != {} then s
      else State(s.jobs[s.nextId := NewJob(key)], s.nextId + 1, s.history[s.nextId := History(0, 0, now, [], 0)])
    case Claim(id) =>
      if id !in s.jobs || s.jobs[id].status != Pending then s
      else
        var h := s.history[id];
        s.(jobs := s.jobs[id := s.jobs[id].(status := Running, startedAt := Some(now))],
           history := s.history[id := History(h.claims + 1, h.resets, now, [], h.claimsSinceManual + 1)])
    case Report(id, message) =>
      if id !in s.jobs then s
      else
        var h := s.history[id];
        s.(jobs := s.jobs[id := Reported(s.jobs[id], message, now)],
           history := if s.jobs[id].status == Running then s.history[id := h.(beats := h.beats + [now])] else s.history)
    case Finish(id, ok, result) =>
      if id !in s.jobs then s else s.(jobs := s.jobs[id := Finished(s.jobs[id], ok, result, now)])
    case CancelDelete(id) =>
      if id in s.jobs && s.jobs[id].status == Pending then s.(jobs := s.jobs - {id}) else s
    case ResetStale(timeout, maxRetries) =>
      s.(jobs := SweepJobs(s.jobs, now - timeout, maxRetries, now),
         history := SweepHistory(s, now - timeout, maxRetries))
    case WebReset(timeout) =>
      s.(jobs := map id <- s.jobs :: if Stale(s.jobs[id], now - timeout) then Requeued(s.jobs[id]) else s.jobs[id],
         history := map id <- s.history ::
           if id in s.jobs && Stale(s.jobs[id], now - timeout)
           then s.history[id].(resets := s.history[id].resets + 1, claimsSinceManual := 0) else s.history[id])
    case Retry(id) =>
      if id !in s.jobs || s.jobs[id].status != Failed then s
      else
        var h := s.history[id];
        s.(jobs := s.jobs[id := Requeued(s.jobs[id])],
           history := s.history[id := h.(resets := h.resets + 1, claimsSinceManual := 0)])
  }

  function SweepJobs(jobs: map<JobId, Job>, cutoff: Time, maxRetries: int, now: Time): map<JobId, Job> {
    map id <- jobs :: if Stale(jobs[id], cutoff) then Recovered(jobs[id], maxRetries, now) else jobs[id]
  }

  ghost function SweepHistory(s: State, cutoff: Time, maxRetries: int): map<JobId, History> {
    map id <- s.history ::
      if id in s.jobs && Stale(s.jobs[id], cutoff) && !(maxRetries > 0 && s.jobs[id].staleResets >= maxRetries)
      then s.history[id].(resets := s.history[id].resets + 1) else s.history[id]
  }

  // ---- Runs ----

  datatype Step = Step(event: Event, at: Time)

  ghost predicate InOrder(steps: seq<Step>, from: Time) {
    steps == [] || (from <= steps[0].at && InOrder(steps[1..], steps[0].at))
  }

  const EMPTY := State(map[], 0, map[])

  ghost function Run(s: State, steps: seq<Step>): State
    requires s.history.Keys >= s.jobs.Keys
    decreases |steps|
  {
    if steps == [] then s
    else
      HistoryKept(s, steps[0]);
      Run(Apply(s, steps[0].event, steps[0].at), steps[1..])
  }

  lemma HistoryKept(s: State, step: Step)
    requires s.history.Keys >= s.jobs.Keys
    ensures var next := Apply(s, step.event, step.at); next.history.Keys >= next.jobs.Keys
  {
  }

  // ---- What every step keeps ----

  /** A running job's times are those of its last claim and last heartbeat; other jobs carry no heartbeat. */
  ghost predicate Clocked(job: Job, h: History, now: Time) {
    if job.status == Running then
      && job.startedAt == Some(h.lastClaim)
      && job.heartbeatAt == (if h.beats == [] then None else Some(h.beats[|h.beats| - 1]))
      && (forall b <- h.beats :: h.lastClaim <= b <= h.beats[|h.beats| - 1])
      && h.lastClaim <= now && (forall b <- h.beats :: b <= now)
    else job.heartbeatAt.None?
  }

  /** Every claim but the current one has been undone by a reset. */
  ghost predicate Counted(job: Job, h: History) {
    && h.claims <= h.resets + 1
    && (job.status == Pending ==> h.claims <= h.resets)
    && h.claimsSinceManual <= job.staleResets + 1
    && (job.status == Pending ==> h.claimsSinceManual <= job.staleResets)
  }

  ghost predicate Inv(s: State, now: Time) {
    && s.history.Keys >= s.jobs.Keys
    && (forall id <- s.history :: id < s.nextId && s.history[id].claims <= s.history[id].resets + 1)
    && (forall id <- s.jobs :: Clocked(s.jobs[id], s.history[id], now) && Counted(s.jobs[id], s.history[id]))
  }

  lemma ClockedLater(job: Job, h: History, now: Time, later: Time)
    requires Clocked(job, h, now) && now <= later
    ensures Clocked(job, h, later)
  {
  }

  lemma ReportKeepsClock(job: Job, h: History, message: Option<string>, now: Time, at: Time)
    requires Clocked(job, h, now) && now <= at
    ensures Clocked(Reported(job, message, at), if job.status == Running then h.(beats := h.beats + [at]) else h, at)
  {
    if job.status == Running {
      var beats := h.beats + [at];
      forall b <- beats ensures h.lastClaim <= b <= at {
        if b in h.beats {}
      }
    }
  }

  lemma ReportKeepsInv(s: State, id: JobId, message: Option<string>, now: Time, at: Time)
    requires Inv(s, now) && now <= at
    ensures Inv(Apply(s, Report(id, message), at), at)
  {
    var next := Apply(s, Report(id, message), at);
    forall i <- next.jobs ensures Clocked(next.jobs[i], next.history[i], at) && Counted(next.jobs[i], next.history[i]) {
      ClockedLater(s.jobs[i], s.history[i], now, at);
      if i == id { ReportKeepsClock(s.jobs[i], s.history[i], message, now, at); }
    }
  }

  lemma ResetKeepsInv(s: State, e: Event, now: Time, at: Time)
    requires Inv(s, now) && now <= at && (e.ResetStale? || e.WebReset?)
    ensures Inv(Apply(s, e, at), at)
  {
    var next := Apply(s, e, at);
    forall i <- next.jobs ensures Clocked(next.jobs[i], next.history[i], at) && Counted(next.jobs[i], next.history[i]) {
      ClockedLater(s.jobs[i], s.history[i], now, at);
    }
  }

  lemma StepKeepsInv(s: State, e: Event, now: Time, at: Time)
    requires Inv(s, now) && now <= at
    ensures Inv(Apply(s, e, at), at)
  {
    if e.Report? {
      ReportKeepsInv(s, e.id, e.message, now, at);
    } else if e.ResetStale? || e.WebReset? {
      ResetKeepsInv(s, e, now, at);
    } else {
      var next := Apply(s, e, at);
      forall id <- next.jobs
        ensures Clocked(next.jobs[id], next.history[id], at) && Counted(next.jobs[id], next.history[id])
      {
        if id in s.jobs { ClockedLater(s.jobs[id], s.history[id], now, at); }
      }
    }
  }

  lemma {:induction false} RunKeepsInv(s: State, steps: seq<Step>, now: Time) returns (end: Time)
    requires Inv(s, now) && InOrder(steps, now)
    ensures now <= end && Inv(Run(s, steps), end)
    ensures forall step <- steps :: step.at <= end
    decreases |steps|
  {
    if steps == [] {
      end := now;
    } else {
      StepKeepsInv(s, steps[0].event, now, steps[0].at);
      end := RunKeepsInv(Apply(s, steps[0].event, steps[0].at), steps[1..], steps[0].at);
      forall step <- steps ensures step.at <= end {
        if step != steps[0] { assert step in steps[1..]; }
      }
    }
  }

  /** The latest sign of life of a running job: its last claim and every heartbeat since. */
  ghost predicate QuietBefore(h: History, cutoff: Time) {
    h.lastClaim < cutoff && forall b <- h.beats :: b < cutoff
  }

  lemma StaleIffQuiet(job: Job, h: History, now: Time, cutoff: Time)
    requires Clocked(job, h, now)
    ensures Stale(job, cutoff) <==> job.status == Running && QuietBefore(h, cutoff)
  {
    if h.beats != [] { assert h.beats[|h.beats| - 1] in h.beats; }
  }

  /**
    After any run from an empty table, a stale reset takes a job out of RUNNING
    exactly when its last claim and every heartbeat since that claim are older
    than the timeout.  No live job is taken, and no dead one is left.
   */
  lemma ResetsExactlyTheQuiet(steps: seq<Step>, id: JobId, cutoff: Time, start: Time)
    requires InOrder(steps, start) && id in Run(EMPTY, steps).jobs
    ensures var s := Run(EMPTY, steps);
      id in s.history &&
      (Stale(s.jobs[id], cutoff) <==> s.jobs[id].status == Running && QuietBefore(s.history[id], cutoff))
  {
    var end := RunKeepsInv(EMPTY, steps, start);
    var s := Run(EMPTY, steps);
    StaleIffQuiet(s.jobs[id], s.history[id], end, cutoff);
  }

  /** A job that is not running carries no heartbeat time, after any run. */
  lemma OnlyRunningJobsBeat(steps: seq<Step>, id: JobId, start: Time)
    requires InOrder(steps, start) && id in Run(EMPTY, steps).jobs
    ensures Run(EMPTY, steps).jobs[id].heartbeatAt.Some? ==> Run(EMPTY, steps).jobs[id].status == Running
  {
    var end := RunKeepsInv(EMPTY, steps, start);
    assert Clocked(Run(EMPTY, steps).jobs[id], Run(EMPTY, steps).history[id], end);
  }

  /** A job's successful claims never exceed one plus its resets, even for jobs since deleted. */
  lemma ClaimsAreBounded(steps: seq<Step>, id: JobId, start: Time)
    requires InOrder(steps, start) && id in Run(EMPTY, steps).history
    ensures Run(EMPTY, steps).history[id].claims <= 1 + Run(EMPTY, steps).history[id].resets
  {
    var end := RunKeepsInv(EMPTY, steps, start);
  }

  /** Cancelling deletes a job only while every claim it ever had has been undone. */
  lemma CancelSparesClaimed(steps: seq<Step>, id: JobId, start: Time, at: Time)
    requires InOrder(steps, start) && id in Run(EMPTY, steps).jobs
    ensures var s := Run(EMPTY, steps);
      && s.history.Keys >= s.jobs.Keys
      && (id !in Apply(s, CancelDelete(id), at).jobs ==>
            s.jobs[id].status == Pending && s.history[id].claims <= s.history[id].resets)
      && (forall other <- s.jobs :: other != id ==>
            other in Apply(s, CancelDelete(id), at).jobs && Apply(s, CancelDelete(id), at).jobs[other] == s.jobs[other])
  {
    var end := RunKeepsInv(EMPTY, steps, start);
    assert Counted(Run(EMPTY, steps).jobs[id], Run(EMPTY, steps).history[id]);
  }

  /**
    The two phases of cancel: the job is found pending, other requests run, and the
    delete comes.  It removes the job if and only if it is pending then, so never
    one that was claimed in between and not reset.
   */
  lemma CancelAfterCheck(s: State, id: JobId, now: Time, between: seq<Step>, at: Time)
    requires Inv(s, now) && InOrder(between, now) && id in s.jobs && s.jobs[id].status == Pending
    ensures var late := Run(s, between);
      && late.history.Keys >= late.jobs.Keys
      && (id in late.jobs ==> (id !in Apply(late, CancelDelete(id), at).jobs <==> late.jobs[id].status == Pending))
      && (id in late.jobs && late.history[id].claims > late.history[id].resets ==>
            id in Apply(late, CancelDelete(id), at).jobs && Apply(late, CancelDelete(id), at).jobs[id] == late.jobs[id])
  {
    var end := RunKeepsInv(s, between, now);
    var late := Run(s, between);
    if id in late.jobs { assert Counted(late.jobs[id], late.history[id]); }
  }

  // ---- A poison job is claimed boundedly often ----

  ghost predicate OneCap(steps: seq<Step>, maxRetries: int) {
    forall step <- steps :: step.event.ResetStale? ==> step.event.maxRetries == maxRetries
  }

  lemma {:induction false} CapHolds(s: State, steps: seq<Step>, maxRetries: nat)
    requires s.history.Keys >= s.jobs.Keys && maxRetries > 0 && OneCap(steps, maxRetries)
    requires forall id <- s.jobs :: s.jobs[id].staleResets <= maxRetries
    ensures forall id <- Run(s, steps).jobs :: Run(s, steps).jobs[id].staleResets <= maxRetries
    decreases |steps|
  {
    if steps != [] {
      var next := Apply(s, steps[0].event, steps[0].at);
      HistoryKept(s, steps[0]);
      assert steps[0] in steps;
      assert forall step <- steps[1..] :: step in steps;
      CapHolds(next, steps[1..], maxRetries);
    }
  }

  /** Between operator resets, a job is claimed at most one time more than the stale-reset cap. */
  lemma PoisonIsBounded(steps: seq<Step>, id: JobId, start: Time, maxRetries: nat)
    requires InOrder(steps, start) && maxRetries > 0 && OneCap(steps, maxRetries)
    requires id in Run(EMPTY, steps).jobs
    ensures id in Run(EMPTY, steps).history
    ensures Run(EMPTY, steps).history[id].claimsSinceManual <= maxRetries + 1
  {
    var end := RunKeepsInv(EMPTY, steps, start);
    CapHolds(EMPTY, steps, maxRetries);
    assert Counted(Run(EMPTY, steps).jobs[id], Run(EMPTY, steps).history[id]);
  }

  // ---- One active job per piece of work ----

  ghost predicate OneActive(s: State) {
    && (forall id <- s.jobs :: id < s.nextId)
    && (forall i, j | i in s.jobs && j in s.jobs && Active(s.jobs[i]) && Active(s.jobs[j])
         && s.jobs[i].key == s.jobs[j].key :: i == j)
  }

  /** Jobs keep their keys, and none becomes active. */
  lemma NoneActivated(s: State, next: State)
    requires OneActive(s) && next.nextId >= s.nextId && next.jobs.Keys <= s.jobs.Keys
    requires forall id <- next.jobs ::
               next.jobs[id].key == s.jobs[id].key && (Active(next.jobs[id]) ==> Active(s.jobs[id]))
    ensures OneActive(next)
  {
  }

  lemma RequestKeepsOneActive(s: State, key: Key, at: Time)
    requires s.history.Keys >= s.jobs.Keys && OneActive(s)
    ensures OneActive(Apply(s, Request(key), at))
  {
    assert forall id <- s.jobs :: s.jobs[id].key == key && Active(s.jobs[id]) ==> id in ActiveWith(s.jobs, key);
  }

  lemma StepKeepsOneActive(s: State, e: Event, at: Time)
    requires s.history.Keys >= s.jobs.Keys && OneActive(s) && !e.Retry?
    ensures OneActive(Apply(s, e, at))
  {
    if e.Request? {
      RequestKeepsOneActive(s, e.key, at);
    } else {
      NoneActivated(s, Apply(s, e, at));
    }
  }

  /** Without manual retries at most one active job exists per (artefact, type, hints). */
  lemma {:induction false} RunKeepsOneActive(s: State, steps: seq<Step>)
    requires s.history.Keys >= s.jobs.Keys && OneActive(s)
    requires forall step <- steps :: !step.event.Retry?
    ensures OneActive(Run(s, steps))
    decreases |steps|
  {
    if steps != [] {
      HistoryKept(s, steps[0]);
      assert steps[0] in steps;
      StepKeepsOneActive(s, steps[0].event, steps[0].at);
      assert forall step <- steps[1..] :: step in steps;
      RunKeepsOneActive(Apply(s, steps[0].event, steps[0].at), steps[1..]);
    }
  }

  /** A retry keeps the work unique exactly when no other active job has the same key. */
  lemma RetryKeepsOneActiveIff(s: State, id: JobId, at: Time)
    requires s.history.Keys >= s.jobs.Keys && OneActive(s)
    requires id in s.jobs && s.jobs[id].status == Failed
    ensures OneActive(Apply(s, Retry(id), at)) <==> ActiveWith(s.jobs, s.jobs[id].key) == {}
  {
    var next := Apply(s, Retry(id), at);
    if other :| other in ActiveWith(s.jobs, s.jobs[id].key) {
      assert other in next.jobs && Active(next.jobs[other]) && Active(next.jobs[id]);
    }
    if ActiveWith(s.jobs, s.jobs[id].key) == {} {
      forall j <- next.jobs | Active(next.jobs[j]) && next.jobs[j].key == next.jobs[id].key ensures j == id {
        assert j !in ActiveWith(s.jobs, s.jobs[id].key);
      }
    }
  }

  // ---- A retry that does harm ----

  lemma RunCons(s: State, step: Step, rest: seq<Step>)
    requires s.history.Keys >= s.jobs.Keys
    ensures Run(s, [step] + rest) == Run(Apply(s, step.event, step.at), rest)
  {
    HistoryKept(s, step);
    assert ([step] + rest)[1..] == rest;
  }

  lemma FailedOnce(key: Key, rest: seq<Step>) returns (s: State)
    ensures s.history.Keys >= s.jobs.Keys && s.jobs.Keys == {0} && s.nextId == 1
    ensures s.jobs[0].key == key && s.jobs[0].status == Failed
    ensures Run(EMPTY, [Step(Request(key), 0)] + ([Step(Claim(0), 1)] + ([Step(Finish(0, false, None), 2)] + rest)))
            == Run(s, rest)
  {
    var s1 := Apply(EMPTY, Request(key), 0);
    RunCons(EMPTY, Step(Request(key), 0), [Step(Claim(0), 1)] + ([Step(Finish(0, false, None), 2)] + rest));
    var s2 := Apply(s1, Claim(0), 1);
    RunCons(s1, Step(Claim(0), 1), [Step(Finish(0, false, None), 2)] + rest);
    s := Apply(s2, Finish(0, false, None), 2);
    RunCons(s2, Step(Finish(0, false, None), 2), rest);
  }

  lemma RetriedBesideReplacement(s: State, key: Key)
    requires s.history.Keys >= s.jobs.Keys && s.jobs.Keys == {0} && s.nextId == 1
    requires s.jobs[0].key == key && s.jobs[0].status == Failed
    ensures !OneActive(Run(s, [Step(Request(key), 3)] + [Step(Retry(0), 4)]))
  {
    var replaced := Apply(s, Request(key), 3);
    RunCons(s, Step(Request(key), 3), [Step(Retry(0), 4)]);
    assert ActiveWith(s.jobs, key) == {};
    assert replaced.jobs[0] == s.jobs[0] && 1 in ActiveWith(replaced.jobs, key);
    assert OneActive(replaced);
    RetryKeepsOneActiveIff(replaced, 0, 4);
    assert [Step(Retry(0), 4)][1..] == [];
    assert Run(Apply(replaced, Retry(0), 4), []) == Apply(replaced, Retry(0), 4);
  }

  /** A failed job is asked for again and then retried: two active jobs for one piece of work. */
  lemma RetryDoublesWork(key: Key)
    ensures exists steps :: InOrder(steps, 0) && !OneActive(Run(EMPTY, steps))
  {
    var last := [Step(Request(key), 3)] + [Step(Retry(0), 4)];
    var steps := [Step(Request(key), 0)] + ([Step(Claim(0), 1)] + ([Step(Finish(0, false, None), 2)] + last));
    var s := FailedOnce(key, last);
    RetriedBesideReplacement(s, key);
    LaterStep(Step(Retry(0), 4), [], 3);
    LaterStep(Step(Request(key), 3), [Step(Retry(0), 4)], 2);
    LaterStep(Step(Finish(0, false, None), 2), last, 1);
    LaterStep(Step(Claim(0), 1), [Step(Finish(0, false, None), 2)] + last, 0);
    LaterStep(Step(Request(key), 0), [Step(Claim(0), 1)] + ([Step(Finish(0, false, None), 2)] + last), 0);
    assert InOrder(steps, 0);
  }

  lemma LaterStep(step: Step, rest: seq<Step>, from: Time)
    requires from <= step.at && InOrder(rest, step.at)
    ensures InOrder([step] + rest, from)
  {
    assert ([step] + rest)[1..] == rest;
  }
}
