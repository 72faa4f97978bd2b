/**
  Requests that read a row and write it back later.  The object mapper writes, by
  id alone, the columns that the request changed on the row it read.  This module
  adds such writes to the job protocol: heartbeats and results of update_analysis
  (myapp/blueprints/api.py), and the reset and the retry of the web routes
  (myapp/blueprints/analysis.py).  Each may have read any earlier row, is stamped
  at some time, and lands at any later one.
 */
module LateWrites {
  import opened Options
  import opened JobProtocol

  /** The row `current` once the columns in which `wanted` differs from `read` are written to it. */
  function Merge(current: Job, read: Job, wanted: Job): Job {
    Job(current.key,
        if wanted.status == read.status then current.status else wanted.status,
        if wanted.startedAt == read.startedAt then current.startedAt else wanted.startedAt,
        if wanted.completedAt == read.completedAt then current.completedAt else wanted.completedAt,
        if wanted.heartbeatAt == read.heartbeatAt then current.heartbeatAt else wanted.heartbeatAt,
        if wanted.progress == read.progress then current.progress else wanted.progress,
        if wanted.result == read.result then current.result else wanted.result,
        if wanted.success == read.success then current.success else wanted.success,
        if wanted.staleResets == read.staleResets then current.staleResets else wanted.staleResets)
  }

  /** What a request wants of the row it read; reports are stamped by the server before they land. */
  datatype Intent =
    | Beat(message: Option<string>, stamp: Time)
    | Done(ok: bool, result: Option<string>, stamp: Time)
    | Reset
    | Again

  function Wanted(read: Job, intent: Intent): Job {
    match intent
    case Beat(message, stamp) => Reported(read, message, stamp)
    case Done(ok, result, stamp) => Finished(read, ok, result, stamp)
    case Reset => Requeued(read)
    case Again => Requeued(read)
  }

  /** Reports are made of any row, the stale reset of running ones, the retry of failed ones. */
  predicate Allowed(read: Job, intent: Intent, at: Time) {
    match intent
    case Beat(_, stamp) => stamp <= at
    case Done(_, _, stamp) => stamp <= at
    case Reset => read.status == Running
    case Again => read.status == Failed
  }

  /** A beat counts by its stamp, for the claim under which it lands. */
  function HistoryAfter(h: History, current: Job, read: Job, intent: Intent): History {
    match intent
    case Beat(_, stamp) =>
      if read.status == Running && current.status == Running then h.(beats := h.beats + [stamp]) else h
    case Done(_, _, _) => h
    case _ => h.(resets := h.resets + 1, claimsSinceManual := 0)
  }

  /** A whole request, or the write of one that read the row as `read` some time before. */
  datatype LateEvent = Whole(event: Event) | Write(id: JobId, read: Job, intent: Intent)

  datatype LateStep = LateStep(event: LateEvent, at: Time)

  ghost function WriteBack(s: State, id: JobId, read: Job, intent: Intent): State
    requires id in s.jobs && id in s.history
  {
    s.(jobs := s.jobs[id := Merge(s.jobs[id], read, Wanted(read, intent))],
       history := s.history[id := HistoryAfter(s.history[id], s.jobs[id], read, intent)])
  }

  ghost function ApplyLate(s: State, e: LateEvent, at: Time): (next: State)
    requires s.history.Keys >= s.jobs.Keys
    ensures next.history.Keys >= next.jobs.Keys
  {
    match e
    case Whole(event) => HistoryKept(s, Step(event, at)); Apply(s, event, at)
    case Write(id, read, intent) =>
      if id in s.jobs && Allowed(read, intent, at) then WriteBack(s, id, read, intent) else s
  }

  ghost predicate InLateOrder(steps: seq<LateStep>, from: Time) {
    steps == [] || (from <= steps[0].at && InLateOrder(steps[1..], steps[0].at))
  }

  ghost function RunLate(s: State, steps: seq<LateStep>): State
    requires s.history.Keys >= s.jobs.Keys
    decreases |steps|
  {
    if steps == [] then s else RunLate(ApplyLate(s, steps[0].event, steps[0].at), steps[1..])
  }

  /** A write that nothing came before is the protocol's own step. */
  lemma UndisturbedWrite(s: State, id: JobId, at: Time)
    requires s.history.Keys >= s.jobs.Keys && id in s.jobs
    ensures forall message :: WriteBack(s, id, s.jobs[id], Beat(message, at)) == Apply(s, Report(id, message), at)
    ensures forall ok, result ::
              WriteBack(s, id, s.jobs[id], Done(ok, result, at)) == Apply(s, Finish(id, ok, result), at)
    ensures s.jobs[id].status == Failed ==> WriteBack(s, id, s.jobs[id], Again) == Apply(s, Retry(id), at)
  {
    assert s.history[id := s.history[id]] == s.history;
  }

  // ---- What every run keeps, late writes included ----

  /**
    A running job started at its last claim, and its heartbeat time is a beat's that
    landed since, or no later than the claim.  No row carries a time to come.
   */
  ghost predicate Loosely(job: Job, h: History, now: Time) {
    && (job.heartbeatAt.Some? ==> job.heartbeatAt.value <= now)
    && (job.status == Running ==>
          && job.startedAt == Some(h.lastClaim) && h.lastClaim <= now
          && (job.heartbeatAt.Some? ==> job.heartbeatAt.value <= h.lastClaim || job.heartbeatAt.value in h.beats))
  }

  ghost predicate LateInv(s: State, now: Time) {
    && s.history.Keys >= s.jobs.Keys
    && (forall id <- s.history :: id < s.nextId && s.history[id].claims <= s.history[id].resets + 1)
    && (forall id <- s.jobs :: Loosely(s.jobs[id], s.history[id], now) && Counted(s.jobs[id], s.history[id]))
  }

  lemma WriteKeepsLoosely(job: Job, h: History, read: Job, intent: Intent, now: Time, at: Time)
    requires Loosely(job, h, now) && now <= at && Allowed(read, intent, at)
    ensures Loosely(Merge(job, read, Wanted(read, intent)), HistoryAfter(h, job, read, intent), at)
  {
    if intent.Beat? {
      assert intent.stamp in h.beats + [intent.stamp];
      assert forall b <- h.beats :: b in h.beats + [intent.stamp];
    }
  }

  lemma WriteKeepsLateInv(s: State, id: JobId, read: Job, intent: Intent, now: Time, at: Time)
    requires LateInv(s, now) && now <= at && id in s.jobs && Allowed(read, intent, at)
    ensures LateInv(WriteBack(s, id, read, intent), at)
  {
    WriteKeepsLoosely(s.jobs[id], s.history[id], read, intent, now, at);
  }

  lemma ReportKeepsLateInv(s: State, id: JobId, message: Option<string>, now: Time, at: Time)
    requires LateInv(s, now) && now <= at
    ensures LateInv(Apply(s, Report(id, message), at), at)
  {
    if id in s.jobs {
      UndisturbedWrite(s, id, at);
      WriteKeepsLateInv(s, id, s.jobs[id], Beat(message, at), now, at);
    }
  }

  lemma ResetKeepsLateInv(s: State, e: Event, now: Time, at: Time)
    requires LateInv(s, now) && now <= at && (e.ResetStale? || e.WebReset?)
    ensures LateInv(Apply(s, e, at), at)
  {
    var next := Apply(s, e, at);
    forall id <- next.jobs
      ensures Loosely(next.jobs[id], next.history[id], at) && Counted(next.jobs[id], next.history[id])
    {
      assert Loosely(s.jobs[id], s.history[id], now) && Counted(s.jobs[id], s.history[id]);
    }
  }

  lemma StartKeepsLateInv(s: State, e: Event, now: Time, at: Time)
    requires LateInv(s, now) && now <= at && (e.Request? || e.Claim?)
    ensures LateInv(Apply(s, e, at), at)
  {
    var next := Apply(s, e, at);
    forall id <- next.jobs
      ensures Loosely(next.jobs[id], next.history[id], at) && Counted(next.jobs[id], next.history[id])
    {
      if id in s.jobs {
        assert Loosely(s.jobs[id], s.history[id], now) && Counted(s.jobs[id], s.history[id]);
      }
    }
  }

  lemma EndKeepsLateInv(s: State, e: Event, now: Time, at: Time)
    requires LateInv(s, now) && now <= at && (e.Finish? || e.CancelDelete? || e.Retry?)
    ensures LateInv(Apply(s, e, at), at)
  {
    var next := Apply(s, e, at);
    forall id <- next.jobs
      ensures Loosely(next.jobs[id], next.history[id], at) && Counted(next.jobs[id], next.history[id])
    {
      assert Loosely(s.jobs[id], s.history[id], now) && Counted(s.jobs[id], s.history[id]);
    }
  }

  lemma WholeKeepsLateInv(s: State, e: Event, now: Time, at: Time)
    requires LateInv(s, now) && now <= at
    ensures LateInv(Apply(s, e, at), at)
  {
    if e.Report? {
      ReportKeepsLateInv(s, e.id, e.message, now, at);
    } else if e.ResetStale? || e.WebReset? {
      ResetKeepsLateInv(s, e, now, at);
    } else if e.Request? || e.Claim? {
      StartKeepsLateInv(s, e, now, at);
    } else {
      EndKeepsLateInv(s, e, now, at);
    }
  }

  lemma LateStepKeepsInv(s: State, e: LateEvent, now: Time, at: Time)
    requires LateInv(s, now) && now <= at
    ensures LateInv(ApplyLate(s, e, at), at)
  {
    if e.Whole? {
      WholeKeepsLateInv(s, e.event, now, at);
    } else if e.id in s.jobs && Allowed(e.read, e.intent, at) {
      WriteKeepsLateInv(s, e.id, e.read, e.intent, now, at);
    }
  }

  lemma {:induction false} RunKeepsLateInv(s: State, steps: seq<LateStep>, now: Time) returns (end: Time)
    requires LateInv(s, now) && InLateOrder(steps, now)
    ensures now <= end && LateInv(RunLate(s, steps), end)
    decreases |steps|
  {
    if steps == [] {
      end := now;
    } else {
      LateStepKeepsInv(s, steps[0].event, now, steps[0].at);
      end := RunKeepsLateInv(ApplyLate(s, steps[0].event, steps[0].at), steps[1..], steps[0].at);
    }
  }

  /** Late or not, no write makes claims outnumber one plus the resets. */
  lemma ClaimsStayBounded(steps: seq<LateStep>, id: JobId, start: Time)
    requires InLateOrder(steps, start) && id in RunLate(EMPTY, steps).history
    ensures RunLate(EMPTY, steps).history[id].claims <= 1 + RunLate(EMPTY, steps).history[id].resets
  {
    var end := RunKeepsLateInv(EMPTY, steps, start);
  }

  lemma {:induction false} LateCapHolds(s: State, steps: seq<LateStep>, maxRetries: nat)
    requires s.history.Keys >= s.jobs.Keys && maxRetries > 0 && OneLateCap(steps, maxRetries)
    requires forall id <- s.jobs :: s.jobs[id].staleResets <= maxRetries
    ensures forall id <- RunLate(s, steps).jobs :: RunLate(s, steps).jobs[id].staleResets <= maxRetries
    decreases |steps|
  {
    if steps != [] {
      assert steps[0] in steps;
      assert forall step <- steps[1..] :: step in steps;
      LateCapHolds(ApplyLate(s, steps[0].event, steps[0].at), steps[1..], maxRetries);
    }
  }

  ghost predicate OneLateCap(steps: seq<LateStep>, maxRetries: int) {
    forall step <- steps ::
      step.event.Whole? && step.event.event.ResetStale? ==> step.event.event.maxRetries == maxRetries
  }

  /** Between operator resets, late or not, a job is claimed at most once more than the stale-reset cap. */
  lemma PoisonStaysBounded(steps: seq<LateStep>, id: JobId, start: Time, maxRetries: nat)
    requires InLateOrder(steps, start) && maxRetries > 0 && OneLateCap(steps, maxRetries)
    requires id in RunLate(EMPTY, steps).jobs
    ensures id in RunLate(EMPTY, steps).history
    ensures RunLate(EMPTY, steps).history[id].claimsSinceManual <= maxRetries + 1
  {
    var end := RunKeepsLateInv(EMPTY, steps, start);
    LateCapHolds(EMPTY, steps, maxRetries);
    assert Counted(RunLate(EMPTY, steps).jobs[id], RunLate(EMPTY, steps).history[id]);
  }

  // ---- What the gap between reading and writing costs ----

  /** Stale resets take the job exactly when its last claim and every beat since are too old, whatever the timeout. */
  ghost predicate Right(job: Job, h: History) {
    forall cutoff :: Stale(job, cutoff) <==> job.status == Running && QuietBefore(h, cutoff)
  }

  /** The row's time is older than the claim, which the row itself shows, or than a beat that landed since. */
  ghost predicate Outdated(job: Job, h: History)
    requires job.status == Running ==> job.startedAt.Some?
  {
    && job.status == Running
    && (LastActivity(job).value < job.startedAt.value || exists b <- h.beats :: LastActivity(job).value < b)
  }

  lemma RightUnlessOutdated(job: Job, h: History, now: Time)
    requires Loosely(job, h, now)
    ensures Right(job, h) <==> !Outdated(job, h)
    ensures job.status == Running ==> forall cutoff :: QuietBefore(h, cutoff) ==> Stale(job, cutoff)
  {
    if job.status == Running {
      var time := LastActivity(job).value;
      assert time == h.lastClaim || time <= h.lastClaim || time in h.beats;
      if Outdated(job, h) {
        var life := h.lastClaim;
        if time >= h.lastClaim { life :| life in h.beats && time < life; }
        assert Stale(job, life) && !QuietBefore(h, life);
      }
    }
  }

  /**
    After any run, late writes included, no dead job escapes a stale reset, and stale
    resets take only dead ones if and only if the row is not outdated.
   */
  lemma ResetsExactlyTheQuietIff(steps: seq<LateStep>, id: JobId, start: Time)
    requires InLateOrder(steps, start) && id in RunLate(EMPTY, steps).jobs
    ensures id in RunLate(EMPTY, steps).history
    ensures var job, h := RunLate(EMPTY, steps).jobs[id], RunLate(EMPTY, steps).history[id];
      && (job.status == Running ==> job.startedAt == Some(h.lastClaim))
      && (forall cutoff :: job.status == Running && QuietBefore(h, cutoff) ==> Stale(job, cutoff))
      && (Right(job, h) <==> !Outdated(job, h))
  {
    var end := RunKeepsLateInv(EMPTY, steps, start);
    var s := RunLate(EMPTY, steps);
    RightUnlessOutdated(s.jobs[id], s.history[id], end);
  }

  // ---- Which steps date a row wrongly ----

  ghost predicate AllRight(s: State)
    requires s.history.Keys >= s.jobs.Keys
  {
    forall id <- s.jobs :: Right(s.jobs[id], s.history[id])
  }

  /** A claim leaves the heartbeat column alone, so the pending row must not carry an older time. */
  predicate ClaimDates(job: Job, at: Time) {
    job.status == Pending && job.heartbeatAt.Some? ==> job.heartbeatAt.value == at
  }

  /**
    The write that lands on the row of a running job dates it by the latest sign of
    life: a beat that is written is not older than what the row shows, one that is
    not written is not newer, and a result that leaves the job running clears no beat.
   */
  predicate WriteDates(job: Job, read: Job, intent: Intent) {
    job.status == Running && LastActivity(job).Some? ==>
      match intent
      case Beat(_, stamp) =>
        read.status == Running ==>
          if read.heartbeatAt == Some(stamp) then stamp <= LastActivity(job).value else LastActivity(job).value <= stamp
      case Done(ok, _, _) =>
        read.status == (if ok then Completed else Failed) && read.heartbeatAt.Some? ==>
          LastActivity(job) == job.startedAt
      case _ => true
  }

  /** The step dates the one row it is about rightly; told from that row and the request. */
  predicate Dates(s: State, e: LateEvent, at: Time) {
    match e
    case Whole(Claim(id)) => id in s.jobs ==> ClaimDates(s.jobs[id], at)
    case Whole(_) => true
    case Write(id, read, intent) => id in s.jobs && Allowed(read, intent, at) ==> WriteDates(s.jobs[id], read, intent)
  }

  lemma RightIs(job: Job, h: History, now: Time)
    requires Loosely(job, h, now) && job.status == Running
    ensures Right(job, h) <==>
            h.lastClaim <= LastActivity(job).value && forall b <- h.beats :: b <= LastActivity(job).value
  {
    RightUnlessOutdated(job, h, now);
  }

  lemma ClaimStaysRightIff(job: Job, h: History, claimed: Job, after: History, now: Time, at: Time)
    requires Loosely(job, h, now) && now <= at && job.status == Pending
    requires claimed == job.(status := Running, startedAt := Some(at)) && after.lastClaim == at && after.beats == []
    ensures Right(claimed, after) <==> ClaimDates(job, at)
  {
    RightIs(claimed, after, at);
  }

  lemma BeatStaysRightIff(job: Job, h: History, read: Job, intent: Intent, now: Time, at: Time)
    requires Loosely(job, h, now) && now <= at && Allowed(read, intent, at) && Right(job, h)
    requires intent.Beat? && job.status == Running && read.status == Running
    ensures Right(Merge(job, read, Wanted(read, intent)), HistoryAfter(h, job, read, intent)) <==>
            WriteDates(job, read, intent)
  {
    var beats := h.beats + [intent.stamp];
    assert intent.stamp in beats && forall b <- h.beats :: b in beats;
    RightIs(job, h, now);
    WriteKeepsLoosely(job, h, read, intent, now, at);
    RightIs(Merge(job, read, Wanted(read, intent)), HistoryAfter(h, job, read, intent), at);
  }

  lemma WriteStaysRightIff(job: Job, h: History, read: Job, intent: Intent, now: Time, at: Time)
    requires Loosely(job, h, now) && now <= at && Allowed(read, intent, at) && Right(job, h)
    ensures Right(Merge(job, read, Wanted(read, intent)), HistoryAfter(h, job, read, intent)) <==>
            WriteDates(job, read, intent)
  {
    var after := Merge(job, read, Wanted(read, intent));
    if intent.Beat? && job.status == Running && read.status == Running {
      BeatStaysRightIff(job, h, read, intent, now, at);
    } else if job.status == Running && after.status == Running {
      WriteKeepsLoosely(job, h, read, intent, now, at);
      RightIs(job, h, now);
      RightIs(after, h, at);
    }
  }

  lemma SweepStaysRight(s: State, e: Event, at: Time)
    requires s.history.Keys >= s.jobs.Keys && AllRight(s) && (e.ResetStale? || e.WebReset?)
    ensures AllRight(ApplyLate(s, Whole(e), at))
  {
    var next := ApplyLate(s, Whole(e), at);
    forall id <- next.jobs ensures Right(next.jobs[id], next.history[id]) {
      assert Right(s.jobs[id], s.history[id]);
    }
  }

  /** A step that changes just this row. */
  lemma OneRowStaysRightIff(s: State, next: State, id: JobId)
    requires s.history.Keys >= s.jobs.Keys && AllRight(s) && id in next.jobs && id in next.history
    requires next.jobs == s.jobs[id := next.jobs[id]] && next.history == s.history[id := next.history[id]]
    ensures AllRight(next) <==> Right(next.jobs[id], next.history[id])
  {
    forall other <- next.jobs | other != id ensures Right(next.jobs[other], next.history[other]) {
      assert Right(s.jobs[other], s.history[other]);
    }
  }

  lemma WholeStaysRightIff(s: State, e: Event, now: Time, at: Time)
    requires LateInv(s, now) && now <= at && AllRight(s)
    ensures AllRight(ApplyLate(s, Whole(e), at)) <==> Dates(s, Whole(e), at)
  {
    var next := ApplyLate(s, Whole(e), at);
    match e
    case Request(_) =>
      if next != s { OneRowStaysRightIff(s, next, s.nextId); }
    case Claim(id) =>
      if id in s.jobs && s.jobs[id].status == Pending {
        OneRowStaysRightIff(s, next, id);
        ClaimStaysRightIff(s.jobs[id], s.history[id], next.jobs[id], next.history[id], now, at);
      }
    case Report(id, message) =>
      if id in s.jobs {
        UndisturbedWrite(s, id, at);
        OneRowStaysRightIff(s, next, id);
        WriteStaysRightIff(s.jobs[id], s.history[id], s.jobs[id], Beat(message, at), now, at);
      }
    case Finish(id, _, _) =>
      if id in s.jobs {
        assert s.history[id := s.history[id]] == s.history;
        OneRowStaysRightIff(s, next, id);
      }
    case CancelDelete(_) =>
      assert forall id <- next.jobs :: Right(s.jobs[id], s.history[id]);
    case Retry(id) =>
      if next != s { OneRowStaysRightIff(s, next, id); }
    case _ =>
      SweepStaysRight(s, e, at);
  }

  /** From rows that are all dated rightly, a step keeps them so if and only if it dates its row rightly. */
  lemma StepStaysRightIff(s: State, e: LateEvent, now: Time, at: Time)
    requires LateInv(s, now) && now <= at && AllRight(s)
    ensures AllRight(ApplyLate(s, e, at)) <==> Dates(s, e, at)
  {
    if e.Whole? {
      WholeStaysRightIff(s, e.event, now, at);
    } else if e.id in s.jobs && Allowed(e.read, e.intent, at) {
      OneRowStaysRightIff(s, ApplyLate(s, e, at), e.id);
      WriteStaysRightIff(s.jobs[e.id], s.history[e.id], e.read, e.intent, now, at);
    }
  }

  ghost predicate AlwaysRight(s: State, steps: seq<LateStep>)
    requires s.history.Keys >= s.jobs.Keys
    decreases |steps|
  {
    AllRight(s) && (steps == [] || AlwaysRight(ApplyLate(s, steps[0].event, steps[0].at), steps[1..]))
  }

  ghost predicate AlwaysDates(s: State, steps: seq<LateStep>)
    requires s.history.Keys >= s.jobs.Keys
    decreases |steps|
  {
    steps != [] ==>
      && Dates(s, steps[0].event, steps[0].at)
      && AlwaysDates(ApplyLate(s, steps[0].event, steps[0].at), steps[1..])
  }

  /**
    Throughout a run stale resets would take exactly the quiet jobs if and only if
    every step dates its row rightly.
   */
  lemma {:induction false} AlwaysRightIff(s: State, steps: seq<LateStep>, now: Time)
    requires LateInv(s, now) && InLateOrder(steps, now) && AllRight(s)
    ensures AlwaysRight(s, steps) <==> AlwaysDates(s, steps)
    decreases |steps|
  {
    if steps != [] {
      var e, at := steps[0].event, steps[0].at;
      LateStepKeepsInv(s, e, now, at);
      StepStaysRightIff(s, e, now, at);
      if Dates(s, e, at) { AlwaysRightIff(ApplyLate(s, e, at), steps[1..], at); }
    }
  }

  /** So it is for every run from an empty table. */
  lemma AlwaysRightFromEmpty(steps: seq<LateStep>, start: Time)
    requires InLateOrder(steps, start)
    ensures AlwaysRight(EMPTY, steps) <==> AlwaysDates(EMPTY, steps)
  {
    AlwaysRightIff(EMPTY, steps, start);
  }

  // ---- Single writes ----

  /**
    A late heartbeat keeps the protocol's invariant if and only if the job runs and
    shows no later sign of life; one that repeats the time it read must find it still.
   */
  lemma LateBeatExact(s: State, id: JobId, read: Job, message: Option<string>, stamp: Time, now: Time, at: Time)
    requires Inv(s, now) && stamp <= at && now <= at && id in s.jobs && read.status == Running
    ensures var job := s.jobs[id];
      Inv(WriteBack(s, id, read, Beat(message, stamp)), at) <==>
        if read.heartbeatAt == Some(stamp) then job.status == Running ==> job.heartbeatAt == Some(stamp)
        else job.status == Running && LastActivity(job).Some? && LastActivity(job).value <= stamp
  {
    var job, h := s.jobs[id], s.history[id];
    var next := WriteBack(s, id, read, Beat(message, stamp));
    assert Clocked(job, h, now);
    BeatClockedIff(job, h, read, message, stamp, now, at);
    if Clocked(next.jobs[id], next.history[id], at) {
      forall other <- next.jobs
        ensures Clocked(next.jobs[other], next.history[other], at) && Counted(next.jobs[other], next.history[other])
      {
        if other != id { ClockedLater(s.jobs[other], s.history[other], now, at); }
        assert Counted(s.jobs[other], s.history[other]);
      }
    }
  }

  lemma BeatClockedIff(job: Job, h: History, read: Job, message: Option<string>, stamp: Time, now: Time, at: Time)
    requires Clocked(job, h, now) && stamp <= at && now <= at && read.status == Running
    ensures var beat := Beat(message, stamp);
      Clocked(Merge(job, read, Wanted(read, beat)), HistoryAfter(h, job, read, beat), at) <==>
        if read.heartbeatAt == Some(stamp) then job.status == Running ==> job.heartbeatAt == Some(stamp)
        else job.status == Running && LastActivity(job).Some? && LastActivity(job).value <= stamp
  {
    var beats := h.beats + [stamp];
    assert forall b <- beats :: b in h.beats || b == stamp;
    assert forall b <- h.beats :: b in beats;
    assert beats[|beats| - 1] == stamp && stamp in beats;
    if h.beats != [] { assert h.beats[|h.beats| - 1] in h.beats; }
  }

  /**
    A late result gives the job its status unless the row was read with that status
    already, and leaves a heartbeat time exactly if it was read without one.
   */
  lemma LateResultKeepsBeatIff(s: State, id: JobId, read: Job, ok: bool, result: Option<string>, stamp: Time)
    requires id in s.jobs && id in s.history
    ensures var job := WriteBack(s, id, read, Done(ok, result, stamp)).jobs[id];
      var status := if ok then Completed else Failed;
      && job.status == (if read.status == status then s.jobs[id].status else status)
      && (job.heartbeatAt.Some? <==> s.jobs[id].heartbeatAt.Some? && read.heartbeatAt.None?)
  {
  }

  /** A late heartbeat or result makes no job active, so it keeps active work unique. */
  lemma LateBeatsAndResultsKeepOneActive(s: State, id: JobId, read: Job, intent: Intent)
    requires OneActive(s) && id in s.jobs && id in s.history && (intent.Beat? || intent.Done?)
    ensures OneActive(WriteBack(s, id, read, intent))
  {
    NoneActivated(s, WriteBack(s, id, read, intent));
  }

  /**
    A late retry is the retry of the protocol if and only if the job is failed still,
    and every column clear then is clear.
   */
  lemma LateRetryExact(s: State, id: JobId, read: Job, at: Time)
    requires s.history.Keys >= s.jobs.Keys && id in s.jobs && read.status == Failed
    ensures WriteBack(s, id, read, Again) == Apply(s, Retry(id), at) <==>
            s.jobs[id].status == Failed && ClearsAll(s.jobs[id], read)
  {
    var job, late, whole := s.jobs[id], WriteBack(s, id, read, Again), Apply(s, Retry(id), at);
    if job.status == Failed {
      assert late.jobs == whole.jobs <==> late.jobs[id] == whole.jobs[id];
    } else {
      assert late.history[id].resets != whole.history[id].resets;
    }
  }

  /** Writing back the row read as a new one clears every column of the row as it is. */
  predicate ClearsAll(job: Job, read: Job) {
    && (read.startedAt.None? ==> job.startedAt.None?) && (read.completedAt.None? ==> job.completedAt.None?)
    && (read.heartbeatAt.None? ==> job.heartbeatAt.None?) && (read.progress.None? ==> job.progress.None?)
    && (read.result.None? ==> job.result.None?) && (read.success.None? ==> job.success.None?)
    && (read.staleResets == 0 ==> job.staleResets == 0)
  }

  // ---- Runs in which a live job is taken ----

  /** The steps lead from an empty table to this state at this time. */
  ghost predicate Reached(steps: seq<LateStep>, s: State, now: Time) {
    InLateOrder(steps, 0) && 0 <= now && (forall step <- steps :: step.at <= now) && RunLate(EMPTY, steps) == s
  }

  lemma {:induction false} RunLateSnoc(s: State, steps: seq<LateStep>, step: LateStep)
    requires s.history.Keys >= s.jobs.Keys
    ensures var late := RunLate(s, steps);
      late.history.Keys >= late.jobs.Keys && RunLate(s, steps + [step]) == ApplyLate(late, step.event, step.at)
    decreases |steps|
  {
    if steps == [] {
      assert [step][1..] == [];
      assert RunLate(ApplyLate(s, step.event, step.at), []) == ApplyLate(s, step.event, step.at);
    } else {
      assert (steps + [step])[1..] == steps[1..] + [step];
      RunLateSnoc(ApplyLate(s, steps[0].event, steps[0].at), steps[1..], step);
    }
  }

  lemma {:induction false} OrderSnoc(steps: seq<LateStep>, step: LateStep, from: Time)
    requires InLateOrder(steps, from) && from <= step.at && forall e <- steps :: e.at <= step.at
    ensures InLateOrder(steps + [step], from)
    decreases |steps|
  {
    if steps == [] {
      assert [step][1..] == [];
    } else {
      assert (steps + [step])[1..] == steps[1..] + [step];
      assert forall e <- steps[1..] :: e in steps;
      assert steps[0] in steps;
      OrderSnoc(steps[1..], step, steps[0].at);
    }
  }

  lemma Then(steps: seq<LateStep>, s: State, now: Time, e: LateEvent, at: Time)
    returns (more: seq<LateStep>, next: State)
    requires Reached(steps, s, now) && now <= at
    ensures s.history.Keys >= s.jobs.Keys && next == ApplyLate(s, e, at) && Reached(more, next, at)
  {
    RunLateSnoc(EMPTY, steps, LateStep(e, at));
    OrderSnoc(steps, LateStep(e, at), 0);
    more, next := steps + [LateStep(e, at)], ApplyLate(s, e, at);
  }

  /** The one job of the table, when it was last claimed, and the beats since. */
  ghost predicate OneJob(steps: seq<LateStep>, job: Job, claim: Time, beats: seq<Time>, now: Time) {
    exists s :: Reached(steps, s, now) && HoldsOne(s, job, claim, beats)
  }

  ghost predicate HoldsOne(s: State, job: Job, claim: Time, beats: seq<Time>) {
    s.jobs == map[0 := job] && s.history.Keys == {0} && s.history[0].lastClaim == claim && s.history[0].beats == beats
  }

  lemma ThenRequest(key: Key) returns (steps: seq<LateStep>)
    ensures OneJob(steps, NewJob(key), 0, [], 0)
  {
    var s;
    assert Reached([], EMPTY, 0);
    steps, s := Then([], EMPTY, 0, Whole(Request(key)), 0);
    assert HoldsOne(s, NewJob(key), 0, []);
  }

  lemma ThenClaim(steps: seq<LateStep>, job: Job, claim: Time, beats: seq<Time>, now: Time, at: Time)
    returns (more: seq<LateStep>)
    requires OneJob(steps, job, claim, beats, now) && now <= at && job.status == Pending
    ensures OneJob(more, job.(status := Running, startedAt := Some(at)), at, [], at)
  {
    var s :| Reached(steps, s, now) && HoldsOne(s, job, claim, beats);
    var next;
    more, next := Then(steps, s, now, Whole(Claim(0)), at);
    assert HoldsOne(next, job.(status := Running, startedAt := Some(at)), at, []);
  }

  /** A stale reset after a minute, with five tries. */
  lemma ThenReset(steps: seq<LateStep>, job: Job, claim: Time, beats: seq<Time>, now: Time, at: Time)
    returns (more: seq<LateStep>)
    requires OneJob(steps, job, claim, beats, now) && now <= at && Stale(job, at - 60) && job.staleResets < 5
    ensures OneJob(more, NewJob(job.key).(staleResets := job.staleResets + 1), claim, beats, at)
  {
    var s :| Reached(steps, s, now) && HoldsOne(s, job, claim, beats);
    var next;
    more, next := Then(steps, s, now, Whole(ResetStale(60, 5)), at);
    assert HoldsOne(next, NewJob(job.key).(staleResets := job.staleResets + 1), claim, beats);
  }

  lemma ThenWrite(steps: seq<LateStep>, job: Job, claim: Time, beats: seq<Time>, now: Time,
                  read: Job, intent: Intent, at: Time)
    returns (more: seq<LateStep>)
    requires OneJob(steps, job, claim, beats, now) && now <= at && Allowed(read, intent, at)
    ensures var counts := intent.Beat? && read.status == Running && job.status == Running;
      OneJob(more, Merge(job, read, Wanted(read, intent)), claim, if counts then beats + [intent.stamp] else beats, at)
  {
    var s :| Reached(steps, s, now) && HoldsOne(s, job, claim, beats);
    var next;
    more, next := Then(steps, s, now, Write(0, read, intent), at);
    var counts := intent.Beat? && read.status == Running && job.status == Running;
    assert HoldsOne(next, Merge(job, read, Wanted(read, intent)), claim,
                    if counts then beats + [intent.stamp] else beats);
  }

  /** A stale reset with this cutoff takes a job although its last claim or a beat since is as late as the cutoff. */
  ghost predicate TakesLiveJob(steps: seq<LateStep>, id: JobId, cutoff: Time) {
    && InLateOrder(steps, 0)
    && var s := RunLate(EMPTY, steps);
    && id in s.jobs && id in s.history && Stale(s.jobs[id], cutoff) && !QuietBefore(s.history[id], cutoff)
  }

  lemma TakesIt(steps: seq<LateStep>, job: Job, claim: Time, beats: seq<Time>, now: Time, cutoff: Time)
    requires OneJob(steps, job, claim, beats, now) && Stale(job, cutoff)
    requires cutoff <= claim || exists b <- beats :: cutoff <= b
    ensures TakesLiveJob(steps, 0, cutoff)
  {
    var s :| Reached(steps, s, now) && HoldsOne(s, job, claim, beats);
  }

  function RunningJob(key: Key, at: Time): Job {
    NewJob(key).(status := Running, startedAt := Some(at))
  }

  /** Requested at 0 and claimed at 1. */
  lemma ClaimedOnce(key: Key) returns (steps: seq<LateStep>)
    ensures OneJob(steps, RunningJob(key, 1), 1, [], 1)
  {
    steps := ThenRequest(key);
    steps := ThenClaim(steps, NewJob(key), 0, [], 0, 1);
  }

  /** The heartbeat of a job that was reset meanwhile lands on the pending row, and the next claim leaves it there. */
  lemma LateBeatTakesLiveJob(key: Key)
    ensures exists steps :: TakesLiveJob(steps, 0, 140)
  {
    var steps := ClaimedOnce(key);
    var read := RunningJob(key, 1);
    steps := ThenReset(steps, read, 1, [], 1, 100);
    var reset := NewJob(key).(staleResets := 1);
    steps := ThenWrite(steps, reset, 1, [], 100, read, Beat(None, 101), 101);
    steps := ThenClaim(steps, reset.(heartbeatAt := Some(101)), 1, [], 101, 200);
    TakesIt(steps, reset.(heartbeatAt := Some(101), status := Running, startedAt := Some(200)), 200, [], 200, 140);
  }

  /** A heartbeat stamped before the next claim and landing after it dates the running row too early. */
  lemma EarlyStampTakesLiveJob(key: Key)
    ensures exists steps :: TakesLiveJob(steps, 0, 140)
  {
    var steps := ClaimedOnce(key);
    var read := RunningJob(key, 1);
    steps := ThenReset(steps, read, 1, [], 1, 100);
    var reset := NewJob(key).(staleResets := 1);
    steps := ThenClaim(steps, reset, 1, [], 100, 200);
    var running := reset.(status := Running, startedAt := Some(200));
    steps := ThenWrite(steps, running, 200, [], 200, read, Beat(None, 101), 201);
    TakesIt(steps, running.(heartbeatAt := Some(101)), 200, [101], 201, 140);
  }

  /** So does one of two heartbeats that land in the other order. */
  lemma SwappedBeatsTakeLiveJob(key: Key)
    ensures exists steps :: TakesLiveJob(steps, 0, 208)
  {
    var steps := ClaimedOnce(key);
    var read := RunningJob(key, 1);
    steps := ThenWrite(steps, read, 1, [], 1, read, Beat(None, 210), 210);
    steps := ThenWrite(steps, read.(heartbeatAt := Some(210)), 1, [210], 210, read, Beat(None, 205), 211);
    var beats := [210] + [205];
    assert 210 in beats;
    TakesIt(steps, read.(heartbeatAt := Some(205)), 1, beats, 211, 208);
  }

  /** A failed job on whose row a late beat left a time. */
  lemma FailedWithBeat(key: Key) returns (steps: seq<LateStep>, failed: Job)
    ensures OneJob(steps, failed, 1, [], 5)
    ensures failed == RunningJob(key, 1).(status := Failed, success := Some(false), completedAt := Some(4),
                                          heartbeatAt := Some(5))
  {
    steps := ClaimedOnce(key);
    var read := RunningJob(key, 1);
    steps := ThenWrite(steps, read, 1, [], 1, read, Done(false, None, 4), 4);
    failed := read.(status := Failed, success := Some(false), completedAt := Some(4));
    steps := ThenWrite(steps, failed, 1, [], 4, read, Beat(None, 5), 5);
    failed := failed.(heartbeatAt := Some(5));
  }

  /** A failure report made of a failed row clears the beat of a job that was retried and claimed meanwhile. */
  lemma RepeatedFailureTakesLiveJob(key: Key)
    ensures exists steps :: TakesLiveJob(steps, 0, 150)
  {
    var steps, failed := FailedWithBeat(key);
    steps := ThenWrite(steps, failed, 1, [], 5, failed, Again, 6);
    steps := ThenClaim(steps, NewJob(key), 1, [], 6, 100);
    var running := RunningJob(key, 100);
    steps := ThenWrite(steps, running, 100, [], 100, running, Beat(None, 200), 200);
    steps := ThenWrite(steps, running.(heartbeatAt := Some(200)), 100, [200], 200, failed, Done(false, None, 201), 201);
    assert 200 in [200];
    TakesIt(steps, running.(completedAt := Some(201)), 100, [200], 201, 150);
  }

  /** A second retry of a failed job takes a running job back to pending, and its beat stays for the next claim. */
  lemma SecondRetryTakesLiveJob(key: Key)
    ensures exists steps :: TakesLiveJob(steps, 0, 140)
  {
    var steps := ClaimedOnce(key);
    var read := RunningJob(key, 1);
    steps := ThenWrite(steps, read, 1, [], 1, read, Done(false, None, 4), 4);
    var failed := read.(status := Failed, success := Some(false), completedAt := Some(4));
    steps := ThenWrite(steps, failed, 1, [], 4, failed, Again, 5);
    steps := ThenClaim(steps, NewJob(key), 1, [], 5, 6);
    var running := RunningJob(key, 6);
    steps := ThenWrite(steps, running, 6, [], 6, running, Beat(None, 7), 7);
    steps := ThenWrite(steps, running.(heartbeatAt := Some(7)), 6, [7], 7, failed, Again, 8);
    steps := ThenClaim(steps, NewJob(key).(heartbeatAt := Some(7)), 6, [7], 8, 200);
    TakesIt(steps, RunningJob(key, 200).(heartbeatAt := Some(7)), 200, [], 200, 140);
  }
}
