/** The handlers that change the analyses table, each proved to take one step of the job protocol. */
module JobTable {
  import opened Options
  import opened JobProtocol

  class Analyses {
    var jobs: map<JobId, Job>
    var nextId: JobId
    ghost var history: map<JobId, History>

    ghost function Snapshot(): State
      reads this
    {
      State(jobs, nextId, history)
    }

    ghost predicate Valid(now: Time)
      reads this
    {
      Inv(Snapshot(), now)
    }

    constructor (now: Time)
      ensures Valid(now) && Snapshot() == EMPTY
    {
      jobs, nextId, history := map[], 0, map[];
    }

    /** request_analysis: an active job for the same work is returned instead of a second one. */
    method RequestAnalysis(key: Key, ghost before: Time, now: Time) returns (id: JobId, created: bool)
      requires Valid(before) && before <= now
      modifies this
      ensures Valid(now) && Snapshot() == Apply(old(Snapshot()), Request(key), now)
      ensures id in jobs && jobs[id].key == key && Active(jobs[id])
      ensures created <==> id !in old(jobs)
      ensures created <==> forall other <- old(jobs) ::
                old(jobs)[other].key == key ==> old(jobs)[other].status in {Completed, Failed}
      ensures created ==> jobs == old(jobs)[id := Job(key, Pending, None, None, None, None, None, None, 0)]
      ensures !created ==> jobs == old(jobs)
    {
      StepKeepsInv(Snapshot(), Request(key), before, now);
      NoneActiveIff(jobs, key);
      var existing := ActiveWith(jobs, key);
      if existing != {} {
        id :| id in existing;
        return id, false;
      }
      id, created := nextId, true;
      jobs := jobs[id := NewJob(key)];
      history := history[id := History(0, 0, now, [], 0)];
      nextId := nextId + 1;
    }

    /** The claim of update_analysis: one conditional UPDATE, whose row count says who won. */
    method ClaimJob(id: JobId, ghost before: Time, now: Time) returns (claimed: bool)
      requires Valid(before) && before <= now
      modifies this
      ensures Valid(now) && Snapshot() == Apply(old(Snapshot()), Claim(id), now)
      ensures claimed <==> id in old(jobs) && old(jobs)[id].status == Pending
      ensures claimed ==> history[id].claims == old(history)[id].claims + 1
      ensures !claimed ==> jobs == old(jobs)
      ensures claimed ==> OnlyRow(old(jobs), jobs, id) && SameWork(old(jobs)[id], jobs[id])
      ensures claimed ==> jobs[id].status == Running && jobs[id].startedAt == Some(now)
      ensures claimed ==> SameOutcome(old(jobs)[id], jobs[id]) && SameLifeSigns(old(jobs)[id], jobs[id])
    {
      StepKeepsInv(Snapshot(), Claim(id), before, now);
      claimed := id in jobs && jobs[id].status == Pending;
      if claimed {
        jobs := jobs[id := jobs[id].(status := Running, startedAt := Some(now))];
        var h := history[id];
        history := history[id := History(h.claims + 1, h.resets, now, [], h.claimsSinceManual + 1)];
      }
    }

    /** update_analysis for a heartbeat or a progress report; None answers 404. */
    method ReportProgress(id: JobId, message: Option<string>, ghost before: Time, now: Time) returns (found: bool)
      requires Valid(before) && before <= now
      modifies this
      ensures Valid(now) && Snapshot() == Apply(old(Snapshot()), Report(id, message), now)
      ensures found <==> id in old(jobs)
      ensures !found ==> jobs == old(jobs)
      ensures found ==> OnlyRow(old(jobs), jobs, id) && SameWork(old(jobs)[id], jobs[id])
      ensures found ==> SameOutcome(old(jobs)[id], jobs[id])
      ensures found ==> jobs[id].status == old(jobs)[id].status && jobs[id].startedAt == old(jobs)[id].startedAt
      ensures found ==> jobs[id].progress == if message.Some? then message else old(jobs)[id].progress
      ensures found ==>
                jobs[id].heartbeatAt == if old(jobs)[id].status == Running then Some(now) else old(jobs)[id].heartbeatAt
    {
      StepKeepsInv(Snapshot(), Report(id, message), before, now);
      if id !in jobs {
        return false;
      }
      found := true;
      var job := jobs[id];
      if message.Some? {
        job := job.(progress := message);
      }
      if job.status == Running {
        job := job.(heartbeatAt := Some(now));
        history := history[id := history[id].(beats := history[id].beats + [now])];
      }
      jobs := jobs[id := job];
    }

    /** update_analysis for a final status. */
    method FinishJob(id: JobId, ok: bool, result: Option<string>, ghost before: Time, now: Time) returns (found: bool)
      requires Valid(before) && before <= now
      modifies this
      ensures Valid(now) && Snapshot() == Apply(old(Snapshot()), Finish(id, ok, result), now)
      ensures found <==> id in old(jobs)
      ensures !found ==> jobs == old(jobs)
      ensures found ==> OnlyRow(old(jobs), jobs, id) && SameWork(old(jobs)[id], jobs[id])
      ensures found ==> jobs[id].status == (if ok then Completed else Failed) && jobs[id].success == Some(ok)
      ensures found ==> jobs[id].completedAt == Some(now) && jobs[id].startedAt == old(jobs)[id].startedAt
      ensures found ==> jobs[id].result == if result.Some? then result else old(jobs)[id].result
      ensures found ==> jobs[id].progress.None? && jobs[id].heartbeatAt.None?
    {
      StepKeepsInv(Snapshot(), Finish(id, ok, result), before, now);
      if id !in jobs {
        return false;
      }
      found := true;
      var job := jobs[id].(status := if ok then Completed else Failed, success := Some(ok));
      if result.Some? {
        job := job.(result := result);
      }
      job := job.(completedAt := Some(now));
      job := job.(progress := None, heartbeatAt := None);
      jobs := jobs[id := job];
    }

    /** The first phase of cancel: a read. Every claim of a job that it finds pending has been undone. */
    method CancelCheck(id: JobId, ghost now: Time) returns (pending: bool)
      requires Valid(now)
      ensures pending <==> id in jobs && jobs[id].status == Pending
      ensures pending ==> id in history && history[id].claims <= history[id].resets
    {
      pending := id in jobs && jobs[id].status == Pending;
      assert pending ==> Counted(jobs[id], history[id]);
    }

    /** The second phase of cancel, which may run at any later time: delete only what is still pending. */
    method CancelDeletePending(id: JobId, ghost before: Time, now: Time) returns (deleted: bool)
      requires Valid(before) && before <= now
      modifies this
      ensures Valid(now) && Snapshot() == Apply(old(Snapshot()), CancelDelete(id), now)
      ensures deleted <==> id in old(jobs) && id !in jobs
      ensures deleted ==> old(history)[id].claims <= old(history)[id].resets
      ensures deleted <==> id in old(jobs) && old(jobs)[id].status == Pending
      ensures jobs == if deleted then old(jobs) - {id} else old(jobs)
    {
      StepKeepsInv(Snapshot(), CancelDelete(id), before, now);
      deleted := id in jobs && jobs[id].status == Pending;
      if deleted {
        assert Counted(jobs[id], history[id]);
        jobs := jobs - {id};
      }
    }

    /** cancel, with nothing happening between its two phases. */
    method Cancel(id: JobId, ghost before: Time, now: Time) returns (deleted: bool)
      requires Valid(before) && before <= now
      modifies this
      ensures Valid(now) && Snapshot() == Apply(old(Snapshot()), CancelDelete(id), now)
      ensures deleted <==> id in old(jobs) && old(jobs)[id].status == Pending
      ensures deleted ==> id !in jobs && old(history)[id].claims <= old(history)[id].resets
    {
      StepKeepsInv(Snapshot(), CancelDelete(id), before, now);
      var pending := CancelCheck(id, before);
      if !pending { return false; }
      deleted := CancelDeletePending(id, before, now);
    }

    /** reset_stale of the web route, with nothing happening between its read and its write. */
    method WebResetStale(timeout: nat, ghost before: Time, now: Time) returns (count: nat)
      requires Valid(before) && before <= now
      modifies this
      ensures Valid(now) && Snapshot() == Apply(old(Snapshot()), WebReset(timeout), now)
      ensures count == |StaleIds(old(jobs), now - timeout)|
      // A row is cleared exactly when it runs and its last sign of life is too old; all others stay.
      ensures jobs.Keys == old(jobs).Keys
      ensures forall id <- old(jobs) ::
                if Silent(old(jobs)[id], now - timeout) then Cleared(old(jobs)[id], jobs[id], 0)
                else jobs[id] == old(jobs)[id]
    {
      ghost var start := Snapshot();
      var stale := StaleIds(jobs, now - timeout);
      count := |stale|;
      ResetRows(stale);
      WebResetIs(start, timeout, now);
      StepKeepsInv(start, WebReset(timeout), before, now);
    }

    /** The loop over the stale rows. */
    method ResetRows(stale: set<JobId>)
      requires stale <= jobs.Keys && stale <= history.Keys
      modifies this
      ensures Snapshot() == ResetIn(old(Snapshot()), stale)
    {
      ghost var start := Snapshot();
      var rest := stale;
      ghost var done: set<JobId> := {};
      ResetNone(start);
      while rest != {}
        invariant done + rest == stale && done !! rest
        invariant Snapshot() == ResetIn(start, done)
        decreases rest
      {
        var id :| id in rest;
        ResetOneMore(start, done, id);
        jobs := jobs[id := Requeued(jobs[id])];
        history := history[id := history[id].(resets := history[id].resets + 1, claimsSinceManual := 0)];
        done := done + {id};
        rest := rest - {id};
      }
      assert done == stale;
    }

    /**
      reset_stale_analyses_core: two UPDATEs on disjoint counts, dead-lettering
      the jobs that have spent their budget and re-queueing the others.
     */
    method ResetStaleCore(timeout: nat, maxRetries: int, ghost before: Time, now: Time) returns (requeued: nat)
      requires Valid(before) && before <= now
      modifies this
      ensures Valid(now) && Snapshot() == Apply(old(Snapshot()), ResetStale(timeout, maxRetries), now)
      ensures requeued == |PendingOf(jobs, StaleIds(old(jobs), now - timeout))|
      // The same rows; one that has spent its budget fails for good, the others are cleared and counted.
      ensures RowsSwept(old(jobs), jobs, now - timeout, maxRetries, now)
    {
      ghost var start := Snapshot();
      requeued := SweepRows(now - timeout, maxRetries, now);
      SweepSteps(start, Snapshot(), timeout, maxRetries, before, now);
    }

    method SweepRows(cutoff: Time, maxRetries: int, now: Time) returns (requeued: nat)
      modifies this
      ensures Snapshot() == Swept(old(Snapshot()), cutoff, maxRetries, now)
      ensures requeued == |PendingOf(jobs, StaleIds(old(jobs), cutoff))|
      ensures RowsSwept(old(jobs), jobs, cutoff, maxRetries, now)
    {
      TwoUpdates(jobs, cutoff, maxRetries, now);
      history := SweepHistory(Snapshot(), cutoff, maxRetries);
      if maxRetries > 0 {
        jobs := DeadLetter(jobs, cutoff, maxRetries, now);
      }
      var due := Due(jobs, cutoff, maxRetries);
      requeued := |due|;
      jobs := Requeue(jobs, due);
    }

    /** retry of a failed job. */
    method RetryJob(id: JobId, ghost before: Time, now: Time) returns (requeued: bool)
      requires Valid(before) && before <= now
      modifies this
      ensures Valid(now) && Snapshot() == Apply(old(Snapshot()), Retry(id), now)
      ensures requeued <==> id in old(jobs) && old(jobs)[id].status == Failed
      ensures !requeued ==> jobs == old(jobs)
      ensures requeued ==> OnlyRow(old(jobs), jobs, id) && Cleared(old(jobs)[id], jobs[id], 0)
    {
      StepKeepsInv(Snapshot(), Retry(id), before, now);
      requeued := id in jobs && jobs[id].status == Failed;
      if requeued {
        jobs := jobs[id := Requeued(jobs[id])];
        history := history[id := history[id].(resets := history[id].resets + 1, claimsSinceManual := 0)];
      }
    }
  }

  // ---- Rows, column by column ----

  predicate OnlyRow(before: map<JobId, Job>, after: map<JobId, Job>, id: JobId) {
    id in before && id in after && after == before[id := after[id]]
  }

  predicate SameWork(before: Job, after: Job) {
    after.key == before.key && after.staleResets == before.staleResets
  }

  predicate SameOutcome(before: Job, after: Job) {
    after.completedAt == before.completedAt && after.success == before.success && after.result == before.result
  }

  predicate SameLifeSigns(before: Job, after: Job) {
    after.heartbeatAt == before.heartbeatAt && after.progress == before.progress
  }

  /** It runs, and its last heartbeat, or its start when it has none, is before the cutoff. */
  predicate Silent(job: Job, cutoff: Time) {
    && job.status == Running
    && (if job.heartbeatAt.Some? then job.heartbeatAt.value < cutoff
        else job.startedAt.Some? && job.startedAt.value < cutoff)
  }

  /** The same work, to be claimed anew, with this many stale resets. */
  predicate Cleared(before: Job, after: Job, staleResets: nat) {
    && after.key == before.key && after.status == Pending && after.staleResets == staleResets
    && after.startedAt.None? && after.completedAt.None? && after.heartbeatAt.None?
    && after.progress.None? && after.result.None? && after.success.None?
  }

  /** A failure that no worker reported; what the worker wrote before stays. */
  predicate GivenUp(before: Job, after: Job, now: Time) {
    && SameWork(before, after) && after.startedAt == before.startedAt && after.result == before.result
    && after.status == Failed && after.success == Some(false) && after.completedAt == Some(now)
    && after.progress.None? && after.heartbeatAt.None?
  }

  predicate RowsSwept(before: map<JobId, Job>, after: map<JobId, Job>, cutoff: Time, maxRetries: int, now: Time) {
    && after.Keys == before.Keys
    && forall id <- before ::
      if !Silent(before[id], cutoff) then after[id] == before[id]
      else if maxRetries > 0 && before[id].staleResets >= maxRetries then GivenUp(before[id], after[id], now)
      else Cleared(before[id], after[id], before[id].staleResets + 1)
  }

  lemma NoneActiveIff(jobs: map<JobId, Job>, key: Key)
    ensures ActiveWith(jobs, key) == {} <==>
            forall id <- jobs :: jobs[id].key == key ==> jobs[id].status in {Completed, Failed}
  {
    assert forall id <- jobs :: id in ActiveWith(jobs, key) <==>
                                jobs[id].key == key && jobs[id].status !in {Completed, Failed};
  }

  function StaleIds(jobs: map<JobId, Job>, cutoff: Time): set<JobId> {
    set id <- jobs | Stale(jobs[id], cutoff)
  }

  ghost function PendingOf(jobs: map<JobId, Job>, ids: set<JobId>): set<JobId> {
    set id <- ids | id in jobs && jobs[id].status == Pending
  }

  /** The rows in `done` reset, the others as they were. */
  ghost function ResetIn(s: State, done: set<JobId>): State {
    s.(jobs := map id <- s.jobs :: if id in done then Requeued(s.jobs[id]) else s.jobs[id],
       history := map id <- s.history ::
         if id in done then s.history[id].(resets := s.history[id].resets + 1, claimsSinceManual := 0)
         else s.history[id])
  }

  lemma ResetOneMore(s: State, done: set<JobId>, id: JobId)
    requires id in s.jobs && id in s.history && id !in done
    ensures var now := ResetIn(s, done);
      && id in now.jobs && id in now.history
      && now.jobs[id := Requeued(now.jobs[id])] == ResetIn(s, done + {id}).jobs
      && now.history[id := now.history[id].(resets := now.history[id].resets + 1, claimsSinceManual := 0)]
         == ResetIn(s, done + {id}).history
  {
  }

  lemma ResetNone(s: State)
    ensures ResetIn(s, {}) == s
  {
    assert ResetIn(s, {}).jobs == s.jobs && ResetIn(s, {}).history == s.history;
  }

  lemma WebResetIs(s: State, timeout: nat, now: Time)
    requires s.history.Keys >= s.jobs.Keys
    ensures Apply(s, WebReset(timeout), now) == ResetIn(s, StaleIds(s.jobs, now - timeout))
  {
    var stale := StaleIds(s.jobs, now - timeout);
    assert Apply(s, WebReset(timeout), now).jobs == ResetIn(s, stale).jobs;
    assert Apply(s, WebReset(timeout), now).history == ResetIn(s, stale).history;
  }

  ghost function Swept(s: State, cutoff: Time, maxRetries: int, now: Time): State {
    s.(jobs := SweepJobs(s.jobs, cutoff, maxRetries, now), history := SweepHistory(s, cutoff, maxRetries))
  }

  lemma SweepSteps(s: State, next: State, timeout: nat, maxRetries: int, before: Time, now: Time)
    requires Inv(s, before) && before <= now && next == Swept(s, now - timeout, maxRetries, now)
    ensures next == Apply(s, ResetStale(timeout, maxRetries), now) && Inv(next, now)
  {
    StepKeepsInv(s, ResetStale(timeout, maxRetries), before, now);
  }

  /** The first UPDATE: fail the stale jobs that have spent their budget. */
  function DeadLetter(jobs: map<JobId, Job>, cutoff: Time, maxRetries: int, now: Time): map<JobId, Job> {
    map id <- jobs ::
      if Stale(jobs[id], cutoff) && jobs[id].staleResets >= maxRetries
      then jobs[id].(status := Failed, success := Some(false), completedAt := Some(now), progress := None,
        heartbeatAt := None)
      else jobs[id]
  }

  /** The rows the second UPDATE selects. */
  function Due(jobs: map<JobId, Job>, cutoff: Time, maxRetries: int): set<JobId> {
    set id <- jobs | Stale(jobs[id], cutoff) && (maxRetries <= 0 || jobs[id].staleResets < maxRetries)
  }

  /** The second UPDATE. */
  function Requeue(jobs: map<JobId, Job>, due: set<JobId>): map<JobId, Job> {
    map id <- jobs ::
      if id in due then NewJob(jobs[id].key).(staleResets := jobs[id].staleResets + 1) else jobs[id]
  }

  /** The two UPDATEs move each stale job exactly once. */
  lemma TwoUpdates(jobs: map<JobId, Job>, cutoff: Time, maxRetries: int, now: Time)
    ensures var first := if maxRetries > 0 then DeadLetter(jobs, cutoff, maxRetries, now) else jobs;
      var due := Due(first, cutoff, maxRetries);
      var swept := SweepJobs(jobs, cutoff, maxRetries, now);
      && Requeue(first, due) == swept
      && due == PendingOf(swept, StaleIds(jobs, cutoff))
  {
    var first := if maxRetries > 0 then DeadLetter(jobs, cutoff, maxRetries, now) else jobs;
    var due := Due(first, cutoff, maxRetries);
    var swept := SweepJobs(jobs, cutoff, maxRetries, now);
    forall id <- jobs ensures Requeue(first, due)[id] == swept[id] {
    }
  }
}
