/**
  The stale reset of the web route reads the stale rows first and writes them
  back later (myapp/blueprints/analysis.py).  This module says what that write
  does to a row that another request touched in between.
 */
module StaleRace {
  import opened Options
  import opened JobProtocol
  import opened LateWrites

  /** The row still has the status and times it was read with. */
  predicate SameLife(a: Job, b: Job) {
    a.status == b.status && a.startedAt == b.startedAt && a.heartbeatAt == b.heartbeatAt
  }

  /** The row shows that something happened at or after `since`. */
  predicate Touched(job: Job, since: Time) {
    job.status != Running || (LastActivity(job).Some? && LastActivity(job).value >= since)
  }

  lemma StepTouches(s: State, e: Event, now: Time, at: Time, since: Time, id: JobId)
    requires Inv(s, now) && since <= now <= at && id in s.jobs && id in Apply(s, e, at).jobs
    ensures SameLife(Apply(s, e, at).jobs[id], s.jobs[id]) || Touched(Apply(s, e, at).jobs[id], since)
    ensures Touched(s.jobs[id], since) ==> Touched(Apply(s, e, at).jobs[id], since)
  {
    assert Clocked(s.jobs[id], s.history[id], now);
  }

  /** A row read at `since` has its old life, shows the touch, or is gone. */
  lemma {:induction false} RunTouches(s: State, steps: seq<Step>, now: Time, since: Time, id: JobId, read: Job)
    requires Inv(s, now) && since <= now && InOrder(steps, now)
    requires id < s.nextId
    requires id in s.jobs ==> SameLife(s.jobs[id], read) || Touched(s.jobs[id], since)
    ensures id in Run(s, steps).jobs ==>
            SameLife(Run(s, steps).jobs[id], read) || Touched(Run(s, steps).jobs[id], since)
    decreases |steps|
  {
    if steps != [] {
      var e, at := steps[0].event, steps[0].at;
      StepKeepsInv(s, e, now, at);
      if id in Apply(s, e, at).jobs {
        StepTouches(s, e, now, at, since, id);
      }
      RunTouches(Apply(s, e, at), steps[1..], at, since, id, read);
    }
  }

  /** The second half of reset_stale: the row that was picked as `read` is written back as pending, column by column. */
  ghost function LateWrite(s: State, id: JobId, read: Job): State
    requires id in s.jobs
  {
    s.(jobs := s.jobs[id := Merge(s.jobs[id], read, Requeued(read))])
  }

  /** The write leaves a clean pending row if and only if every column that was clear when read is clear still. */
  lemma LateWriteCleansIff(s: State, id: JobId, read: Job)
    requires id in s.jobs && read.status == Running
    ensures var job := s.jobs[id];
      LateWrite(s, id, read).jobs[id] == Requeued(job) <==> ClearsAll(job, read)
  {
  }

  /**
    Rows are picked at time `read` with the cutoff of that moment; whatever
    requests run before the write, the write re-queues a job that is still quiet
    exactly when its row has kept the status and times it was read with.
   */
  lemma LateWriteExact(s: State, read: Time, timeout: nat, steps: seq<Step>, id: JobId)
    requires Inv(s, read) && InOrder(steps, read)
    requires id in s.jobs && Stale(s.jobs[id], read - timeout) && id in Run(s, steps).jobs
    ensures var late := Run(s, steps);
      && id in late.history
      && (late.jobs[id].status == Running && QuietBefore(late.history[id], read - timeout)
          <==> SameLife(late.jobs[id], s.jobs[id]))
  {
    var late := Run(s, steps);
    assert id in s.history;
    RunTouches(s, steps, read, read, id, s.jobs[id]);
    var end := RunKeepsInv(s, steps, read);
    StaleIffQuiet(late.jobs[id], late.history[id], end, read - timeout);
  }

  /**
    The late write of a reset, or of a retry, keeps active work unique exactly when
    the job is still active or nothing replaced it.
   */
  lemma LateWriteUniqueIff(s: State, id: JobId, read: Job)
    requires OneActive(s) && id in s.jobs && (read.status == Running || read.status == Failed)
    ensures OneActive(LateWrite(s, id, read)) <==> Active(s.jobs[id]) || ActiveWith(s.jobs, s.jobs[id].key) == {}
  {
    var next := LateWrite(s, id, read);
    if Active(s.jobs[id]) {
      forall i, j | i in next.jobs && j in next.jobs && Active(next.jobs[i]) && Active(next.jobs[j])
        && next.jobs[i].key == next.jobs[j].key
        ensures i == j
      {
        assert Active(s.jobs[i]) && Active(s.jobs[j]);
      }
    } else if other :| other in ActiveWith(s.jobs, s.jobs[id].key) {
      assert other in next.jobs && Active(next.jobs[other]) && Active(next.jobs[id]);
    } else {
      forall j <- next.jobs | Active(next.jobs[j]) && next.jobs[j].key == next.jobs[id].key ensures j == id {
        assert j !in ActiveWith(s.jobs, s.jobs[id].key);
      }
    }
  }

  /** Rows picked after `before`, and written back after `between`, leave two active jobs for one piece of work. */
  ghost predicate LosesRace(before: seq<Step>, between: seq<Step>, id: JobId, pick: Time, timeout: nat) {
    && InOrder(before, 0) && InOrder(between, pick)
    && var s := Run(EMPTY, before);
    && id in s.jobs && Stale(s.jobs[id], pick - timeout)
    && s.history.Keys >= s.jobs.Keys
    && var late := Run(s, between);
    && OneActive(late) && id in late.jobs && late.jobs[id].status == Completed
    && !OneActive(LateWrite(late, id, s.jobs[id]))
  }

  lemma TwoSteps(s: State, one: Step, two: Step)
    requires s.history.Keys >= s.jobs.Keys
    ensures var next := Apply(s, one.event, one.at);
      && next.history.Keys >= next.jobs.Keys
      && Run(s, [one, two]) == Apply(next, two.event, two.at)
  {
    HistoryKept(s, one);
    var next := Apply(s, one.event, one.at);
    HistoryKept(next, two);
    assert [one, two][1..] == [two] && [two][1..] == [];
    assert Run(Apply(next, two.event, two.at), []) == Apply(next, two.event, two.at);
  }

  lemma ClaimedJob(key: Key) returns (s: State)
    ensures Run(EMPTY, [Step(Request(key), 0), Step(Claim(0), 1)]) == s
    ensures s.jobs == map[0 := NewJob(key).(status := Running, startedAt := Some(1))]
    ensures s.nextId == 1 && s.history.Keys == {0}
  {
    TwoSteps(EMPTY, Step(Request(key), 0), Step(Claim(0), 1));
    s := Run(EMPTY, [Step(Request(key), 0), Step(Claim(0), 1)]);
  }

  lemma FinishedAndReplaced(key: Key, s: State)
    requires s.jobs == map[0 := NewJob(key).(status := Running, startedAt := Some(1))] && s.nextId == 1
             && s.history.Keys == {0}
    ensures var late := Run(s, [Step(Finish(0, true, None), 101), Step(Request(key), 102)]);
      && late.jobs.Keys == {0, 1} && late.jobs[0].status == Completed && late.jobs[0].key == key
           && late.jobs[1] == NewJob(key)
      && late.nextId == 2
  {
    TwoSteps(s, Step(Finish(0, true, None), 101), Step(Request(key), 102));
    assert ActiveWith(Apply(s, Finish(0, true, None), 101).jobs, key) == {};
  }

  lemma WriteAfterFinish(key: Key, late: State, read: Job)
    requires late.jobs.Keys == {0, 1} && late.jobs[0].status == Completed && late.jobs[0].key == key
             && late.jobs[1] == NewJob(key)
    requires late.nextId == 2 && read.status == Running
    ensures OneActive(late) && !OneActive(LateWrite(late, 0, read))
  {
    assert 1 in ActiveWith(late.jobs, key);
    LateWriteUniqueIff(late, 0, read);
  }

  /** The race, step by step: the worker finishes, the work is asked for again, and then the write lands. */
  lemma FinishedJobIsRequeued(key: Key)
    ensures exists before, between :: LosesRace(before, between, 0, 100, 60)
  {
    var before := [Step(Request(key), 0), Step(Claim(0), 1)];
    var between := [Step(Finish(0, true, None), 101), Step(Request(key), 102)];
    var s := ClaimedJob(key);
    FinishedAndReplaced(key, s);
    WriteAfterFinish(key, Run(s, between), s.jobs[0]);
    assert InOrder(before, 0) && InOrder(between, 100);
    assert LosesRace(before, between, 0, 100, 60);
  }
}
