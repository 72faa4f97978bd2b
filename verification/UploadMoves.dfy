/**
  The steps of the upload protocol told by their effects: which step changes what
  of a session, of the client and of its resume file, and to what.
 */
module UploadMoves {
  import opened ChunkGeometry
  import opened UploadProtocol

  // ---- Sessions ----

  predicate Claimable(session: Session, stale: bool) {
    session.phase == Open || (session.phase == Assembling && stale)
  }

  predicate Complete(session: Session) {
    forall i: nat | i < session.total :: i in session.chunks
  }

  /** A finalise run starts: asked for with every chunk there, or driven again by a poll. */
  predicate StartsRun(s: State, e: Event, u: Uuid, session: Session) {
    match e
    case HandleComplete(v, stale) => v == u && u in s.completes && Complete(session) && Claimable(session, stale)
    case Redrive(v) => v == u && session.phase == Assembling
    case _ => false
  }

  /** This runner reads on, with its next chunk there or not, or with none left. */
  predicate Reads(e: Event, u: Uuid, r: nat, session: Session) {
    e == RunnerReads(u, r) && r in session.runners
  }

  predicate Publishes(e: Event, u: Uuid, session: Session) {
    e.RunnerReads? && Reads(e, u, e.runner, session) && session.runners[e.runner].next >= session.total
  }

  predicate ReadsChunk(e: Event, u: Uuid, session: Session) {
    && e.RunnerReads? && Reads(e, u, e.runner, session)
    && session.runners[e.runner].next < session.total && session.runners[e.runner].next in session.chunks
  }

  predicate Breaks(e: Event, u: Uuid, session: Session) {
    || (e.RunnerFails? && e.session == u && e.runner in session.runners)
    || (e.RunnerReads? && Reads(e, u, e.runner, session)
        && session.runners[e.runner].next < session.total && session.runners[e.runner].next !in session.chunks)
  }

  /** The phase changes to what a starting, publishing or breaking run makes of it, and else stays. */
  lemma PhaseMoves(s: State, file: Bytes, e: Event, u: Uuid)
    requires u in s.sessions && u in Apply(s, file, e).sessions && u < s.nextUuid
    ensures var before, after := s.sessions[u], Apply(s, file, e).sessions[u];
      after.phase ==
        if StartsRun(s, e, u, before) then Assembling
        else if Publishes(e, u, before) then Ready(before.runners[e.runner].buffer)
        else if Breaks(e, u, before) then Broken
        else before.phase
  {
  }

  /** Chunks change when an admitted one is written, and when those of a finished session are dropped. */
  lemma ChunksMove(s: State, file: Bytes, e: Event, u: Uuid)
    requires u in s.sessions && u in Apply(s, file, e).sessions && u < s.nextUuid
    ensures var before, after := s.sessions[u], Apply(s, file, e).sessions[u];
      && after.total == before.total
      && after.chunks ==
         if e.WriteChunk? && e.chunk in s.admitted && e.chunk.session == u
         then before.chunks[e.chunk.index := e.chunk.data]
         else if e == DropChunks(u) && before.phase != Open && before.phase != Assembling then map[]
         else before.chunks
  {
  }

  /** A starting run has read nothing, one that reads takes the next chunk, one that ends or is lost is gone. */
  lemma RunnersMove(s: State, file: Bytes, e: Event, u: Uuid)
    requires u in s.sessions && u in Apply(s, file, e).sessions && u < s.nextUuid
    ensures var before, after := s.sessions[u], Apply(s, file, e).sessions[u];
      && after.runners ==
         (if StartsRun(s, e, u, before) then before.runners[before.nextRunner := Runner(0, [])]
          else if ReadsChunk(e, u, before) then
            var runner := before.runners[e.runner];
            before.runners[e.runner := Runner(runner.next + 1, runner.buffer + before.chunks[runner.next])]
          else if Publishes(e, u, before) || Breaks(e, u, before) || (e.RunnerLost? && e.session == u)
          then before.runners - {e.runner}
          else before.runners)
      && after.nextRunner == before.nextRunner + if StartsRun(s, e, u, before) then 1 else 0
  {
  }

  /** Sessions come empty, under the next name, from a start or a lost answer, and go when purged. */
  lemma SessionsComeAndGo(s: State, file: Bytes, e: Event, u: Uuid)
    requires forall v <- s.sessions :: v < s.nextUuid
    ensures var after := Apply(s, file, e);
      && (u in after.sessions && u !in s.sessions ==>
            && u == s.nextUuid && after.nextUuid == s.nextUuid + 1
            && (e.Start? || e.InitReplyLost? || e.FetchStatus?)
            && after.sessions[u].phase == Open && after.sessions[u].chunks == map[]
            && after.sessions[u].runners == map[]
            && after.sessions[u].total <= 100_000)
      && (u in s.sessions && u !in after.sessions <==> u in s.sessions && e == Purge(u))
      && (e.InitReplyLost? && s.client.Idle? && Total(|file|, e.chunkSize) <= 100_000 ==>
            s.nextUuid in after.sessions && after.sessions[s.nextUuid].total == Total(|file|, e.chunkSize))
  {
  }

  // ---- What travels ----

  predicate SendsNow(s: State, e: Event, file: Bytes) {
    && e == SendChunk && s.client.Uploading? && s.client.next < Total(|file|, s.client.chunkSize)
    && s.client.next !in s.client.received
  }

  predicate AdmitsNow(s: State, e: Event) {
    && e.AdmitChunk? && e.chunk in s.sent && e.chunk.session in s.sessions
    && s.sessions[e.chunk.session].phase == Open && e.chunk.index < s.sessions[e.chunk.session].total
  }

  predicate WritesNow(s: State, e: Event) {
    e.WriteChunk? && e.chunk in s.admitted && e.chunk.session in s.sessions
  }

  predicate AsksNow(s: State, e: Event, file: Bytes) {
    e == SendComplete && s.client.Uploading? && s.client.next >= Total(|file|, s.client.chunkSize)
  }

  /** The client sends a chunk, or asks for the end, at just these steps. */
  lemma RequestsMove(s: State, file: Bytes, e: Event)
    ensures var after := Apply(s, file, e);
      && after.sent == s.sent
         + (if SendsNow(s, e, file)
            then {Chunk(s.client.session, s.client.next, Slice(file, s.client.chunkSize, s.client.next))} else {})
      && after.completes == s.completes + (if AsksNow(s, e, file) then {s.client.session} else {})
  {
  }

  /** The server admits a chunk, or counts one as stored, at just these. */
  lemma AdmissionsMove(s: State, file: Bytes, e: Event)
    ensures var after := Apply(s, file, e);
      && after.admitted == s.admitted + (if AdmitsNow(s, e) then {e.chunk} else {})
      && after.stored == s.stored + (if WritesNow(s, e) then {(e.chunk.session, e.chunk.index)} else {})
  {
  }

  // ---- The client ----

  /** The session of an earlier run can be taken up again. */
  predicate Resumable(s: State, total: nat, reachable: bool) {
    reachable && total in s.saved && s.saved[total] in s.sessions && s.sessions[s.saved[total]].phase != Broken
  }

  /** A fresh start: a new session, remembered under the chunk count, or none when there are too many chunks. */
  predicate StartsFresh(s: State, after: State, total: nat, chunkSize: ChunkSize) {
    if total > 100_000 then after == s.(client := Idle)
    else
      && after.client == Uploading(s.nextUuid, chunkSize, {}, 0) && after.nextUuid == s.nextUuid + 1
      && after.saved == s.saved[total := s.nextUuid]
      && after.sessions == s.sessions[s.nextUuid := Session(total, map[], Open, map[], 0)]
  }

  /** Starting takes up the earlier session as far as it got, or starts afresh. */
  lemma StartMoves(s: State, file: Bytes, chunkSize: ChunkSize, reachable: bool)
    requires s.client.Idle? || s.client.Returned?
    ensures var after, total := Apply(s, file, Start(chunkSize, reachable)), Total(|file|, chunkSize);
      if !Resumable(s, total, reachable) then StartsFresh(s, after, total, chunkSize)
      else
        var u := s.saved[total];
        && after.sessions == s.sessions && after.nextUuid == s.nextUuid
        && match s.sessions[u].phase
           case Ready(artefact) => after.client == Returned(artefact) && after.saved == s.saved - {total}
           case Assembling =>
             && after.saved == s.saved && after.client.Uploading? && after.client.session == u
             && after.client.chunkSize == chunkSize && after.client.next == 0
             && (forall i: nat :: i in after.client.received <==> i < total)
           case _ => after.saved == s.saved && after.client == Resuming(u, chunkSize)
  {
  }

  /** A running client is not started again. */
  lemma StartIsForIdle(s: State, file: Bytes, chunkSize: ChunkSize, reachable: bool)
    requires !s.client.Idle? && !s.client.Returned?
    ensures Apply(s, file, Start(chunkSize, reachable)) == s
  {
  }

  /** The resume asks what the server holds, and starts afresh when it cannot tell or the counts differ. */
  lemma FetchMoves(s: State, file: Bytes, ok: bool)
    requires s.client.Resuming?
    ensures var after, u := Apply(s, file, FetchStatus(ok)), s.client.session;
      var total := Total(|file|, s.client.chunkSize);
      if ok && u in s.sessions && s.sessions[u].total == total
      then after == s.(client := Uploading(u, s.client.chunkSize, s.sessions[u].chunks.Keys, 0))
      else StartsFresh(s, after, total, s.client.chunkSize)
  {
  }

  /** The chunk loop goes on past chunks the server holds, and past those it has stored. */
  lemma LoopMoves(s: State, file: Bytes, e: Event)
    requires s.client.Uploading? && (e == SendChunk || e == ChunkAcknowledged || e == SendComplete)
    ensures var after, c := Apply(s, file, e).client, s.client;
      var more := c.next < Total(|file|, c.chunkSize);
      after ==
        if e == SendChunk && more && c.next in c.received then c.(next := c.next + 1)
        else if e == ChunkAcknowledged && (c.session, c.next) in s.stored then c.(next := c.next + 1)
        else if e == SendComplete && !more then Waiting(c.session, c.chunkSize)
        else c
  {
  }

  /** Polling ends with the artefact, and the resume entry goes; with a failure or a lost session the run ends. */
  lemma PollMoves(s: State, file: Bytes)
    requires s.client.Waiting?
    ensures var after, u, total := Apply(s, file, Poll), s.client.session, Total(|file|, s.client.chunkSize);
      if u !in s.sessions || s.sessions[u].phase == Broken then after == s.(client := Idle)
      else if s.sessions[u].phase.Ready?
      then after == s.(client := Returned(s.sessions[u].phase.artefact), saved := s.saved - {total})
      else after == s
  {
  }

  /** A crash forgets the run, and only the run. */
  lemma CrashMoves(s: State, file: Bytes)
    ensures Apply(s, file, Crash) == s.(client := Idle)
  {
  }
}
