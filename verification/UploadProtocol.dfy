/**
  The resumable chunked upload as a state machine: one client that can crash,
  retry and resume, a network that delays and repeats, and a server whose
  sessions freeze once finalise is claimed (cli/arccli/client.py,
  myapp/blueprints/api.py, myapp/services/chunked_upload.py).
 */
module UploadProtocol {
  import opened ChunkGeometry

  type Uuid = nat

  const MAX_TOTAL_CHUNKS := 100_000

  /** finalize_state; a session without one is open. */
  datatype Phase = Open | Assembling | Ready(artefact: Bytes) | Broken

  /** A finalise run: the chunks read so far. */
  datatype Runner = Runner(next: nat, buffer: Bytes)

  datatype Session = Session(total: nat, chunks: map<nat, Bytes>, phase: Phase, runners: map<nat, Runner>,
                             nextRunner: nat)

  /** A chunk request, as it travels. */
  datatype Chunk = Chunk(session: Uuid, index: nat, data: Bytes)

  datatype Client =
    | Idle
    | Resuming(session: Uuid, chunkSize: ChunkSize)
    | Uploading(session: Uuid, chunkSize: ChunkSize, received: set<nat>, next: nat)
    | Waiting(session: Uuid, chunkSize: ChunkSize)
    | Returned(artefact: Bytes)

  /**
    `saved` is the client's resume file, keyed by the chunk count. A request once
    sent may arrive at any later time, any number of times; an admitted chunk
    has passed the server's checks and is yet to be written.
   */
  datatype State = State(sessions: map<Uuid, Session>, nextUuid: Uuid, saved: map<nat, Uuid>,
                         sent: set<Chunk>, admitted: set<Chunk>, stored: set<(Uuid, nat)>,
                         completes: set<Uuid>, client: Client)

  datatype Event =
    | Start(chunkSize: ChunkSize, reachable: bool)
    | InitReplyLost(chunkSize: ChunkSize)
    | FetchStatus(ok: bool)
    | SendChunk
    | ChunkAcknowledged
    | AdmitChunk(chunk: Chunk)
    | WriteChunk(chunk: Chunk)
    | SendComplete
    | HandleComplete(session: Uuid, stale: bool)
    | Redrive(session: Uuid)
    | RunnerReads(session: Uuid, runner: nat)
    | RunnerFails(session: Uuid, runner: nat)
    | RunnerLost(session: Uuid, runner: nat)
    | DropChunks(session: Uuid)
    | Purge(session: Uuid)
    | Poll
    | Crash

  const INITIAL := State(map[], 0, map[], {}, {}, {}, {}, Idle)

  function Indices(total: nat): (all: set<nat>)
    ensures forall i: nat :: i in all <==> i < total
  {
    if total == 0 then {} else Indices(total - 1) + {total - 1}
  }

  // ---- Client steps ----

  /** Open a session on the server; it refuses absurd chunk counts. */
  function OpenSession(s: State, total: nat): State {
    if total > MAX_TOTAL_CHUNKS then s
    else s.(sessions := s.sessions[s.nextUuid := Session(total, map[], Open, map[], 0)], nextUuid := s.nextUuid + 1)
  }

  function StartFresh(s: State, size: nat, chunkSize: ChunkSize): State {
    var total := Total(size, chunkSize);
    if total > MAX_TOTAL_CHUNKS then s.(client := Idle)
    else OpenSession(s, total).(saved := s.saved[total := s.nextUuid],
      client := Uploading(s.nextUuid, chunkSize, {}, 0))
  }

  /** _resume_session up to the finalise status, or a fresh start. */
  function BeginRun(s: State, size: nat, chunkSize: ChunkSize, reachable: bool): State {
    var total := Total(size, chunkSize);
    if total !in s.saved || !reachable then StartFresh(s, size, chunkSize)
    else
      var u := s.saved[total];
      if u !in s.sessions then StartFresh(s, size, chunkSize)
      else
        match s.sessions[u].phase
        case Ready(artefact) => s.(client := Returned(artefact), saved := s.saved - {total})
        case Assembling => s.(client := Uploading(u, chunkSize, Indices(total), 0))
        case Broken => StartFresh(s, size, chunkSize)
        case Open => s.(client := Resuming(u, chunkSize))
  }

  /** The rest of _resume_session: which chunks does the server hold? */
  function Fetch(s: State, size: nat, ok: bool): State
    requires s.client.Resuming?
  {
    var u, chunkSize := s.client.session, s.client.chunkSize;
    if !ok || u !in s.sessions || s.sessions[u].total != Total(size, chunkSize) then StartFresh(s, size, chunkSize)
    else s.(client := Uploading(u, chunkSize, s.sessions[u].chunks.Keys, 0))
  }

  /** One turn of the chunk loop: skip what the server holds, send (or re-send) what it lacks. */
  function Send(s: State, file: Bytes): State
    requires s.client.Uploading?
  {
    var c := s.client;
    if c.next in c.received then s.(client := c.(next := c.next + 1))
    else s.(sent := s.sent + {Chunk(c.session, c.next, Slice(file, c.chunkSize, c.next))})
  }

  function PollStatus(s: State, size: nat): State
    requires s.client.Waiting?
  {
    var u := s.client.session;
    if u !in s.sessions then s.(client := Idle)
    else
      match s.sessions[u].phase
      case Ready(artefact) => s.(client := Returned(artefact), saved := s.saved - {Total(size, s.client.chunkSize)})
      case Broken => s.(client := Idle)
      case _ => s
  }

  // ---- Server steps ----

  predicate AllReceived(session: Session) {
    forall i: nat | i < session.total :: i in session.chunks
  }

  /** Neither published nor failed. */
  predicate Live(session: Session) {
    session.phase.Open? || session.phase.Assembling?
  }

  /** claim_finalize, and the run it starts: one winner, unless the previous runner looks dead. */
  function Claim(session: Session, stale: bool): Session {
    if session.phase.Open? || (session.phase.Assembling? && stale) then
      session.(phase := Assembling, runners := session.runners[session.nextRunner := Runner(0, [])],
               nextRunner := session.nextRunner + 1)
    else session
  }

  /** A runner reads the next chunk, or publishes what it read; a missing chunk ends it. */
  function Read(session: Session, r: nat): Session
    requires r in session.runners
  {
    var runner := session.runners[r];
    if runner.next >= session.total then session.(phase := Ready(runner.buffer), runners := session.runners - {r})
    else if runner.next in session.chunks then
      session.(runners := session.runners[r := Runner(runner.next + 1, runner.buffer + session.chunks[runner.next])])
    else session.(phase := Broken, runners := session.runners - {r})
  }

  predicate IsFinaliseStep(e: Event) {
    e.HandleComplete? || e.Redrive? || e.RunnerReads? || e.RunnerFails? || e.RunnerLost? || e.DropChunks?
  }

  /** The steps of finalising, on the one session they concern. */
  function Finalise(session: Session, e: Event, asked: bool): Session
    requires IsFinaliseStep(e)
  {
    match e
    case HandleComplete(_, stale) => if asked && AllReceived(session) then Claim(session, stale) else session
    case Redrive(_) => if session.phase.Assembling? then Claim(session, true) else session
    case RunnerReads(_, r) => if r in session.runners then Read(session, r) else session
    case RunnerFails(_, r) =>
      if r in session.runners then session.(phase := Broken, runners := session.runners - {r}) else session
    case RunnerLost(_, r) => session.(runners := session.runners - {r})
    case DropChunks(_) => if Live(session) then session else session.(chunks := map[])
  }

  /** A chunk request is answered: accepted only by an open session. */
  function Admit(s: State, c: Chunk): State {
    if c in s.sent && c.session in s.sessions && s.sessions[c.session].phase.Open?
      && c.index < s.sessions[c.session].total
    then s.(admitted := s.admitted + {c}) else s
  }

  /** The admitted chunk reaches the disk, perhaps much later. */
  function Write(s: State, c: Chunk): State {
    if c in s.admitted && c.session in s.sessions then
      var session := s.sessions[c.session];
      s.(sessions := s.sessions[c.session := session.(chunks := session.chunks[c.index := c.data])],
         stored := s.stored + {(c.session, c.index)})
    else s
  }

  /** One step; a step whose moment has not come changes nothing. */
  function Apply(s: State, file: Bytes, e: Event): State {
    if IsFinaliseStep(e) then
      if e.session in s.sessions
      then s.(sessions := s.sessions[e.session := Finalise(s.sessions[e.session], e, e.session in s.completes)]) else s
    else
      match e
      case Start(chunkSize, reachable) =>
        if s.client.Idle? || s.client.Returned? then BeginRun(s, |file|, chunkSize, reachable) else s
      case InitReplyLost(chunkSize) => if s.client.Idle? then OpenSession(s, Total(|file|, chunkSize)) else s
      case FetchStatus(ok) => if s.client.Resuming? then Fetch(s, |file|, ok) else s
      case SendChunk =>
        if s.client.Uploading? && s.client.next < Total(|file|, s.client.chunkSize) then Send(s, file) else s
      case ChunkAcknowledged =>
        if s.client.Uploading? && (s.client.session, s.client.next) in s.stored
        then s.(client := s.client.(next := s.client.next + 1)) else s
      case AdmitChunk(c) => Admit(s, c)
      case WriteChunk(c) => Write(s, c)
      case SendComplete =>
        if s.client.Uploading? && s.client.next >= Total(|file|, s.client.chunkSize)
        then s.(completes := s.completes + {s.client.session}, client := Waiting(s.client.session, s.client.chunkSize))
        else s
      case Purge(u) => s.(sessions := s.sessions - {u})
      case Poll => if s.client.Waiting? then PollStatus(s, |file|) else s
      case _ => s.(client := Idle)
  }

  function Run(s: State, file: Bytes, events: seq<Event>): State
    decreases |events|
  {
    if events == [] then s else Run(Apply(s, file, events[0]), file, events[1..])
  }

  // ---- What every step keeps ----

  /** The client only ever starts with these chunk sizes. */
  ghost predicate StartsWith(events: seq<Event>, sizes: set<ChunkSize>) {
    forall e <- events :: e.Start? || e.InitReplyLost? ==> e.chunkSize in sizes
  }

  /** One chunk size for each chunk count, which cuts the file as every other size of that count does. */
  ghost predicate Canonical(file: Bytes, sizes: set<ChunkSize>, canon: map<nat, ChunkSize>) {
    && (forall total <- canon :: Total(|file|, canon[total]) == total)
    && (forall size <- sizes | Total(|file|, size) <= MAX_TOTAL_CHUNKS ::
          Total(|file|, size) in canon && CutsAs(file, size, canon[Total(|file|, size)]))
  }

  ghost predicate CutsAs(file: Bytes, size: ChunkSize, other: ChunkSize) {
    forall i: nat | i < Total(|file|, size) :: Slice(file, size, i) == Slice(file, other, i)
  }

  ghost predicate GoodChunk(file: Bytes, chunkSize: ChunkSize, i: nat, data: Bytes) {
    i < Total(|file|, chunkSize) && data == Slice(file, chunkSize, i)
  }

  ghost predicate GoodRunner(file: Bytes, chunkSize: ChunkSize, runner: Runner) {
    && runner.next <= Total(|file|, chunkSize)
    && runner.buffer == file[..Offset(|file|, chunkSize, runner.next)]
  }

  ghost predicate GoodSession(file: Bytes, chunkSize: ChunkSize, session: Session) {
    && session.total == Total(|file|, chunkSize)
    && (forall i <- session.chunks :: GoodChunk(file, chunkSize, i, session.chunks[i]))
    && (session.phase.Assembling? ==> AllReceived(session))
    && (session.phase.Ready? ==> session.phase.artefact == file)
    && (forall r <- session.runners :: GoodRunner(file, chunkSize, session.runners[r]))
  }

  /** What the client believes the server holds, it holds, as long as the session lives. */
  ghost predicate Held(sessions: map<Uuid, Session>, u: Uuid, i: nat) {
    u in sessions && Live(sessions[u]) ==> i in sessions[u].chunks
  }

  ghost predicate SessionsGood(s: State, file: Bytes, canon: map<nat, ChunkSize>) {
    forall u <- s.sessions ::
      && u < s.nextUuid && s.sessions[u].total <= MAX_TOTAL_CHUNKS && s.sessions[u].total in canon
      && GoodSession(file, canon[s.sessions[u].total], s.sessions[u])
  }

  ghost predicate ChunksGood(s: State, file: Bytes, canon: map<nat, ChunkSize>) {
    && s.admitted <= s.sent
    && (forall c <- s.sent :: c.session < s.nextUuid)
    && (forall c <- s.sent | c.session in s.sessions && s.sessions[c.session].total in canon ::
          GoodChunk(file, canon[s.sessions[c.session].total], c.index, c.data))
  }

  ghost predicate StoredGood(s: State) {
    && (forall p <- s.stored :: p.0 < s.nextUuid && Held(s.sessions, p.0, p.1))
    && (forall u <- s.completes ::
          u < s.nextUuid && (u in s.sessions && Live(s.sessions[u]) ==> AllReceived(s.sessions[u])))
  }

  ghost predicate OnSession(s: State, file: Bytes, sizes: set<ChunkSize>, u: Uuid, chunkSize: ChunkSize) {
    u < s.nextUuid && chunkSize in sizes && (u in s.sessions ==> s.sessions[u].total == Total(|file|, chunkSize))
  }

  ghost predicate ClientGood(s: State, file: Bytes, sizes: set<ChunkSize>) {
    && (forall total <- s.saved ::
          s.saved[total] < s.nextUuid && (s.saved[total] in s.sessions ==> s.sessions[s.saved[total]].total == total))
    && match s.client
       case Idle => true
       case Resuming(u, chunkSize) => OnSession(s, file, sizes, u, chunkSize)
       case Uploading(u, chunkSize, received, next) =>
         && OnSession(s, file, sizes, u, chunkSize)
         && (forall i <- received :: Held(s.sessions, u, i))
         && (forall i: nat | i < next :: Held(s.sessions, u, i))
       case Waiting(u, chunkSize) => OnSession(s, file, sizes, u, chunkSize)
       case Returned(artefact) => artefact == file
  }

  ghost predicate Inv(s: State, file: Bytes, sizes: set<ChunkSize>, canon: map<nat, ChunkSize>) {
    && Canonical(file, sizes, canon)
    && SessionsGood(s, file, canon)
    && ChunksGood(s, file, canon)
    && StoredGood(s)
    && ClientGood(s, file, sizes)
  }

  /** A runner that reads on still holds a prefix of the file. */
  lemma ReadKeepsRunner(file: Bytes, chunkSize: ChunkSize, session: Session, runner: Runner)
    requires GoodSession(file, chunkSize, session) && GoodRunner(file, chunkSize, runner)
    requires runner.next < session.total && runner.next in session.chunks
    ensures GoodRunner(file, chunkSize, Runner(runner.next + 1, runner.buffer + session.chunks[runner.next]))
  {
    assert GoodChunk(file, chunkSize, runner.next, session.chunks[runner.next]);
    SliceExtends(file, chunkSize, runner.next);
  }

  /** One that is through holds the file. */
  lemma ReadAllIsFile(file: Bytes, chunkSize: ChunkSize, runner: Runner)
    requires GoodRunner(file, chunkSize, runner) && runner.next >= Total(|file|, chunkSize)
    ensures runner.buffer == file
  {
    LastOffset(|file|, chunkSize);
  }

  lemma ReadKeepsSession(file: Bytes, chunkSize: ChunkSize, session: Session, r: nat)
    requires GoodSession(file, chunkSize, session) && r in session.runners
    ensures GoodSession(file, chunkSize, Read(session, r))
  {
    var runner := session.runners[r];
    assert GoodRunner(file, chunkSize, runner);
    if runner.next >= session.total {
      ReadAllIsFile(file, chunkSize, runner);
    } else if runner.next in session.chunks {
      ReadKeepsRunner(file, chunkSize, session, runner);
    }
  }

  lemma ClaimKeepsSession(file: Bytes, chunkSize: ChunkSize, session: Session, stale: bool)
    requires GoodSession(file, chunkSize, session) && AllReceived(session)
    ensures GoodSession(file, chunkSize, Claim(session, stale))
  {
    assert file[..Offset(|file|, chunkSize, 0)] == [];
  }

  lemma FinaliseKeepsSession(file: Bytes, chunkSize: ChunkSize, session: Session, e: Event, asked: bool)
    requires GoodSession(file, chunkSize, session) && IsFinaliseStep(e)
    ensures GoodSession(file, chunkSize, Finalise(session, e, asked))
    ensures Live(Finalise(session, e, asked)) ==> Live(session)
    ensures Live(session) ==> Finalise(session, e, asked).chunks == session.chunks
  {
    match e
    case HandleComplete(_, stale) => if AllReceived(session) { ClaimKeepsSession(file, chunkSize, session, stale); }
    case Redrive(_) => if session.phase.Assembling? { ClaimKeepsSession(file, chunkSize, session, true); }
    case RunnerReads(_, r) => if r in session.runners { ReadKeepsSession(file, chunkSize, session, r); }
    case RunnerFails(_, _) =>
    case RunnerLost(_, _) =>
    case DropChunks(_) =>
  }

  /** Sessions keep their totals, lose no chunk while they live, and never come back to life. */
  ghost predicate Succeeds(before: map<Uuid, Session>, after: map<Uuid, Session>) {
    forall u <- after :: u in before && SessionSucceeds(before[u], after[u])
  }

  ghost predicate SessionSucceeds(before: Session, after: Session) {
    && after.total == before.total
    && (Live(after) ==> Live(before) && before.chunks.Keys <= after.chunks.Keys)
  }

  lemma SuccessionKeepsClient(s: State, file: Bytes, sizes: set<ChunkSize>, after: map<Uuid, Session>)
    requires ClientGood(s, file, sizes) && Succeeds(s.sessions, after)
    ensures ClientGood(s.(sessions := after), file, sizes)
  {
    if s.client.Uploading? {
      var u := s.client.session;
      forall i: nat | Held(s.sessions, u, i) ensures Held(after, u, i) {}
    }
  }

  lemma SuccessionKeepsStored(s: State, after: map<Uuid, Session>)
    requires StoredGood(s) && Succeeds(s.sessions, after)
    ensures StoredGood(s.(sessions := after))
  {
    forall p <- s.stored ensures Held(after, p.0, p.1) {
      assert Held(s.sessions, p.0, p.1);
    }
  }

  lemma SuccessionKeepsInv(s: State, file: Bytes, sizes: set<ChunkSize>, canon: map<nat, ChunkSize>,
                           after: map<Uuid, Session>)
    requires Inv(s, file, sizes, canon) && Succeeds(s.sessions, after)
    requires SessionsGood(s.(sessions := after), file, canon)
    ensures Inv(s.(sessions := after), file, sizes, canon)
  {
    SuccessionKeepsClient(s, file, sizes, after);
    SuccessionKeepsStored(s, after);
    assert ChunksGood(s.(sessions := after), file, canon);
  }

  lemma FinaliseKeepsInv(s: State, file: Bytes, e: Event, sizes: set<ChunkSize>, canon: map<nat, ChunkSize>)
    requires Inv(s, file, sizes, canon) && IsFinaliseStep(e)
    ensures Inv(Apply(s, file, e), file, sizes, canon)
  {
    if e.session in s.sessions {
      var session := s.sessions[e.session];
      FinaliseKeepsSession(file, canon[session.total], session, e, e.session in s.completes);
      SuccessionKeepsInv(s, file, sizes, canon, Apply(s, file, e).sessions);
    }
  }

  lemma WriteKeepsSession(file: Bytes, chunkSize: ChunkSize, session: Session, i: nat, data: Bytes)
    requires GoodSession(file, chunkSize, session) && GoodChunk(file, chunkSize, i, data)
    ensures GoodSession(file, chunkSize, session.(chunks := session.chunks[i := data]))
  {
  }

  lemma WriteKeepsInv(s: State, file: Bytes, c: Chunk, sizes: set<ChunkSize>, canon: map<nat, ChunkSize>)
    requires Inv(s, file, sizes, canon)
    ensures Inv(Write(s, c), file, sizes, canon)
  {
    if c in s.admitted && c.session in s.sessions {
      var session := s.sessions[c.session];
      assert c in s.sent;
      WriteKeepsSession(file, canon[session.total], session, c.index, c.data);
      var after := Write(s, c).sessions;
      SuccessionKeepsInv(s, file, sizes, canon, after);
      StoreKeepsInv(s.(sessions := after), file, (c.session, c.index), sizes, canon);
    }
  }

  lemma StoreKeepsInv(s: State, file: Bytes, p: (Uuid, nat), sizes: set<ChunkSize>, canon: map<nat, ChunkSize>)
    requires Inv(s, file, sizes, canon) && p.0 < s.nextUuid && Held(s.sessions, p.0, p.1)
    ensures Inv(s.(stored := s.stored + {p}), file, sizes, canon)
  {
    assert ClientGood(s.(stored := s.stored + {p}), file, sizes);
  }

  /** A step of the client alone keeps the invariant if what the client believes stays right. */
  lemma ClientSideKeepsInv(s: State, t: State, file: Bytes, sizes: set<ChunkSize>, canon: map<nat, ChunkSize>)
    requires Inv(s, file, sizes, canon) && ClientGood(t, file, sizes)
    requires t == s.(client := t.client, saved := t.saved)
    ensures Inv(t, file, sizes, canon)
  {
    assert SessionsGood(t, file, canon) && ChunksGood(t, file, canon) && StoredGood(t);
  }

  /** The server opens a session under a name that was never used. */
  lemma OpenKeepsInv(s: State, file: Bytes, chunkSize: ChunkSize, sizes: set<ChunkSize>, canon: map<nat, ChunkSize>)
    requires Inv(s, file, sizes, canon) && chunkSize in sizes
    ensures Inv(OpenSession(s, Total(|file|, chunkSize)), file, sizes, canon)
  {
    var total := Total(|file|, chunkSize);
    if total <= MAX_TOTAL_CHUNKS {
      assert GoodSession(file, canon[total], Session(total, map[], Open, map[], 0));
      var t := OpenSession(s, total);
      assert SessionsGood(t, file, canon);
      assert ChunksGood(t, file, canon);
      assert StoredGood(t);
      OpenKeepsClient(s, total, file, sizes);
    }
  }

  lemma OpenKeepsClient(s: State, total: nat, file: Bytes, sizes: set<ChunkSize>)
    requires ClientGood(s, file, sizes)
    ensures ClientGood(OpenSession(s, total), file, sizes)
  {
    if s.client.Uploading? {
      var u := s.client.session;
      forall i: nat | Held(s.sessions, u, i) ensures Held(OpenSession(s, total).sessions, u, i) {}
    }
  }

  lemma StartKeepsInv(s: State, file: Bytes, chunkSize: ChunkSize, sizes: set<ChunkSize>, canon: map<nat, ChunkSize>)
    requires Inv(s, file, sizes, canon) && chunkSize in sizes
    ensures Inv(StartFresh(s, |file|, chunkSize), file, sizes, canon)
  {
    var total, t := Total(|file|, chunkSize), StartFresh(s, |file|, chunkSize);
    if total > MAX_TOTAL_CHUNKS {
      ClientSideKeepsInv(s, t, file, sizes, canon);
    } else {
      OpenKeepsInv(s, file, chunkSize, sizes, canon);
      StartedClient(s, file, chunkSize, sizes);
      ClientSideKeepsInv(OpenSession(s, total), t, file, sizes, canon);
    }
  }

  lemma StartedClient(s: State, file: Bytes, chunkSize: ChunkSize, sizes: set<ChunkSize>)
    requires ClientGood(s, file, sizes) && chunkSize in sizes && Total(|file|, chunkSize) <= MAX_TOTAL_CHUNKS
    ensures ClientGood(StartFresh(s, |file|, chunkSize), file, sizes)
  {
    OpenKeepsClient(s, Total(|file|, chunkSize), file, sizes);
  }

  lemma BeginKeepsInv(s: State, file: Bytes, chunkSize: ChunkSize, reachable: bool, sizes: set<ChunkSize>,
                      canon: map<nat, ChunkSize>)
    requires Inv(s, file, sizes, canon) && chunkSize in sizes
    ensures Inv(BeginRun(s, |file|, chunkSize, reachable), file, sizes, canon)
  {
    StartKeepsInv(s, file, chunkSize, sizes, canon);
  }

  lemma FetchKeepsInv(s: State, file: Bytes, ok: bool, sizes: set<ChunkSize>, canon: map<nat, ChunkSize>)
    requires Inv(s, file, sizes, canon) && s.client.Resuming?
    ensures Inv(Fetch(s, |file|, ok), file, sizes, canon)
  {
    StartKeepsInv(s, file, s.client.chunkSize, sizes, canon);
  }

  lemma AcknowledgeKeepsInv(s: State, file: Bytes, sizes: set<ChunkSize>, canon: map<nat, ChunkSize>)
    requires Inv(s, file, sizes, canon)
    ensures Inv(Apply(s, file, ChunkAcknowledged), file, sizes, canon)
  {
    if s.client.Uploading? && (s.client.session, s.client.next) in s.stored {
      OneMoreHeld(s, file, sizes);
      ClientSideKeepsInv(s, Apply(s, file, ChunkAcknowledged), file, sizes, canon);
    }
  }

  /** The client moves on past a chunk that the server holds. */
  lemma OneMoreHeld(s: State, file: Bytes, sizes: set<ChunkSize>)
    requires ClientGood(s, file, sizes) && StoredGood(s) && s.client.Uploading?
    requires s.client.next in s.client.received || (s.client.session, s.client.next) in s.stored
    ensures ClientGood(s.(client := s.client.(next := s.client.next + 1)), file, sizes)
  {
    assert Held(s.sessions, s.client.session, s.client.next);
  }

  /** When the client has been through every chunk, a session that still lives holds them all. */
  lemma DoneMeansReceived(s: State, file: Bytes, sizes: set<ChunkSize>)
    requires ClientGood(s, file, sizes) && s.client.Uploading? && s.client.next >= Total(|file|, s.client.chunkSize)
    ensures var u := s.client.session; u in s.sessions && Live(s.sessions[u]) ==> AllReceived(s.sessions[u])
  {
    var u := s.client.session;
    if u in s.sessions && Live(s.sessions[u]) {
      forall i: nat | i < s.sessions[u].total ensures i in s.sessions[u].chunks {
        assert Held(s.sessions, u, i);
      }
    }
  }

  lemma CompleteKeepsInv(s: State, file: Bytes, sizes: set<ChunkSize>, canon: map<nat, ChunkSize>)
    requires Inv(s, file, sizes, canon)
    ensures Inv(Apply(s, file, SendComplete), file, sizes, canon)
  {
    if s.client.Uploading? && s.client.next >= Total(|file|, s.client.chunkSize) {
      DoneMeansReceived(s, file, sizes);
      var u, chunkSize := s.client.session, s.client.chunkSize;
      assert StoredGood(s.(completes := s.completes + {u}, client := Waiting(u, chunkSize)));
      assert ClientGood(s.(completes := s.completes + {u}, client := Waiting(u, chunkSize)), file, sizes);
    }
  }

  lemma PollKeepsInv(s: State, file: Bytes, sizes: set<ChunkSize>, canon: map<nat, ChunkSize>)
    requires Inv(s, file, sizes, canon)
    ensures Inv(Apply(s, file, Poll), file, sizes, canon)
  {
    if s.client.Waiting? {
      var t := PollStatus(s, |file|);
      assert s.client.session in s.sessions ==>
        GoodSession(file, canon[s.sessions[s.client.session].total], s.sessions[s.client.session]);
      assert ClientGood(t, file, sizes);
      ClientSideKeepsInv(s, t, file, sizes, canon);
    }
  }

  lemma PurgeKeepsInv(s: State, file: Bytes, u: Uuid, sizes: set<ChunkSize>, canon: map<nat, ChunkSize>)
    requires Inv(s, file, sizes, canon)
    ensures Inv(Apply(s, file, Purge(u)), file, sizes, canon)
  {
    SuccessionKeepsInv(s, file, sizes, canon, s.sessions - {u});
  }

  lemma SkipKeepsInv(s: State, file: Bytes, sizes: set<ChunkSize>, canon: map<nat, ChunkSize>)
    requires Inv(s, file, sizes, canon) && s.client.Uploading? && s.client.next in s.client.received
    ensures Inv(Send(s, file), file, sizes, canon)
  {
    OneMoreHeld(s, file, sizes);
    ClientSideKeepsInv(s, Send(s, file), file, sizes, canon);
  }

  lemma SendKeepsInv(s: State, file: Bytes, sizes: set<ChunkSize>, canon: map<nat, ChunkSize>)
    requires Inv(s, file, sizes, canon) && s.client.Uploading? && s.client.next < Total(|file|, s.client.chunkSize)
    requires s.client.next !in s.client.received
    ensures Inv(Send(s, file), file, sizes, canon)
  {
    var u, chunkSize, i := s.client.session, s.client.chunkSize, s.client.next;
    if u in s.sessions {
      assert GoodChunk(file, canon[s.sessions[u].total], i, Slice(file, chunkSize, i));
    }
    assert ChunksGood(Send(s, file), file, canon);
    assert ClientGood(Send(s, file), file, sizes);
  }

  lemma StepKeepsInv(s: State, file: Bytes, e: Event, sizes: set<ChunkSize>, canon: map<nat, ChunkSize>)
    requires Inv(s, file, sizes, canon)
    requires e.Start? || e.InitReplyLost? ==> e.chunkSize in sizes
    ensures Inv(Apply(s, file, e), file, sizes, canon)
  {
    if IsFinaliseStep(e) {
      FinaliseKeepsInv(s, file, e, sizes, canon);
    } else {
      match e
      case Start(chunkSize, reachable) => BeginKeepsInv(s, file, chunkSize, reachable, sizes, canon);
      case InitReplyLost(chunkSize) => OpenKeepsInv(s, file, chunkSize, sizes, canon);
      case SendChunk =>
        if s.client.Uploading? && s.client.next < Total(|file|, s.client.chunkSize) {
          if s.client.next in s.client.received { SkipKeepsInv(s, file, sizes, canon); }
          else { SendKeepsInv(s, file, sizes, canon); }
        }
      case WriteChunk(c) => WriteKeepsInv(s, file, c, sizes, canon);
      case FetchStatus(ok) => if s.client.Resuming? { FetchKeepsInv(s, file, ok, sizes, canon); }
      case ChunkAcknowledged => AcknowledgeKeepsInv(s, file, sizes, canon);
      case SendComplete => CompleteKeepsInv(s, file, sizes, canon);
      case Purge(u) => PurgeKeepsInv(s, file, u, sizes, canon);
      case Poll => PollKeepsInv(s, file, sizes, canon);
      case AdmitChunk(_) =>
      case Crash =>
    }
  }

  lemma {:induction false} RunKeepsInv(s: State, file: Bytes, events: seq<Event>, sizes: set<ChunkSize>,
                                       canon: map<nat, ChunkSize>)
    requires Inv(s, file, sizes, canon) && StartsWith(events, sizes)
    ensures Inv(Run(s, file, events), file, sizes, canon)
    decreases |events|
  {
    if events != [] {
      assert events[0] in events;
      StepKeepsInv(s, file, events[0], sizes, canon);
      assert forall e <- events[1..] :: e in events;
      RunKeepsInv(Apply(s, file, events[0]), file, events[1..], sizes, canon);
    }
  }

  // ---- The promises ----

  /** Everything published or returned is the file. */
  ghost predicate Faithful(s: State, file: Bytes) {
    && (forall u <- s.sessions :: s.sessions[u].phase.Ready? ==> s.sessions[u].phase.artefact == file)
    && (s.client.Returned? ==> s.client.artefact == file)
  }

  lemma OneSizeRun(file: Bytes, events: seq<Event>, chunkSize: ChunkSize)
    requires StartsWith(events, {chunkSize})
    ensures Inv(Run(INITIAL, file, events), file, {chunkSize}, map[Total(|file|, chunkSize) := chunkSize])
  {
    RunKeepsInv(INITIAL, file, events, {chunkSize}, map[Total(|file|, chunkSize) := chunkSize]);
  }

  /**
    With one chunk size, whatever crashes, repeats, losses and concurrent finalise
    runs a run holds, every stored chunk is its slice of the file, a claimed session
    has them all and they make the file, and what is published or returned is the file.
   */
  lemma UploadIsFaithful(file: Bytes, events: seq<Event>, chunkSize: ChunkSize)
    requires StartsWith(events, {chunkSize})
    ensures var s := Run(INITIAL, file, events);
      && Faithful(s, file)
      && (forall u <- s.sessions, i <- s.sessions[u].chunks :: s.sessions[u].chunks[i] == Slice(file, chunkSize, i))
      && (forall u <- s.sessions :: s.sessions[u].phase.Assembling? ==>
            AllReceived(s.sessions[u]) && Concat(s.sessions[u].chunks, s.sessions[u].total) == file)
  {
    OneSizeRun(file, events, chunkSize);
    var s := Run(INITIAL, file, events);
    forall u <- s.sessions | s.sessions[u].phase.Assembling?
      ensures AllReceived(s.sessions[u]) && Concat(s.sessions[u].chunks, s.sessions[u].total) == file
    {
      var session := s.sessions[u];
      assert forall i: nat | i < session.total ::
        i in session.chunks && GoodChunk(file, chunkSize, i, session.chunks[i]);
      SlicesMakeFile(file, chunkSize, session.chunks);
    }
  }

  /**
    The client's shortcut loses nothing: a resume of an assembling session sees
    exactly the chunks the server holds.
   */
  lemma AssemblingMeansReceived(file: Bytes, events: seq<Event>, chunkSize: ChunkSize)
    requires StartsWith(events, {chunkSize})
    ensures var s, total := Run(INITIAL, file, events), Total(|file|, chunkSize);
      total in s.saved && s.saved[total] in s.sessions && s.sessions[s.saved[total]].phase.Assembling? ==>
        BeginRun(s, |file|, chunkSize, true).client
          == Uploading(s.saved[total], chunkSize, s.sessions[s.saved[total]].chunks.Keys, 0)
  {
    OneSizeRun(file, events, chunkSize);
    var s, total := Run(INITIAL, file, events), Total(|file|, chunkSize);
    if total in s.saved && s.saved[total] in s.sessions && s.sessions[s.saved[total]].phase.Assembling? {
      var session := s.sessions[s.saved[total]];
      assert GoodSession(file, chunkSize, session);
      assert forall i <- session.chunks :: GoodChunk(file, chunkSize, i, session.chunks[i]);
      assert session.chunks.Keys == Indices(total);
    }
  }

  /** No /complete the client sends is ever refused for missing chunks while its session lives. */
  lemma CompleteIsNeverShort(file: Bytes, events: seq<Event>, chunkSize: ChunkSize)
    requires StartsWith(events, {chunkSize})
    ensures var s := Run(INITIAL, file, events);
      forall u <- s.completes | u in s.sessions && Live(s.sessions[u]) :: AllReceived(s.sessions[u])
  {
    OneSizeRun(file, events, chunkSize);
  }

  /**
    A claimed session is frozen: no step changes a chunk while it assembles, opens
    it again, or admits another chunk.
   */
  lemma ClaimedIsFrozen(file: Bytes, events: seq<Event>, chunkSize: ChunkSize, e: Event, u: Uuid)
    requires StartsWith(events, {chunkSize})
    ensures var s := Run(INITIAL, file, events);
      var t := Apply(s, file, e);
      u in s.sessions && !s.sessions[u].phase.Open? && u in t.sessions ==>
        && !t.sessions[u].phase.Open?
        && (s.sessions[u].phase.Assembling? ==> t.sessions[u].chunks == s.sessions[u].chunks)
        && (forall c <- t.admitted - s.admitted :: c.session != u)
  {
    OneSizeRun(file, events, chunkSize);
    var s := Run(INITIAL, file, events);
    if u in s.sessions && !s.sessions[u].phase.Open? {
      FrozenStep(s, file, e, {chunkSize}, map[Total(|file|, chunkSize) := chunkSize], u);
    }
  }

  /** Only finalising and writing touch a session's contents, and only an open one admits. */
  lemma OtherStepsLeaveSession(s: State, file: Bytes, e: Event, u: Uuid)
    requires u < s.nextUuid && u in s.sessions && !s.sessions[u].phase.Open? && !IsFinaliseStep(e) && !e.WriteChunk?
    ensures var t := Apply(s, file, e);
      && (u in t.sessions ==> t.sessions[u] == s.sessions[u])
      && (forall c <- t.admitted - s.admitted :: c.session != u)
  {
  }

  lemma FrozenStep(s: State, file: Bytes, e: Event, sizes: set<ChunkSize>, canon: map<nat, ChunkSize>, u: Uuid)
    requires Inv(s, file, sizes, canon) && u in s.sessions && !s.sessions[u].phase.Open?
    ensures var t := Apply(s, file, e);
      u in t.sessions ==>
        && !t.sessions[u].phase.Open?
        && (s.sessions[u].phase.Assembling? ==> t.sessions[u].chunks == s.sessions[u].chunks)
        && (forall c <- t.admitted - s.admitted :: c.session != u)
  {
    var session := s.sessions[u];
    if IsFinaliseStep(e) {
      FinaliseKeepsSession(file, canon[session.total], session, e, u in s.completes);
      FrozenFinalise(s, file, e, u);
    } else if e.WriteChunk? {
      FrozenWrite(s, file, e.chunk, sizes, canon, u);
    } else {
      OtherStepsLeaveSession(s, file, e, u);
    }
  }

  lemma FrozenFinalise(s: State, file: Bytes, e: Event, u: Uuid)
    requires u in s.sessions && !s.sessions[u].phase.Open? && IsFinaliseStep(e)
    ensures var t := Apply(s, file, e);
      && u in t.sessions && !t.sessions[u].phase.Open? && t.admitted == s.admitted
      && t.sessions[u] == (if e.session == u then Finalise(s.sessions[u], e, u in s.completes) else s.sessions[u])
  {
  }

  /** A late write to a claimed session repeats what is there. */
  lemma FrozenWrite(s: State, file: Bytes, c: Chunk, sizes: set<ChunkSize>, canon: map<nat, ChunkSize>, u: Uuid)
    requires Inv(s, file, sizes, canon) && u in s.sessions && !s.sessions[u].phase.Open?
    ensures var t := Write(s, c);
      && u in t.sessions && t.sessions[u].phase == s.sessions[u].phase && t.admitted == s.admitted
      && (s.sessions[u].phase.Assembling? ==> t.sessions[u].chunks == s.sessions[u].chunks)
  {
    var session := s.sessions[u];
    if c in s.admitted && c.session == u && session.phase.Assembling? {
      assert c in s.sent;
      assert GoodChunk(file, canon[session.total], c.index, c.data);
      assert c.index in session.chunks && GoodChunk(file, canon[session.total], c.index, session.chunks[c.index]);
      assert session.chunks[c.index := c.data] == session.chunks;
    }
  }
}
