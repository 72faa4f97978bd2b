/**
  When different chunk sizes meet. The resume key holds the chunk count and not
  the chunk size (cli/arccli/client.py), so two sizes of one count share a
  session. This says exactly which sets of chunk sizes keep uploads faithful.
 */
module UploadMixed {
  import opened ChunkGeometry
  import opened UploadProtocol

  /** No two of the chunk sizes share a resume key while cutting the file differently. */
  ghost predicate Unambiguous(file: Bytes, sizes: set<ChunkSize>) {
    forall one <- sizes, other <- sizes
      | Total(|file|, one) == Total(|file|, other) && 1 < Total(|file|, one) <= MAX_TOTAL_CHUNKS ::
      one == other
  }

  ghost function Totals(file: Bytes, sizes: set<ChunkSize>): set<nat> {
    set size <- sizes :: Total(|file|, size)
  }

  ghost function SizeFor(file: Bytes, sizes: set<ChunkSize>, total: nat): (size: ChunkSize)
    requires total in Totals(file, sizes)
    ensures size in sizes && Total(|file|, size) == total
  {
    var size :| size in sizes && Total(|file|, size) == total;
    size
  }

  ghost function Canon(file: Bytes, sizes: set<ChunkSize>): map<nat, ChunkSize> {
    map total <- Totals(file, sizes) :: SizeFor(file, sizes, total)
  }

  lemma CanonIsCanonical(file: Bytes, sizes: set<ChunkSize>)
    requires Unambiguous(file, sizes)
    ensures Canonical(file, sizes, Canon(file, sizes))
  {
    forall size <- sizes | Total(|file|, size) <= MAX_TOTAL_CHUNKS
      ensures Total(|file|, size) in Canon(file, sizes) && CutsAs(file, size, Canon(file, sizes)[Total(|file|, size)])
    {
      assert Total(|file|, size) in Totals(file, sizes);
      CutAlikeIff(file, size, Canon(file, sizes)[Total(|file|, size)]);
    }
  }

  lemma UnambiguousIsFaithful(file: Bytes, sizes: set<ChunkSize>, events: seq<Event>)
    requires Unambiguous(file, sizes) && StartsWith(events, sizes)
    ensures Faithful(Run(INITIAL, file, events), file)
  {
    CanonIsCanonical(file, sizes);
    RunKeepsInv(INITIAL, file, events, sizes, Canon(file, sizes));
  }

  // ---- The run that mixes two sizes ----

  ghost predicate Reaches(file: Bytes, sizes: set<ChunkSize>, s: State) {
    exists events :: StartsWith(events, sizes) && Run(INITIAL, file, events) == s
  }

  lemma {:induction false} RunAppends(s: State, file: Bytes, events: seq<Event>, e: Event)
    ensures Run(s, file, events + [e]) == Apply(Run(s, file, events), file, e)
    decreases |events|
  {
    if events == [] {
      assert Run(Apply(s, file, e), file, [e][1..]) == Apply(s, file, e);
      assert events + [e] == [e];
    } else {
      assert (events + [e])[1..] == events[1..] + [e];
      RunAppends(Apply(s, file, events[0]), file, events[1..], e);
    }
  }

  lemma ReachesNext(file: Bytes, sizes: set<ChunkSize>, s: State, e: Event)
    requires Reaches(file, sizes, s) && (e.Start? || e.InitReplyLost? ==> e.chunkSize in sizes)
    ensures Reaches(file, sizes, Apply(s, file, e))
  {
    var events :| StartsWith(events, sizes) && Run(INITIAL, file, events) == s;
    RunAppends(INITIAL, file, events, e);
    assert StartsWith(events + [e], sizes);
  }

  /** The server holds the chunks before `n`: the first of one size, the rest of the other. */
  ghost predicate HoldsMix(session: Session, file: Bytes, one: ChunkSize, other: ChunkSize, n: nat) {
    && session.total == Total(|file|, other) && session.phase.Open? && session.runners == map[]
    && session.chunks.Keys == Indices(n)
    && (forall i <- session.chunks :: session.chunks[i] == MixChunk(file, one, other, i))
  }

  function MixChunk(file: Bytes, one: ChunkSize, other: ChunkSize, i: nat): Bytes {
    Slice(file, if i == 0 then one else other, i)
  }

  ghost predicate AtSession(s: State, client: Client, session: Session) {
    s.client == client && 0 in s.sessions && s.sessions[0] == session
  }

  /** A chunk of session 0 is sent and admitted. */
  lemma Raise(file: Bytes, sizes: set<ChunkSize>, s: State, client: Client, session: Session) returns (t: State)
    requires Reaches(file, sizes, s) && AtSession(s, client, session) && session.phase.Open?
    requires client.Uploading? && client.session == 0 && client.next !in client.received
    requires client.next < session.total == Total(|file|, client.chunkSize)
    ensures Reaches(file, sizes, t) && t.saved == s.saved && AtSession(t, client, session)
    ensures Chunk(0, client.next, Slice(file, client.chunkSize, client.next)) in t.admitted
  {
    var chunk := Chunk(0, client.next, Slice(file, client.chunkSize, client.next));
    ReachesNext(file, sizes, s, SendChunk);
    t := s.(sent := s.sent + {chunk});
    ReachesNext(file, sizes, t, AdmitChunk(chunk));
    t := t.(admitted := t.admitted + {chunk});
  }

  /** It is written and acknowledged. */
  lemma Land(file: Bytes, sizes: set<ChunkSize>, s: State, client: Client, session: Session) returns (t: State)
    requires Reaches(file, sizes, s) && AtSession(s, client, session)
    requires client.Uploading? && client.session == 0
    requires Chunk(0, client.next, Slice(file, client.chunkSize, client.next)) in s.admitted
    ensures Reaches(file, sizes, t) && t.saved == s.saved
    ensures AtSession(t, client.(next := client.next + 1),
                      session.(chunks := session.chunks[client.next := Slice(file, client.chunkSize, client.next)]))
  {
    var chunk := Chunk(0, client.next, Slice(file, client.chunkSize, client.next));
    ReachesNext(file, sizes, s, WriteChunk(chunk));
    t := Write(s, chunk);
    assert (0, client.next) in t.stored && t.client == client;
    ReachesNext(file, sizes, t, ChunkAcknowledged);
    t := t.(client := client.(next := client.next + 1));
  }

  /** Chunk `n` goes up to session 0. */
  lemma Lift(file: Bytes, sizes: set<ChunkSize>, s: State, size: ChunkSize, received: set<nat>, n: nat,
             session: Session)
    returns (t: State)
    requires Reaches(file, sizes, s) && AtSession(s, Uploading(0, size, received, n), session)
    requires session.phase.Open? && n !in received && n < session.total == Total(|file|, size)
    ensures Reaches(file, sizes, t) && t.saved == s.saved
    ensures AtSession(t, Uploading(0, size, received, n + 1),
            session.(chunks := session.chunks[n := Slice(file, size, n)]))
  {
    t := Raise(file, sizes, s, Uploading(0, size, received, n), session);
    t := Land(file, sizes, t, Uploading(0, size, received, n), session);
  }

  /** The client starts in one size. */
  lemma FirstStart(file: Bytes, sizes: set<ChunkSize>, one: ChunkSize) returns (s: State)
    requires one in sizes && Total(|file|, one) <= MAX_TOTAL_CHUNKS
    ensures Reaches(file, sizes, s) && s.saved == map[Total(|file|, one) := 0]
    ensures AtSession(s, Uploading(0, one, {}, 0), Session(Total(|file|, one), map[], Open, map[], 0))
  {
    assert Run(INITIAL, file, []) == INITIAL;
    ReachesNext(file, sizes, INITIAL, Start(one, true));
    s := StartFresh(INITIAL, |file|, one);
  }

  /** The first chunk goes up, and the client is interrupted. */
  lemma MixOpens(file: Bytes, sizes: set<ChunkSize>, one: ChunkSize) returns (s: State, session: Session)
    requires one in sizes && Total(|file|, one) <= MAX_TOTAL_CHUNKS
    ensures Reaches(file, sizes, s) && s.saved == map[Total(|file|, one) := 0]
    ensures session == Session(Total(|file|, one), map[0 := Slice(file, one, 0)], Open, map[], 0)
    ensures AtSession(s, Idle, session)
  {
    s := FirstStart(file, sizes, one);
    session := Session(Total(|file|, one), map[], Open, map[], 0);
    s := Lift(file, sizes, s, one, {}, 0, session);
    session := session.(chunks := map[0 := Slice(file, one, 0)]);
    ReachesNext(file, sizes, s, Crash);
    s := s.(client := Idle);
  }

  /** It comes back with the other size, and finds its session. */
  lemma MixResumes(file: Bytes, sizes: set<ChunkSize>, other: ChunkSize, s0: State, session: Session) returns (s: State)
    requires Reaches(file, sizes, s0) && other in sizes
    requires s0.saved == map[Total(|file|, other) := 0] && session.total == Total(|file|, other)
    requires AtSession(s0, Idle, session) && session.phase.Open? && session.chunks.Keys == {0}
    ensures Reaches(file, sizes, s) && AtSession(s, Uploading(0, other, {0}, 1), session)
  {
    ReachesNext(file, sizes, s0, Start(other, true));
    s := s0.(client := Resuming(0, other));
    ReachesNext(file, sizes, s, FetchStatus(true));
    s := s.(client := Uploading(0, other, {0}, 0));
    ReachesNext(file, sizes, s, SendChunk);
    s := s.(client := Uploading(0, other, {0}, 1));
  }

  /** The other chunks follow. */
  lemma MixFills(file: Bytes, sizes: set<ChunkSize>, one: ChunkSize, other: ChunkSize)
    returns (s: State, session: Session)
    requires one in sizes && other in sizes && Total(|file|, one) == Total(|file|, other) <= MAX_TOTAL_CHUNKS
    ensures Reaches(file, sizes, s) && HoldsMix(session, file, one, other, session.total)
    ensures AtSession(s, Uploading(0, other, {0}, session.total), session)
  {
    s, session := MixOpens(file, sizes, one);
    assert session.chunks.Keys == {0} == Indices(1);
    s := MixResumes(file, sizes, other, s, session);
    var n := 1;
    while n < session.total
      invariant 1 <= n <= session.total
      invariant Reaches(file, sizes, s) && HoldsMix(session, file, one, other, n)
      invariant AtSession(s, Uploading(0, other, {0}, n), session)
    {
      s := Lift(file, sizes, s, other, {0}, n, session);
      session := session.(chunks := session.chunks[n := Slice(file, other, n)]);
      n := n + 1;
    }
  }

  /** A session whose only finalise run has read `n` chunks. */
  function Reading(session: Session, n: nat): Session
    requires n <= session.total && AllReceived(session)
  {
    var claimed := Claim(session, false);
    claimed.(runners := claimed.runners[session.nextRunner := Runner(n, Concat(session.chunks, n))])
  }

  lemma ReadsOne(file: Bytes, sizes: set<ChunkSize>, s0: State, client: Client, session: Session, n: nat)
    returns (s: State)
    requires session.phase.Open? && AllReceived(session) && n < session.total
    requires Reaches(file, sizes, s0) && AtSession(s0, client, Reading(session, n))
    ensures Reaches(file, sizes, s) && AtSession(s, client, Reading(session, n + 1))
  {
    var r := session.nextRunner;
    ReachesNext(file, sizes, s0, RunnerReads(0, r));
    s := s0.(sessions := s0.sessions[0 := Read(s0.sessions[0], r)]);
    assert Read(Reading(session, n), r).runners == Reading(session, n + 1).runners;
  }

  /** One finalise run reads everything and publishes it. */
  lemma Publishes(file: Bytes, sizes: set<ChunkSize>, s0: State, client: Client, session: Session) returns (s: State)
    requires Reaches(file, sizes, s0) && AtSession(s0, client, session) && 0 in s0.completes
    requires session.phase.Open? && AllReceived(session)
    ensures Reaches(file, sizes, s)
    ensures 0 in s.sessions && s.sessions[0].phase == Ready(Concat(session.chunks, session.total))
  {
    ReachesNext(file, sizes, s0, HandleComplete(0, false));
    s := s0.(sessions := s0.sessions[0 := Claim(session, false)]);
    assert Claim(session, false) == Reading(session, 0);
    var n := 0;
    while n < session.total
      invariant n <= session.total && Reaches(file, sizes, s) && AtSession(s, client, Reading(session, n))
    {
      s := ReadsOne(file, sizes, s, client, session, n);
      n := n + 1;
    }
    ReachesNext(file, sizes, s, RunnerReads(0, session.nextRunner));
    s := s.(sessions := s.sessions[0 := Read(s.sessions[0], session.nextRunner)]);
  }

  /** Mixing two sizes changes the length. */
  lemma {:induction false} MixLength(file: Bytes, one: ChunkSize, other: ChunkSize, chunks: map<nat, Bytes>, n: nat)
    requires forall i: nat | i < n :: i in chunks && chunks[i] == MixChunk(file, one, other, i)
    requires n > 0
    ensures |Concat(chunks, n)| == |Slice(file, one, 0)| - |Slice(file, other, 0)| + Offset(|file|, other, n)
  {
    if n == 1 {
      assert Concat(chunks, 1) == Concat(chunks, 0) + chunks[0] == chunks[0];
    } else {
      MixLength(file, one, other, chunks, n - 1);
    }
  }

  /** Two sizes that share a resume key can publish something that is not the file. */
  lemma MixCorrupts(file: Bytes, sizes: set<ChunkSize>, one: ChunkSize, other: ChunkSize) returns (s: State)
    requires one in sizes && other in sizes && one != other
    requires 1 < Total(|file|, one) == Total(|file|, other) <= MAX_TOTAL_CHUNKS
    ensures Reaches(file, sizes, s) && !Faithful(s, file)
  {
    var session;
    s, session := MixFills(file, sizes, one, other);
    ReachesNext(file, sizes, s, SendComplete);
    s := s.(completes := s.completes + {0}, client := Waiting(0, other));
    s := Publishes(file, sizes, s, Waiting(0, other), session);
    MixLength(file, one, other, session.chunks, session.total);
    FirstChunkIsFull(file, one);
    FirstChunkIsFull(file, other);
    LastOffset(|file|, other);
  }

  /**
    Every run over these chunk sizes is faithful if and only if no two of them share
    a resume key and cut the file apart.
   */
  lemma FaithfulIffUnambiguous(file: Bytes, sizes: set<ChunkSize>)
    ensures (forall events | StartsWith(events, sizes) :: Faithful(Run(INITIAL, file, events), file)) <==>
            Unambiguous(file, sizes)
  {
    if Unambiguous(file, sizes) {
      forall events | StartsWith(events, sizes) ensures Faithful(Run(INITIAL, file, events), file) {
        UnambiguousIsFaithful(file, sizes, events);
      }
    } else {
      var one, other :| one in sizes && other in sizes && Total(|file|, one) == Total(|file|, other)
        && 1 < Total(|file|, one) <= MAX_TOTAL_CHUNKS && one != other;
      var s := MixCorrupts(file, sizes, one, other);
      var events :| StartsWith(events, sizes) && Run(INITIAL, file, events) == s;
    }
  }
}
