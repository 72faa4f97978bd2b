/**
  The server's upload sessions and the handlers that change them
  (myapp/blueprints/api.py, myapp/services/chunked_upload.py).
 */
module UploadServer {
  import opened Options
  import opened ChunkGeometry
  import opened UploadProtocol

  /** What the handlers answer: an HTTP error, or what they did. */
  datatype Reply =
    | NotFound
    | Conflict
    | BadRequest
    | Missing(chunks: seq<nat>)
    | Received(index: nat)
    | Status(total: nat, received: seq<nat>)
    | Claimed
    | Reported(phase: Phase)

  ghost predicate Ascending(s: seq<nat>) {
    forall i, j | 0 <= i < j < |s| :: s[i] < s[j]
  }

  class Sessions {
    var sessions: map<Uuid, Session>
    var nextUuid: Uuid

    constructor ()
      ensures sessions == map[] && nextUuid == 0
    {
      sessions, nextUuid := map[], 0;
    }

    /** chunked_upload_init; the new session's name was never used before. */
    method Init(total: nat) returns (session: Option<Uuid>)
      modifies this
      ensures session.None? <==> total == 0 || total > MAX_TOTAL_CHUNKS
      ensures session.None? ==> sessions == old(sessions) && nextUuid == old(nextUuid)
      ensures session.Some? ==>
        && session.value == old(nextUuid) && nextUuid == old(nextUuid) + 1
        && sessions == old(sessions)[session.value := Session(total, map[], Open, map[], 0)]
    {
      if total == 0 || total > MAX_TOTAL_CHUNKS { return None; }
      session := Some(nextUuid);
      sessions := sessions[nextUuid := Session(total, map[], Open, map[], 0)];
      nextUuid := nextUuid + 1;
    }

    /** chunked_upload_chunk: only an open session takes a chunk, and only one it expects. */
    method PostChunk(u: Uuid, index: nat, data: Bytes) returns (reply: Reply)
      modifies `sessions
      ensures reply == NotFound <==> u !in old(sessions)
      ensures reply == Conflict <==> u in old(sessions) && !old(sessions)[u].phase.Open?
      ensures reply == BadRequest <==>
              u in old(sessions) && old(sessions)[u].phase.Open? && index >= old(sessions)[u].total
      ensures reply in {NotFound, Conflict, BadRequest} ==> sessions == old(sessions)
      ensures reply !in {NotFound, Conflict, BadRequest} ==>
        && reply == Received(index)
        && sessions == old(sessions)[u := old(sessions)[u].(chunks := old(sessions)[u].chunks[index := data])]
    {
      if u !in sessions { return NotFound; }
      if !sessions[u].phase.Open? { return Conflict; }
      if index >= sessions[u].total { return BadRequest; }
      sessions := sessions[u := sessions[u].(chunks := sessions[u].chunks[index := data])];
      reply := Received(index);
    }

    /** missing_chunks: in ascending order, the chunks still to come. */
    method MissingChunks(u: Uuid) returns (missing: seq<nat>)
      requires u in sessions
      ensures Ascending(missing)
      ensures forall i: nat :: i in missing <==> i < sessions[u].total && i !in sessions[u].chunks
      ensures missing == [] <==> AllReceived(sessions[u])
    {
      missing := [];
      for i := 0 to sessions[u].total
        invariant Ascending(missing)
        invariant forall k: nat :: k in missing <==> k < i && k !in sessions[u].chunks
      {
        if i !in sessions[u].chunks {
          assert forall k | 0 <= k < |missing| :: missing[k] in missing;
          missing := missing + [i];
        }
      }
      if missing != [] { assert missing[0] in missing; }
    }

    /** chunked_upload_status: what has arrived of what is expected. */
    method GetStatus(u: Uuid) returns (reply: Reply)
      requires u in sessions ==> forall i <- sessions[u].chunks :: i < sessions[u].total
      ensures reply == NotFound <==> u !in sessions
      ensures u in sessions ==>
        && reply.Status? && reply.total == sessions[u].total && Ascending(reply.received)
        && forall i: nat :: i in reply.received <==> i in sessions[u].chunks
    {
      if u !in sessions { return NotFound; }
      var received: seq<nat> := [];
      for i := 0 to sessions[u].total
        invariant Ascending(received)
        invariant forall k: nat :: k in received <==> k < i && k in sessions[u].chunks
      {
        if i in sessions[u].chunks {
          assert forall k | 0 <= k < |received| :: received[k] in received;
          received := received + [i];
        }
      }
      reply := Status(sessions[u].total, received);
    }

    /** claim_finalize: the compare-and-set. `stale` says whether the last runner's heartbeat is too old. */
    method ClaimFinalize(u: Uuid, stale: bool) returns (won: bool)
      requires u in sessions
      modifies `sessions
      ensures won <==> old(sessions)[u].phase.Open? || (old(sessions)[u].phase.Assembling? && stale)
      ensures sessions == old(sessions)[u := Claim(old(sessions)[u], stale)]
      ensures won ==> sessions[u].phase.Assembling? && sessions[u].chunks == old(sessions)[u].chunks
    {
      var session := sessions[u];
      won := session.phase.Open? || (session.phase.Assembling? && stale);
      if won {
        session := session.(phase := Assembling, runners := session.runners[session.nextRunner := Runner(0, [])]);
        session := session.(nextRunner := session.nextRunner + 1);
      }
      sessions := sessions[u := session];
    }

    /** chunked_upload_complete with the async flag: one step of the protocol, refused while a chunk is missing. */
    method Complete(u: Uuid, stale: bool) returns (reply: Reply)
      modifies `sessions
      ensures reply == NotFound <==> u !in old(sessions)
      ensures reply.Missing? <==> u in old(sessions) && !AllReceived(old(sessions)[u])
      ensures reply.NotFound? || reply.Missing? ==> sessions == old(sessions)
      ensures u in old(sessions) ==>
              sessions == old(sessions)[u := Finalise(old(sessions)[u], HandleComplete(u, stale), true)]
      ensures reply == Claimed ==> sessions[u].phase.Assembling? && AllReceived(sessions[u])
      ensures u in old(sessions) && AllReceived(old(sessions)[u]) ==>
                var phase := old(sessions)[u].phase;
                reply == if phase.Open? || (phase.Assembling? && stale) then Claimed else Reported(phase)
    {
      if u !in sessions { return NotFound; }
      var missing := MissingChunks(u);
      if missing != [] { return Missing(missing); }
      var won := ClaimFinalize(u, stale);
      reply := if won then Claimed else Reported(sessions[u].phase);
    }

    /** chunked_upload_complete_status: answers with the state it read, and re-drives an orphaned assembly. */
    method CompleteStatus(u: Uuid, stale: bool) returns (reply: Reply)
      modifies `sessions
      ensures reply == NotFound <==> u !in old(sessions)
      ensures u !in old(sessions) ==> sessions == old(sessions)
      ensures u in old(sessions) ==> reply == Reported(old(sessions)[u].phase)
      ensures u in old(sessions) ==>
        sessions == old(sessions)[u := if stale then Finalise(old(sessions)[u], Redrive(u), true) else old(sessions)[u]]
    {
      if u !in sessions { return NotFound; }
      reply := Reported(sessions[u].phase);
      if sessions[u].phase.Assembling? && stale {
        var won := ClaimFinalize(u, true);
      }
    }

    /**
      A finalise run that nothing disturbs: it publishes the chunks in order, or fails
      an oversized upload, or one that the storage or the ingest does not take.
     */
    method RunFinalize(u: Uuid, maxSize: nat, bufferSize: nat, taken: bool) returns (assembly: Assembly)
      requires bufferSize > 0 && u in sessions && sessions[u].phase.Assembling? && AllReceived(sessions[u])
      modifies `sessions
      ensures var bytes := Concat(old(sessions)[u].chunks, old(sessions)[u].total);
        var end := if |bytes| <= maxSize && taken then Ready(bytes) else Broken;
        && assembly == (if |bytes| > maxSize then TooLarge else Assembled(bytes))
        && sessions == old(sessions)[u := old(sessions)[u].(chunks := map[], phase := end)]
    {
      assembly := AssembleToStorage(sessions[u].chunks, sessions[u].total, maxSize, bufferSize);
      var phase := match assembly
        case Assembled(bytes) => if taken then Ready(bytes) else Broken
        case TooLarge => Broken;
      sessions := sessions[u := sessions[u].(phase := phase)];
      sessions := sessions[u := sessions[u].(chunks := map[])];
    }
  }

  /** A claim is won once: until the winner looks dead or is done, every other claim fails. */
  method ClaimTwice(server: Sessions, u: Uuid, first: bool) returns (one: bool, two: bool)
    requires u in server.sessions
    modifies server
    ensures !(one && two)
    ensures one || two <==> old(server.sessions)[u].phase.Open? || (old(server.sessions)[u].phase.Assembling? && first)
  {
    one := server.ClaimFinalize(u, first);
    two := server.ClaimFinalize(u, false);
  }

  /** An open session for this file that holds only slices of it. */
  ghost predicate Holds(session: Session, file: Bytes, chunkSize: ChunkSize) {
    && session.phase.Open? && session.total == Total(|file|, chunkSize)
    && (forall i <- session.chunks :: GoodChunk(file, chunkSize, i, session.chunks[i]))
  }

  /** Every one of these chunks is sent; none that was there is lost. */
  method SendAll(server: Sessions, u: Uuid, file: Bytes, chunkSize: ChunkSize, toSend: seq<(nat, Bytes)>)
    requires u in server.sessions && Holds(server.sessions[u], file, chunkSize)
    requires forall c <- toSend :: GoodChunk(file, chunkSize, c.0, c.1)
    modifies server
    ensures u in server.sessions && Holds(server.sessions[u], file, chunkSize)
    ensures old(server.sessions)[u].chunks.Keys <= server.sessions[u].chunks.Keys
    ensures forall c <- toSend :: c.0 in server.sessions[u].chunks
  {
    for k := 0 to |toSend|
      invariant u in server.sessions && Holds(server.sessions[u], file, chunkSize)
      invariant old(server.sessions)[u].chunks.Keys <= server.sessions[u].chunks.Keys
      invariant forall j | 0 <= j < k :: toSend[j].0 in server.sessions[u].chunks
    {
      assert toSend[k] in toSend;
      var answer := server.PostChunk(u, toSend[k].0, toSend[k].1);
    }
  }

  /** A session that holds every slice assembles to the file. */
  lemma FullSessionIsFile(session: Session, file: Bytes, chunkSize: ChunkSize)
    requires Holds(session, file, chunkSize) && AllReceived(session)
    ensures Concat(session.chunks, session.total) == file
  {
    forall i: nat | i < session.total ensures i in session.chunks && session.chunks[i] == Slice(file, chunkSize, i) {
      assert i in session.chunks && GoodChunk(file, chunkSize, i, session.chunks[i]);
    }
    SlicesMakeFile(file, chunkSize, session.chunks);
  }

  /**
    The client's loop against a server session: it sends just what is missing, and
    the upload then assembles to the file.
   */
  method UploadMissing(server: Sessions, u: Uuid, file: Bytes, chunkSize: ChunkSize, maxSize: nat)
    returns (assembly: Assembly)
    requires u in server.sessions && Holds(server.sessions[u], file, chunkSize)
    modifies server
    ensures assembly == if |file| > maxSize then TooLarge else Assembled(file)
    ensures u in server.sessions
            && server.sessions[u].phase == (if |file| > maxSize then Broken else Ready(file))
            && server.sessions[u].chunks == map[]
  {
    var total := server.sessions[u].total;
    var reply := server.GetStatus(u);
    var received := set i | i in reply.received;
    var toSend := ChunksToSend(file, chunkSize, received);
    SendAll(server, u, file, chunkSize, toSend);
    forall i: nat | i < total ensures i in server.sessions[u].chunks {
      if i !in received { assert (i, Slice(file, chunkSize, i)) in toSend; }
    }
    FullSessionIsFile(server.sessions[u], file, chunkSize);
    var claimed := server.Complete(u, false);
    assembly := server.RunFinalize(u, maxSize, 65536, true);
  }
}
