/**
  A chunk request opens its file for writing, which empties it, and then fills it
  (write_chunk of myapp/services/chunked_upload.py).  A request that was admitted
  before finalise was claimed may do so while the finalise run reads.  This module
  says which such requests a run survives.
 */
module TornChunks {
  import opened ChunkGeometry
  import opened UploadProtocol

  /** An admitted request that has not opened its chunk file yet, or is yet to fill it. */
  datatype Writer = Unopened(index: nat) | Opened(index: nat)

  /** The chunk files, the outstanding requests, and how far the run has read into which chunk. */
  datatype Disk = Disk(files: map<nat, Bytes>, writers: map<nat, Writer>, next: nat, pos: nat, spooled: Bytes)

  /** `ReadSome` reads one buffer of that size. */
  datatype Access = Truncate(writer: nat) | Fill(writer: nat) | ReadSome(size: nat)

  /** The file that is uploaded and how the client cuts it. */
  datatype Upload = Upload(file: Bytes, chunkSize: ChunkSize) {
    function Count(): nat {
      Total(|file|, chunkSize)
    }

    function Start(i: nat): nat {
      Offset(|file|, chunkSize, i)
    }

    function Piece(i: nat): Bytes {
      Slice(file, chunkSize, i)
    }
  }

  ghost predicate WellFormed(up: Upload, d: Disk) {
    && (forall i: nat | i < up.Count() :: i in d.files)
    && (forall w <- d.writers :: d.writers[w].index < up.Count())
  }

  /** An empty buffer is the end of a chunk. */
  function Read(d: Disk, size: nat): Disk
    requires d.next in d.files
  {
    var chunk := d.files[d.next];
    if size == 0 then d
    else if d.pos >= |chunk| then d.(next := d.next + 1, pos := 0)
    else
      var upto := Min(d.pos + size, |chunk|);
      d.(pos := upto, spooled := d.spooled + chunk[d.pos..upto])
  }

  ghost function Next(up: Upload, d: Disk, a: Access): (after: Disk)
    requires WellFormed(up, d)
    ensures WellFormed(up, after)
  {
    match a
    case Truncate(w) =>
      if w in d.writers && d.writers[w].Unopened? then
        var i := d.writers[w].index;
        d.(files := d.files[i := []], writers := d.writers[w := Opened(i)])
      else d
    case Fill(w) =>
      if w in d.writers && d.writers[w].Opened? then
        var i := d.writers[w].index;
        d.(files := d.files[i := up.Piece(i)], writers := d.writers - {w})
      else d
    case ReadSome(size) => if d.next < up.Count() then Read(d, size) else d
  }

  /** A request empties its file, and then fills it with its chunk; a read takes what is there from where it stands. */
  lemma AccessMoves(up: Upload, d: Disk, a: Access)
    requires WellFormed(up, d)
    ensures var after := Next(up, d, a);
      match a
      case Truncate(w) =>
        if w in d.writers && d.writers[w].Unopened? then
          && after.files == d.files[d.writers[w].index := []]
          && after.writers == d.writers[w := Opened(d.writers[w].index)]
          && after.next == d.next && after.pos == d.pos && after.spooled == d.spooled
        else after == d
      case Fill(w) =>
        if w in d.writers && d.writers[w].Opened? then
          && after.files == d.files[d.writers[w].index := up.Piece(d.writers[w].index)]
          && after.writers == d.writers - {w}
          && after.next == d.next && after.pos == d.pos && after.spooled == d.spooled
        else after == d
      case ReadSome(size) =>
        && after.files == d.files && after.writers == d.writers
        && (d.next >= up.Count() || size == 0 ==> after == d)
        && (d.next < up.Count() && size > 0 ==>
              var left := |d.files[d.next]| - d.pos;
              if left <= 0 then after.next == d.next + 1 && after.pos == 0 && after.spooled == d.spooled
              else
                && after.next == d.next && after.pos == d.pos + (if size < left then size else left)
                && after.spooled == d.spooled + d.files[d.next][d.pos..after.pos])
  {
  }

  ghost function After(up: Upload, d: Disk, accesses: seq<Access>): (after: Disk)
    requires WellFormed(up, d)
    ensures WellFormed(up, after)
    decreases |accesses|
  {
    if accesses == [] then d else After(up, Next(up, d, accesses[0]), accesses[1..])
  }

  /** What was read of the chunks before `next`, and of `pos` bytes of that one. */
  ghost predicate ReadRight(up: Upload, next: nat, pos: nat, spooled: Bytes) {
    && next <= up.Count()
    && (if next < up.Count() then pos <= |up.Piece(next)| else pos == 0)
    && up.Start(next) + pos <= |up.file| && spooled == up.file[..up.Start(next) + pos]
  }

  /** All that was read so far is right, and each chunk file is whole or empty. */
  ghost predicate OnTrack(up: Upload, d: Disk) {
    && WellFormed(up, d) && ReadRight(up, d.next, d.pos, d.spooled)
    && (forall i: nat | i < up.Count() :: d.files[i] == up.Piece(i) || d.files[i] == [])
  }

  /** Some of this chunk is still to be read. */
  ghost predicate Unread(up: Upload, d: Disk, i: nat) {
    d.next <= i < up.Count() && (if i == d.next then d.pos < |up.Piece(i)| else up.Piece(i) != [])
  }

  /** The chunk file is empty, or a request may empty it. */
  ghost predicate MayBeEmpty(up: Upload, d: Disk, i: nat) {
    (i in d.files && d.files[i] != up.Piece(i)) || exists w <- d.writers :: d.writers[w] == Unopened(i)
  }

  ghost predicate Exposed(up: Upload, d: Disk) {
    exists i: nat :: Unread(up, d, i) && MayBeEmpty(up, d, i)
  }

  // ---- Unexposed runs read the file ----

  lemma PieceIs(up: Upload, i: nat)
    ensures up.Start(i) <= up.Start(i + 1) == up.Start(i) + |up.Piece(i)| <= |up.file|
    ensures up.Piece(i) == up.file[up.Start(i)..up.Start(i + 1)]
  {
  }

  lemma TakeMore(file: Bytes, start: nat, end: nat, piece: Bytes, pos: nat, upto: nat)
    requires start <= end <= |file| && piece == file[start..end] && pos <= upto <= |piece|
    ensures file[..start + pos] + piece[pos..upto] == file[..start + upto]
  {
  }

  lemma BufferReadsRight(up: Upload, next: nat, pos: nat, upto: nat, spooled: Bytes)
    requires ReadRight(up, next, pos, spooled) && next < up.Count() && pos <= upto <= |up.Piece(next)|
    ensures ReadRight(up, next, upto, spooled + up.Piece(next)[pos..upto])
  {
    PieceIs(up, next);
    TakeMore(up.file, up.Start(next), up.Start(next + 1), up.Piece(next), pos, upto);
  }

  lemma BufferKeepsTrack(up: Upload, d: Disk, size: nat)
    requires OnTrack(up, d) && d.next < up.Count() && d.pos < |d.files[d.next]|
    ensures OnTrack(up, Read(d, size))
  {
    BufferReadsRight(up, d.next, d.pos, Min(d.pos + size, |up.Piece(d.next)|), d.spooled);
  }

  lemma EndKeepsTrack(up: Upload, d: Disk)
    requires OnTrack(up, d) && d.next < up.Count() && d.pos == |up.Piece(d.next)|
    ensures OnTrack(up, d.(next := d.next + 1, pos := 0))
  {
    PieceIs(up, d.next);
    if d.next + 1 < up.Count() { PieceIs(up, d.next + 1); }
  }

  lemma ReadKeepsTrack(up: Upload, d: Disk, size: nat)
    requires OnTrack(up, d) && !Exposed(up, d) && d.next < up.Count()
    ensures OnTrack(up, Read(d, size))
  {
    assert Unread(up, d, d.next) ==> !MayBeEmpty(up, d, d.next);
    if d.pos < |d.files[d.next]| {
      BufferKeepsTrack(up, d, size);
    } else if size > 0 {
      EndKeepsTrack(up, d);
    }
  }

  lemma NextKeepsTrack(up: Upload, d: Disk, a: Access)
    requires OnTrack(up, d) && !Exposed(up, d)
    ensures OnTrack(up, Next(up, d, a))
  {
    if a.ReadSome? && d.next < up.Count() { ReadKeepsTrack(up, d, a.size); }
  }

  lemma NextStaysUnexposed(up: Upload, d: Disk, a: Access)
    requires OnTrack(up, d) && !Exposed(up, d)
    ensures !Exposed(up, Next(up, d, a))
  {
    var after := Next(up, d, a);
    forall i: nat | Unread(up, after, i) ensures !MayBeEmpty(up, after, i) {
      assert Unread(up, d, i) && !MayBeEmpty(up, d, i);
    }
  }

  lemma {:induction false} UnexposedReadsFile(up: Upload, d: Disk, accesses: seq<Access>)
    requires OnTrack(up, d) && !Exposed(up, d) && After(up, d, accesses).next == up.Count()
    ensures After(up, d, accesses).spooled == up.file
    decreases |accesses|
  {
    if accesses == [] {
      LastOffset(|up.file|, up.chunkSize);
    } else {
      NextKeepsTrack(up, d, accesses[0]);
      NextStaysUnexposed(up, d, accesses[0]);
      UnexposedReadsFile(up, Next(up, d, accesses[0]), accesses[1..]);
    }
  }

  // ---- Exposed runs can publish something else ----

  /** The bytes of the chunk files from `i` on. */
  ghost function Left(up: Upload, d: Disk, i: nat): nat
    requires WellFormed(up, d) && i <= up.Count()
    decreases up.Count() - i
  {
    if i == up.Count() then 0 else |d.files[i]| + Left(up, d, i + 1)
  }

  /** What a run reads if nothing more happens to the files. */
  ghost function Ahead(up: Upload, d: Disk): nat
    requires WellFormed(up, d) && d.next <= up.Count()
  {
    if d.next == up.Count() then 0
    else (if d.pos >= |d.files[d.next]| then 0 else |d.files[d.next]| - d.pos) + Left(up, d, d.next + 1)
  }

  /** What chunk `i` has room for. */
  function Room(up: Upload, i: nat): int {
    up.Start(i + 1) - up.Start(i)
  }

  ghost predicate Fits(up: Upload, d: Disk) {
    WellFormed(up, d) && forall i: nat | i < up.Count() :: |d.files[i]| <= Room(up, i)
  }

  lemma TrackFits(up: Upload, d: Disk)
    requires OnTrack(up, d)
    ensures Fits(up, d)
  {
    forall i: nat | i < up.Count() ensures |d.files[i]| <= Room(up, i) {
      PieceIs(up, i);
    }
  }

  /** Empty chunk files only make what is left less. */
  lemma {:induction false} LeftIsAtMost(up: Upload, d: Disk, i: nat)
    requires Fits(up, d) && i <= up.Count()
    ensures Left(up, d, i) <= |up.file| - up.Start(i)
    decreases up.Count() - i
  {
    if i < up.Count() { LeftIsAtMost(up, d, i + 1); }
  }

  lemma {:induction false} LeftIsLess(up: Upload, d: Disk, i: nat, torn: nat)
    requires Fits(up, d) && i <= torn < up.Count() && |d.files[torn]| < Room(up, torn)
    ensures Left(up, d, i) < |up.file| - up.Start(i)
    decreases up.Count() - i
  {
    if i == torn {
      LeftIsAtMost(up, d, i + 1);
    } else {
      LeftIsLess(up, d, i + 1, torn);
    }
  }

  lemma AheadIsLess(up: Upload, d: Disk, i: nat)
    requires Fits(up, d) && d.next <= i < up.Count() && d.pos <= Room(up, d.next)
    requires |d.files[i]| < Room(up, i) && (i == d.next ==> d.files[i] == [] && d.pos < Room(up, i))
    ensures up.Start(d.next) + d.pos + Ahead(up, d) < |up.file|
  {
    if i > d.next {
      LeftIsLess(up, d, d.next + 1, i);
    } else {
      LeftIsAtMost(up, d, d.next + 1);
    }
  }

  lemma TornIsShort(up: Upload, d: Disk, i: nat)
    requires OnTrack(up, d) && Unread(up, d, i) && d.files[i] != up.Piece(i)
    ensures |d.spooled| + Ahead(up, d) < |up.file|
  {
    TrackFits(up, d);
    PieceIs(up, d.next);
    PieceIs(up, i);
    AheadIsLess(up, d, i);
  }

  lemma ReadOnce(up: Upload, d: Disk, size: nat)
    requires WellFormed(up, d) && d.next < up.Count() && size > 0
    ensures var after := Read(d, size);
      && WellFormed(up, after) && after.next <= up.Count()
      && |after.spooled| + Ahead(up, after) == |d.spooled| + Ahead(up, d)
      && (after.next > d.next || (after.next == d.next && Ahead(up, after) < Ahead(up, d)))
  {
    SameFilesLeft(up, d, Read(d, size), d.next + 1);
    if Read(d, size).next < up.Count() { SameFilesLeft(up, d, Read(d, size), Read(d, size).next + 1); }
  }

  lemma {:induction false} SameFilesLeft(up: Upload, d: Disk, e: Disk, i: nat)
    requires WellFormed(up, d) && WellFormed(up, e) && d.files == e.files && i <= up.Count()
    ensures Left(up, d, i) == Left(up, e, i)
    decreases up.Count() - i
  {
    if i < up.Count() { SameFilesLeft(up, d, e, i + 1); }
  }

  /** The run reads to the end, undisturbed. */
  lemma ReadsOn(up: Upload, d: Disk) returns (accesses: seq<Access>)
    requires WellFormed(up, d) && d.next <= up.Count()
    ensures After(up, d, accesses).next == up.Count()
    ensures |After(up, d, accesses).spooled| == |d.spooled| + Ahead(up, d)
    decreases up.Count() - d.next, Ahead(up, d)
  {
    if d.next == up.Count() {
      accesses := [];
    } else {
      ReadOnce(up, d, 65536);
      var rest := ReadsOn(up, Read(d, 65536));
      accesses := [ReadSome(65536)] + rest;
      assert accesses[1..] == rest;
    }
  }

  /** What can be torn is torn. */
  lemma Tears(up: Upload, d: Disk, i: nat) returns (accesses: seq<Access>)
    requires OnTrack(up, d) && Unread(up, d, i) && MayBeEmpty(up, d, i)
    ensures var torn := After(up, d, accesses); OnTrack(up, torn) && Unread(up, torn, i) && torn.files[i] != up.Piece(i)
  {
    if d.files[i] != up.Piece(i) {
      accesses := [];
    } else {
      var w :| w in d.writers && d.writers[w] == Unopened(i);
      accesses := [Truncate(w)];
      assert accesses[1..] == [];
      assert After(up, d, accesses) == Next(up, d, Truncate(w));
    }
  }

  lemma {:induction false} AfterBoth(up: Upload, d: Disk, one: seq<Access>, two: seq<Access>)
    requires WellFormed(up, d)
    ensures After(up, d, one + two) == After(up, After(up, d, one), two)
    decreases |one|
  {
    if one == [] {
      assert one + two == two;
    } else {
      assert (one + two)[1..] == one[1..] + two;
      AfterBoth(up, Next(up, d, one[0]), one[1..], two);
    }
  }

  lemma ExposedReadsShort(up: Upload, d: Disk) returns (accesses: seq<Access>)
    requires OnTrack(up, d) && Exposed(up, d)
    ensures After(up, d, accesses).next == up.Count() && |After(up, d, accesses).spooled| < |up.file|
  {
    var i: nat :| Unread(up, d, i) && MayBeEmpty(up, d, i);
    var tear := Tears(up, d, i);
    var torn := After(up, d, tear);
    TornIsShort(up, torn, i);
    var read := ReadsOn(up, torn);
    AfterBoth(up, d, tear, read);
    accesses := tear + read;
  }

  /**
    Whatever the outstanding requests do and when, a run that is on track reads the
    file if and only if no chunk that it is still to read is empty or waits to be
    opened again.
   */
  lemma FaithfulIffUnexposed(up: Upload, d: Disk)
    requires OnTrack(up, d)
    ensures (forall accesses | After(up, d, accesses).next == up.Count() :: After(up, d, accesses).spooled == up.file)
            <==> !Exposed(up, d)
  {
    if Exposed(up, d) {
      var accesses := ExposedReadsShort(up, d);
      assert After(up, d, accesses).spooled != up.file;
    } else {
      forall accesses | After(up, d, accesses).next == up.Count() ensures After(up, d, accesses).spooled == up.file {
        UnexposedReadsFile(up, d, accesses);
      }
    }
  }

  // ---- When finalise is claimed ----

  /** The disk of a claimed session: its chunks are whole, and each writer is an admitted request for the session. */
  ghost predicate AtClaim(s: State, u: Uuid, d: Disk) {
    && u in s.sessions && d.files == s.sessions[u].chunks && d.next == d.pos == 0 && d.spooled == []
    && forall w <- d.writers ::
      d.writers[w].Unopened? && exists c :: c in s.admitted && c.session == u && c.index == d.writers[w].index
  }

  lemma ClaimIsOnTrack(s: State, sizes: set<ChunkSize>, canon: map<nat, ChunkSize>, up: Upload, u: Uuid, d: Disk)
    requires Inv(s, up.file, sizes, canon) && AtClaim(s, u, d) && s.sessions[u].phase.Assembling?
    requires s.sessions[u].total in canon && up.chunkSize == canon[s.sessions[u].total]
    ensures OnTrack(up, d)
  {
    var session := s.sessions[u];
    assert GoodSession(up.file, up.chunkSize, session);
    forall w <- d.writers ensures d.writers[w].index < up.Count() {
      var c :| c in s.admitted && c.session == u && c.index == d.writers[w].index;
      assert c in s.sent;
    }
    forall i: nat | i < up.Count() ensures i in d.files && d.files[i] == up.Piece(i) {
      assert GoodChunk(up.file, up.chunkSize, i, session.chunks[i]);
    }
  }

  /** Only an empty file has an empty chunk. */
  lemma PieceIsEmptyIff(up: Upload, i: nat)
    requires i < up.Count()
    ensures up.Piece(i) == [] <==> up.file == []
  {
    PieceIs(up, i);
    if up.file != [] { OffsetInside(|up.file|, up.chunkSize, i); }
  }

  /**
    So a finalise run of the protocol reads the file, however requests that were
    admitted before the claim are written, if and only if none is outstanding or the
    file is empty.
   */
  lemma FaithfulIffNoneOutstanding(s: State, sizes: set<ChunkSize>, canon: map<nat, ChunkSize>,
                                   up: Upload, u: Uuid, d: Disk)
    requires Inv(s, up.file, sizes, canon) && AtClaim(s, u, d) && s.sessions[u].phase.Assembling?
    requires s.sessions[u].total in canon && up.chunkSize == canon[s.sessions[u].total]
    ensures OnTrack(up, d)
    ensures (forall accesses | After(up, d, accesses).next == up.Count() :: After(up, d, accesses).spooled == up.file)
            <==> d.writers == map[] || up.file == []
  {
    ClaimIsOnTrack(s, sizes, canon, up, u, d);
    FaithfulIffUnexposed(up, d);
    forall i: nat | i < up.Count() ensures d.files[i] == up.Piece(i) {
      assert GoodSession(up.file, up.chunkSize, s.sessions[u]);
      assert GoodChunk(up.file, up.chunkSize, i, s.sessions[u].chunks[i]);
    }
    if w :| w in d.writers {
      var i := d.writers[w].index;
      PieceIsEmptyIff(up, i);
      assert Unread(up, d, i) <==> up.file != [];
      assert MayBeEmpty(up, d, i);
    }
  }
}
