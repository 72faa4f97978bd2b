/** Compact object keys (arcology_shared/storage.py). */
module KeyCompaction {
  import opened Utf8

  const MAX_S3_KEY_BYTES := 479
  const COMPACTED_ROOT := "__arcology_longpaths__"
  const MARKER_BYTES := 48

  /** The first 24 hex digits of a path's SHA-256, whatever they are. */
  type Digest = string -> string

  ghost predicate IsDigest(digest: Digest) {
    forall path :: |digest(path)| == 24 && forall c <- digest(path) :: c as int < 0x80
  }

  datatype KeyError = PrefixTooLong | StillTooLong | KeyTooLong
  datatype Result<+T> = Ok(value: T) | Err(error: KeyError)

  /** What is left of the string without the slashes before it. */
  function LStrip(s: string): (r: string)
    ensures r == [] || r[0] != '/'
    ensures s == [] || s[0] != '/' ==> r == s
    decreases |s|
  {
    if s != [] && s[0] == '/' then LStrip(s[1..]) else s
  }

  /** And without the slashes after it. */
  function RStrip(s: string): (r: string)
    ensures r == [] || r[|r| - 1] != '/'
    decreases |s|
  {
    if s != [] && s[|s| - 1] == '/' then RStrip(s[..|s| - 1]) else s
  }

  /** What follows the last slash. */
  function Basename(s: string): (r: string)
    ensures '/' !in r && |r| <= |s| && r == s[|s| - |r|..]
    decreases |s|
  {
    if s == [] || s[|s| - 1] == '/' then "" else Basename(s[..|s| - 1]) + [s[|s| - 1]]
  }

  /** The three take away nothing but slashes, and what comes before the last one. */
  lemma {:induction false} LStripIs(s: string)
    ensures var r := LStrip(s);
      && |r| <= |s| && r == s[|s| - |r|..] && (r == [] || r[0] != '/')
      && (forall i | 0 <= i < |s| - |r| :: s[i] == '/')
    decreases |s|
  {
    if s != [] && s[0] == '/' { LStripIs(s[1..]); }
  }

  lemma {:induction false} RStripIs(s: string)
    ensures var r := RStrip(s);
      && r <= s && (r == [] || r[|r| - 1] != '/')
      && (forall i | |r| <= i < |s| :: s[i] == '/')
    decreases |s|
  {
    if s != [] && s[|s| - 1] == '/' { RStripIs(s[..|s| - 1]); }
  }

  lemma {:induction false} BasenameIs(s: string)
    ensures |Basename(s)| < |s| ==> s[|s| - |Basename(s)| - 1] == '/'
    decreases |s|
  {
    if s != [] && s[|s| - 1] != '/' {
      var init := s[..|s| - 1];
      BasenameIs(init);
      assert |Basename(s)| == |Basename(init)| + 1;
    }
  }

  function Marker(digest: Digest, path: string): string {
    COMPACTED_ROOT + "/" + digest(path) + "_"
  }

  lemma MarkerIsNarrow(digest: Digest, path: string)
    requires IsDigest(digest)
    ensures |Marker(digest, path)| == ByteLen(Marker(digest, path)) == MARKER_BYTES
  {
    AsciiIsNarrow(Marker(digest, path));
  }

  /** compact_storage_relpath once the path is stripped, branch for branch. */
  function CompactUnder(marker: string, relative: string, maxBytes: int): Result<string> {
    if ByteLen(relative) <= maxBytes then Ok(relative)
    else if maxBytes <= ByteLen(marker) then Err(PrefixTooLong)
    else
      var basename := if Basename(relative) == "" then "_" else Basename(relative);
      var compacted := marker + Truncated(basename, maxBytes - ByteLen(marker));
      if ByteLen(compacted) > maxBytes then Err(StillTooLong) else Ok(compacted)
  }

  function CompactRelpath(digest: Digest, path: string, maxBytes: int): Result<string> {
    CompactUnder(Marker(digest, LStrip(path)), LStrip(path), maxBytes)
  }

  /** The prefix with just one slash at its end. */
  function Folder(prefix: string): string {
    RStrip(prefix) + "/"
  }

  function CompactKey(digest: Digest, prefix: string, path: string, maxKeyBytes: int): Result<string> {
    var relative := CompactRelpath(digest, path, Room(prefix, maxKeyBytes));
    if relative.Ok? then Ok(Folder(prefix) + relative.value) else relative
  }

  // ---- The budget ----

  lemma CompactedFits(marker: string, basename: string, maxBytes: int)
    requires ByteLen(marker) < maxBytes
    ensures ByteLen(marker + Truncated(basename, maxBytes - ByteLen(marker))) <= maxBytes
  {
    EncodeAppends(marker, Truncated(basename, maxBytes - ByteLen(marker)));
    TruncatedFitsIff(basename, maxBytes - ByteLen(marker));
  }

  lemma CompactUnderFits(marker: string, relative: string, maxBytes: int)
    ensures var r := CompactUnder(marker, relative, maxBytes);
      && r != Err(StillTooLong)
      && (r.Ok? <==> ByteLen(relative) <= maxBytes || maxBytes > ByteLen(marker))
      && (r.Ok? ==> ByteLen(r.value) <= maxBytes)
  {
    if ByteLen(relative) > maxBytes > ByteLen(marker) {
      CompactedFits(marker, if Basename(relative) == "" then "_" else Basename(relative), maxBytes);
    }
  }

  /**
    A path is refused if and only if it is too long and the budget has no room for a
    marker; the last check of the code never fails.
   */
  lemma CompactFitsIff(digest: Digest, path: string, maxBytes: int)
    requires IsDigest(digest)
    ensures var r := CompactRelpath(digest, path, maxBytes);
      && r != Err(StillTooLong)
      && (r.Ok? <==> ByteLen(LStrip(path)) <= maxBytes || maxBytes > MARKER_BYTES)
      && (r.Ok? ==> ByteLen(r.value) <= maxBytes)
  {
    MarkerIsNarrow(digest, LStrip(path));
    CompactUnderFits(Marker(digest, LStrip(path)), LStrip(path), maxBytes);
  }

  /** The longest prefix of the name with at most `room` octets, or an underscore when no character fits. */
  ghost predicate IsCut(name: string, room: int, r: string) {
    if name != "" && Octets(name[..1]) <= room then
      && r != "" && r <= name && Octets(r) <= room
      && (forall k: nat | k <= |name| && Octets(name[..k]) <= room :: k <= |r|)
    else r == "_"
  }

  lemma TruncatedIsCut(name: string, room: int)
    requires name != ""
    ensures IsCut(name, room, Truncated(name, room))
  {
    TruncatedIsLongest(name, room);
    forall t ensures ByteLen(t) == Octets(t) {
      ByteLenIsOctets(t);
    }
  }

  /**
    A path that fits is kept but for leading slashes. Any other becomes the reserved
    folder, its digest, and as much of its last component as the budget has room for.
   */
  lemma CompactIs(digest: Digest, path: string, maxBytes: int)
    requires IsDigest(digest) && CompactRelpath(digest, path, maxBytes).Ok?
    ensures var p, r := LStrip(path), CompactRelpath(digest, path, maxBytes).value;
      var head := "__arcology_longpaths__/" + digest(p) + "_";
      if Octets(p) <= maxBytes then r == p
      else head <= r && IsCut(Basename(p), maxBytes - 48, r[|head|..])
  {
    var p := LStrip(path);
    MarkerIsNarrow(digest, p);
    assert Marker(digest, p) == "__arcology_longpaths__/" + digest(p) + "_";
    CompactUnderIs(Marker(digest, p), p, maxBytes);
  }

  lemma CompactUnderIs(marker: string, relative: string, maxBytes: int)
    requires ByteLen(marker) == 48 && CompactUnder(marker, relative, maxBytes).Ok?
    ensures var r := CompactUnder(marker, relative, maxBytes).value;
      if Octets(relative) <= maxBytes then r == relative
      else marker <= r && IsCut(Basename(relative), maxBytes - 48, r[|marker|..])
  {
    ByteLenIsOctets(relative);
    if Octets(relative) > maxBytes {
      if Basename(relative) == "" {
        UnderscoreIsCut(maxBytes - 48);
      } else {
        TruncatedIsCut(Basename(relative), maxBytes - 48);
      }
    }
  }

  lemma UnderscoreIsCut(room: int)
    requires room > 0
    ensures Truncated("_", room) == "_"
  {
    AsciiIsNarrow("_");
  }

  /** Compacting a compacted path changes nothing. */
  lemma CompactIsIdempotent(digest: Digest, path: string, maxBytes: int)
    requires IsDigest(digest) && CompactRelpath(digest, path, maxBytes).Ok?
    ensures var r := CompactRelpath(digest, path, maxBytes); CompactRelpath(digest, r.value, maxBytes) == r
  {
    CompactFitsIff(digest, path, maxBytes);
    var r := CompactRelpath(digest, path, maxBytes).value;
    if ByteLen(LStrip(path)) > maxBytes {
      assert r[0] == '_';
    }
  }

  lemma PrefixAdds(folder: string, relative: string)
    ensures folder <= folder + relative && ByteLen(folder + relative) == ByteLen(folder) + ByteLen(relative)
  {
    EncodeAppends(folder, relative);
  }

  /** What compact_storage_key leaves for the path. */
  function Room(prefix: string, maxKeyBytes: int): int {
    maxKeyBytes - ByteLen(Folder(prefix))
  }

  /**
    Whatever is returned as a key fits the limit, and so passes the storage
    backend's own check at the default limit.
   */
  lemma KeyFits(digest: Digest, prefix: string, path: string, maxKeyBytes: int)
    requires IsDigest(digest)
    ensures var r := CompactKey(digest, prefix, path, maxKeyBytes);
      && r != Err(StillTooLong)
      && (r.Ok? <==> ByteLen(LStrip(path)) <= Room(prefix, maxKeyBytes) || MARKER_BYTES < Room(prefix, maxKeyBytes))
      && (r.Ok? ==> Folder(prefix) <= r.value && ByteLen(r.value) <= maxKeyBytes)
  {
    CompactFitsIff(digest, path, Room(prefix, maxKeyBytes));
    var relative := CompactRelpath(digest, path, Room(prefix, maxKeyBytes));
    if relative.Ok? { PrefixAdds(Folder(prefix), relative.value); }
  }

  lemma RoomIs(prefix: string, maxKeyBytes: int)
    ensures Room(prefix, maxKeyBytes) == maxKeyBytes - Octets(RStrip(prefix)) - 1
  {
    EncodeAppends(RStrip(prefix), "/");
    AsciiIsNarrow("/");
    ByteLenIsOctets(RStrip(prefix));
  }

  /** The same counted in octets, and what the key is: the folder, a slash, and the path compacted to the room left. */
  lemma KeyIs(digest: Digest, prefix: string, path: string, maxKeyBytes: int)
    requires IsDigest(digest)
    ensures var r := CompactKey(digest, prefix, path, maxKeyBytes);
      var room := maxKeyBytes - Octets(RStrip(prefix)) - 1;
      && (r.Ok? <==> Octets(LStrip(path)) <= room || 48 < room)
      && (r.Ok? ==> Octets(r.value) <= maxKeyBytes)
      && (r.Ok? ==> CompactRelpath(digest, path, room).Ok?
                    && r.value == RStrip(prefix) + "/" + CompactRelpath(digest, path, room).value)
  {
    RoomIs(prefix, maxKeyBytes);
    KeyFits(digest, prefix, path, maxKeyBytes);
    ByteLenIsOctets(LStrip(path));
    var r := CompactKey(digest, prefix, path, maxKeyBytes);
    if r.Ok? { ByteLenIsOctets(r.value); }
  }

  // ---- Distinctness ----

  ghost predicate NoCollision(digest: Digest, paths: set<string>) {
    forall p, q | p in paths && q in paths && digest(p) == digest(q) :: p == q
  }

  /** `p` is too long, and `q` is what it is compacted to; an archive may hold both. */
  predicate IsCompactedForm(digest: Digest, p: string, q: string, maxBytes: int) {
    ByteLen(p) > maxBytes && CompactRelpath(digest, p, maxBytes) == Ok(q)
  }

  /**
    Two paths with distinct digests are stored alike if and only if, leading slashes
    aside, they are the same or one is the compacted form of the other.
   */
  lemma CompactCollidesIff(digest: Digest, path: string, other: string, maxBytes: int)
    requires IsDigest(digest) && NoCollision(digest, {LStrip(path), LStrip(other)})
    requires CompactRelpath(digest, path, maxBytes).Ok?
    ensures var p, q := LStrip(path), LStrip(other);
      CompactRelpath(digest, path, maxBytes) == CompactRelpath(digest, other, maxBytes) <==>
      p == q || IsCompactedForm(digest, p, q, maxBytes) || IsCompactedForm(digest, q, p, maxBytes)
  {
    var p, q := LStrip(path), LStrip(other);
    if ByteLen(p) > maxBytes {
      StartsWithMarker(digest, p, maxBytes);
      if ByteLen(q) > maxBytes && CompactRelpath(digest, q, maxBytes).Ok? {
        StartsWithMarker(digest, q, maxBytes);
      }
      CompactFitsIff(digest, p, maxBytes);
    }
    if ByteLen(q) > maxBytes && CompactRelpath(digest, q, maxBytes).Ok? {
      CompactFitsIff(digest, q, maxBytes);
    }
  }

  /** A path as the walk of a directory gives it. */
  predicate IsWalked(path: string) {
    path != "" && path[0] != '/'
  }

  predicate OneIsCompacted(digest: Digest, p: string, q: string, maxBytes: int) {
    IsCompactedForm(digest, p, q, maxBytes) || IsCompactedForm(digest, q, p, maxBytes)
  }

  lemma WalkedCollideIff(digest: Digest, paths: set<string>, p: string, q: string, maxBytes: int)
    requires IsDigest(digest) && NoCollision(digest, paths) && p in paths && q in paths
    requires IsWalked(p) && IsWalked(q) && CompactRelpath(digest, p, maxBytes).Ok?
    ensures CompactRelpath(digest, p, maxBytes) == CompactRelpath(digest, q, maxBytes) <==>
            p == q || OneIsCompacted(digest, p, q, maxBytes)
  {
    CompactCollidesIff(digest, p, q, maxBytes);
  }

  /** No path is the compacted form of itself. */
  lemma NotItsOwnForm(digest: Digest, p: string, maxBytes: int)
    requires IsDigest(digest)
    ensures !IsCompactedForm(digest, p, p, maxBytes)
  {
    CompactFitsIff(digest, p, maxBytes);
  }

  predicate IsReserved(path: string) {
    COMPACTED_ROOT + "/" <= path
  }

  /** Outside the reserved folder compaction keeps paths apart. */
  lemma CompactIsInjective(digest: Digest, paths: set<string>, p: string, q: string, maxBytes: int)
    requires IsDigest(digest) && NoCollision(digest, paths) && p in paths && q in paths
    requires IsWalked(p) && IsWalked(q) && !IsReserved(p) && !IsReserved(q)
    requires CompactRelpath(digest, p, maxBytes).Ok?
             && CompactRelpath(digest, p, maxBytes) == CompactRelpath(digest, q, maxBytes)
    ensures p == q
  {
    CompactCollidesIff(digest, p, q, maxBytes);
    if IsCompactedForm(digest, p, q, maxBytes) {
      StartsWithMarker(digest, p, maxBytes);
    } else if IsCompactedForm(digest, q, p, maxBytes) {
      StartsWithMarker(digest, q, maxBytes);
    }
  }

  lemma MarkerParts(digest: Digest, p: string)
    requires IsDigest(digest)
    ensures var marker := Marker(digest, p);
      && |marker| == |COMPACTED_ROOT| + 26 && COMPACTED_ROOT + "/" <= marker
      && marker[|COMPACTED_ROOT| + 1..|COMPACTED_ROOT| + 25] == digest(p)
  {
    var root := COMPACTED_ROOT + "/";
    assert Marker(digest, p) == root + (digest(p) + "_");
    assert (root + (digest(p) + "_"))[|root|..|root| + 24] == digest(p);
  }

  lemma PrefixParts(prefix: string, s: string, start: string, from: nat, to: nat)
    requires prefix <= s && start <= prefix && from <= to <= |prefix|
    ensures start <= s && s[from..to] == prefix[from..to]
  {
  }

  lemma StartsWithMarker(digest: Digest, p: string, maxBytes: int)
    requires IsDigest(digest) && LStrip(p) == p && ByteLen(p) > maxBytes && CompactRelpath(digest, p, maxBytes).Ok?
    ensures var r := CompactRelpath(digest, p, maxBytes).value;
      && |r| >= |COMPACTED_ROOT| + 25 && COMPACTED_ROOT + "/" <= r
      && r[|COMPACTED_ROOT| + 1..|COMPACTED_ROOT| + 25] == digest(p)
  {
    var r, marker := CompactRelpath(digest, p, maxBytes).value, Marker(digest, p);
    MarkerParts(digest, p);
    PrefixParts(marker, r, COMPACTED_ROOT + "/", |COMPACTED_ROOT| + 1, |COMPACTED_ROOT| + 25);
  }
}
