/** Uploading and downloading directory trees (arcology_shared/storage.py, worker/arcworker/analysis.py). */
module TreeStorage {
  import opened Utf8
  import opened KeyCompaction

  type Bytes = seq<Byte>
  /** The files below a directory, by their path relative to it. */
  type Tree = map<string, Bytes>
  type Mapper = string -> Result<string>

  function Unmapped(path: string): Result<string> {
    Ok(path)
  }

  /** The mapper that the worker uploads extractions with. */
  function CompactionMapper(digest: Digest, prefix: string): Mapper {
    path => CompactRelpath(digest, path, Room(prefix, MAX_S3_KEY_BYTES))
  }

  /** The key of a file in a folder, or why it has none. */
  function KeyOf(folder: string, mapper: Mapper, path: string): Result<string> {
    var mapped := mapper(path);
    if mapped.Err? then mapped
    else if ByteLen(folder + mapped.value) > MAX_S3_KEY_BYTES then Err(KeyTooLong)
    else Ok(folder + mapped.value)
  }

  ghost predicate AllKeysValid(folder: string, mapper: Mapper, tree: Tree) {
    forall path <- tree :: KeyOf(folder, mapper, path).Ok?
  }

  /** The key of each file. */
  ghost predicate IsKeys(folder: string, mapper: Mapper, tree: Tree, keys: map<string, string>) {
    keys.Keys == tree.Keys && forall path <- tree :: KeyOf(folder, mapper, path) == Ok(keys[path])
  }

  /** Some file of the tree with this key has this content. */
  ghost predicate Holds(tree: Tree, keys: map<string, string>, key: string, content: Bytes) {
    exists path :: path in tree && path in keys && keys[path] == key && tree[path] == content
  }

  /** Nothing is removed, and what is new or changed is the content of a file under its key. */
  ghost predicate FromTree(tree: Tree, keys: map<string, string>, before: map<string, Bytes>, after: map<string, Bytes>)
  {
    && before.Keys <= after.Keys
    && (forall key <- after | !(key in before && after[key] == before[key]) :: Holds(tree, keys, key, after[key]))
  }

  /** Each of these files is stored under its key, unless another file of the same key is. */
  ghost predicate Uploaded(tree: Tree, keys: map<string, string>, paths: set<string>, after: map<string, Bytes>) {
    forall path <- paths | path in keys :: keys[path] in after && Holds(tree, keys, keys[path], after[keys[path]])
  }

  lemma UploadStep(tree: Tree, keys: map<string, string>, paths: set<string>, before: map<string, Bytes>,
                   after: map<string, Bytes>, path: string)
    requires path in tree && path in keys && FromTree(tree, keys, before, after) && Uploaded(tree, keys, paths, after)
    ensures var stored := after[keys[path] := tree[path]];
      FromTree(tree, keys, before, stored) && Uploaded(tree, keys, paths + {path}, stored)
  {
    assert Holds(tree, keys, keys[path], tree[path]);
  }

  /** The state of an upload in which the files `left` are still to come. */
  ghost predicate InProgress(tree: Tree, keys: map<string, string>, left: set<string>,
                             before: map<string, Bytes>, after: map<string, Bytes>) {
    FromTree(tree, keys, before, after) && Uploaded(tree, keys, tree.Keys - left, after)
  }

  lemma NothingUploaded(tree: Tree, keys: map<string, string>, objects: map<string, Bytes>)
    ensures InProgress(tree, keys, tree.Keys, objects, objects)
  {
  }

  lemma UploadNext(tree: Tree, keys: map<string, string>, left: set<string>,
                   before: map<string, Bytes>, after: map<string, Bytes>, path: string)
    requires path in left && left <= tree.Keys && path in keys && InProgress(tree, keys, left, before, after)
    ensures InProgress(tree, keys, left - {path}, before, after[keys[path] := tree[path]])
  {
    UploadStep(tree, keys, tree.Keys - left, before, after, path);
    assert tree.Keys - (left - {path}) == (tree.Keys - left) + {path};
  }

  /** The objects of a folder, by the rest of their key. */
  ghost predicate IsBelow(objects: map<string, Bytes>, folder: string, tree: Tree) {
    forall path :: (path in tree <==> path != "" && folder + path in objects)
      && (path in tree ==> tree[path] == objects[folder + path])
  }

  /** What get_tree has written once it is through these keys. */
  ghost predicate Fetched(objects: map<string, Bytes>, folder: string, done: set<string>, tree: Tree) {
    && (forall key <- done :: folder <= key && key in objects && (key != folder ==> key[|folder|..] in tree))
    && (forall path <- tree ::
          path != "" && folder + path in done && folder + path in objects && tree[path] == objects[folder + path])
  }

  lemma FetchStep(objects: map<string, Bytes>, folder: string, done: set<string>, tree: Tree, key: string)
    requires Fetched(objects, folder, done, tree) && key in objects && folder <= key && key !in done
    ensures var path := key[|folder|..];
      && folder + path == key && (path == "" <==> key == folder) && path !in tree
      && Fetched(objects, folder, done + {key}, if path == "" then tree else tree[path := objects[key]])
  {
    assert folder + key[|folder|..] == key;
  }

  lemma FetchNext(objects: map<string, Bytes>, folder: string, keys: set<string>, left: set<string>, tree: Tree,
                  key: string)
    requires key in left && left <= keys && Fetched(objects, folder, keys - left, tree) && key in objects
             && folder <= key
    ensures var path := key[|folder|..];
      path !in tree
        && Fetched(objects, folder, keys - (left - {key}), if path == "" then tree else tree[path := objects[key]])
  {
    FetchStep(objects, folder, keys - left, tree, key);
    assert keys - (left - {key}) == (keys - left) + {key};
  }

  lemma FetchedAll(objects: map<string, Bytes>, folder: string, done: set<string>, tree: Tree)
    requires Fetched(objects, folder, done, tree)
    requires forall key <- objects | folder <= key :: key in done
    ensures IsBelow(objects, folder, tree)
  {
    forall path | path != "" && folder + path in objects ensures path in tree {
      var key := folder + path;
      assert folder <= key && key[|folder|..] == path;
    }
  }

  datatype PutResult = Stored(count: nat) | Rejected | Failed

  class S3Storage {
    var objects: map<string, Bytes>

    constructor ()
      ensures objects == map[]
    {
      objects := map[];
    }

    /** The first half of put_tree: every key is checked before anything is sent. */
    method CheckKeys(folder: string, mapper: Mapper, tree: Tree) returns (ok: bool, keys: map<string, string>)
      ensures ok <==> AllKeysValid(folder, mapper, tree)
      ensures ok ==> IsKeys(folder, mapper, tree, keys)
    {
      keys := map[];
      var left := tree.Keys;
      while left != {}
        invariant left <= tree.Keys && keys.Keys == tree.Keys - left
        invariant forall path <- keys :: KeyOf(folder, mapper, path) == Ok(keys[path])
        decreases |left|
      {
        var path :| path in left;
        var key := KeyOf(folder, mapper, path);
        if key.Err? { return false, map[]; }
        keys := keys[path := key.value];
        left := left - {path};
      }
      ok := true;
    }

    /** The second half; upload number `n` fails if `faulty(n)`. */
    method UploadAll(tree: Tree, keys: map<string, string>, faulty: nat -> bool) returns (ok: bool, count: nat)
      requires keys.Keys == tree.Keys
      modifies this
      ensures FromTree(tree, keys, old(objects), objects)
      ensures ok ==> count == |tree| && Uploaded(tree, keys, tree.Keys, objects)
      ensures !ok ==> count < |tree| && faulty(count)
      ensures ok <==> forall n: nat | n < |tree| :: !faulty(n)
    {
      var left := tree.Keys;
      count := 0;
      NothingUploaded(tree, keys, objects);
      while left != {}
        invariant left <= tree.Keys && count + |left| == |tree|
        invariant forall n: nat | n < count :: !faulty(n)
        invariant InProgress(tree, keys, left, old(objects), objects)
        decreases |left|
      {
        var path :| path in left;
        if faulty(count) { return false, count; }
        UploadNext(tree, keys, left, old(objects), objects, path);
        objects := objects[keys[path] := tree[path]];
        left, count := left - {path}, count + 1;
      }
      assert tree.Keys - left == tree.Keys;
      ok := true;
    }

    /** put_tree: a tree with one bad key is rejected whole. */
    method PutTree(prefix: string, mapper: Mapper, tree: Tree, faulty: nat -> bool) returns (result: PutResult)
      modifies this
      ensures result.Rejected? <==> !AllKeysValid(Folder(prefix), mapper, tree)
      ensures result.Rejected? ==> objects == old(objects)
      ensures forall keys | IsKeys(Folder(prefix), mapper, tree, keys) :: FromTree(tree, keys, old(objects), objects)
      ensures result.Stored? ==> result.count == |tree|
      ensures result.Stored? ==>
              forall keys | IsKeys(Folder(prefix), mapper, tree, keys) :: Uploaded(tree, keys, tree.Keys, objects)
      ensures result.Failed? <==>
              AllKeysValid(Folder(prefix), mapper, tree) && exists n: nat :: n < |tree| && faulty(n)
    {
      var ok, keys := CheckKeys(Folder(prefix), mapper, tree);
      if !ok { return Rejected; }
      forall other | IsKeys(Folder(prefix), mapper, tree, other) ensures other == keys {
        SameKeys(Folder(prefix), mapper, tree, keys, other);
      }
      var count;
      ok, count := UploadAll(tree, keys, faulty);
      result := if ok then Stored(count) else Failed;
    }

    /** list_prefix */
    method ListPrefix(prefix: string) returns (keys: set<string>)
      ensures forall key :: key in keys <==> key in objects && prefix <= key
    {
      keys := set key <- objects | prefix <= key;
    }

    /** get_tree: everything below the prefix, except an object named like the folder itself. */
    method GetTree(prefix: string) returns (tree: Tree, count: nat)
      ensures IsBelow(objects, Folder(prefix), tree) && count == |tree|
    {
      var folder := Folder(prefix);
      var left := ListPrefix(folder);
      ghost var keys := left;
      tree, count := map[], 0;
      assert keys - left == {};
      while left != {}
        invariant left <= keys && count == |tree| && Fetched(objects, folder, keys - left, tree)
        decreases |left|
      {
        var key :| key in left;
        FetchNext(objects, folder, keys, left, tree, key);
        var path := key[|folder|..];
        if path != "" {
          tree := tree[path := objects[key]];
          count := count + 1;
        }
        left := left - {key};
      }
      assert keys - left == keys;
      FetchedAll(objects, folder, keys, tree);
    }
  }

  lemma SameKeys(folder: string, mapper: Mapper, tree: Tree, one: map<string, string>, other: map<string, string>)
    requires IsKeys(folder, mapper, tree, one) && IsKeys(folder, mapper, tree, other)
    ensures one == other
  {
    forall path <- one ensures one[path] == other[path] {
      assert path in tree;
    }
  }

  // ---- Round trips ----

  ghost predicate EmptyBelow(objects: map<string, Bytes>, folder: string) {
    forall key <- objects :: !(folder <= key)
  }

  ghost predicate KeysApart(tree: Tree, keys: map<string, string>) {
    forall p, q | p in tree && q in tree && p in keys && q in keys && keys[p] == keys[q] :: p == q
  }

  /** With distinct keys every file is stored under its own. */
  lemma UploadedExactly(folder: string, mapper: Mapper, tree: Tree, keys: map<string, string>,
                        after: map<string, Bytes>, path: string)
    requires IsKeys(folder, mapper, tree, keys) && KeysApart(tree, keys) && Uploaded(tree, keys, tree.Keys, after)
             && path in tree
    ensures keys[path] in after && after[keys[path]] == tree[path]
  {
  }

  lemma KeysStartWithFolder(folder: string, mapper: Mapper, tree: Tree, keys: map<string, string>, path: string)
    requires IsKeys(folder, mapper, tree, keys) && path in tree
    ensures mapper(path).Ok? && keys[path] == folder + mapper(path).value && folder <= keys[path]
            && keys[path][|folder|..] == mapper(path).value
  {
    assert KeyOf(folder, mapper, path) == Ok(keys[path]);
  }

  /** What was uploaded to an empty folder comes back, at the mapped paths and nowhere else. */
  lemma RoundTrip(folder: string, mapper: Mapper, tree: Tree, keys: map<string, string>,
                  before: map<string, Bytes>, after: map<string, Bytes>, back: Tree)
    requires IsKeys(folder, mapper, tree, keys) && KeysApart(tree, keys) && EmptyBelow(before, folder)
    requires forall path <- tree :: mapper(path).Ok? && mapper(path).value != ""
    requires FromTree(tree, keys, before, after) && Uploaded(tree, keys, tree.Keys, after)
             && IsBelow(after, folder, back)
    ensures forall path <- tree :: mapper(path).value in back && back[mapper(path).value] == tree[path]
    ensures forall mapped <- back :: exists path :: path in tree && mapper(path) == Ok(mapped)
  {
    forall path <- tree ensures mapper(path).value in back && back[mapper(path).value] == tree[path] {
      KeysStartWithFolder(folder, mapper, tree, keys, path);
      UploadedExactly(folder, mapper, tree, keys, after, path);
    }
    forall mapped <- back ensures exists path :: path in tree && mapper(path) == Ok(mapped) {
      var key := folder + mapped;
      assert folder <= key && key[|folder|..] == mapped;
      assert Holds(tree, keys, key, after[key]);
      var path :| path in tree && path in keys && keys[path] == key;
      KeysStartWithFolder(folder, mapper, tree, keys, path);
    }
  }

  /** The paths of a directory walk, and digests that tell them apart. */
  ghost predicate IsSourceTree(digest: Digest, tree: Tree) {
    IsDigest(digest) && NoCollision(digest, tree.Keys) && forall path <- tree :: IsWalked(path)
  }

  /** No file of the tree lies where another one is compacted to. */
  ghost predicate NoneCompacted(digest: Digest, prefix: string, tree: Tree) {
    forall p, q | p in tree && q in tree :: !IsCompactedForm(digest, p, q, Room(prefix, MAX_S3_KEY_BYTES))
  }

  /** So it is when the tree has no files in the reserved folder. */
  lemma UnreservedIsNotCompacted(digest: Digest, prefix: string, tree: Tree)
    requires IsSourceTree(digest, tree) && forall path <- tree :: !IsReserved(path)
    ensures NoneCompacted(digest, prefix, tree)
  {
    var room := Room(prefix, MAX_S3_KEY_BYTES);
    forall p, q | p in tree && q in tree ensures !IsCompactedForm(digest, p, q, room) {
      if IsCompactedForm(digest, p, q, room) { StartsWithMarker(digest, p, room); }
    }
  }

  /** The uploader and the reader of single files name a file alike. */
  lemma CompactedKey(digest: Digest, prefix: string, tree: Tree, keys: map<string, string>, path: string)
    requires IsSourceTree(digest, tree) && IsKeys(Folder(prefix), CompactionMapper(digest, prefix), tree, keys)
    requires path in tree
    ensures CompactKey(digest, prefix, path, MAX_S3_KEY_BYTES) == Ok(keys[path])
  {
    KeysStartWithFolder(Folder(prefix), CompactionMapper(digest, prefix), tree, keys, path);
  }

  lemma KeysCollideIff(digest: Digest, prefix: string, tree: Tree, keys: map<string, string>, p: string, q: string)
    requires IsSourceTree(digest, tree) && IsKeys(Folder(prefix), CompactionMapper(digest, prefix), tree, keys)
    requires p in tree && q in tree
    ensures keys[p] == keys[q] <==> p == q || OneIsCompacted(digest, p, q, Room(prefix, MAX_S3_KEY_BYTES))
  {
    KeysStartWithFolder(Folder(prefix), CompactionMapper(digest, prefix), tree, keys, p);
    KeysStartWithFolder(Folder(prefix), CompactionMapper(digest, prefix), tree, keys, q);
    WalkedCollideIff(digest, tree.Keys, p, q, Room(prefix, MAX_S3_KEY_BYTES));
  }

  lemma KeysApartAt(digest: Digest, prefix: string, tree: Tree, keys: map<string, string>, p: string, q: string)
    requires IsSourceTree(digest, tree) && IsKeys(Folder(prefix), CompactionMapper(digest, prefix), tree, keys)
    requires NoneCompacted(digest, prefix, tree) && p in tree && q in tree && keys[p] == keys[q]
    ensures p == q
  {
    KeysCollideIff(digest, prefix, tree, keys, p, q);
  }

  /** Names are apart if and only if no file lies where another one is compacted to. */
  lemma CompactedKeys(digest: Digest, prefix: string, tree: Tree, keys: map<string, string>)
    requires IsSourceTree(digest, tree) && IsKeys(Folder(prefix), CompactionMapper(digest, prefix), tree, keys)
    ensures KeysApart(tree, keys) <==> NoneCompacted(digest, prefix, tree)
  {
    if NoneCompacted(digest, prefix, tree) {
      forall p, q | p in tree && q in tree && keys[p] == keys[q] ensures p == q {
        KeysApartAt(digest, prefix, tree, keys, p, q);
      }
    } else {
      var p, q := SomeCompacted(digest, prefix, tree);
      KeysCollideIff(digest, prefix, tree, keys, p, q);
    }
  }

  lemma SomeCompacted(digest: Digest, prefix: string, tree: Tree) returns (p: string, q: string)
    requires IsDigest(digest) && !NoneCompacted(digest, prefix, tree)
    ensures p in tree && q in tree && p != q && OneIsCompacted(digest, p, q, Room(prefix, MAX_S3_KEY_BYTES))
  {
    p, q :| p in tree && q in tree && IsCompactedForm(digest, p, q, Room(prefix, MAX_S3_KEY_BYTES));
    NotItsOwnForm(digest, p, Room(prefix, MAX_S3_KEY_BYTES));
  }

  /** With compaction, a tree is rejected if and only if the folder's own name leaves a long path no room. */
  lemma CompactionAcceptsIff(digest: Digest, prefix: string, tree: Tree)
    requires IsSourceTree(digest, tree)
    ensures AllKeysValid(Folder(prefix), CompactionMapper(digest, prefix), tree) <==>
            forall path <- tree ::
              ByteLen(path) <= Room(prefix, MAX_S3_KEY_BYTES) || MARKER_BYTES < Room(prefix, MAX_S3_KEY_BYTES)
  {
    forall path <- tree
      ensures KeyOf(Folder(prefix), CompactionMapper(digest, prefix), path).Ok? <==>
              ByteLen(path) <= Room(prefix, MAX_S3_KEY_BYTES) || MARKER_BYTES < Room(prefix, MAX_S3_KEY_BYTES)
    {
      KeyFits(digest, prefix, path, MAX_S3_KEY_BYTES);
      assert LStrip(path) == path;
    }
  }

  /** With no mapper it is rejected if and only if a key is over 479 octets. */
  lemma UnmappedAcceptsIff(folder: string, tree: Tree)
    ensures AllKeysValid(folder, Unmapped, tree) <==> forall path <- tree :: Octets(folder + path) <= 479
  {
    forall path <- tree ensures KeyOf(folder, Unmapped, path).Ok? <==> Octets(folder + path) <= 479 {
      ByteLenIsOctets(folder + path);
    }
  }

  lemma UnmappedKeysApart(folder: string, tree: Tree, keys: map<string, string>)
    requires IsKeys(folder, Unmapped, tree, keys)
    ensures KeysApart(tree, keys)
  {
    forall p, q | p in tree && q in tree && keys[p] == keys[q] ensures p == q {
      KeysStartWithFolder(folder, Unmapped, tree, keys, p);
      KeysStartWithFolder(folder, Unmapped, tree, keys, q);
    }
  }

  /** With no mapper the round trip is the identity. */
  lemma RoundTripUnmapped(folder: string, tree: Tree, keys: map<string, string>,
                          before: map<string, Bytes>, after: map<string, Bytes>, back: Tree)
    requires IsKeys(folder, Unmapped, tree, keys) && EmptyBelow(before, folder) && "" !in tree
    requires FromTree(tree, keys, before, after) && Uploaded(tree, keys, tree.Keys, after)
             && IsBelow(after, folder, back)
    ensures back == tree
  {
    UnmappedKeysApart(folder, tree, keys);
    RoundTrip(folder, Unmapped, tree, keys, before, after, back);
    UnmappedIsSame(tree, back);
  }

  lemma UnmappedIsSame(tree: Tree, back: Tree)
    requires forall path <- tree :: Unmapped(path).value in back && back[Unmapped(path).value] == tree[path]
    requires forall mapped <- back :: exists path :: path in tree && Unmapped(path) == Ok(mapped)
    ensures back == tree
  {
    forall path <- tree ensures path in back && back[path] == tree[path] {
      assert Unmapped(path) == Ok(path);
    }
    forall mapped <- back ensures mapped in tree {
      var path :| path in tree && Unmapped(path) == Ok(mapped);
    }
  }

  lemma MappedIsNonEmpty(digest: Digest, path: string, maxBytes: int)
    requires IsDigest(digest) && IsWalked(path) && CompactRelpath(digest, path, maxBytes).Ok?
    ensures CompactRelpath(digest, path, maxBytes).value != ""
  {
    if ByteLen(path) > maxBytes { StartsWithMarker(digest, path, maxBytes); }
  }

  function Mapped(digest: Digest, prefix: string, path: string): string {
    var mapped := CompactRelpath(digest, path, Room(prefix, MAX_S3_KEY_BYTES));
    if mapped.Ok? then mapped.value else ""
  }

  lemma CompactedMaps(digest: Digest, prefix: string, tree: Tree, keys: map<string, string>, path: string)
    requires IsSourceTree(digest, tree) && IsKeys(Folder(prefix), CompactionMapper(digest, prefix), tree, keys)
             && path in tree
    ensures CompactionMapper(digest, prefix)(path) == Ok(Mapped(digest, prefix, path))
            && Mapped(digest, prefix, path) != ""
  {
    KeysStartWithFolder(Folder(prefix), CompactionMapper(digest, prefix), tree, keys, path);
    MappedIsNonEmpty(digest, path, Room(prefix, MAX_S3_KEY_BYTES));
  }

  /** With compaction the round trip returns each file at its compacted path, and nothing else. */
  lemma RoundTripCompacted(digest: Digest, prefix: string, tree: Tree, keys: map<string, string>,
                           before: map<string, Bytes>, after: map<string, Bytes>, back: Tree)
    requires IsSourceTree(digest, tree) && IsKeys(Folder(prefix), CompactionMapper(digest, prefix), tree, keys)
    requires NoneCompacted(digest, prefix, tree) && EmptyBelow(before, Folder(prefix))
    requires FromTree(tree, keys, before, after) && Uploaded(tree, keys, tree.Keys, after)
             && IsBelow(after, Folder(prefix), back)
    ensures forall path <- tree ::
              Mapped(digest, prefix, path) in back && back[Mapped(digest, prefix, path)] == tree[path]
    ensures forall mapped <- back :: exists path :: path in tree && Mapped(digest, prefix, path) == mapped
  {
    var mapper := CompactionMapper(digest, prefix);
    CompactedKeys(digest, prefix, tree, keys);
    forall path <- tree ensures mapper(path) == Ok(Mapped(digest, prefix, path)) && Mapped(digest, prefix, path) != "" {
      CompactedMaps(digest, prefix, tree, keys, path);
    }
    RoundTrip(Folder(prefix), mapper, tree, keys, before, after, back);
    forall path <- tree
      ensures Mapped(digest, prefix, path) in back && back[Mapped(digest, prefix, path)] == tree[path]
    {
      assert mapper(path).value in back;
    }
    forall mapped <- back ensures exists path :: path in tree && Mapped(digest, prefix, path) == mapped {
      var path :| path in tree && mapper(path) == Ok(mapped);
    }
  }

  ghost predicate Injective(f: string -> string, paths: set<string>) {
    forall p, q | p in paths && q in paths && f(p) == f(q) :: p == q
  }

  function Mapping(digest: Digest, prefix: string): (f: string -> string)
    ensures forall path :: f(path) == Mapped(digest, prefix, path)
  {
    path => Mapped(digest, prefix, path)
  }

  lemma MappingCollidesIff(digest: Digest, prefix: string, tree: Tree, keys: map<string, string>, p: string, q: string)
    requires IsSourceTree(digest, tree) && IsKeys(Folder(prefix), CompactionMapper(digest, prefix), tree, keys)
    requires p in tree && q in tree
    ensures Mapping(digest, prefix)(p) == Mapping(digest, prefix)(q) <==>
            p == q || OneIsCompacted(digest, p, q, Room(prefix, MAX_S3_KEY_BYTES))
  {
    CompactedMaps(digest, prefix, tree, keys, p);
    CompactedMaps(digest, prefix, tree, keys, q);
    WalkedCollideIff(digest, tree.Keys, p, q, Room(prefix, MAX_S3_KEY_BYTES));
  }

  lemma MappingApart(digest: Digest, prefix: string, tree: Tree, keys: map<string, string>, p: string, q: string)
    requires IsSourceTree(digest, tree) && IsKeys(Folder(prefix), CompactionMapper(digest, prefix), tree, keys)
    requires NoneCompacted(digest, prefix, tree) && p in tree && q in tree
    requires Mapping(digest, prefix)(p) == Mapping(digest, prefix)(q)
    ensures p == q
  {
    MappingCollidesIff(digest, prefix, tree, keys, p, q);
  }

  lemma MappingIsInjective(digest: Digest, prefix: string, tree: Tree, keys: map<string, string>)
    requires IsSourceTree(digest, tree) && IsKeys(Folder(prefix), CompactionMapper(digest, prefix), tree, keys)
    requires NoneCompacted(digest, prefix, tree)
    ensures Injective(Mapping(digest, prefix), tree.Keys)
  {
    var f := Mapping(digest, prefix);
    forall p, q | p in tree && q in tree && f(p) == f(q) ensures p == q {
      MappingApart(digest, prefix, tree, keys, p, q);
    }
  }

  lemma MappingCollides(digest: Digest, prefix: string, tree: Tree, keys: map<string, string>)
    requires IsSourceTree(digest, tree) && IsKeys(Folder(prefix), CompactionMapper(digest, prefix), tree, keys)
    requires !NoneCompacted(digest, prefix, tree)
    ensures !Injective(Mapping(digest, prefix), tree.Keys)
  {
    var p, q := SomeCompacted(digest, prefix, tree);
    MappingCollidesIff(digest, prefix, tree, keys, p, q);
  }

  /** There are as many mapped paths as files if and only if no file lies where another one is compacted to. */
  lemma MappedCount(digest: Digest, prefix: string, tree: Tree, keys: map<string, string>)
    requires IsSourceTree(digest, tree) && IsKeys(Folder(prefix), CompactionMapper(digest, prefix), tree, keys)
    ensures |Image(tree.Keys, Mapping(digest, prefix))| == |tree| <==> NoneCompacted(digest, prefix, tree)
  {
    if NoneCompacted(digest, prefix, tree) {
      MappingIsInjective(digest, prefix, tree, keys);
    } else {
      MappingCollides(digest, prefix, tree, keys);
    }
    ImageSizeIff(tree.Keys, Mapping(digest, prefix));
  }

  function Image(paths: set<string>, f: string -> string): set<string> {
    set path <- paths :: f(path)
  }

  lemma ImageSizeIff(paths: set<string>, f: string -> string)
    ensures |Image(paths, f)| == |paths| <==> Injective(f, paths)
  {
    if Injective(f, paths) {
      ImageSize(paths, f);
    } else {
      var p, q :| p in paths && q in paths && f(p) == f(q) && p != q;
      assert p in paths - {q};
      assert Image(paths, f) == Image(paths - {q}, f);
      ImageAtMost(paths - {q}, f);
    }
  }

  lemma {:induction false} ImageAtMost(paths: set<string>, f: string -> string)
    ensures |Image(paths, f)| <= |paths|
    decreases |paths|
  {
    if path :| path in paths {
      ImageAtMost(paths - {path}, f);
      assert Image(paths, f) == Image(paths - {path}, f) + {f(path)};
    } else {
      assert Image(paths, f) == {};
    }
  }

  lemma {:induction false} ImageSize(paths: set<string>, f: string -> string)
    requires Injective(f, paths)
    ensures |Image(paths, f)| == |paths|
    decreases |paths|
  {
    if path :| path in paths {
      ImageSize(paths - {path}, f);
      assert Image(paths, f) == Image(paths - {path}, f) + {f(path)};
    } else {
      assert Image(paths, f) == {};
    }
  }

  /**
    The worker's upload of an extraction, and the single-file reader after it: every
    file is then found, with its content, under the key that compact_storage_key gives.
   */
  method UploadExtraction(storage: S3Storage, digest: Digest, prefix: string, tree: Tree, faulty: nat -> bool)
    returns (result: PutResult)
    requires IsSourceTree(digest, tree)
    modifies storage
    ensures result.Stored? && NoneCompacted(digest, prefix, tree) ==>
              forall path <- tree :: FoundByKey(digest, prefix, storage.objects, path, tree[path])
    ensures result.Rejected? ==> storage.objects == old(storage.objects)
    ensures result.Rejected? <==>
            !forall path <- tree ::
              ByteLen(path) <= Room(prefix, MAX_S3_KEY_BYTES) || MARKER_BYTES < Room(prefix, MAX_S3_KEY_BYTES)
  {
    CompactionAcceptsIff(digest, prefix, tree);
    result := storage.PutTree(prefix, CompactionMapper(digest, prefix), tree, faulty);
    if result.Stored? && NoneCompacted(digest, prefix, tree) {
      ghost var keys := TheKeys(Folder(prefix), CompactionMapper(digest, prefix), tree);
      forall path <- tree ensures FoundByKey(digest, prefix, storage.objects, path, tree[path]) {
        StoredIsFound(digest, prefix, tree, keys, storage.objects, path);
      }
    }
  }

  ghost function TheKeys(folder: string, mapper: Mapper, tree: Tree): (keys: map<string, string>)
    requires AllKeysValid(folder, mapper, tree)
    ensures IsKeys(folder, mapper, tree, keys)
  {
    map path <- tree :: KeyOf(folder, mapper, path).value
  }

  /** The single-file reader finds the file, with this content. */
  ghost predicate FoundByKey(digest: Digest, prefix: string, objects: map<string, Bytes>, path: string, content: Bytes)
  {
    var key := CompactKey(digest, prefix, path, MAX_S3_KEY_BYTES);
    key.Ok? && key.value in objects && objects[key.value] == content
  }

  lemma StoredIsFound(digest: Digest, prefix: string, tree: Tree, keys: map<string, string>,
                      objects: map<string, Bytes>, path: string)
    requires IsSourceTree(digest, tree) && IsKeys(Folder(prefix), CompactionMapper(digest, prefix), tree, keys)
    requires NoneCompacted(digest, prefix, tree) && Uploaded(tree, keys, tree.Keys, objects) && path in tree
    ensures FoundByKey(digest, prefix, objects, path, tree[path])
  {
    CompactedKeys(digest, prefix, tree, keys);
    CompactedKey(digest, prefix, tree, keys, path);
    UploadedExactly(Folder(prefix), CompactionMapper(digest, prefix), tree, keys, objects, path);
  }

  // ---- Up and down again ----

  /** put_tree and get_tree in a row. */
  method PutAndGet(storage: S3Storage, prefix: string, mapper: Mapper, tree: Tree, faulty: nat -> bool)
    returns (result: PutResult, back: Tree, ghost keys: map<string, string>)
    modifies storage
    ensures IsBelow(storage.objects, Folder(prefix), back)
    ensures result.Rejected? ==> storage.objects == old(storage.objects)
    ensures !result.Rejected? ==>
      IsKeys(Folder(prefix), mapper, tree, keys) && FromTree(tree, keys, old(storage.objects), storage.objects)
    ensures result.Stored? ==> Uploaded(tree, keys, tree.Keys, storage.objects)
  {
    result := storage.PutTree(prefix, mapper, tree, faulty);
    keys := map[];
    if !result.Rejected? { keys := TheKeys(Folder(prefix), mapper, tree); }
    var count;
    back, count := storage.GetTree(prefix);
  }

  /** With no mapper the tree comes back whole, or none or some of it when not all was stored. */
  method PutAndGetUnmapped(storage: S3Storage, prefix: string, tree: Tree, faulty: nat -> bool)
    returns (result: PutResult, back: Tree)
    requires EmptyBelow(storage.objects, Folder(prefix)) && "" !in tree
    modifies storage
    ensures result.Stored? ==> back == tree
    ensures result.Rejected? ==> back == map[]
    ensures result.Failed? ==> forall path <- back :: path in tree && back[path] == tree[path]
  {
    ghost var before := storage.objects;
    ghost var keys;
    result, back, keys := PutAndGet(storage, prefix, Unmapped, tree, faulty);
    match result
    case Rejected => NothingBelow(before, Folder(prefix), back);
    case Failed => SomeComesBack(Folder(prefix), tree, keys, before, storage.objects, back);
    case Stored(_) => RoundTripUnmapped(Folder(prefix), tree, keys, before, storage.objects, back);
  }

  lemma NothingBelow(objects: map<string, Bytes>, folder: string, back: Tree)
    requires EmptyBelow(objects, folder) && IsBelow(objects, folder, back)
    ensures back == map[]
  {
    forall path ensures path !in back {
      assert folder <= folder + path;
    }
  }

  lemma SomeComesBack(folder: string, tree: Tree, keys: map<string, string>,
                      before: map<string, Bytes>, after: map<string, Bytes>, back: Tree)
    requires IsKeys(folder, Unmapped, tree, keys) && EmptyBelow(before, folder)
    requires FromTree(tree, keys, before, after) && IsBelow(after, folder, back)
    ensures forall path <- back :: path in tree && back[path] == tree[path]
  {
    forall path <- back ensures path in tree && back[path] == tree[path] {
      var key := folder + path;
      assert folder <= key && key[|folder|..] == path;
      assert Holds(tree, keys, key, after[key]);
      var source :| source in tree && source in keys && keys[source] == key && tree[source] == after[key];
      KeysStartWithFolder(folder, Unmapped, tree, keys, source);
    }
  }

  /** Each file is there at its compacted path, and there are as many. */
  ghost predicate ComesBack(digest: Digest, prefix: string, tree: Tree, back: Tree) {
    && |back| == |tree|
    && (forall path <- tree :: Mapped(digest, prefix, path) in back && back[Mapped(digest, prefix, path)] == tree[path])
  }

  /** With compaction the tree comes back at its compacted paths. */
  method PutAndGetCompacted(storage: S3Storage, digest: Digest, prefix: string, tree: Tree, faulty: nat -> bool)
    returns (result: PutResult, back: Tree)
    requires IsSourceTree(digest, tree) && NoneCompacted(digest, prefix, tree)
    requires EmptyBelow(storage.objects, Folder(prefix))
    modifies storage
    ensures result.Stored? ==> ComesBack(digest, prefix, tree, back)
    ensures result.Rejected? ==> back == map[]
  {
    ghost var before := storage.objects;
    ghost var keys;
    result, back, keys := PutAndGet(storage, prefix, CompactionMapper(digest, prefix), tree, faulty);
    match result
    case Rejected => NothingBelow(before, Folder(prefix), back);
    case Failed =>
    case Stored(_) => CompactedComesBack(digest, prefix, tree, keys, before, storage.objects, back);
  }

  lemma CompactedComesBack(digest: Digest, prefix: string, tree: Tree, keys: map<string, string>,
                           before: map<string, Bytes>, after: map<string, Bytes>, back: Tree)
    requires IsSourceTree(digest, tree) && IsKeys(Folder(prefix), CompactionMapper(digest, prefix), tree, keys)
    requires NoneCompacted(digest, prefix, tree) && EmptyBelow(before, Folder(prefix))
    requires FromTree(tree, keys, before, after) && Uploaded(tree, keys, tree.Keys, after)
             && IsBelow(after, Folder(prefix), back)
    ensures ComesBack(digest, prefix, tree, back)
  {
    RoundTripCompacted(digest, prefix, tree, keys, before, after, back);
    AsManyComeBack(digest, prefix, tree, keys, back);
  }

  lemma AsManyComeBack(digest: Digest, prefix: string, tree: Tree, keys: map<string, string>, back: Tree)
    requires IsSourceTree(digest, tree) && IsKeys(Folder(prefix), CompactionMapper(digest, prefix), tree, keys)
    requires NoneCompacted(digest, prefix, tree)
    requires forall path <- tree :: Mapped(digest, prefix, path) in back
    requires forall mapped <- back :: exists path :: path in tree && Mapped(digest, prefix, path) == mapped
    ensures |back| == |tree|
  {
    var f := Mapping(digest, prefix);
    assert back.Keys == Image(tree.Keys, f) by {
      forall mapped <- back ensures mapped in Image(tree.Keys, f) {
        var path :| path in tree && Mapped(digest, prefix, path) == mapped;
        assert f(path) == mapped;
      }
    }
    MappedCount(digest, prefix, tree, keys);
    assert |back| == |back.Keys|;
  }
}
