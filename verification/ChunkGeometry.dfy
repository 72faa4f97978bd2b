/** How a file is cut into chunks and put together again: cli/arccli/client.py and myapp/services/chunked_upload.py. */
module ChunkGeometry {

  type Byte = b: int | 0 <= b < 256
  type Bytes = seq<Byte>
  type ChunkSize = n: nat | n > 0 witness 1

  /** The number of chunks: at least one, and the last may be short. */
  function Total(size: nat, chunkSize: ChunkSize): (total: nat)
    ensures total >= 1
  {
    if size == 0 then 1 else TotalCovers(size, chunkSize); (size + chunkSize - 1) / chunkSize
  }

  lemma TotalCovers(size: nat, chunkSize: ChunkSize)
    requires size > 0
    ensures var total := (size + chunkSize - 1) / chunkSize;
      total >= 1 && (total - 1) * chunkSize < size <= total * chunkSize
  {
    var total := (size + chunkSize - 1) / chunkSize;
    var rest := (size + chunkSize - 1) % chunkSize;
    assert size + chunkSize - 1 == total * chunkSize + rest;
    assert (total - 1) * chunkSize == total * chunkSize - chunkSize;
  }

  function Min(a: nat, b: nat): nat {
    if a < b then a else b
  }

  /** Where chunk `i` starts: after the chunks before it, and past the end at the end. */
  function Offset(size: nat, chunkSize: nat, i: nat): (offset: nat)
    ensures offset <= size
  {
    if i == 0 then 0 else Min(Offset(size, chunkSize, i - 1) + chunkSize, size)
  }

  /** The place a client seeks to. */
  lemma {:induction false} OffsetIs(size: nat, chunkSize: nat, i: nat)
    ensures Offset(size, chunkSize, i) == Min(i * chunkSize, size)
  {
    if i > 0 {
      OffsetIs(size, chunkSize, i - 1);
      assert i * chunkSize == (i - 1) * chunkSize + chunkSize;
    }
  }

  lemma NoLater(i: nat, last: nat, chunkSize: nat)
    requires i <= last
    ensures i * chunkSize <= last * chunkSize
  {
  }

  /** Every chunk of a file that is not empty has a byte. */
  lemma OffsetInside(size: nat, chunkSize: ChunkSize, i: nat)
    requires size > 0 && i < Total(size, chunkSize)
    ensures Offset(size, chunkSize, i) < size
  {
    OffsetIs(size, chunkSize, i);
    TotalCovers(size, chunkSize);
    NoLater(i, Total(size, chunkSize) - 1, chunkSize);
  }

  lemma LastOffset(size: nat, chunkSize: ChunkSize)
    ensures Offset(size, chunkSize, Total(size, chunkSize)) == size
  {
    OffsetIs(size, chunkSize, Total(size, chunkSize));
    if size > 0 { TotalCovers(size, chunkSize); }
  }

  /** What seeking to chunk `i` and reading one chunk gives. */
  function Slice(file: Bytes, chunkSize: nat, i: nat): Bytes {
    file[Offset(|file|, chunkSize, i)..Offset(|file|, chunkSize, i + 1)]
  }

  /** Chunks 0 up to `n`, one after another. */
  function Concat(chunks: map<nat, Bytes>, n: nat): Bytes
    requires forall i: nat | i < n :: i in chunks
  {
    if n == 0 then [] else Concat(chunks, n - 1) + chunks[n - 1]
  }

  lemma SliceExtends(file: Bytes, chunkSize: nat, i: nat)
    ensures file[..Offset(|file|, chunkSize, i)] + Slice(file, chunkSize, i) == file[..Offset(|file|, chunkSize, i + 1)]
  {
  }

  /** The chunks before `n` are the slices. */
  ghost predicate AreSlices(file: Bytes, chunkSize: nat, chunks: map<nat, Bytes>, n: nat) {
    forall i: nat | i < n :: i in chunks && chunks[i] == Slice(file, chunkSize, i)
  }

  lemma NextSlice(file: Bytes, chunkSize: nat, chunks: map<nat, Bytes>, n: nat)
    requires n > 0 && AreSlices(file, chunkSize, chunks, n)
    requires Concat(chunks, n - 1) == file[..Offset(|file|, chunkSize, n - 1)]
    ensures Concat(chunks, n) == file[..Offset(|file|, chunkSize, n)]
  {
    SliceExtends(file, chunkSize, n - 1);
  }

  lemma {:induction false} SlicesMakePrefix(file: Bytes, chunkSize: nat, chunks: map<nat, Bytes>, n: nat)
    requires AreSlices(file, chunkSize, chunks, n)
    ensures Concat(chunks, n) == file[..Offset(|file|, chunkSize, n)]
  {
    if n > 0 {
      SlicesMakePrefix(file, chunkSize, chunks, n - 1);
      NextSlice(file, chunkSize, chunks, n);
    }
  }

  /** Cutting and concatenating is the identity. */
  lemma SlicesMakeFile(file: Bytes, chunkSize: ChunkSize, chunks: map<nat, Bytes>)
    requires AreSlices(file, chunkSize, chunks, Total(|file|, chunkSize))
    ensures Concat(chunks, Total(|file|, chunkSize)) == file
  {
    SlicesMakePrefix(file, chunkSize, chunks, Total(|file|, chunkSize));
    LastOffset(|file|, chunkSize);
  }

  /** Two chunk sizes that give as many chunks cut a file alike only if they are equal or the file is one chunk. */
  lemma CutAlikeIff(file: Bytes, one: ChunkSize, other: ChunkSize)
    requires Total(|file|, one) == Total(|file|, other)
    ensures (forall i: nat | i < Total(|file|, one) :: Slice(file, one, i) == Slice(file, other, i)) <==>
            one == other || Total(|file|, one) == 1
  {
    var total := Total(|file|, one);
    if total == 1 {
      LastOffset(|file|, one);
      LastOffset(|file|, other);
    } else {
      FirstChunkIsFull(file, one);
      FirstChunkIsFull(file, other);
      if forall i: nat | i < total :: Slice(file, one, i) == Slice(file, other, i) {
        assert |Slice(file, one, 0)| == |Slice(file, other, 0)|;
      }
    }
  }

  lemma FirstChunkIsFull(file: Bytes, chunkSize: ChunkSize)
    requires Total(|file|, chunkSize) > 1
    ensures |Slice(file, chunkSize, 0)| == chunkSize
  {
    TotalCovers(|file|, chunkSize);
    var total := Total(|file|, chunkSize);
    assert total - 1 >= 1;
    assert (total - 1) * chunkSize >= chunkSize;
    assert Offset(|file|, chunkSize, 1) == Min(Offset(|file|, chunkSize, 0) + chunkSize, |file|);
  }

  // ---- The loops ----

  /**
    The upload loop: the chunks the server lacks, in order, read from their own
    place in the file.
   */
  method ChunksToSend(file: Bytes, chunkSize: ChunkSize, received: set<nat>) returns (sent: seq<(nat, Bytes)>)
    ensures forall c <- sent :: c.0 < Total(|file|, chunkSize) && c.0 !in received && c.1 == Slice(file, chunkSize, c.0)
    ensures forall i: nat | i < Total(|file|, chunkSize) && i !in received :: (i, Slice(file, chunkSize, i)) in sent
    ensures forall j, k | 0 <= j < k < |sent| :: sent[j].0 < sent[k].0
  {
    sent := [];
    var total := Total(|file|, chunkSize);
    for i := 0 to total
      invariant forall c <- sent :: c.0 < i && c.0 !in received && c.1 == Slice(file, chunkSize, c.0)
      invariant forall k: nat | k < i && k !in received :: (k, Slice(file, chunkSize, k)) in sent
      invariant forall j, k | 0 <= j < k < |sent| :: sent[j].0 < sent[k].0
    {
      if i !in received {
        OffsetIs(|file|, chunkSize, i);
        var from := Min(i * chunkSize, |file|);
        var data := file[from..Min(from + chunkSize, |file|)];
        assert data == Slice(file, chunkSize, i);
        assert forall j | 0 <= j < |sent| :: sent[j] in sent;
        sent := sent + [(i, data)];
      }
    }
  }

  datatype Assembly = Assembled(bytes: Bytes) | TooLarge

  lemma {:induction false} ConcatGrows(chunks: map<nat, Bytes>, m: nat, n: nat)
    requires m <= n && forall i: nat | i < n :: i in chunks
    ensures |Concat(chunks, m)| <= |Concat(chunks, n)|
    decreases n
  {
    if m < n { ConcatGrows(chunks, m, n - 1); }
  }

  /** assemble_to_storage: buffered copying with an authoritative size cap. */
  method AssembleToStorage(chunks: map<nat, Bytes>, total: nat, maxSize: nat, bufferSize: nat)
    returns (assembly: Assembly)
    requires bufferSize > 0 && forall i: nat | i < total :: i in chunks
    ensures assembly == if |Concat(chunks, total)| > maxSize then TooLarge else Assembled(Concat(chunks, total))
  {
    var spooled: Bytes := [];
    for i := 0 to total
      invariant spooled == Concat(chunks, i) && |spooled| <= maxSize
    {
      var chunk := chunks[i];
      var read := 0;
      assert Concat(chunks, i + 1) == Concat(chunks, i) + chunk;
      while read < |chunk|
        invariant read <= |chunk|
        invariant spooled == Concat(chunks, i) + chunk[..read] && |spooled| <= maxSize
      {
        var upto := Min(read + bufferSize, |chunk|);
        assert chunk[..read] + chunk[read..upto] == chunk[..upto];
        spooled := spooled + chunk[read..upto];
        read := upto;
        if |spooled| > maxSize {
          ConcatGrows(chunks, i + 1, total);
          return TooLarge;
        }
      }
      assert chunk[..read] == chunk;
    }
    assembly := Assembled(spooled);
  }
}
