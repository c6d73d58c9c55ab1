/**
 * How `generateVideoTranscript` cuts a file into parts: a fixed chunk size, a count
 * rounded up, byte ranges `[start, end)` and a share of the total duration per part.
 */
module Chunking {

  /** Bytes per part: 10 MiB. */
  const ChunkSize: nat := 10 * 1024 * 1024

  /** Parts larger than this (2 MiB) are announced as uploads. */
  const InlineDataLimit: nat := 2 * 1024 * 1024

  /** `Math.ceil(size / CHUNK_SIZE)`: the fewest parts of `ChunkSize` bytes that cover the file. */
  function ChunkCount(size: nat): (n: nat)
    ensures n * ChunkSize >= size
    ensures n > 0 ==> (n - 1) * ChunkSize < size
  {
    (size + ChunkSize - 1) / ChunkSize
  }

  /** `start = i * CHUNK_SIZE`. */
  function ChunkStart(i: nat): nat
  {
    i * ChunkSize
  }

  /** `end = Math.min(start + CHUNK_SIZE, size)`. */
  function ChunkEnd(size: nat, i: nat): nat
  {
    if ChunkStart(i) + ChunkSize < size then ChunkStart(i) + ChunkSize else size
  }

  /** The byte count of part `i`, `chunkBlob.size`: never empty, full except possibly the last. */
  function ChunkLength(size: nat, i: nat): (len: nat)
    requires i < ChunkCount(size)
    ensures 0 < len <= ChunkSize
    ensures i + 1 < ChunkCount(size) ==> len == ChunkSize
    ensures i + 1 == ChunkCount(size) ==> len == size - ChunkStart(i)
  {
    ChunkEnd(size, i) - ChunkStart(i)
  }

  /** Whether part `i` takes the branch that announces an upload. */
  predicate IsUpload(size: nat, i: nat)
    requires i < ChunkCount(size)
  {
    ChunkLength(size, i) > InlineDataLimit
  }

  /** An empty file has no parts, and any other file has at least one. */
  lemma NoChunksIffEmpty(size: nat)
    ensures ChunkCount(size) == 0 <==> size == 0
  {
  }

  /** Every part but the last is full, so it is announced as an upload. */
  lemma FullChunksUpload(size: nat, i: nat)
    requires i + 1 < ChunkCount(size)
    ensures IsUpload(size, i)
  {
  }

  /**
   * The ranges partition `[0, size)`: the first starts at 0, each ends where the next
   * starts, the last ends at `size`, and none is empty.
   */
  lemma ChunksPartition(size: nat)
    requires size > 0
    ensures ChunkStart(0) == 0
    ensures ChunkEnd(size, ChunkCount(size) - 1) == size
    ensures forall i :: 0 <= i < ChunkCount(size) ==> ChunkStart(i) < ChunkEnd(size, i)
    ensures forall i :: 0 <= i && i + 1 < ChunkCount(size) ==> ChunkEnd(size, i) == ChunkStart(i + 1)
  {
    forall i | 0 <= i < ChunkCount(size) ensures ChunkStart(i) < ChunkEnd(size, i) {
      assert ChunkLength(size, i) > 0;
    }
  }

  /** Each byte of the file lies in exactly one part: part `b / ChunkSize`. */
  lemma ByteInOneChunk(size: nat, b: nat, i: nat)
    requires b < size && i < ChunkCount(size)
    ensures b / ChunkSize < ChunkCount(size)
    ensures ChunkStart(b / ChunkSize) <= b < ChunkEnd(size, b / ChunkSize)
    ensures ChunkStart(i) <= b < ChunkEnd(size, i) <==> i == b / ChunkSize
  {
    var j := b / ChunkSize;
    assert j * ChunkSize <= b < j * ChunkSize + ChunkSize;
  }

  /** The total length of the first `k` parts. */
  function CoveredLength(size: nat, k: nat): nat
    requires k <= ChunkCount(size)
  {
    if k == 0 then 0 else CoveredLength(size, k - 1) + ChunkLength(size, k - 1)
  }

  /** The first `k` parts cover `[0, ChunkEnd(k - 1))`, so all parts together cover the file. */
  lemma {:induction false} CoveredPrefix(size: nat, k: nat)
    requires k <= ChunkCount(size)
    ensures CoveredLength(size, k) == if k == 0 then 0 else ChunkEnd(size, k - 1)
    ensures k == ChunkCount(size) ==> CoveredLength(size, k) == size
  {
    if k > 0 {
      CoveredPrefix(size, k - 1);
      if k > 1 {
        assert ChunkEnd(size, k - 2) == ChunkStart(k - 1) by {
          assert ChunkLength(size, k - 2) == ChunkSize;
        }
      }
    }
  }

  /**
   * `(bytes / size) * totalDuration` when the total duration is known (positive), and 0
   * otherwise: the share of the duration that `bytes` of the file stand for.
   */
  function Share(size: nat, total: real, bytes: nat): real
    requires size > 0
  {
    if total > 0.0 then (bytes as real / size as real) * total else 0.0
  }

  /** `chunkDuration`: part `i`'s share, never negative and never more than the whole. */
  function ChunkDuration(size: nat, total: real, i: nat): (d: real)
    requires i < ChunkCount(size)
    ensures 0.0 <= d
    ensures total > 0.0 ==> d <= total
    ensures total <= 0.0 ==> d == 0.0
  {
    ShareBounds(size, total, ChunkLength(size, i));
    Share(size, total, ChunkLength(size, i))
  }

  lemma ShareBounds(size: nat, total: real, bytes: nat)
    requires 0 < size && bytes <= size
    ensures 0.0 <= Share(size, total, bytes)
    ensures total > 0.0 ==> Share(size, total, bytes) <= total
  {
    if total > 0.0 {
      var f := bytes as real / size as real;
      assert 0.0 <= f <= 1.0;
      assert f * total <= 1.0 * total;
    }
  }

  /** Shares add up: the share of `x` bytes and of `y` bytes is the share of `x + y` bytes. */
  lemma ShareAdd(size: nat, total: real, x: nat, y: nat)
    requires size > 0
    ensures Share(size, total, x) + Share(size, total, y) == Share(size, total, x + y)
  {
    if total > 0.0 {
      var s := size as real;
      assert (x as real) / s + (y as real) / s == (x + y) as real / s;
    }
  }

  /** `accumulatedTime` before part `k`: the durations of the parts before it, added in order. */
  function Offset(size: nat, total: real, k: nat): (t: real)
    requires k <= ChunkCount(size)
    ensures 0.0 <= t
  {
    if k == 0 then 0.0 else Offset(size, total, k - 1) + ChunkDuration(size, total, k - 1)
  }

  /** The offset is the share of the bytes the earlier parts cover. */
  lemma {:induction false} OffsetShare(size: nat, total: real, k: nat)
    requires size > 0 && k <= ChunkCount(size)
    ensures Offset(size, total, k) == Share(size, total, CoveredLength(size, k))
  {
    if k > 0 {
      OffsetShare(size, total, k - 1);
      ShareAdd(size, total, CoveredLength(size, k - 1), ChunkLength(size, k - 1));
    }
  }

  /** The offset never decreases from one part to the next, and never goes below 0. */
  lemma {:induction false} OffsetMonotone(size: nat, total: real, j: nat, k: nat)
    requires j <= k <= ChunkCount(size)
    ensures 0.0 <= Offset(size, total, j) <= Offset(size, total, k)
  {
    if j < k {
      OffsetMonotone(size, total, j, k - 1);
    } else if j > 0 {
      OffsetMonotone(size, total, 0, j);
    }
  }

  /** After the last part the offset is the whole known duration, or 0 when it is unknown. */
  lemma OffsetFinal(size: nat, total: real)
    requires size > 0
    ensures Offset(size, total, ChunkCount(size)) == if total > 0.0 then total else 0.0
  {
    OffsetShare(size, total, ChunkCount(size));
    CoveredPrefix(size, ChunkCount(size));
    ShareWhole(size, total);
  }

  /** The whole file's share is the whole duration. */
  lemma ShareWhole(size: nat, total: real)
    requires size > 0
    ensures Share(size, total, size) == if total > 0.0 then total else 0.0
  {
    assert size as real / size as real == 1.0;
  }
}
