/**
  `ProgressContent` of `util/Progress.kt`: the download progress record and its
  two updates. `progress` is kept as an exact ratio; the source's `Float`
  rounding is not modelled.
 */
module Progress {
  import opened Kotlin

  datatype ProgressContent = ProgressContent(progress: real, bytesWritten: Long, contentLength: Long)

  /** A new record: all three fields are zero. */
  const INITIAL := ProgressContent(0.0, 0, 0)

  /** `total.coerceAtLeast(1)`. */
  function CoerceAtLeastOne(total: Long): (r: Long)
    ensures r >= 1 && r >= total
    ensures total >= 1 ==> r == total
    ensures total < 1 ==> r == 1
  {
    if total < 1 then 1 else total
  }

  /**
    `updateProgress(written, total)`: the written count is overwritten, the
    length is clamped to at least one, and the ratio is recomputed from the two
    new fields, so the division is never by zero.
   */
  function UpdateProgress(p: ProgressContent, written: Long, total: Long): (r: ProgressContent)
    ensures r.bytesWritten == written
    ensures r.contentLength >= 1 && (total >= 1 ==> r.contentLength == total) && (total < 1 ==> r.contentLength == 1)
    ensures r.progress == (written as real) / (r.contentLength as real)
  {
    var contentLength := CoerceAtLeastOne(total);
    ProgressContent((written as real) / (contentLength as real), written, contentLength)
  }

  /** `updateProgress()` with its default arguments: the record's own fields. */
  function Refresh(p: ProgressContent): (r: ProgressContent)
    ensures r.bytesWritten == p.bytesWritten
    ensures r.contentLength == CoerceAtLeastOne(p.contentLength)
    ensures r.progress == (p.bytesWritten as real) / (r.contentLength as real)
  {
    UpdateProgress(p, p.bytesWritten, p.contentLength)
  }

  /** `ktorListener(bytes, length)`: a download callback that overwrites both counts. */
  function KtorListener(p: ProgressContent, bytes: Long, length: Long): (r: ProgressContent)
    ensures r.bytesWritten == bytes && r.contentLength == CoerceAtLeastOne(length)
    ensures r.progress == (bytes as real) / (r.contentLength as real)
  {
    UpdateProgress(p, bytes, length)
  }

  /**
    `increaseBytesWritten(bytes, total)`: the written count grows by `bytes`
    with `Long` wrap-around, the length is clamped, and the ratio recomputed.
   */
  function IncreaseBytesWritten(p: ProgressContent, bytes: Long, total: Long): (r: ProgressContent)
    ensures r.bytesWritten == WrapLong(p.bytesWritten + bytes)
    ensures r.contentLength == CoerceAtLeastOne(total)
    ensures r.progress == (r.bytesWritten as real) / (r.contentLength as real)
  {
    var p := p.(bytesWritten := WrapLong(p.bytesWritten + bytes));
    var p := p.(contentLength := CoerceAtLeastOne(total));
    Refresh(p)
  }

  /** A refresh right after a refresh changes nothing. */
  lemma RefreshIdempotent(p: ProgressContent)
    ensures Refresh(Refresh(p)) == Refresh(p)
  {
  }

  /**
    An explicit update forgets the previous record entirely. This holds by
    definition: `UpdateProgress` overwrites every field it reads.
   */
  lemma UpdateForgetsPrevious(p: ProgressContent, q: ProgressContent, written: Long, total: Long)
    ensures UpdateProgress(p, written, total) == UpdateProgress(q, written, total)
  {
  }

  /**
    The listener has exactly the effect of `updateProgress` with the same
    arguments. This holds by definition: the listener is that one call.
   */
  lemma KtorListenerIsUpdate(p: ProgressContent, bytes: Long, length: Long)
    ensures KtorListener(p, bytes, length) == UpdateProgress(p, bytes, length)
  {
  }

  /** While the count stays within the length, the ratio stays within [0, 1]. */
  lemma ProgressBounded(p: ProgressContent, written: Long, total: Long)
    requires 0 <= written <= total
    ensures 0.0 <= UpdateProgress(p, written, total).progress <= 1.0
  {
    var r := UpdateProgress(p, written, total);
    RatioAtMostOne(written as real, r.contentLength as real);
  }

  lemma SelfRatio(x: real)
    requires x > 0.0
    ensures x / x == 1.0
  {
    assert x / x * x == 1.0 * x;
  }

  lemma RatioAtMostOne(x: real, c: real)
    requires 0.0 <= x <= c && c > 0.0
    ensures 0.0 <= x / c <= 1.0
  {
    assert x / c * c == x;
  }

  /** One chunk report of a download: bytes just written and the announced total. */
  datatype Chunk = Chunk(bytes: Long, total: Long)

  /** The record after `increaseBytesWritten` for each chunk in turn. */
  function ApplyChunks(p: ProgressContent, chunks: seq<Chunk>): ProgressContent
    decreases |chunks|
  {
    if |chunks| == 0 then p
    else ApplyChunks(IncreaseBytesWritten(p, chunks[0].bytes, chunks[0].total), chunks[1..])
  }

  /** The bytes the chunks report, summed without overflow. */
  function Sum(chunks: seq<Chunk>): int
    decreases |chunks|
  {
    if |chunks| == 0 then 0 else chunks[0].bytes + Sum(chunks[1..])
  }

  /**
    With non-negative chunk sizes and no overflow, the written count is the
    starting count plus all the chunks, and no step lowers it.
   */
  lemma {:induction false} ChunksAccumulate(p: ProgressContent, chunks: seq<Chunk>)
    requires forall i :: 0 <= i < |chunks| ==> chunks[i].bytes >= 0
    requires p.bytesWritten + Sum(chunks) <= LONG_MAX
    ensures ApplyChunks(p, chunks).bytesWritten == p.bytesWritten + Sum(chunks)
    ensures ApplyChunks(p, chunks).bytesWritten >= p.bytesWritten
    decreases |chunks|
  {
    if |chunks| > 0 {
      NonNegativeSum(chunks[1..]);
      var q := IncreaseBytesWritten(p, chunks[0].bytes, chunks[0].total);
      assert q.bytesWritten == p.bytesWritten + chunks[0].bytes;
      ChunksAccumulate(q, chunks[1..]);
    }
  }

  lemma {:induction false} NonNegativeSum(chunks: seq<Chunk>)
    requires forall i :: 0 <= i < |chunks| ==> chunks[i].bytes >= 0
    ensures Sum(chunks) >= 0
    decreases |chunks|
  {
    if |chunks| > 0 {
      NonNegativeSum(chunks[1..]);
    }
  }

  /**
    A download that starts from a new record and whose chunks add up to the
    announced total ends with the ratio exactly one.
   */
  lemma DownloadCompletes(chunks: seq<Chunk>, total: Long)
    requires |chunks| > 0 && total >= 1
    requires forall i :: 0 <= i < |chunks| ==> chunks[i].bytes >= 0 && chunks[i].total == total
    requires Sum(chunks) == total
    ensures ApplyChunks(INITIAL, chunks).progress == 1.0
  {
    ChunksAccumulate(INITIAL, chunks);
    LastLength(INITIAL, chunks, total);
    var r := ApplyChunks(INITIAL, chunks);
    assert r.bytesWritten == total;
    assert r.progress == (total as real) / (total as real);
    SelfRatio(total as real);
  }

  /** After at least one chunk, the length is the last announced total, clamped. */
  lemma {:induction false} LastLength(p: ProgressContent, chunks: seq<Chunk>, total: Long)
    requires |chunks| > 0 && total >= 1
    requires forall i :: 0 <= i < |chunks| ==> chunks[i].total == total
    ensures ApplyChunks(p, chunks).contentLength == total
    ensures var r := ApplyChunks(p, chunks); r.progress == (r.bytesWritten as real) / (total as real)
    decreases |chunks|
  {
    var q := IncreaseBytesWritten(p, chunks[0].bytes, chunks[0].total);
    if |chunks| > 1 {
      LastLength(q, chunks[1..], total);
    }
  }
}
