/**
 * Download progress of a job (server.js:85-96): the response's content-length
 * is read once, the byte count grows with every chunk, and the percentage is
 * recomputed only when the length is a non-zero number.
 */
module Progress {
  import opened Wrappers

  /**
   * `Math.round(downloaded / total * 100)` for a positive total: the integer
   * nearest to `100 * downloaded / total`, halves rounded up.
   */
  function Percent(downloaded: nat, total: nat): nat
    requires total > 0
  {
    (200 * downloaded + total) / (2 * total)
  }

  /** `Percent` is `100 * downloaded / total` rounded to the nearest integer, halves up. */
  lemma PercentRounds(downloaded: nat, total: nat)
    requires total > 0
    ensures var p := Percent(downloaded, total);
      2 * total * p <= 200 * downloaded + total < 2 * total * (p + 1)
  {
  }

  /** `if (totalSize)`: `parseInt` of the header is neither `NaN` (absent) nor zero. */
  predicate SizeKnown(contentLength: Option<nat>) {
    contentLength.Some? && contentLength.value > 0
  }

  /**
   * The progress a job shows once `downloaded` bytes have arrived: the rounded
   * percentage when the size is known, otherwise the 0 it was given on start.
   */
  function ProgressAt(contentLength: Option<nat>, downloaded: nat): nat {
    if SizeKnown(contentLength) then Percent(downloaded, contentLength.value) else 0
  }

  /** Both sides of the rounding bracket the same value, so the result is the only such integer. */
  lemma PercentUnique(downloaded: nat, total: nat, p: int)
    requires total > 0
    requires 2 * total * p <= 200 * downloaded + total < 2 * total * (p + 1)
    ensures p == Percent(downloaded, total)
  {
    var r := Percent(downloaded, total);
    PercentRounds(downloaded, total);
    if p < r {
      MulLess(2 * total, p + 1, r);
    } else if r < p {
      MulLess(2 * total, r + 1, p);
    }
  }

  lemma MulLess(k: nat, a: int, b: int)
    requires k > 0 && a <= b
    ensures k * a <= k * b
  {
    assert k * b - k * a == k * (b - a);
  }

  /** More bytes never show a smaller percentage. */
  lemma PercentMonotone(d1: nat, d2: nat, total: nat)
    requires total > 0 && d1 <= d2
    ensures Percent(d1, total) <= Percent(d2, total)
  {
    var p1, p2 := Percent(d1, total), Percent(d2, total);
    PercentRounds(d1, total);
    PercentRounds(d2, total);
    if p2 < p1 {
      MulLess(2 * total, p2 + 1, p1);
    }
  }

  /** No bytes show 0%, all of them 100%. */
  lemma PercentEnds(total: nat)
    requires total > 0
    ensures Percent(0, total) == 0
    ensures Percent(total, total) == 100
  {
    PercentUnique(0, total, 0);
    PercentUnique(total, total, 100);
  }

  /** While no more than the announced length has arrived, the percentage stays within 0..100. */
  lemma PercentAtMost100(downloaded: nat, total: nat)
    requires 0 < total && downloaded <= total
    ensures Percent(downloaded, total) <= 100
  {
    PercentMonotone(downloaded, total, total);
    PercentEnds(total);
  }

  /** Nothing caps the percentage: twice the announced length shows 200%. */
  lemma PercentUnbounded(total: nat)
    requires total > 0
    ensures Percent(2 * total, total) == 200
  {
    PercentUnique(2 * total, total, 200);
  }

  /** The shown progress never decreases as bytes arrive, whatever the header said. */
  lemma ProgressMonotone(contentLength: Option<nat>, d1: nat, d2: nat)
    requires d1 <= d2
    ensures ProgressAt(contentLength, d1) <= ProgressAt(contentLength, d2)
  {
    if SizeKnown(contentLength) {
      PercentMonotone(d1, d2, contentLength.value);
    }
  }

  /** Without a usable content-length the progress stays at 0 however many bytes arrive. */
  lemma ProgressUnknownSize(contentLength: Option<nat>, downloaded: nat)
    requires !SizeKnown(contentLength)
    ensures ProgressAt(contentLength, downloaded) == 0
  {
  }

  /**
   * A standalone account of one download, independent of the registry: the
   * running byte count (`downloadedSize`, server.js:92) after a sequence of chunks.
   */
  function Received(chunks: seq<nat>): nat {
    if chunks == [] then 0 else Received(chunks[..|chunks| - 1]) + chunks[|chunks| - 1]
  }

  /** The progress values a poller could observe, one after each chunk. */
  function ProgressTrace(contentLength: Option<nat>, chunks: seq<nat>): (t: seq<nat>)
    ensures |t| == |chunks|
  {
    if chunks == [] then []
    else ProgressTrace(contentLength, chunks[..|chunks| - 1]) + [ProgressAt(contentLength, Received(chunks))]
  }

  lemma {:induction false} ReceivedPrefix(chunks: seq<nat>, k: nat)
    requires k <= |chunks|
    ensures Received(chunks[..k]) <= Received(chunks)
    decreases |chunks|
  {
    if k < |chunks| {
      var init := chunks[..|chunks| - 1];
      assert chunks[..k] == init[..k];
      ReceivedPrefix(init, k);
    } else {
      assert chunks[..k] == chunks;
    }
  }

  lemma {:induction false} ProgressTraceAt(contentLength: Option<nat>, chunks: seq<nat>, i: nat)
    requires i < |chunks|
    ensures ProgressTrace(contentLength, chunks)[i] == ProgressAt(contentLength, Received(chunks[..i + 1]))
    decreases |chunks|
  {
    var init := chunks[..|chunks| - 1];
    if i < |chunks| - 1 {
      ProgressTraceAt(contentLength, init, i);
      assert init[..i + 1] == chunks[..i + 1];
    } else {
      assert chunks[..i + 1] == chunks;
    }
  }

  /** Across any sequence of chunks the observed progress is sorted. */
  lemma ProgressTraceSorted(contentLength: Option<nat>, chunks: seq<nat>, i: nat, j: nat)
    requires i <= j < |chunks|
    ensures ProgressTrace(contentLength, chunks)[i] <= ProgressTrace(contentLength, chunks)[j]
  {
    ProgressTraceAt(contentLength, chunks, i);
    ProgressTraceAt(contentLength, chunks, j);
    var upToJ := chunks[..j + 1];
    ReceivedPrefix(upToJ, i + 1);
    assert upToJ[..i + 1] == chunks[..i + 1];
    ProgressMonotone(contentLength, Received(chunks[..i + 1]), Received(upToJ));
  }
}
