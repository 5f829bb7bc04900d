/**
 * The bookkeeping of the batch summarisation job: `summarize_texts_in_batch` and
 * `parallel_summarize`.
 *
 * The summarisation model is a parameter: a function of (text, max_length,
 * min_length) that gives the summary, or None where the model raises.  The word
 * count `len(text.split())` is a parameter too.  What is modelled is the slicing of
 * the texts into consecutive batches, the per-text length limits, the order of the
 * results and what an exception leaves behind.  The thread pool of
 * `parallel_summarize` is modelled sequentially: its results are collected in
 * submission order whatever order the batches finish in.
 */
module Summarization {
  import opened Wrappers

  /** `summarizer(text, max_length=…, min_length=…)`; None where it raises. */
  type Summarizer = (string, int, int) -> Option<string>

  /** `len(text.split())`. */
  type WordCount = string -> nat

  /** The placeholder written for texts of a failed run. */
  const ErrorText := "Error"

  /** `max(20, int(words * 0.5))`. */
  function MaxLength(words: nat): int {
    if words / 2 > 20 then words / 2 else 20
  }

  /** `max(10, int(words * 0.3))`. */
  function MinLength(words: nat): int {
    if (3 * words) / 10 > 10 then (3 * words) / 10 else 10
  }

  /** The limits never fall below their floors, and the minimum stays below the maximum. */
  lemma LengthLimits(words: nat)
    ensures MaxLength(words) >= 20 && MaxLength(words) >= words / 2
    ensures MinLength(words) >= 10 && MinLength(words) >= (3 * words) / 10
    ensures MinLength(words) < MaxLength(words)
  {
    if (3 * words) / 10 > 10 {
      assert (3 * words) / 10 < words / 2;
    }
  }

  /** The model's output for one text with the limits its word count gives. */
  function SummaryOf(summarize: Summarizer, wordCount: WordCount, text: string): Option<string> {
    var words := wordCount(text);
    summarize(text, MaxLength(words), MinLength(words))
  }

  predicate Succeeds(summarize: Summarizer, wordCount: WordCount, text: string) {
    SummaryOf(summarize, wordCount, text).Some?
  }

  /** The index of the first text the model raises on. */
  function FirstFailure(summarize: Summarizer, wordCount: WordCount, texts: seq<string>): (r: Option<nat>)
    ensures r.Some? ==> r.value < |texts|
  {
    if texts == [] then None
    else if !Succeeds(summarize, wordCount, texts[0]) then Some(0)
    else match FirstFailure(summarize, wordCount, texts[1..])
      case None => None
      case Some(k) => Some(k + 1)
  }

  /** There is no failure exactly when every text succeeds; otherwise it is the first text that fails. */
  lemma {:induction false} FirstFailureSpec(summarize: Summarizer, wordCount: WordCount, texts: seq<string>)
    ensures var r := FirstFailure(summarize, wordCount, texts);
      r.None? <==> forall k :: 0 <= k < |texts| ==> Succeeds(summarize, wordCount, texts[k])
    ensures var r := FirstFailure(summarize, wordCount, texts);
      r.Some? ==>
        !Succeeds(summarize, wordCount, texts[r.value])
        && forall k :: 0 <= k < r.value ==> Succeeds(summarize, wordCount, texts[k])
  {
    if texts != [] && Succeeds(summarize, wordCount, texts[0]) {
      FirstFailureSpec(summarize, wordCount, texts[1..]);
      assert forall k :: 0 <= k < |texts| - 1 ==> texts[1..][k] == texts[k + 1];
    }
  }

  /**
   * The model's outputs for the texts, in order.  It is only taken of texts none of which
   * the model raises on; one that it raised on would contribute nothing.
   */
  function Summaries(summarize: Summarizer, wordCount: WordCount, texts: seq<string>): seq<string> {
    if texts == [] then []
    else
      var first := match SummaryOf(summarize, wordCount, texts[0]) case Some(s) => [s] case None => [];
      first + Summaries(summarize, wordCount, texts[1..])
  }

  /** For texts the model does not raise on: one summary per text, in order, each the model's output. */
  lemma {:induction false} SummariesSpec(summarize: Summarizer, wordCount: WordCount, texts: seq<string>)
    requires forall k :: 0 <= k < |texts| ==> Succeeds(summarize, wordCount, texts[k])
    ensures |Summaries(summarize, wordCount, texts)| == |texts|
    ensures forall k :: 0 <= k < |texts| ==>
      SummaryOf(summarize, wordCount, texts[k]) == Some(Summaries(summarize, wordCount, texts)[k])
  {
    if texts != [] {
      assert Succeeds(summarize, wordCount, texts[0]);
      assert forall k :: 0 <= k < |texts| - 1 ==> texts[1..][k] == texts[k + 1];
      SummariesSpec(summarize, wordCount, texts[1..]);
    }
  }

  function Errors(n: nat): seq<string> {
    seq(n, _ => ErrorText)
  }

  /**
   * What `summarize_texts_in_batch(texts, batch_size)` returns.  A zero batch size
   * makes `range` raise inside the `try`; a negative one makes the range empty.
   * When the model raises on text k, the batch holding k is dropped with whatever it
   * had produced, the batches before it are kept, and `len(texts)` placeholders follow.
   */
  function BatchOutcome(summarize: Summarizer, wordCount: WordCount, texts: seq<string>, batchSize: int): seq<string> {
    if batchSize == 0 then Errors(|texts|)
    else if batchSize < 0 then []
    else match FirstFailure(summarize, wordCount, texts)
      case None => Summaries(summarize, wordCount, texts)
      case Some(k) => Summaries(summarize, wordCount, texts[..CompletedCount(k, batchSize)]) + Errors(|texts|)
  }

  /** The texts before a first failure all succeed, also as a slice. */
  lemma PrefixSucceeds(summarize: Summarizer, wordCount: WordCount, texts: seq<string>, n: nat)
    requires n <= |texts| && forall j :: 0 <= j < n ==> Succeeds(summarize, wordCount, texts[j])
    ensures forall j :: 0 <= j < n ==> Succeeds(summarize, wordCount, texts[..n][j])
  {
    assert forall j :: 0 <= j < n ==> texts[..n][j] == texts[j];
  }

  function Min(a: int, b: int): int {
    if a <= b then a else b
  }

  lemma {:induction false} MulMonotone(x: int, y: int, c: nat)
    requires x <= y
    ensures x * c <= y * c
    decreases y - x
  {
    if x < y {
      MulMonotone(x + 1, y, c);
      assert (x + 1) * c == x * c + c;
    }
  }

  /** A multiple of the batch size within one batch below k is the start of k's batch. */
  lemma BatchStart(k: nat, batches: nat, batchSize: nat)
    requires batchSize > 0 && batches * batchSize <= k < batches * batchSize + batchSize
    ensures CompletedCount(k, batchSize) == batches * batchSize
  {
    DivUnique(k, batchSize, batches, k - batches * batchSize);
  }

  /** Summaries are the only sequence that has, at each position, the model's output for that text. */
  lemma SummariesUnique(summarize: Summarizer, wordCount: WordCount, texts: seq<string>, r: seq<string>)
    requires |r| == |texts|
    requires forall k :: 0 <= k < |texts| ==> SummaryOf(summarize, wordCount, texts[k]) == Some(r[k])
    ensures forall k :: 0 <= k < |texts| ==> Succeeds(summarize, wordCount, texts[k])
    ensures r == Summaries(summarize, wordCount, texts)
  {
    assert forall k :: 0 <= k < |texts| ==> Succeeds(summarize, wordCount, texts[k]);
    SummariesSpec(summarize, wordCount, texts);
    var s := Summaries(summarize, wordCount, texts);
    assert forall k :: 0 <= k < |texts| ==> Some(r[k]) == Some(s[k]);
  }

  /** The outcome when the model first raises on text k, inside the batch starting at i. */
  lemma OutcomeOnFailure(summarize: Summarizer, wordCount: WordCount, texts: seq<string>, batchSize: int,
                         batches: nat, k: nat, summaries: seq<string>)
    requires batchSize > 0 && batches * batchSize <= k < batches * batchSize + batchSize
    requires FirstFailure(summarize, wordCount, texts) == Some(k)
    requires |summaries| == batches * batchSize
    requires SummarizedPrefix(summarize, wordCount, texts, summaries)
    ensures summaries + Errors(|texts|) == BatchOutcome(summarize, wordCount, texts, batchSize)
  {
    BatchStart(k, batches, batchSize);
    SummariesUnique(summarize, wordCount, texts[..batches * batchSize], summaries);
  }

  /** The outcome when the model never raises. */
  lemma OutcomeWithoutFailure(summarize: Summarizer, wordCount: WordCount, texts: seq<string>, batchSize: int,
                              summaries: seq<string>)
    requires batchSize > 0 && |summaries| == |texts|
    requires SummarizedPrefix(summarize, wordCount, texts, summaries)
    ensures summaries == BatchOutcome(summarize, wordCount, texts, batchSize)
  {
    SummariesUnique(summarize, wordCount, texts, summaries);
    FirstFailureSpec(summarize, wordCount, texts);
  }

  /** A text the model raises on, after texts it does not raise on, is the first failure. */
  lemma FirstFailureAt(summarize: Summarizer, wordCount: WordCount, texts: seq<string>, k: nat)
    requires k < |texts| && !Succeeds(summarize, wordCount, texts[k])
    requires forall j :: 0 <= j < k ==> Succeeds(summarize, wordCount, texts[j])
    ensures FirstFailure(summarize, wordCount, texts) == Some(k)
  {
    FirstFailureSpec(summarize, wordCount, texts);
    var v := FirstFailure(summarize, wordCount, texts).value;
    assert !(v < k) && !(v > k);
  }

  /**
   * The inner loop of `summarize_texts_in_batch` over one batch: the summaries of all
   * its texts, or None when the model raises on one of them.
   */
  method SummarizeBatch(summarize: Summarizer, wordCount: WordCount, batch: seq<string>)
    returns (results: Option<seq<string>>, ghost failedAt: nat)
    ensures results.None? ==> failedAt < |batch| && !Succeeds(summarize, wordCount, batch[failedAt])
    ensures results.None? ==> forall j :: 0 <= j < failedAt ==> Succeeds(summarize, wordCount, batch[j])
    ensures results.Some? ==> forall j :: 0 <= j < |batch| ==> Succeeds(summarize, wordCount, batch[j])
    ensures results.Some? ==> results.value == Summaries(summarize, wordCount, batch)
  {
    var maxLengths := seq(|batch|, j requires 0 <= j < |batch| => MaxLength(wordCount(batch[j])));
    var minLengths := seq(|batch|, j requires 0 <= j < |batch| => MinLength(wordCount(batch[j])));
    var done := [];
    var idx := 0;
    while idx < |batch|
      invariant 0 <= idx <= |batch|
      invariant |done| == idx
      invariant forall k :: 0 <= k < idx ==> SummaryOf(summarize, wordCount, batch[k]) == Some(done[k])
    {
      var result := summarize(batch[idx], maxLengths[idx], minLengths[idx]);
      if result.None? {
        return None, idx;
      }
      done := done + [result.value];
      idx := idx + 1;
    }
    SummariesUnique(summarize, wordCount, batch, done);
    return Some(done), 0;
  }

  /** `out` holds, at each of its positions, the model's output for the text there. */
  ghost predicate SummarizedPrefix(summarize: Summarizer, wordCount: WordCount, texts: seq<string>, out: seq<string>) {
    |out| <= |texts| && forall k :: 0 <= k < |out| ==> SummaryOf(summarize, wordCount, texts[k]) == Some(out[k])
  }

  lemma ExtendPrefix(summarize: Summarizer, wordCount: WordCount, texts: seq<string>, out: seq<string>,
                     hi: nat, results: seq<string>)
    requires SummarizedPrefix(summarize, wordCount, texts, out) && |out| <= hi <= |texts|
    requires forall j :: 0 <= j < hi - |out| ==> Succeeds(summarize, wordCount, texts[|out|..hi][j])
    requires results == Summaries(summarize, wordCount, texts[|out|..hi])
    ensures SummarizedPrefix(summarize, wordCount, texts, out + results) && |out + results| == hi
  {
    var batch := texts[|out|..hi];
    SummariesSpec(summarize, wordCount, batch);
    assert forall k :: 0 <= k < |batch| ==> batch[k] == texts[|out| + k];
  }

  lemma FailureInBatchPosition(summarize: Summarizer, wordCount: WordCount, texts: seq<string>, out: seq<string>,
                       hi: nat, failedAt: nat)
    requires SummarizedPrefix(summarize, wordCount, texts, out) && |out| + failedAt < hi <= |texts|
    requires !Succeeds(summarize, wordCount, texts[|out|..hi][failedAt])
    requires forall j :: 0 <= j < failedAt ==> Succeeds(summarize, wordCount, texts[|out|..hi][j])
    ensures !Succeeds(summarize, wordCount, texts[|out| + failedAt])
    ensures forall j :: 0 <= j < |out| + failedAt ==> Succeeds(summarize, wordCount, texts[j])
  {
    var batch := texts[|out|..hi];
    assert forall j :: 0 <= j <= failedAt ==> batch[j] == texts[|out| + j];
  }

  lemma FirstFailureInBatch(summarize: Summarizer, wordCount: WordCount, texts: seq<string>, out: seq<string>,
                       hi: nat, failedAt: nat)
    requires SummarizedPrefix(summarize, wordCount, texts, out) && |out| + failedAt < hi <= |texts|
    requires !Succeeds(summarize, wordCount, texts[|out|..hi][failedAt])
    requires forall j :: 0 <= j < failedAt ==> Succeeds(summarize, wordCount, texts[|out|..hi][j])
    ensures FirstFailure(summarize, wordCount, texts) == Some(|out| + failedAt)
  {
    FailureInBatchPosition(summarize, wordCount, texts, out, hi, failedAt);
    FirstFailureAt(summarize, wordCount, texts, |out| + failedAt);
  }

  /** `summarize_texts_in_batch(texts, batch_size)`. */
  method SummarizeTextsInBatch(summarize: Summarizer, wordCount: WordCount, texts: seq<string>, batchSize: int)
    returns (summaries: seq<string>)
    ensures summaries == BatchOutcome(summarize, wordCount, texts, batchSize)
  {
    summaries := [];
    if batchSize == 0 {
      // range(0, len(texts), 0) raises ValueError, caught by the handler
      summaries := summaries + Errors(|texts|);
      return;
    }
    if batchSize < 0 {
      return;  // range(0, len(texts), negative) is empty
    }
    var i := 0;
    ghost var batches: nat := 0;
    var failed := false;
    while i < |texts| && !failed
      invariant |summaries| == i <= |texts|
      invariant i == batches * batchSize || i == |texts|
      invariant SummarizedPrefix(summarize, wordCount, texts, summaries)
      invariant failed ==> summaries + Errors(|texts|) == BatchOutcome(summarize, wordCount, texts, batchSize)
      decreases |texts| - i, if failed then 0 else 1
    {
      var hi := Min(i + batchSize, |texts|);
      var batch := texts[i..hi];
      var results, failedAt := SummarizeBatch(summarize, wordCount, batch);
      if results.None? {
        // the exception leaves the loop; the results of this batch are lost
        FirstFailureInBatch(summarize, wordCount, texts, summaries, hi, failedAt);
        OutcomeOnFailure(summarize, wordCount, texts, batchSize, batches, i + failedAt, summaries);
        failed := true;
      } else {
        ExtendPrefix(summarize, wordCount, texts, summaries, hi, results.value);
        summaries := summaries + results.value;
        assert (batches + 1) * batchSize == batches * batchSize + batchSize;
        i := hi;
        batches := batches + 1;
      }
    }
    if failed {
      // the handler appends len(texts) placeholders
      summaries := summaries + Errors(|texts|);
    } else {
      OutcomeWithoutFailure(summarize, wordCount, texts, batchSize, summaries);
    }
  }

  // ---------------------------------------------------------------------------
  // What summarize_texts_in_batch's result looks like
  // ---------------------------------------------------------------------------

  /** No texts, no result, whatever the batch size. */
  lemma NoTextsNoSummaries(summarize: Summarizer, wordCount: WordCount, batchSize: int)
    ensures BatchOutcome(summarize, wordCount, [], batchSize) == []
  {
  }

  /**
   * The length of the result.  Without a failure there is one summary per text.  After a
   * failure at text k the completed batches (a multiple of the batch size, covering
   * at most k texts and stopping less than one batch before k) are followed by one
   * placeholder per text of the whole input, so the result is longer than the input
   * as soon as the failure lies beyond the first batch.
   */
  lemma OutcomeLength(summarize: Summarizer, wordCount: WordCount, texts: seq<string>, batchSize: int)
    requires batchSize > 0
    ensures FirstFailure(summarize, wordCount, texts).None? ==>
      |BatchOutcome(summarize, wordCount, texts, batchSize)| == |texts|
    ensures FirstFailure(summarize, wordCount, texts).Some? ==>
      |BatchOutcome(summarize, wordCount, texts, batchSize)| - |texts| ==
      CompletedCount(FirstFailure(summarize, wordCount, texts).value, batchSize)
    ensures FirstFailure(summarize, wordCount, texts).Some? ==>
      (|BatchOutcome(summarize, wordCount, texts, batchSize)| > |texts| <==>
       FirstFailure(summarize, wordCount, texts).value >= batchSize)
    ensures FirstFailure(summarize, wordCount, texts).Some? ==>
      var c := CompletedCount(FirstFailure(summarize, wordCount, texts).value, batchSize);
      var out := BatchOutcome(summarize, wordCount, texts, batchSize);
      (forall j :: 0 <= j < c ==> SummaryOf(summarize, wordCount, texts[j]) == Some(out[j])) &&
      (forall j :: c <= j < |out| ==> out[j] == ErrorText)
  {
    var f := FirstFailure(summarize, wordCount, texts);
    FirstFailureSpec(summarize, wordCount, texts);
    if f.Some? {
      var c := CompletedCount(f.value, batchSize);
      PrefixSucceeds(summarize, wordCount, texts, c);
      SummariesSpec(summarize, wordCount, texts[..c]);
      assert forall j :: 0 <= j < c ==> texts[..c][j] == texts[j];
    } else {
      SummariesSpec(summarize, wordCount, texts);
    }
  }

  /**
   * `(k // b) * b`: the texts of the whole batches before text k, a multiple of the batch
   * size less than one batch below k; none exactly when k is in the first batch.
   */
  function CompletedCount(k: nat, b: nat): (c: nat)
    requires b > 0
    ensures c % b == 0 && c <= k < c + b && (c > 0 <==> k >= b)
  {
    var q := k / b;
    DivUnique(k, b, q, k % b);
    DivUnique(q * b, b, q, 0);
    if q >= 1 then
      MulMonotone(1, q, b);
      q * b
    else
      q * b
  }

  /** Euclidean division is determined by its quotient-remainder decomposition. */
  lemma DivUnique(x: int, b: nat, q: int, r: int)
    requires b > 0 && 0 <= r < b && x == q * b + r
    ensures x / b == q && x % b == r
  {
    var d := q - x / b;
    assert x == (x / b) * b + x % b;
    assert d * b == x % b - r by {
      assert d * b == q * b - (x / b) * b;
    }
    if d >= 1 {
      MulMonotone(1, d, b);
    } else if d <= -1 {
      MulMonotone(d, -1, b);
    }
  }

  // ---------------------------------------------------------------------------
  // parallel_summarize
  // ---------------------------------------------------------------------------

  /** The default `batch_size` of summarize_texts_in_batch, which parallel_summarize does not override. */
  const DefaultBatchSize := 10

  /** The consecutive slices of `batchSize` texts that are submitted, the last one possibly shorter. */
  function Chunks(texts: seq<string>, batchSize: nat): seq<seq<string>>
    requires batchSize > 0
    decreases |texts|
  {
    if texts == [] then []
    else if |texts| <= batchSize then [texts]
    else [texts[..batchSize]] + Chunks(texts[batchSize..], batchSize)
  }

  /** The head and the tail of a non-empty sequence with another one appended. */
  lemma DropAppend<T>(a: seq<T>, b: seq<T>)
    requires a != []
    ensures (a + b)[0] == a[0] && (a + b)[1..] == a[1..] + b
  {
  }

  /** Cutting a sequence at m and joining the halves gives it back. */
  lemma SplitJoin<T>(s: seq<T>, m: nat)
    requires m <= |s|
    ensures s[..m] + s[m..] == s
  {
  }

  function Flatten(parts: seq<seq<string>>): seq<string> {
    if parts == [] then [] else parts[0] + Flatten(parts[1..])
  }

  lemma {:induction false} FlattenAppend(a: seq<seq<string>>, b: seq<seq<string>>)
    ensures Flatten(a + b) == Flatten(a) + Flatten(b)
  {
    if a == [] {
      assert a + b == b;
    } else {
      DropAppend(a, b);
      calc {
        Flatten(a + b);
        a[0] + Flatten(a[1..] + b);
        { FlattenAppend(a[1..], b); }
        a[0] + (Flatten(a[1..]) + Flatten(b));
        (a[0] + Flatten(a[1..])) + Flatten(b);
      }
    }
  }

  /** The chunks, joined in order, are the texts. */
  lemma {:induction false} ChunksCover(texts: seq<string>, batchSize: nat)
    requires batchSize > 0
    ensures Flatten(Chunks(texts, batchSize)) == texts
    decreases |texts|
  {
    if |texts| > batchSize {
      var rest := texts[batchSize..];
      ChunksCover(rest, batchSize);
      var cs := Chunks(texts, batchSize);
      assert cs[0] == texts[..batchSize];
      assert cs[1..] == Chunks(rest, batchSize);
      assert texts == texts[..batchSize] + rest;
    } else if texts != [] {
      assert Flatten(Chunks(texts, batchSize)) == texts + Flatten([]);
    }
  }

  /** Each chunk is non-empty and holds at most a batch; only the last may be short. */
  lemma {:induction false} ChunkSizes(texts: seq<string>, batchSize: nat)
    requires batchSize > 0
    ensures forall j :: 0 <= j < |Chunks(texts, batchSize)| ==> 0 < |Chunks(texts, batchSize)[j]| <= batchSize
    ensures forall j :: 0 <= j < |Chunks(texts, batchSize)| - 1 ==> |Chunks(texts, batchSize)[j]| == batchSize
    decreases |texts|
  {
    if |texts| > batchSize {
      var rest := texts[batchSize..];
      ChunkSizes(rest, batchSize);
      var cs := Chunks(texts, batchSize);
      assert forall j :: 1 <= j < |cs| ==> cs[j] == Chunks(rest, batchSize)[j - 1];
    }
  }

  /** There are ceil(len(texts) / batchSize) chunks. */
  lemma {:induction false} ChunkCount(texts: seq<string>, batchSize: nat)
    requires batchSize > 0
    ensures |Chunks(texts, batchSize)| == (|texts| + batchSize - 1) / batchSize
    decreases |texts|
  {
    if |texts| > batchSize {
      var rest := texts[batchSize..];
      ChunkCount(rest, batchSize);
      var n := |rest| + batchSize - 1;
      DivUnique(n + batchSize, batchSize, n / batchSize + 1, n % batchSize);
    } else if texts != [] {
      DivUnique(|texts| + batchSize - 1, batchSize, 1, |texts| - 1);
    } else {
      DivUnique(batchSize - 1, batchSize, 0, batchSize - 1);
    }
  }

  /** The chunks from position i on: the one starting at i, then those after it. */
  lemma ChunksStep(texts: seq<string>, i: nat, batchSize: nat)
    requires batchSize > 0 && i < |texts|
    ensures Chunks(texts[i..], batchSize) ==
      [texts[i..Min(i + batchSize, |texts|)]] + Chunks(texts[Min(i + batchSize, |texts|)..], batchSize)
  {
    var hi := Min(i + batchSize, |texts|);
    if |texts| - i <= batchSize {
      assert texts[i..] == texts[i..hi];
      assert texts[hi..] == [];
    } else {
      assert texts[i..][..batchSize] == texts[i..hi];
      assert texts[i..][batchSize..] == texts[hi..];
    }
  }

  /** The results the futures deliver, in submission order. */
  function ChunkOutcomes(summarize: Summarizer, wordCount: WordCount, chunks: seq<seq<string>>): seq<seq<string>> {
    if chunks == [] then []
    else [BatchOutcome(summarize, wordCount, chunks[0], DefaultBatchSize)] + ChunkOutcomes(summarize, wordCount, chunks[1..])
  }

  /** Each chunk's result depends on that chunk alone: the results of joined chunk lists join. */
  lemma {:induction false} ChunkOutcomesAppend(summarize: Summarizer, wordCount: WordCount,
                                               a: seq<seq<string>>, b: seq<seq<string>>)
    ensures ChunkOutcomes(summarize, wordCount, a + b)
      == ChunkOutcomes(summarize, wordCount, a) + ChunkOutcomes(summarize, wordCount, b)
  {
    if a == [] {
      assert a + b == b;
    } else {
      DropAppend(a, b);
      var first := [BatchOutcome(summarize, wordCount, a[0], DefaultBatchSize)];
      calc {
        ChunkOutcomes(summarize, wordCount, a + b);
        first + ChunkOutcomes(summarize, wordCount, a[1..] + b);
        { ChunkOutcomesAppend(summarize, wordCount, a[1..], b); }
        first + (ChunkOutcomes(summarize, wordCount, a[1..]) + ChunkOutcomes(summarize, wordCount, b));
        (first + ChunkOutcomes(summarize, wordCount, a[1..])) + ChunkOutcomes(summarize, wordCount, b);
      }
    }
  }

  /**
   * What `parallel_summarize(texts, batch_size)` returns: Failure where it raises (a zero
   * batch size, outside any handler), otherwise the results of summarize_texts_in_batch on
   * each chunk, run with its default batch size, concatenated in submission order.
   */
  function ParallelOutcome(summarize: Summarizer, wordCount: WordCount, texts: seq<string>, batchSize: int)
    : Result<seq<string>, ()>
  {
    if batchSize == 0 then Failure(())
    else if batchSize < 0 then Success([])
    else Success(Flatten(ChunkOutcomes(summarize, wordCount, Chunks(texts, batchSize))))
  }

  /** Submitting the chunk at position i extends both the submitted chunks and the futures' results. */
  lemma SubmitStep(summarize: Summarizer, wordCount: WordCount, texts: seq<string>, batchSize: nat, i: nat,
                   submitted: seq<seq<string>>, futures: seq<seq<string>>)
    requires batchSize > 0 && i < |texts|
    requires Chunks(texts, batchSize) == submitted + Chunks(texts[i..], batchSize)
    requires futures == ChunkOutcomes(summarize, wordCount, submitted)
    ensures var hi := Min(i + batchSize, |texts|);
      Chunks(texts, batchSize) == (submitted + [texts[i..hi]]) + Chunks(texts[hi..], batchSize)
    ensures var hi := Min(i + batchSize, |texts|);
      futures + [BatchOutcome(summarize, wordCount, texts[i..hi], DefaultBatchSize)]
      == ChunkOutcomes(summarize, wordCount, submitted + [texts[i..hi]])
  {
    var hi := Min(i + batchSize, |texts|);
    ChunksStep(texts, i, batchSize);
    ChunkOutcomesAppend(summarize, wordCount, submitted, [texts[i..hi]]);
    assert submitted + ([texts[i..hi]] + Chunks(texts[hi..], batchSize))
      == (submitted + [texts[i..hi]]) + Chunks(texts[hi..], batchSize);
  }

  lemma CollectStep(futures: seq<seq<string>>, j: nat)
    requires j < |futures|
    ensures Flatten(futures[..j + 1]) == Flatten(futures[..j]) + futures[j]
  {
    FlattenAppend(futures[..j], [futures[j]]);
    assert futures[..j + 1] == futures[..j] + [futures[j]];
    assert Flatten([futures[j]]) == futures[j] + Flatten([]);
  }

  /** `parallel_summarize(texts, batch_size)`, with the pool's batches run one after another. */
  method ParallelSummarize(summarize: Summarizer, wordCount: WordCount, texts: seq<string>, batchSize: int)
    returns (r: Result<seq<string>, ()>)
    ensures r == ParallelOutcome(summarize, wordCount, texts, batchSize)
  {
    if batchSize == 0 {
      return Failure(());  // range(0, len(texts), 0) raises ValueError
    }
    if batchSize < 0 {
      return Success([]);  // no batch is submitted
    }
    // submission: one job per chunk, in order
    var futures: seq<seq<string>> := [];
    ghost var submitted: seq<seq<string>> := [];
    var i := 0;
    while i < |texts|
      invariant 0 <= i <= |texts|
      invariant Chunks(texts, batchSize) == submitted + Chunks(texts[i..], batchSize)
      invariant futures == ChunkOutcomes(summarize, wordCount, submitted)
      decreases |texts| - i
    {
      var hi := Min(i + batchSize, |texts|);
      var chunk := texts[i..hi];
      SubmitStep(summarize, wordCount, texts, batchSize, i, submitted, futures);
      var outcome := SummarizeTextsInBatch(summarize, wordCount, chunk, DefaultBatchSize);
      futures := futures + [outcome];
      submitted := submitted + [chunk];
      i := hi;
    }
    assert texts[i..] == [];
    assert futures == ChunkOutcomes(summarize, wordCount, Chunks(texts, batchSize)) by {
      assert Chunks(texts[i..], batchSize) == [];
      assert submitted + [] == submitted;
    }
    // collection: future.result() in submission order
    var summaries: seq<string> := [];
    var j := 0;
    while j < |futures|
      invariant 0 <= j <= |futures|
      invariant summaries == Flatten(futures[..j])
    {
      CollectStep(futures, j);
      summaries := summaries + futures[j];
      j := j + 1;
    }
    assert futures[..j] == futures;
    assert summaries == Flatten(ChunkOutcomes(summarize, wordCount, Chunks(texts, batchSize)));
    return Success(summaries);
  }

  // ---------------------------------------------------------------------------
  // What parallel_summarize's result looks like
  // ---------------------------------------------------------------------------

  /**
   * Submission order: the result is the first chunk's outcome followed by the result on
   * the texts after it.
   */
  lemma ParallelStep(summarize: Summarizer, wordCount: WordCount, texts: seq<string>, batchSize: int)
    requires batchSize > 0 && texts != []
    ensures var m := Min(batchSize, |texts|);
      ParallelOutcome(summarize, wordCount, texts, batchSize) ==
      Success(BatchOutcome(summarize, wordCount, texts[..m], DefaultBatchSize)
              + ParallelOutcome(summarize, wordCount, texts[m..], batchSize).value)
  {
    var m := Min(batchSize, |texts|);
    var cs := Chunks(texts, batchSize);
    assert cs[0] == texts[..m];
    if |texts| <= batchSize {
      assert texts[m..] == [];
      assert cs[1..] == [];
    } else {
      assert cs[1..] == Chunks(texts[m..], batchSize);
    }
    var outs := ChunkOutcomes(summarize, wordCount, cs);
    assert outs == [BatchOutcome(summarize, wordCount, cs[0], DefaultBatchSize)] + ChunkOutcomes(summarize, wordCount, cs[1..]);
    assert Flatten(outs) == outs[0] + Flatten(outs[1..]);
  }

  /** With no texts nothing is submitted, unless the batch size makes range raise. */
  lemma ParallelNoTexts(summarize: Summarizer, wordCount: WordCount, batchSize: int)
    ensures ParallelOutcome(summarize, wordCount, [], batchSize).Failure? <==> batchSize == 0
    ensures batchSize != 0 ==> ParallelOutcome(summarize, wordCount, [], batchSize) == Success([])
  {
  }

  /** Summaries of a concatenation are the concatenation of the summaries. */
  lemma {:induction false} SummariesAppend(summarize: Summarizer, wordCount: WordCount, a: seq<string>, b: seq<string>)
    ensures Summaries(summarize, wordCount, a + b) ==
      Summaries(summarize, wordCount, a) + Summaries(summarize, wordCount, b)
  {
    if a == [] {
      assert a + b == b;
    } else {
      DropAppend(a, b);
      var first := match SummaryOf(summarize, wordCount, a[0]) case Some(s) => [s] case None => [];
      calc {
        Summaries(summarize, wordCount, a + b);
        first + Summaries(summarize, wordCount, a[1..] + b);
        { SummariesAppend(summarize, wordCount, a[1..], b); }
        first + (Summaries(summarize, wordCount, a[1..]) + Summaries(summarize, wordCount, b));
        (first + Summaries(summarize, wordCount, a[1..])) + Summaries(summarize, wordCount, b);
      }
    }
  }

  lemma SucceedsSplit(summarize: Summarizer, wordCount: WordCount, texts: seq<string>, m: nat)
    requires m <= |texts|
    requires forall k :: 0 <= k < |texts| ==> Succeeds(summarize, wordCount, texts[k])
    ensures forall k :: 0 <= k < m ==> Succeeds(summarize, wordCount, texts[..m][k])
    ensures forall k :: 0 <= k < |texts| - m ==> Succeeds(summarize, wordCount, texts[m..][k])
  {
    assert forall k :: 0 <= k < m ==> texts[..m][k] == texts[k];
    assert forall k :: 0 <= k < |texts| - m ==> texts[m..][k] == texts[m + k];
  }

  /** When the model never raises, every text gets its summary, in input order. */
  lemma {:induction false} ParallelWithoutFailure(summarize: Summarizer, wordCount: WordCount, texts: seq<string>,
                                                  batchSize: int)
    requires batchSize > 0
    requires forall k :: 0 <= k < |texts| ==> Succeeds(summarize, wordCount, texts[k])
    ensures ParallelOutcome(summarize, wordCount, texts, batchSize) == Success(Summaries(summarize, wordCount, texts))
    decreases |texts|
  {
    if texts != [] {
      var m := Min(batchSize, |texts|);
      var head, tail := texts[..m], texts[m..];
      ParallelStep(summarize, wordCount, texts, batchSize);
      SucceedsSplit(summarize, wordCount, texts, m);
      ParallelWithoutFailure(summarize, wordCount, tail, batchSize);
      AllSucceedOutcome(summarize, wordCount, head, DefaultBatchSize);
      SummariesAppend(summarize, wordCount, head, tail);
      SplitJoin(texts, m);
      calc {
        ParallelOutcome(summarize, wordCount, texts, batchSize);
        Success(BatchOutcome(summarize, wordCount, head, DefaultBatchSize)
                + ParallelOutcome(summarize, wordCount, tail, batchSize).value);
        Success(Summaries(summarize, wordCount, head) + Summaries(summarize, wordCount, tail));
        Success(Summaries(summarize, wordCount, texts));
      }
    }
  }

  /** When the model never raises, a batch run gives the summaries. */
  lemma AllSucceedOutcome(summarize: Summarizer, wordCount: WordCount, texts: seq<string>, batchSize: int)
    requires batchSize > 0
    requires forall k :: 0 <= k < |texts| ==> Succeeds(summarize, wordCount, texts[k])
    ensures BatchOutcome(summarize, wordCount, texts, batchSize) == Summaries(summarize, wordCount, texts)
  {
    FirstFailureSpec(summarize, wordCount, texts);
  }

  /**
   * A chunk no larger than the default batch size is summarised in one inner batch: when
   * the model raises on any of its texts, all of them become placeholders.
   */
  lemma SmallChunkFailsWhole(summarize: Summarizer, wordCount: WordCount, chunk: seq<string>)
    requires |chunk| <= DefaultBatchSize
    requires FirstFailure(summarize, wordCount, chunk).Some?
    ensures BatchOutcome(summarize, wordCount, chunk, DefaultBatchSize) == Errors(|chunk|)
  {
    var k := FirstFailure(summarize, wordCount, chunk).value;
    assert k / DefaultBatchSize == 0;
    assert chunk[..0] == [];
  }

  /** A batch outcome is never shorter than its texts; it is as long when it fails in its first batch. */
  lemma OutcomeNotShorter(summarize: Summarizer, wordCount: WordCount, texts: seq<string>, batchSize: int)
    requires batchSize > 0
    ensures |BatchOutcome(summarize, wordCount, texts, batchSize)| >= |texts|
    ensures |texts| <= batchSize ==> |BatchOutcome(summarize, wordCount, texts, batchSize)| == |texts|
  {
    OutcomeLength(summarize, wordCount, texts, batchSize);
  }

  /**
   * The result of parallel_summarize is never shorter than its input, and with chunks no
   * larger than the default batch size it has exactly one entry per text.
   */
  lemma {:induction false} ParallelLength(summarize: Summarizer, wordCount: WordCount, texts: seq<string>,
                                          batchSize: int)
    requires batchSize > 0
    ensures |ParallelOutcome(summarize, wordCount, texts, batchSize).value| >= |texts|
    ensures batchSize <= DefaultBatchSize ==> |ParallelOutcome(summarize, wordCount, texts, batchSize).value| == |texts|
    decreases |texts|
  {
    if texts != [] {
      var m := Min(batchSize, |texts|);
      ParallelStep(summarize, wordCount, texts, batchSize);
      OutcomeNotShorter(summarize, wordCount, texts[..m], DefaultBatchSize);
      ParallelLength(summarize, wordCount, texts[m..], batchSize);
    }
  }
}
