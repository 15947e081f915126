/** Scoring a large prompt batch in contiguous chunks of at most
    max_parallel rows, each chunk's answers written back into a
    preallocated buffer at the chunk's own positions. */
module Chunks {
  import opened Oracles
  import opened Answers

  function Min(a: int, b: int): int
  {
    if a <= b then a else b
  }

  /** The first row of chunk c, i.e. c * maxParallel (see
      ChunkStartIsProduct); stated one chunk at a time so that each chunk
      visibly starts maxParallel rows after the previous one. */
  function ChunkStart(c: nat, maxParallel: nat): nat
  {
    if c == 0 then 0 else ChunkStart(c - 1, maxParallel) + maxParallel
  }

  /** One past the last row of chunk c: min((c + 1) * maxParallel, batch). */
  function ChunkEnd(batch: nat, maxParallel: nat, c: nat): int
  {
    Min(ChunkStart(c + 1, maxParallel), batch)
  }

  function ChunkLen(batch: nat, maxParallel: nat, c: nat): int
  {
    ChunkEnd(batch, maxParallel, c) - ChunkStart(c, maxParallel)
  }

  lemma {:induction false} ChunkStartIsProduct(c: nat, maxParallel: nat)
    ensures ChunkStart(c, maxParallel) == c * maxParallel
  {
    if c > 0 {
      ChunkStartIsProduct(c - 1, maxParallel);
    }
  }

  lemma {:induction false} ChunkStartMonotone(c: nat, d: nat, maxParallel: nat)
    requires c <= d
    ensures ChunkStart(c, maxParallel) <= ChunkStart(d, maxParallel)
    ensures maxParallel > 0 && c < d ==> ChunkStart(c, maxParallel) < ChunkStart(d, maxParallel)
  {
    if c < d {
      ChunkStartMonotone(c, d - 1, maxParallel);
    }
  }

  lemma MulMonotone(a: nat, b: nat, m: nat)
    requires a <= b
    ensures a * m <= b * m
  {
  }

  /** Euclidean division is determined by its quotient and remainder. */
  lemma DivModUnique(x: nat, m: nat, q: nat, s: nat)
    requires m > 0 && s < m && x == q * m + s
    ensures x / m == q && x % m == s
  {
    var q', s' := x / m, x % m;
    if q' < q {
      MulMonotone(q' + 1, q, m);
      assert false;
    } else if q < q' {
      MulMonotone(q + 1, q', m);
      assert false;
    }
  }

  /** The number of chunks of maxParallel rows needed to cover the batch,
      one chunk at a time; NumChunksIsCeiling shows it is
      ceil(batch / maxParallel). */
  function NumChunks(batch: nat, maxParallel: nat): (n: nat)
    requires maxParallel > 0
    ensures batch <= ChunkStart(n, maxParallel)
    ensures n == 0 || ChunkStart(n - 1, maxParallel) < batch
  {
    if batch == 0 then 0
    else if batch <= maxParallel then 1
    else 1 + NumChunks(batch - maxParallel, maxParallel)
  }

  lemma NumChunksIsCeiling(batch: nat, maxParallel: nat)
    requires maxParallel > 0
    ensures NumChunks(batch, maxParallel) == (batch + maxParallel - 1) / maxParallel
  {
    var n := NumChunks(batch, maxParallel);
    if n == 0 {
      DivModUnique(batch + maxParallel - 1, maxParallel, 0, maxParallel - 1);
    } else {
      ChunkStartIsProduct(n, maxParallel);
      ChunkStartIsProduct(n - 1, maxParallel);
      assert (n - 1) * maxParallel == n * maxParallel - maxParallel;
      DivModUnique(batch + maxParallel - 1, maxParallel, n, batch + maxParallel - 1 - n * maxParallel);
    }
  }

  /** The chunk that holds row `row`, counted one chunk at a time;
      ChunkIndexIsQuotient shows it is row / maxParallel. */
  function ChunkIndex(row: nat, maxParallel: nat): (c: nat)
    requires maxParallel > 0
    ensures ChunkStart(c, maxParallel) <= row < ChunkStart(c + 1, maxParallel)
  {
    if row < maxParallel then 0 else 1 + ChunkIndex(row - maxParallel, maxParallel)
  }

  /** The position of row `row` inside its chunk. */
  function ChunkOffset(row: nat, maxParallel: nat): (k: nat)
    requires maxParallel > 0
    ensures k < maxParallel
  {
    row - ChunkStart(ChunkIndex(row, maxParallel), maxParallel)
  }

  /** The chunk of a row is the quotient, and its offset the remainder, of
      the row by maxParallel. */
  lemma ChunkIndexIsQuotient(row: nat, maxParallel: nat)
    requires maxParallel > 0
    ensures ChunkIndex(row, maxParallel) == row / maxParallel
    ensures ChunkOffset(row, maxParallel) == row % maxParallel
  {
    var c := ChunkIndex(row, maxParallel);
    ChunkStartIsProduct(c, maxParallel);
    DivModUnique(row, maxParallel, c, row - c * maxParallel);
  }

  /** Every chunk is a non-empty range of at most maxParallel rows inside
      the batch; the first starts at 0, the last ends at the batch size,
      and each one starts where the previous one ends. An empty batch has
      no chunk. */
  lemma ChunksAreContiguous(batch: nat, maxParallel: nat)
    requires maxParallel > 0
    ensures NumChunks(batch, maxParallel) == 0 <==> batch == 0
    ensures forall c :: 0 <= c < NumChunks(batch, maxParallel) ==>
      && ChunkStart(c, maxParallel) < ChunkEnd(batch, maxParallel, c) <= batch
      && ChunkLen(batch, maxParallel, c) <= maxParallel
    ensures NumChunks(batch, maxParallel) > 0 ==>
      ChunkStart(0, maxParallel) == 0 && ChunkEnd(batch, maxParallel, NumChunks(batch, maxParallel) - 1) == batch
    ensures forall c :: 0 <= c && c + 1 < NumChunks(batch, maxParallel) ==>
      ChunkEnd(batch, maxParallel, c) == ChunkStart(c + 1, maxParallel)
  {
    var n := NumChunks(batch, maxParallel);
    forall c | 0 <= c < n
      ensures ChunkStart(c, maxParallel) < ChunkEnd(batch, maxParallel, c) <= batch
      ensures ChunkLen(batch, maxParallel, c) <= maxParallel
    {
      ChunkInBatch(batch, maxParallel, c);
    }
    forall c: nat | c + 1 < n
      ensures ChunkEnd(batch, maxParallel, c) == ChunkStart(c + 1, maxParallel)
    {
      ChunkStartMonotone(c + 1, n - 1, maxParallel);
    }
  }

  /** Each chunk is a non-empty range of rows of the batch. */
  lemma ChunkInBatch(batch: nat, maxParallel: nat, c: nat)
    requires maxParallel > 0 && c < NumChunks(batch, maxParallel)
    ensures ChunkStart(c, maxParallel) < ChunkEnd(batch, maxParallel, c) <= batch
  {
    ChunkStartMonotone(c, NumChunks(batch, maxParallel) - 1, maxParallel);
  }

  /** The chunks do not overlap: a row inside chunk c has chunk index c
      and sits at its distance from the chunk's start. */
  lemma OffsetInChunk(batch: nat, maxParallel: nat, c: nat, row: nat)
    requires maxParallel > 0
    requires ChunkStart(c, maxParallel) <= row < ChunkEnd(batch, maxParallel, c)
    ensures ChunkIndex(row, maxParallel) == c
    ensures ChunkOffset(row, maxParallel) == row - ChunkStart(c, maxParallel)
  {
    var k := ChunkIndex(row, maxParallel);
    if k < c {
      ChunkStartMonotone(k + 1, c, maxParallel);
    } else if c < k {
      ChunkStartMonotone(c + 1, k, maxParallel);
    }
  }

  /** A range that holds a row of the batch is one of the chunks. */
  lemma RowInChunk(batch: nat, maxParallel: nat, c: nat, row: nat)
    requires maxParallel > 0
    requires ChunkStart(c, maxParallel) <= row < ChunkEnd(batch, maxParallel, c)
    ensures c < NumChunks(batch, maxParallel)
  {
    var n := NumChunks(batch, maxParallel);
    if n <= c {
      ChunkStartMonotone(n, c, maxParallel);
    }
  }

  /** The chunks cover the batch: every row lies in the chunk its index
      names, and that chunk is one of the chunks. */
  lemma ChunksCoverBatch(batch: nat, maxParallel: nat, row: nat)
    requires maxParallel > 0 && row < batch
    ensures ChunkIndex(row, maxParallel) < NumChunks(batch, maxParallel)
    ensures ChunkStart(ChunkIndex(row, maxParallel), maxParallel) <= row < ChunkEnd(batch, maxParallel, ChunkIndex(row, maxParallel))
  {
    var q := ChunkIndex(row, maxParallel);
    var n := NumChunks(batch, maxParallel);
    if n <= q {
      ChunkStartMonotone(n, q, maxParallel);
    }
  }

  /** Whether every chunk's answer call passes the batch-size check when
      it receives all nq question rows. */
  predicate ChunksFit(batch: nat, maxParallel: nat, nq: nat)
    requires maxParallel > 0
  {
    forall c :: 0 <= c < NumChunks(batch, maxParallel) ==> BatchesMatch(ChunkLen(batch, maxParallel, c), nq)
  }

  /** With a single question row every chunk is scored against it. */
  lemma SingleQuestionFits(batch: nat, maxParallel: nat)
    requires maxParallel > 0
    ensures ChunksFit(batch, maxParallel, 1)
  {
    ChunksAreContiguous(batch, maxParallel);
  }

  /** With more than one question row and more than one chunk, every chunk
      must hold exactly as many rows as there are question rows: the chunk
      size equals the question count and divides the batch. */
  lemma MultiRowQuestionNeedsEqualChunks(batch: nat, maxParallel: nat, nq: nat)
    requires maxParallel > 0 && nq > 1 && NumChunks(batch, maxParallel) > 1
    requires ChunksFit(batch, maxParallel, nq)
    ensures nq == maxParallel && batch % maxParallel == 0
  {
    var n := NumChunks(batch, maxParallel);
    ChunksAreContiguous(batch, maxParallel);
    ChunkStartMonotone(1, n - 1, maxParallel);
    assert BatchesMatch(ChunkLen(batch, maxParallel, 0), nq);
    assert BatchesMatch(ChunkLen(batch, maxParallel, n - 1), nq);
    assert batch == ChunkStart(n, maxParallel);
    ChunkStartIsProduct(n, maxParallel);
    DivModUnique(batch, maxParallel, n, 0);
  }

  /** q whole chunks need exactly q chunks. */
  lemma {:induction false} NumChunksOfWholeChunks(q: nat, maxParallel: nat)
    requires maxParallel > 0
    ensures NumChunks(ChunkStart(q, maxParallel), maxParallel) == q
  {
    if q > 1 {
      NumChunksOfWholeChunks(q - 1, maxParallel);
      ChunkStartMonotone(0, q - 1, maxParallel);
    }
  }

  /** When max_parallel divides the batch, the last chunk ends exactly at
      the batch size. */
  lemma EqualChunksEndAtBatch(batch: nat, maxParallel: nat)
    requires maxParallel > 0 && batch % maxParallel == 0
    ensures ChunkStart(NumChunks(batch, maxParallel), maxParallel) == batch
  {
    var q := batch / maxParallel;
    assert batch == q * maxParallel;
    ChunkStartIsProduct(q, maxParallel);
    NumChunksOfWholeChunks(q, maxParallel);
  }

  /** Conversely, when the question count equals max_parallel and
      max_parallel divides the batch, every chunk holds exactly as many
      rows as there are question rows, so every chunk passes the
      batch-size check. */
  lemma EqualChunksFit(batch: nat, maxParallel: nat, nq: nat)
    requires maxParallel > 0 && nq == maxParallel && batch % maxParallel == 0
    ensures ChunksFit(batch, maxParallel, nq)
  {
    var n := NumChunks(batch, maxParallel);
    EqualChunksEndAtBatch(batch, maxParallel);
    forall c | 0 <= c < n
      ensures ChunkLen(batch, maxParallel, c) == nq
    {
      ChunkStartMonotone(c + 1, n, maxParallel);
    }
  }

  /** Row-aligned question batches larger than max_parallel: the whole
      batch passes the answer primitive's check, but the first chunk has
      max_parallel rows against more question rows, so the chunked call
      fails where the unchunked one succeeds. */
  lemma ChunkingRejectsRowAlignedQuestions(prompts: seq<seq<int>>, questions: seq<seq<int>>, model: LanguageModel, maxParallel: nat)
    requires 0 < maxParallel < |questions| == |prompts|
    ensures AnswerIds(prompts, questions, model).Success?
    ensures !ChunksFit(|prompts|, maxParallel, |questions|)
  {
    ChunksAreContiguous(|prompts|, maxParallel);
    assert ChunkLen(|prompts|, maxParallel, 0) == maxParallel;
  }

  /** Whether prompt row `row`, at its offset within its chunk,
      has a question row to be paired with when every chunk receives all
      the question rows. */
  predicate Paired(questions: seq<seq<int>>, maxParallel: nat, row: nat)
    requires maxParallel > 0
  {
    |questions| == 1 || ChunkOffset(row, maxParallel) < |questions|
  }

  /** The answer the chunked call gives for prompt row `row`: the
      prediction for that prompt followed by the question row at the same
      offset within its chunk. */
  function ChunkedAnswer(prompts: seq<seq<int>>, questions: seq<seq<int>>, model: LanguageModel, maxParallel: nat, row: nat): int
    requires maxParallel > 0 && row < |prompts| && Paired(questions, maxParallel, row)
  {
    model.predict(prompts[row] + QuestionRow(questions, ChunkOffset(row, maxParallel)))
  }

  /** What a successful answer call on prompt rows start .. end-1 returns:
      one answer per row, row start + k scored with question row k. */
  ghost predicate SliceAnswered(prompts: seq<seq<int>>, questions: seq<seq<int>>, model: LanguageModel,
                                start: nat, end: nat, answers: seq<int>)
    requires start <= end <= |prompts|
  {
    && |answers| == end - start
    && BatchesMatch(end - start, |questions|)
    && forall k :: 0 <= k < end - start ==>
         answers[k] == model.predict(prompts[start + k] + QuestionRow(questions, k))
  }

  lemma SliceAnswers(prompts: seq<seq<int>>, questions: seq<seq<int>>, model: LanguageModel,
                     start: nat, end: nat, answers: seq<int>)
    requires start <= end <= |prompts|
    requires AnswerIds(prompts[start..end], questions, model) == Success(answers)
    ensures SliceAnswered(prompts, questions, model, start, end, answers)
  {
    forall k | 0 <= k < end - start
      ensures answers[k] == model.predict(prompts[start + k] + QuestionRow(questions, k))
    {
      assert prompts[start..end][k] == prompts[start + k];
    }
  }

  /** `buffer` with the positions start .. start + |values| - 1 replaced by
      `values`. */
  function Spliced(buffer: seq<int>, start: nat, values: seq<int>): (after: seq<int>)
    requires start + |values| <= |buffer|
    ensures |after| == |buffer|
    ensures forall k :: 0 <= k < |buffer| ==>
      after[k] == if start <= k < start + |values| then values[k - start] else buffer[k]
  {
    buffer[..start] + values + buffer[start + |values|..]
  }

  /** The buffer after chunks 0 .. i-1 have been written: each of them
      passed the batch-size check and every row they cover holds its
      chunked answer. */
  ghost predicate ChunksWritten(prompts: seq<seq<int>>, questions: seq<seq<int>>, model: LanguageModel,
                                maxParallel: nat, i: nat, buffer: seq<int>)
    requires maxParallel > 0
  {
    && |buffer| == |prompts|
    && (forall c :: 0 <= c < i ==> BatchesMatch(ChunkLen(|prompts|, maxParallel, c), |questions|))
    && (forall row :: 0 <= row < Min(ChunkStart(i, maxParallel), |prompts|) ==>
          Paired(questions, maxParallel, row) && buffer[row] == ChunkedAnswer(prompts, questions, model, maxParallel, row))
  }

  /** Writing the answers of chunk i over its rows extends the written
      prefix by that chunk. */
  lemma ChunkWriteBack(prompts: seq<seq<int>>, questions: seq<seq<int>>, model: LanguageModel, maxParallel: nat,
                       i: nat, start: nat, end: nat, before: seq<int>, answers: seq<int>, after: seq<int>)
    requires maxParallel > 0
    requires start == ChunkStart(i, maxParallel) && end == ChunkEnd(|prompts|, maxParallel, i) && start <= end
    requires ChunksWritten(prompts, questions, model, maxParallel, i, before)
    requires SliceAnswered(prompts, questions, model, start, end, answers)
    requires end <= |before| && after == Spliced(before, start, answers)
    ensures ChunksWritten(prompts, questions, model, maxParallel, i + 1, after)
  {
    assert Min(ChunkStart(i, maxParallel), |prompts|) == start;
    assert Min(ChunkStart(i + 1, maxParallel), |prompts|) == end;
    forall row | 0 <= row < end
      ensures Paired(questions, maxParallel, row)
      ensures after[row] == ChunkedAnswer(prompts, questions, model, maxParallel, row)
    {
      if row < start {
        assert after[row] == before[row];
      } else {
        OffsetInChunk(|prompts|, maxParallel, i, row);
        assert after[row] == answers[row - start];
      }
    }
  }

  /** Chunk f is the first chunk that fails the batch-size check against
      nq question rows: every earlier chunk passes it. */
  predicate FirstFailingChunk(batch: nat, maxParallel: nat, nq: nat, f: nat)
    requires maxParallel > 0
  {
    && f < NumChunks(batch, maxParallel)
    && (forall c :: 0 <= c < f ==> BatchesMatch(ChunkLen(batch, maxParallel, c), nq))
    && !BatchesMatch(ChunkLen(batch, maxParallel, f), nq)
  }

  /** One iteration of the chunk loop: the answer call on chunk i either
      fails, and then the chunks do not fit, or its answers spliced over
      the chunk's rows extend the written prefix by chunk i. */
  lemma ChunkStep(prompts: seq<seq<int>>, questions: seq<seq<int>>, model: LanguageModel, maxParallel: nat,
                  i: nat, before: seq<int>, chunk: Result<seq<int>>)
    requires maxParallel > 0 && i < NumChunks(|prompts|, maxParallel)
    requires ChunksWritten(prompts, questions, model, maxParallel, i, before)
    requires ChunkStart(i, maxParallel) < ChunkEnd(|prompts|, maxParallel, i) <= |prompts|
    requires chunk == AnswerIds(prompts[ChunkStart(i, maxParallel)..ChunkEnd(|prompts|, maxParallel, i)], questions, model)
    ensures chunk.Failure? ==>
      && chunk.error == BatchSizeMismatch
      && FirstFailingChunk(|prompts|, maxParallel, |questions|, i)
      && !ChunksFit(|prompts|, maxParallel, |questions|)
    ensures chunk.Success? ==>
      && ChunkStart(i, maxParallel) + |chunk.value| <= |before|
      && ChunksWritten(prompts, questions, model, maxParallel, i + 1, Spliced(before, ChunkStart(i, maxParallel), chunk.value))
  {
    var start := ChunkStart(i, maxParallel);
    var end := ChunkEnd(|prompts|, maxParallel, i);
    if chunk.Failure? {
      assert !BatchesMatch(ChunkLen(|prompts|, maxParallel, i), |questions|);
    } else {
      SliceAnswers(prompts, questions, model, start, end, chunk.value);
      ChunkWriteBack(prompts, questions, model, maxParallel, i, start, end, before, chunk.value,
                     Spliced(before, start, chunk.value));
    }
  }

  /** Once every chunk has been written, every chunk passed the check and
      the buffer holds the chunked answer of every row. */
  lemma AllChunksWritten(prompts: seq<seq<int>>, questions: seq<seq<int>>, model: LanguageModel,
                         maxParallel: nat, buffer: seq<int>)
    requires maxParallel > 0
    requires ChunksWritten(prompts, questions, model, maxParallel, NumChunks(|prompts|, maxParallel), buffer)
    ensures ChunksFit(|prompts|, maxParallel, |questions|)
    ensures |buffer| == |prompts|
    ensures forall row :: 0 <= row < |prompts| ==>
      Paired(questions, maxParallel, row) && buffer[row] == ChunkedAnswer(prompts, questions, model, maxParallel, row)
  {
  }

  /** Slice assignment a[start : start + |values|] = values. */
  method WriteSlice(a: array<int>, start: nat, values: seq<int>)
    requires start + |values| <= a.Length
    modifies a
    ensures a[..] == Spliced(old(a[..]), start, values)
  {
    forall k | start <= k < start + |values| {
      a[k] := values[k - start];
    }
    assert a[..] == Spliced(old(a[..]), start, values);
  }

  /** The chunk loop: chunks are visited in order, each chunk's answers
      are written over its rows of the buffer, and the first chunk that
      fails the batch-size check ends the call with that failure. */
  method WriteChunks(prompts: seq<seq<int>>, questions: seq<seq<int>>, model: LanguageModel, maxParallel: nat,
                     answers: array<int>)
    returns (r: Result<seq<int>>, ghost calls: nat)
    requires maxParallel > 0 && answers.Length == |prompts|
    modifies answers
    ensures calls <= NumChunks(|prompts|, maxParallel)
    ensures r.Failure? ==>
      && r.error == BatchSizeMismatch
      && !ChunksFit(|prompts|, maxParallel, |questions|)
      && 0 < calls && FirstFailingChunk(|prompts|, maxParallel, |questions|, calls - 1)
    ensures r.Success? ==>
      && r.value == answers[..]
      && calls == NumChunks(|prompts|, maxParallel)
      && ChunksWritten(prompts, questions, model, maxParallel, NumChunks(|prompts|, maxParallel), r.value)
  {
    var batch := |prompts|;
    calls := 0;
    var numChunks := NumChunks(batch, maxParallel);
    for i := 0 to numChunks
      invariant calls == i
      invariant ChunksWritten(prompts, questions, model, maxParallel, i, answers[..])
    {
      var start := ChunkStart(i, maxParallel);
      var end := ChunkEnd(batch, maxParallel, i);
      ChunkInBatch(batch, maxParallel, i);
      var chunk := AnswerIds(prompts[start..end], questions, model);
      calls := calls + 1;
      ChunkStep(prompts, questions, model, maxParallel, i, answers[..], chunk);
      if chunk.Failure? {
        return Failure(chunk.error), calls;
      }
      WriteSlice(answers, start, chunk.value);
    }
    return Success(answers[..]), calls;
  }

  /** The chunked answer call. max_parallel == 0 divides by zero; a
      negative max_parallel gives a non-positive chunk count, so the loop
      does not run and the zero-filled buffer is returned. Otherwise the
      call succeeds exactly when every chunk passes the batch-size check;
      a failure is raised by the first chunk that fails it, after one call
      per chunk up to and including that one. On success row `row` of the result is the prediction for prompt `row`
      followed by the question row at the offset of `row` within its chunk
      (row % maxParallel, by ChunkIndexIsQuotient). `calls` counts calls
      of the answer primitive. */
  method BatchAnswerIds(prompts: seq<seq<int>>, questions: seq<seq<int>>, model: LanguageModel, maxParallel: int)
    returns (r: Result<seq<int>>, ghost calls: nat)
    ensures maxParallel == 0 ==> r == Failure(ZeroDivision)
    ensures maxParallel < 0 ==> r == Success(seq(|prompts|, _ => 0))
    ensures maxParallel > 0 ==> (r.Success? <==> ChunksFit(|prompts|, maxParallel, |questions|))
    ensures maxParallel > 0 && r.Failure? ==>
      && r.error == BatchSizeMismatch
      && 0 < calls && FirstFailingChunk(|prompts|, maxParallel, |questions|, calls - 1)
    ensures maxParallel > 0 && r.Success? ==>
      && |r.value| == |prompts|
      && calls == NumChunks(|prompts|, maxParallel)
      && forall row :: 0 <= row < |prompts| ==>
           && Paired(questions, maxParallel, row)
           && r.value[row] == model.predict(prompts[row] + QuestionRow(questions, ChunkOffset(row, maxParallel)))
    ensures maxParallel > 0 && |questions| == 1 ==> r.Success?
    ensures |prompts| == 0 ==> calls == 0
  {
    var batch := |prompts|;
    calls := 0;
    if maxParallel == 0 {
      return Failure(ZeroDivision), calls;
    }
    var answers := new int[batch](_ => 0);
    if maxParallel < 0 {
      // ceil(batch / max_parallel) is not positive, so no chunk is visited
      assert answers[..] == seq(batch, _ => 0);
      return Success(answers[..]), calls;
    }
    if |questions| == 1 {
      SingleQuestionFits(batch, maxParallel);
    }
    r, calls := WriteChunks(prompts, questions, model, maxParallel, answers);
    if r.Success? {
      AllChunksWritten(prompts, questions, model, maxParallel, r.value);
    }
  }
}
