# Forward reachability search, modelled in Dafny

This project models the forward ("magic words") reachability search of
`magic_words/forward_reach.py`. Given a question `x_0`, the search tries every
vocabulary id as a one-token prompt placed before the question. It records each
distinct answer id the model predicts, in the order the candidates first produce
it. A driver runs the search for every question of a table and concatenates the
per-question tables.

The language model and the tokenizer are opaque collaborators
(`Oracles.LanguageModel`, `Oracles.Tokenizer`):

- `predict(s)` is the argmax of the logits at the last position of `s`.
- `loss(s, y)` is the cross-entropy of those logits against `y`. It is an
  opaque `real`.
- `decode(ids)` is the tokenizer's text for `ids`. `decode(int)` is
  `decode([int])`, and `batch_decode(x_0)[0]` is `decode(x_0)`.
- `vocabSize` is the tokenizer's vocabulary size.

Failures the source raises become `Failure(e)` values of a `Result`:

| error | source condition |
|---|---|
| `BatchSizeMismatch` | the batch-size assertion |
| `ZeroDivision` | `max_parallel == 0` |
| `NotImplemented` | the `max_prompt_tokens == 1` assertion |
| `NotAList` | the `question_ids` type assertion |

Modules:

- `Oracles`: the collaborators, the errors and `Result`.
- `Answers`: the candidate prompts (`_get_prompt_ids_brute_force`) and the
  answer primitive (`_get_answer_ids`). Both are pure functions.
- `Chunks`: chunked scoring (`_batch_get_answer_ids`).
  - The method `BatchAnswerIds` fills an `array<int>` buffer chunk by chunk.
  - It is proved against the chunk arithmetic (`ChunkStart`, `ChunkEnd`,
    `NumChunks`, `ChunkIndex`, `ChunkOffset`). These are defined one chunk at
    a time, and lemmas connect them to `c * max_parallel`,
    `ceil(batch / max_parallel)`, `row / max_parallel` and
    `row % max_parallel`.
- `Reach`: the reachable-set search (`get_reachable_set`).
  - The method `ReachableSet` grows the table in a loop that skips
    already-seen answer ids.
  - It is proved equal to the specification function `Scan`.
  - Lemmas about `Scan` prove the following:
    - answer ids are distinct;
    - every candidate's prediction is present;
    - the rows are in discovery order;
    - the row count equals the number of distinct reachable answers;
    - every row's fixed fields hold.
- `Driver`: the batch driver (`forward_generate`). The method
  `ForwardGenerate` is proved equal to the function `Generate`, whose
  concatenation and failure behaviour is characterized by lemmas.

Where the code and its own documentation differ, the model follows the code.

`_batch_get_answer_ids` hands the full `question_ids` batch to every chunk:
- With a single question row, every chunk is scored against that row.
- With `q > 1` question rows and more than one chunk, the call succeeds only
  when every chunk has exactly `q` rows. In that case `q == max_parallel` and
  `max_parallel` divides the batch. Prompt row `r` is then paired with question
  row `r % max_parallel`.

`Chunks.BatchAnswerIds` states this exactly. It does not assume that such a call
always fails. `Chunks.MultiRowQuestionNeedsEqualChunks` and
`Chunks.EqualChunksFit` prove the two directions of the success condition.

## Model

| member | source | states |
|---|---|---|
| Answers.BatchesMatch | magic_words/forward_reach.py:31-34 | defines when `p` prompt rows can be paired with `q` question rows: one question row and more than one prompt, or equal sizes |
| Answers.BruteForcePrompts | magic_words/forward_reach.py:15-20 | the candidate prompt batch has `vocab_size` rows and row `i` is the one-token prompt `[i]` |
| Answers.BruteForceEnumeratesOneTokenPrompts | magic_words/forward_reach.py:15-20 | a prompt is a candidate exactly when it is one token in `[0, vocab_size)`, and no candidate is listed twice |
| Answers.AnswerIds | magic_words/forward_reach.py:23-47 | succeeds exactly when the batch sizes can be paired: a single question row broadcast over more than one prompt, or equal sizes. Otherwise it fails with the batch-size error. On success there is one answer per prompt row, in row order, and each is the prediction for that prompt followed by its question row |
| Answers.BroadcastSingleQuestion | magic_words/forward_reach.py:31-32 | with more than one prompt, a single question row is scored against every prompt |
| Answers.EmptyPromptsRejected | magic_words/forward_reach.py:31-34 | an empty prompt batch with one question row is not broadcast, and fails the batch-size check |
| Chunks.ChunkStart | magic_words/forward_reach.py:63 | defines the first row of chunk `c`: each chunk starts `max_parallel` rows after the previous one, and chunk 0 starts at row 0 |
| Chunks.ChunkEnd | magic_words/forward_reach.py:64 | defines one past the last row of chunk `c` as `min((c+1)*max_parallel, batch)` |
| Chunks.NumChunks | magic_words/forward_reach.py:55 | the chunk count is the least `n` whose `n` chunks of `max_parallel` rows reach the batch size |
| Chunks.NumChunksIsCeiling | magic_words/forward_reach.py:55 | the chunk count is `ceil(batch / max_parallel)` |
| Chunks.ChunkStartIsProduct | magic_words/forward_reach.py:63 | chunk `c` starts at row `c * max_parallel` |
| Chunks.ChunkIndex | magic_words/forward_reach.py:63-64 | every row lies between the start of its chunk and the start of the next |
| Chunks.ChunkIndexIsQuotient | magic_words/forward_reach.py:63-64 | a row's chunk is `row / max_parallel` and its offset within the chunk is `row % max_parallel` |
| Chunks.ChunksAreContiguous | magic_words/forward_reach.py:55-64 | there are no chunks exactly when the batch is empty. Each chunk is a non-empty range of at most `max_parallel` rows inside the batch. The first chunk starts at 0 and the last ends at the batch size. Each chunk starts where the previous one ends |
| Chunks.ChunkInBatch | magic_words/forward_reach.py:63-64 | each chunk is a non-empty range inside the batch |
| Chunks.OffsetInChunk | magic_words/forward_reach.py:63-66 | chunks do not overlap: a row inside chunk `c` belongs to chunk `c` only, at its distance from the chunk's start |
| Chunks.RowInChunk | magic_words/forward_reach.py:61-64 | a range of the form `[c*max_parallel, min((c+1)*max_parallel, batch))` that holds a row is one of the chunks the loop visits |
| Chunks.ChunksCoverBatch | magic_words/forward_reach.py:61-64 | every row of the batch lies in a chunk the loop visits |
| Chunks.SingleQuestionFits | magic_words/forward_reach.py:31-34 | with one question row, every chunk passes the batch-size check |
| Chunks.MultiRowQuestionNeedsEqualChunks | magic_words/forward_reach.py:66-69 | with more than one question row and more than one chunk, passing every chunk's check forces the question count to equal `max_parallel` and `max_parallel` to divide the batch |
| Chunks.NumChunksOfWholeChunks | magic_words/forward_reach.py:55 | `q` whole chunks of `max_parallel` rows need exactly `q` chunks |
| Chunks.EqualChunksEndAtBatch | magic_words/forward_reach.py:55-64 | when `max_parallel` divides the batch, the last chunk ends exactly at the batch size |
| Chunks.EqualChunksFit | magic_words/forward_reach.py:63-69 | the converse: when the question count equals `max_parallel` and `max_parallel` divides the batch, every chunk passes the batch-size check |
| Chunks.ChunkingRejectsRowAlignedQuestions | magic_words/forward_reach.py:66-69 | for any `max_parallel` below the batch size, a batch of prompts with as many question rows passes the unchunked check but not the chunked one |
| Chunks.SliceAnswers | magic_words/forward_reach.py:66-69 | a successful answer call on a slice gives one answer per slice row, each against the question row at its offset in the slice |
| Chunks.Spliced | magic_words/forward_reach.py:72 | the buffer after a slice assignment has the same length, holds the new values at the slice's positions and the old values everywhere else |
| Chunks.WriteSlice | magic_words/forward_reach.py:72 | the slice assignment leaves the buffer equal to its old contents spliced with the new values: exactly the slice's positions change |
| Chunks.ChunkWriteBack | magic_words/forward_reach.py:61-72 | writing chunk `i`'s answers over its rows extends the correctly written prefix of the buffer by chunk `i` |
| Chunks.FirstFailingChunk | magic_words/forward_reach.py:61-69 | defines chunk `f` as the first chunk whose answer call fails the batch-size check: it is a visited chunk, every earlier chunk passes and chunk `f` does not |
| Chunks.ChunkStep | magic_words/forward_reach.py:63-72 | one loop iteration: the answer call on chunk `i` either fails with the batch-size error, and then chunk `i` is the first failing chunk and the chunks do not fit, or its answers spliced over the chunk's rows extend the correctly written prefix by chunk `i` |
| Chunks.WriteChunks | magic_words/forward_reach.py:61-72 | the chunk loop fails with the batch-size error at the first chunk that fails the check: every earlier chunk passed, one answer call was made per chunk up to and including the failing one, and the chunks do not fit. Otherwise it makes one answer call per chunk and returns the buffer with every chunk written |
| Chunks.AllChunksWritten | magic_words/forward_reach.py:61-74 | after the last chunk, every chunk passed the check and every row of the buffer holds its chunked answer |
| Chunks.BatchAnswerIds | magic_words/forward_reach.py:49-74 | `max_parallel == 0` divides by zero. A negative `max_parallel` returns the zero-filled buffer. Otherwise the call succeeds exactly when every chunk passes the batch-size check. A failure is the batch-size error, raised at the first failing chunk after one answer call per chunk up to it. On success it makes `ceil(batch / max_parallel)` answer calls, and row `r` is the prediction for prompt `r` followed by the question row at `r`'s offset in its chunk. One question row always succeeds, and an empty batch makes no calls |
| Reach.Prediction | magic_words/forward_reach.py:105-115 | defines the answer id of candidate `i`: the model's prediction for the one-token prompt `[i]` followed by the question |
| Reach.Record | magic_words/forward_reach.py:125-148 | defines the row recorded for candidate `i`: its answer id and decoded text, both losses, `base_correct` as equality with the unprompted prediction, and the fixed fields |
| Reach.Scan | magic_words/forward_reach.py:104-153 | defines the table after candidates `0 .. n-1` are scanned in ascending order: a candidate whose answer is already in the table is skipped, otherwise its record is appended |
| Reach.FirstCandidateIsLeast | magic_words/forward_reach.py:104-120 | the first candidate for an answer is the least candidate that predicts it |
| Reach.ScanComplete | magic_words/forward_reach.py:104-120 | every candidate's prediction appears in the table |
| Reach.ScanAnswersDistinct | magic_words/forward_reach.py:119-120 | the table's `answer_ids` are pairwise distinct |
| Reach.ScanRowFirstCandidateBelow | magic_words/forward_reach.py:104-153 | every row's answer was produced by some candidate already scanned |
| Reach.ScanRowFirstCandidate | magic_words/forward_reach.py:104-153 | every row is the record built from the first candidate that produced its answer |
| Reach.ScanRowsFromFirstCandidate | magic_words/forward_reach.py:104-153 | every row of the table is the record of its answer's first candidate |
| Reach.ScanHoldsAnswer | magic_words/forward_reach.py:104-120 | an answer id is in the table exactly when some scanned candidate predicts it |
| Reach.ScanAnswersAreReachable | magic_words/forward_reach.py:104-120 | the table's answer ids are exactly the reachable answers, in both directions |
| Reach.ScanRowsOrdered | magic_words/forward_reach.py:104-153 | of two rows, the earlier one's answer was first produced by a smaller candidate id |
| Reach.OldRowsOrdered | magic_words/forward_reach.py:119-153 | rows already in the table keep their relative discovery order when another candidate is scanned |
| Reach.NewRowOrdered | magic_words/forward_reach.py:150-153 | a row appended for a new answer was discovered after every earlier row |
| Reach.NewRowFirstCandidate | magic_words/forward_reach.py:119-153 | a row appended by candidate `n-1` has `n-1` as its first candidate |
| Reach.ScanDiscoveryOrder | magic_words/forward_reach.py:104-153 | rows appear in ascending order of the first candidate id that produced them |
| Reach.ReachableStep | magic_words/forward_reach.py:104-115 | scanning one more candidate adds exactly its prediction to the reachable answers |
| Reach.ScanRowCount | magic_words/forward_reach.py:104-153 | the number of rows is the number of distinct reachable answers |
| Reach.ScanRowFields | magic_words/forward_reach.py:132-148 | every row has `prompt_correct` true, `prompt_length` 1, `search_method` "forward", `question_length` equal to the question's length, the question and its ids, and the decoded answer text. `base_correct` holds exactly when the answer is the unprompted prediction |
| Reach.BaseCorrectRow | magic_words/forward_reach.py:100-132 | at most one row is `base_correct`, and one is exactly when the unprompted prediction is reachable |
| Reach.ConstantModelReachesOneAnswer | magic_words/forward_reach.py:104-153 | a model that always predicts `c` yields a single row, for `c`, which is both `base_correct` and `prompt_correct` |
| Reach.ScanCandidatesAreBruteForcePrompts | magic_words/forward_reach.py:15-20 | scoring the brute-force candidate batch against the question gives, in row `i`, the prediction the search computes for candidate `i` |
| Reach.ReachableSet | magic_words/forward_reach.py:77-155 | refuses `max_prompt_tokens != 1` before any model call. Otherwise it makes one unprompted call and one call per vocabulary id, and returns exactly the table `Scan` defines |
| Driver.Generate | magic_words/forward_reach.py:184-199 | defines the driver's outcome: the rows are processed in order, a row whose `question_ids` is not a list or whose search fails ends it with that failure, and the tables are otherwise concatenated |
| Driver.GenerateAppend | magic_words/forward_reach.py:186-199 | running the driver on two consecutive question lists is running it on each and concatenating the tables; the first failure wins and there is no cross-question deduplication |
| Driver.GenerateOne | magic_words/forward_reach.py:186-194 | a single question gives its own reachable-set table, or the failure its row causes |
| Driver.GenerateOutcome | magic_words/forward_reach.py:186-199 | the driver succeeds exactly when there are no questions, or when `max_prompt_tokens` is 1 and every `question_ids` is a list. A non-list first row fails with the list error |
| Driver.GenerateRowCount | magic_words/forward_reach.py:186-199 | the output row count is the sum of the per-question row counts |
| Driver.RepeatedQuestionRepeatsRows | magic_words/forward_reach.py:199 | the same question twice yields its table twice, so an answer id repeats once per occurrence of the question |
| Driver.ForwardGenerate | magic_words/forward_reach.py:158-201 | the loop returns exactly what `Generate` defines: the in-order concatenation of the per-question tables, or the first failure |

## Left out

- The forward pass and the `argmax` over float logits are the oracle
  `predict`. Ties in the argmax and the range of the predicted id are whatever
  the oracle returns.
- The two cross-entropy losses (lines 126 and 129) are the opaque `real` values
  of `loss`. The model states which loss each row holds: `Reach.ScanRowsFromFirstCandidate`
  makes `base_loss` equal to `loss(x_0, a)` and `prompted_loss` equal to
  `loss([i] + x_0, a)`, where `i` is the first candidate that produced the row's
  answer `a`. No numeric property of the losses is stated.
- Tokenizer decoding is opaque.
- `predict` sees only its own row. The other rows of a batch and the batch
  size never change a row's prediction. Float differences between a batched
  forward pass and a one-row pass are not modelled, even though they can flip
  an argmax on a near-tie. `Answers.AnswerIds`, `Chunks.BatchAnswerIds` and
  `Reach.ScanCandidatesAreBruteForcePrompts` rely on this per-row view.
- Device placement, `torch.no_grad`, tqdm progress bars and `print` output are
  left out. The prints in the search (line 122) only format values already
  computed.
- Driver.ForwardGenerate and Driver.GenerateOutcome do not model the failure
  path of the progress line at forward_reach.py:191. The line evaluates
  `i+1` on the input table's index label and reads `row['question']`. A table
  with a non-numeric index raises TypeError there. A table without a
  `question` column raises KeyError. Either happens after the list check and
  before the search. `State` has no index label and always has a question, so
  "succeeds exactly when" holds for numerically indexed tables with a
  `question` column.
- pandas DataFrame mechanics are not modelled. Tables are sequences of `Row`
  records. An input table is a sequence of `State` values, and the row index
  appears only in progress output.
- The assignment to `answer` at line 106 is overwritten at line 116 before any
  use, so it is left out.
- Tensor shape checks on ragged inputs are left out. Prompt and question rows
  are sequences of any length, and the model does not reject rows of
  different lengths the way tensor construction would.
- `Chunks.NumChunksIsCeiling`: the chunk count is the exact integer ceiling.
  Floating-point rounding of `batch / max_parallel` for very large batches is
  not modelled.
- Errors raised inside the model or the tokenizer, such as an empty `x_0`
  given to the model, are not modelled: the oracles are total.
- The default `max_prompt_tokens=10` is not modelled, because callers pass the
  value explicitly. With that default the search fails with `NotImplemented`.
- The default `max_parallel=300` of `_batch_get_answer_ids` (line 49) is not
  modelled: `Chunks.BatchAnswerIds` always takes `max_parallel` explicitly.
- `Chunks.BatchAnswerIds`: `calls` counts calls of the answer primitive. It
  does not count how many rows each call sends to the model.
- `magic_words/forward_gcg.py` is not part of this model. It relies on
  gradients through embeddings, random prompt sampling, top-k over float
  gradients and helpers whose source is not available.
- `magic_words/__init__.py` is not part of this model, because it only
  re-exports modules.
