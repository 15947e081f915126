/** The one-token candidate prompts and the answer primitive that scores a
    batch of prompts against a question batch in one forward pass. */
module Answers {
  import opened Oracles

  /** Every vocabulary id as a one-token prompt, in ascending order. */
  function BruteForcePrompts(vocabSize: nat): (rows: seq<seq<int>>)
    ensures |rows| == vocabSize
    ensures forall i :: 0 <= i < vocabSize ==> rows[i] == [i]
  {
    seq(vocabSize, i => [i])
  }

  /** The candidate prompts are exactly the one-token prompts over the
      vocabulary, each listed once. */
  lemma BruteForceEnumeratesOneTokenPrompts(vocabSize: nat)
    ensures forall p :: p in BruteForcePrompts(vocabSize) <==> |p| == 1 && 0 <= p[0] < vocabSize
    ensures forall i, j :: 0 <= i < j < vocabSize ==> BruteForcePrompts(vocabSize)[i] != BruteForcePrompts(vocabSize)[j]
  {
    var rows := BruteForcePrompts(vocabSize);
    forall p | |p| == 1 && 0 <= p[0] < vocabSize
      ensures p in rows
    {
      assert p == [p[0]] == rows[p[0]];
    }
  }

  /** Whether p prompt rows can be paired with q question rows: a single
      question row is replicated over more than one prompt row; otherwise
      the two batch sizes must already agree. */
  predicate BatchesMatch(p: int, q: int)
  {
    (q == 1 && p > 1) || p == q
  }

  /** The question row that prompt row k is paired with. */
  function QuestionRow(questions: seq<seq<int>>, k: nat): seq<int>
    requires |questions| == 1 || k < |questions|
  {
    if |questions| == 1 then questions[0] else questions[k]
  }

  /** `row` repeated n times along the batch dimension. */
  function Replicate(row: seq<int>, n: nat): seq<seq<int>>
  {
    seq(n, _ => row)
  }

  /** One forward pass over the rows prompt ++ question, returning the
      predicted next token of each row. */
  function AnswerIds(prompts: seq<seq<int>>, questions: seq<seq<int>>, model: LanguageModel): (r: Result<seq<int>>)
    ensures r.Success? <==> BatchesMatch(|prompts|, |questions|)
    ensures r.Failure? ==> r.error == BatchSizeMismatch
    ensures r.Success? ==>
      && |r.value| == |prompts|
      && forall k :: 0 <= k < |prompts| ==> r.value[k] == model.predict(prompts[k] + QuestionRow(questions, k))
  {
    var paired := if |questions| == 1 && |prompts| > 1 then Replicate(questions[0], |prompts|) else questions;
    if |prompts| != |paired| then Failure(BatchSizeMismatch)
    else Success(seq(|prompts|, k requires 0 <= k < |prompts| => model.predict(prompts[k] + paired[k])))
  }

  /** A single question row is scored against every prompt of a batch of
      more than one. */
  lemma BroadcastSingleQuestion(prompts: seq<seq<int>>, question: seq<int>, model: LanguageModel)
    requires |prompts| > 1
    ensures AnswerIds(prompts, [question], model)
         == Success(seq(|prompts|, k requires 0 <= k < |prompts| => model.predict(prompts[k] + question)))
  {
    var r := AnswerIds(prompts, [question], model);
    assert r.value == seq(|prompts|, k requires 0 <= k < |prompts| => model.predict(prompts[k] + question));
  }

  /** An empty prompt batch cannot be paired with a single question row:
      the broadcast only applies to more than one prompt. */
  lemma EmptyPromptsRejected(question: seq<int>, model: LanguageModel)
    ensures AnswerIds([], [question], model) == Failure(BatchSizeMismatch)
  {
  }
}
