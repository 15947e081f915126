/** The collaborators the reachability search consumes, seen only through the
    values they return, and the conditions under which the search fails. */
module Oracles {

  /** The failure conditions of the core. */
  datatype Error =
    | BatchSizeMismatch  // prompt and question batch sizes cannot be paired
    | ZeroDivision       // the chunk count is computed with max_parallel == 0
    | NotImplemented     // a search asked for max_prompt_tokens != 1
    | NotAList           // an input row's question_ids is not a list of ids

  datatype Result<T> = Success(value: T) | Failure(error: Error)

  /** A causal language model, as two pure queries on a token-id sequence s:
      predict(s) is the argmax of the logits at the last position of s, and
      loss(s, y) is the cross-entropy of those logits against the target id y. */
  datatype LanguageModel = LanguageModel(predict: seq<int> -> int, loss: (seq<int>, int) -> real)

  /** A tokenizer: its vocabulary size and the text of a token-id sequence. */
  datatype Tokenizer = Tokenizer(vocabSize: nat, decode: seq<int> -> string)
}
