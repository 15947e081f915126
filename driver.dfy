/** The batch driver: the reachability search run over a table of
    questions, with the per-question tables concatenated in input order. */
module Driver {
  import opened Oracles
  import opened Reach

  /** The question_ids cell of an input row: a list of token ids, or any
      other value (such as the serialized string a table read back from
      text holds). */
  datatype QuestionIds = TokenList(ids: seq<int>) | NotList(text: string)

  /** One input row: the question's display text and its token ids. */
  datatype State = State(question: string, questionIds: QuestionIds)

  /** The outcome of running the driver over `states`: rows are processed
      in order, and the first one that fails the list check or the search
      decides the failure. */
  function Generate(model: LanguageModel, tok: Tokenizer, states: seq<State>, maxPromptTokens: int): Result<seq<Row>>
  {
    if states == [] then Success([])
    else
      match Generate(model, tok, states[..|states| - 1], maxPromptTokens)
      case Failure(e) => Failure(e)
      case Success(table) =>
        var last := states[|states| - 1];
        if !last.questionIds.TokenList? then Failure(NotAList)
        else if maxPromptTokens != 1 then Failure(NotImplemented)
        else Success(table + Scan(model, tok, last.questionIds.ids, tok.vocabSize))
  }

  /** Sequencing two outcomes: the first failure wins, otherwise the tables
      are concatenated. */
  function Then(first: Result<seq<Row>>, second: Result<seq<Row>>): Result<seq<Row>>
  {
    if first.Failure? then first
    else if second.Failure? then second
    else Success(first.value + second.value)
  }

  /** Running the driver over two consecutive batches of questions is
      running it over each and concatenating: no deduplication across
      questions. */
  lemma {:induction false} GenerateAppend(model: LanguageModel, tok: Tokenizer, front: seq<State>, back: seq<State>, maxPromptTokens: int)
    ensures Generate(model, tok, front + back, maxPromptTokens)
         == Then(Generate(model, tok, front, maxPromptTokens), Generate(model, tok, back, maxPromptTokens))
  {
    if back == [] {
      assert front + back == front;
      var first := Generate(model, tok, front, maxPromptTokens);
      if first.Success? {
        assert first.value + [] == first.value;
      }
    } else {
      var back' := back[..|back| - 1];
      GenerateAppend(model, tok, front, back', maxPromptTokens);
      assert (front + back)[..|front + back| - 1] == front + back';
      assert (front + back)[|front + back| - 1] == back[|back| - 1];
      var first := Generate(model, tok, front, maxPromptTokens);
      var middle := Generate(model, tok, back', maxPromptTokens);
      if first.Success? && middle.Success? {
        var last := back[|back| - 1];
        if last.questionIds.TokenList? && maxPromptTokens == 1 {
          var added := Scan(model, tok, last.questionIds.ids, tok.vocabSize);
          assert first.value + middle.value + added == first.value + (middle.value + added);
        }
      }
    }
  }

  /** One question alone yields its own reachable-set table, or the
      failure its row causes. */
  lemma GenerateOne(model: LanguageModel, tok: Tokenizer, state: State, maxPromptTokens: int)
    ensures !state.questionIds.TokenList? ==> Generate(model, tok, [state], maxPromptTokens) == Failure(NotAList)
    ensures state.questionIds.TokenList? && maxPromptTokens != 1 ==>
      Generate(model, tok, [state], maxPromptTokens) == Failure(NotImplemented)
    ensures state.questionIds.TokenList? && maxPromptTokens == 1 ==>
      Generate(model, tok, [state], maxPromptTokens) == Success(Scan(model, tok, state.questionIds.ids, tok.vocabSize))
  {
    assert [state][..0] == [];
    if state.questionIds.TokenList? {
      var table := Scan(model, tok, state.questionIds.ids, tok.vocabSize);
      assert [] + table == table;
    }
  }

  /** The driver succeeds exactly when there is no question, or when
      max_prompt_tokens is 1 and every question_ids is a list; a failure is
      decided by the first row. */
  lemma {:induction false} GenerateOutcome(model: LanguageModel, tok: Tokenizer, states: seq<State>, maxPromptTokens: int)
    ensures Generate(model, tok, states, maxPromptTokens).Success?
        <==> states == [] || (maxPromptTokens == 1 && forall k :: 0 <= k < |states| ==> states[k].questionIds.TokenList?)
    ensures states != [] && !states[0].questionIds.TokenList? ==>
      Generate(model, tok, states, maxPromptTokens) == Failure(NotAList)
    ensures states != [] && states[0].questionIds.TokenList? && maxPromptTokens != 1 ==>
      Generate(model, tok, states, maxPromptTokens) == Failure(NotImplemented)
  {
    if states != [] {
      var rest := states[1..];
      GenerateAppend(model, tok, [states[0]], rest, maxPromptTokens);
      GenerateOne(model, tok, states[0], maxPromptTokens);
      GenerateOutcome(model, tok, rest, maxPromptTokens);
      assert [states[0]] + rest == states;
      if maxPromptTokens == 1 && states[0].questionIds.TokenList? {
        assert forall k :: 0 <= k < |rest| ==> rest[k] == states[k + 1];
      }
    }
  }

  /** The total number of rows over a batch of list-valued questions. */
  function TotalRows(model: LanguageModel, tok: Tokenizer, states: seq<State>): nat
    requires forall k :: 0 <= k < |states| ==> states[k].questionIds.TokenList?
  {
    if states == [] then 0
    else |Scan(model, tok, states[0].questionIds.ids, tok.vocabSize)| + TotalRows(model, tok, states[1..])
  }

  /** On success the row count is the sum of the per-question row counts,
      each of which is the number of distinct answers reachable for that
      question. */
  lemma {:induction false} GenerateRowCount(model: LanguageModel, tok: Tokenizer, states: seq<State>)
    requires forall k :: 0 <= k < |states| ==> states[k].questionIds.TokenList?
    ensures Generate(model, tok, states, 1).Success?
    ensures |Generate(model, tok, states, 1).value| == TotalRows(model, tok, states)
  {
    GenerateOutcome(model, tok, states, 1);
    if states != [] {
      var rest := states[1..];
      GenerateAppend(model, tok, [states[0]], rest, 1);
      GenerateOne(model, tok, states[0], 1);
      GenerateRowCount(model, tok, rest);
      assert [states[0]] + rest == states;
    }
  }

  /** The same question twice gives its table twice: an answer reachable
      for it appears once per occurrence of the question. */
  lemma RepeatedQuestionRepeatsRows(model: LanguageModel, tok: Tokenizer, state: State)
    requires state.questionIds.TokenList?
    ensures Generate(model, tok, [state, state], 1)
         == Success(Scan(model, tok, state.questionIds.ids, tok.vocabSize) + Scan(model, tok, state.questionIds.ids, tok.vocabSize))
  {
    GenerateAppend(model, tok, [state], [state], 1);
    GenerateOne(model, tok, state, 1);
    assert [state] + [state] == [state, state];
  }

  /** The driver: each row's question_ids must be a list; the search runs
      for each row in order and the tables are concatenated. */
  method ForwardGenerate(states: seq<State>, model: LanguageModel, tok: Tokenizer, maxPromptTokens: int)
    returns (r: Result<seq<Row>>)
    ensures r == Generate(model, tok, states, maxPromptTokens)
  {
    var table: seq<Row> := [];
    for i := 0 to |states|
      invariant Generate(model, tok, states[..i], maxPromptTokens) == Success(table)
    {
      assert states[..i + 1][..i] == states[..i];
      var x0 := states[i].questionIds;
      if !x0.TokenList? {
        GenerateAppend(model, tok, states[..i + 1], states[i + 1..], maxPromptTokens);
        assert states[..i + 1] + states[i + 1..] == states;
        return Failure(NotAList);
      }
      var found;
      ghost var calls;
      found, calls := ReachableSet(x0.ids, model, tok, maxPromptTokens);
      if found.Failure? {
        GenerateAppend(model, tok, states[..i + 1], states[i + 1..], maxPromptTokens);
        assert states[..i + 1] + states[i + 1..] == states;
        return Failure(found.error);
      }
      table := table + found.value;
    }
    assert states[..|states|] == states;
    return Success(table);
  }
}
