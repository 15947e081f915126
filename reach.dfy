/** The single-question reachability search: every vocabulary id is tried
    as a one-token prompt before the question, and the first candidate to
    produce each distinct predicted answer contributes one row. */
module Reach {
  import opened Oracles
  import Answers

  /** One row of the reachable-set table. The two losses are the opaque
      cross-entropy values the model reports. */
  datatype Row = Row(
    question: string,
    questionIds: seq<int>,
    answer: string,
    answerId: int,
    baseLoss: real,
    searchMethod: string,
    promptLength: nat,
    promptedLoss: real,
    baseCorrect: bool,
    promptCorrect: bool,
    questionLength: nat)

  /** The model's next token for the one-token prompt [i] followed by x0. */
  function Prediction(model: LanguageModel, x0: seq<int>, i: int): int
  {
    model.predict([i] + x0)
  }

  /** The answer ids of the first n candidates. */
  function ReachableAnswers(model: LanguageModel, x0: seq<int>, n: nat): set<int>
  {
    set i | 0 <= i < n :: Prediction(model, x0, i)
  }

  /** The answer_ids column of a table, in row order. */
  function AnswerColumn(table: seq<Row>): seq<int>
  {
    seq(|table|, k requires 0 <= k < |table| => table[k].answerId)
  }

  /** The row recorded when candidate i is the first to produce its answer. */
  function Record(model: LanguageModel, tok: Tokenizer, x0: seq<int>, i: int): Row
  {
    var a := Prediction(model, x0, i);
    Row(tok.decode(x0), x0, tok.decode([a]), a, model.loss(x0, a), "forward", 1,
        model.loss([i] + x0, a), a == model.predict(x0), true, |x0|)
  }

  /** The table after candidates 0 .. n-1 have been scanned in ascending
      order: a candidate whose answer is already in the table is skipped. */
  function Scan(model: LanguageModel, tok: Tokenizer, x0: seq<int>, n: nat): seq<Row>
  {
    if n == 0 then []
    else
      var table := Scan(model, tok, x0, n - 1);
      if Prediction(model, x0, n - 1) in AnswerColumn(table) then table
      else table + [Record(model, tok, x0, n - 1)]
  }

  /** The least candidate below n whose prediction is a, or n if there is none. */
  function FirstCandidate(model: LanguageModel, x0: seq<int>, a: int, n: nat): (f: nat)
    ensures f <= n
  {
    if n == 0 then 0
    else
      var f := FirstCandidate(model, x0, a, n - 1);
      if f < n - 1 || Prediction(model, x0, n - 1) == a then f else n
  }

  /** FirstCandidate is the least candidate that produces a, when one below
      n does. */
  lemma {:induction false} FirstCandidateIsLeast(model: LanguageModel, x0: seq<int>, a: int, n: nat)
    ensures forall i :: 0 <= i < FirstCandidate(model, x0, a, n) ==> Prediction(model, x0, i) != a
    ensures FirstCandidate(model, x0, a, n) < n ==> Prediction(model, x0, FirstCandidate(model, x0, a, n)) == a
  {
    if n > 0 {
      FirstCandidateIsLeast(model, x0, a, n - 1);
    }
  }

  /** Every candidate's prediction appears in the table (completeness). */
  lemma {:induction false} ScanComplete(model: LanguageModel, tok: Tokenizer, x0: seq<int>, n: nat)
    ensures forall i :: 0 <= i < n ==> Prediction(model, x0, i) in AnswerColumn(Scan(model, tok, x0, n))
  {
    if n > 0 {
      ScanComplete(model, tok, x0, n - 1);
      var table := Scan(model, tok, x0, n - 1);
      if Prediction(model, x0, n - 1) !in AnswerColumn(table) {
        assert AnswerColumn(table + [Record(model, tok, x0, n - 1)])
            == AnswerColumn(table) + [Prediction(model, x0, n - 1)];
      }
    }
  }

  /** Within one table the answer ids are pairwise distinct. */
  lemma {:induction false} ScanAnswersDistinct(model: LanguageModel, tok: Tokenizer, x0: seq<int>, n: nat)
    ensures forall j, k :: 0 <= j < k < |Scan(model, tok, x0, n)| ==> Scan(model, tok, x0, n)[j].answerId != Scan(model, tok, x0, n)[k].answerId
  {
    if n > 0 {
      ScanAnswersDistinct(model, tok, x0, n - 1);
      var table := Scan(model, tok, x0, n - 1);
      var a := Prediction(model, x0, n - 1);
      if a !in AnswerColumn(table) {
        var table' := table + [Record(model, tok, x0, n - 1)];
        assert Scan(model, tok, x0, n) == table';
        forall j, k | 0 <= j < k < |table'|
          ensures table'[j].answerId != table'[k].answerId
        {
          if k == |table| {
            assert AnswerColumn(table)[j] == table[j].answerId;
          }
        }
      }
    }
  }

  /** An answer already produced below n keeps its first candidate when
      candidate n is added. */
  lemma FirstCandidateStable(model: LanguageModel, x0: seq<int>, a: int, n: nat)
    requires FirstCandidate(model, x0, a, n) < n
    ensures FirstCandidate(model, x0, a, n + 1) == FirstCandidate(model, x0, a, n)
  {
  }

  /** A prediction the table does not hold yet is first produced by the
      candidate that is being scanned. */
  lemma NewAnswerFirstCandidate(model: LanguageModel, tok: Tokenizer, x0: seq<int>, n: nat)
    requires n > 0
    requires Prediction(model, x0, n - 1) !in AnswerColumn(Scan(model, tok, x0, n - 1))
    ensures FirstCandidate(model, x0, Prediction(model, x0, n - 1), n) == n - 1
  {
    var a := Prediction(model, x0, n - 1);
    ScanComplete(model, tok, x0, n - 1);
    FirstCandidateIsLeast(model, x0, a, n - 1);
  }

  /** Scanning one more candidate keeps the rows already in the table. */
  lemma ScanKeepsRows(model: LanguageModel, tok: Tokenizer, x0: seq<int>, n: nat, k: nat)
    requires n > 0 && k < |Scan(model, tok, x0, n - 1)|
    ensures k < |Scan(model, tok, x0, n)| && Scan(model, tok, x0, n)[k] == Scan(model, tok, x0, n - 1)[k]
  {
  }

  /** A row that scanning candidate n - 1 added is that candidate's record,
      for an answer the table did not hold. */
  lemma ScanNewRow(model: LanguageModel, tok: Tokenizer, x0: seq<int>, n: nat, k: nat)
    requires n > 0 && |Scan(model, tok, x0, n - 1)| <= k < |Scan(model, tok, x0, n)|
    ensures Prediction(model, x0, n - 1) !in AnswerColumn(Scan(model, tok, x0, n - 1))
    ensures Scan(model, tok, x0, n)[k] == Record(model, tok, x0, n - 1)
  {
    var table := Scan(model, tok, x0, n - 1);
    if Prediction(model, x0, n - 1) !in AnswerColumn(table) {
      assert Scan(model, tok, x0, n) == table + [Record(model, tok, x0, n - 1)];
    }
  }

  /** The answer of row k was first produced below n. This is the first
      half of ScanRowFirstCandidate on its own: the lemmas about membership
      and order need only this half, and proving it without the record
      equation keeps their proofs cheap for the solver. */
  lemma {:induction false} ScanRowFirstCandidateBelow(model: LanguageModel, tok: Tokenizer, x0: seq<int>, n: nat, k: nat)
    requires k < |Scan(model, tok, x0, n)|
    ensures FirstCandidate(model, x0, Scan(model, tok, x0, n)[k].answerId, n) < n
  {
    if k < |Scan(model, tok, x0, n - 1)| {
      ScanKeepsRows(model, tok, x0, n, k);
      ScanRowFirstCandidateBelow(model, tok, x0, n - 1, k);
      FirstCandidateStable(model, x0, Scan(model, tok, x0, n - 1)[k].answerId, n - 1);
    } else {
      ScanNewRow(model, tok, x0, n, k);
      NewAnswerFirstCandidate(model, tok, x0, n);
    }
  }

  /** Row k of the table is the record of the first candidate that
      produced its answer. */
  lemma {:induction false} ScanRowFirstCandidate(model: LanguageModel, tok: Tokenizer, x0: seq<int>, n: nat, k: nat)
    requires k < |Scan(model, tok, x0, n)|
    ensures FirstCandidate(model, x0, Scan(model, tok, x0, n)[k].answerId, n) < n
    ensures Scan(model, tok, x0, n)[k] == Record(model, tok, x0, FirstCandidate(model, x0, Scan(model, tok, x0, n)[k].answerId, n))
  {
    if k < |Scan(model, tok, x0, n - 1)| {
      ScanKeepsRows(model, tok, x0, n, k);
      ScanRowFirstCandidate(model, tok, x0, n - 1, k);
      FirstCandidateStable(model, x0, Scan(model, tok, x0, n - 1)[k].answerId, n - 1);
    } else {
      ScanNewRow(model, tok, x0, n, k);
      NewAnswerFirstCandidate(model, tok, x0, n);
    }
  }

  /** Every row of the table is the record of the first candidate that
      produced its answer, and that candidate was scanned. */
  lemma ScanRowsFromFirstCandidate(model: LanguageModel, tok: Tokenizer, x0: seq<int>, n: nat)
    ensures forall k :: 0 <= k < |Scan(model, tok, x0, n)| ==>
        && FirstCandidate(model, x0, Scan(model, tok, x0, n)[k].answerId, n) < n
        && Scan(model, tok, x0, n)[k] == Record(model, tok, x0, FirstCandidate(model, x0, Scan(model, tok, x0, n)[k].answerId, n))
  {
    forall k | 0 <= k < |Scan(model, tok, x0, n)|
      ensures FirstCandidate(model, x0, Scan(model, tok, x0, n)[k].answerId, n) < n
      ensures Scan(model, tok, x0, n)[k] == Record(model, tok, x0, FirstCandidate(model, x0, Scan(model, tok, x0, n)[k].answerId, n))
    {
      ScanRowFirstCandidate(model, tok, x0, n, k);
    }
  }

  /** An answer is in the table exactly when some candidate below n
      produces it. */
  lemma ScanHoldsAnswer(model: LanguageModel, tok: Tokenizer, x0: seq<int>, n: nat, a: int)
    ensures a in AnswerColumn(Scan(model, tok, x0, n)) <==> a in ReachableAnswers(model, x0, n)
  {
    var table := Scan(model, tok, x0, n);
    if a in AnswerColumn(table) {
      var k :| 0 <= k < |table| && AnswerColumn(table)[k] == a;
      ScanRowFirstCandidateBelow(model, tok, x0, n, k);
      FirstCandidateIsLeast(model, x0, a, n);
      assert Prediction(model, x0, FirstCandidate(model, x0, a, n)) == a;
    }
    if a in ReachableAnswers(model, x0, n) {
      var i :| 0 <= i < n && Prediction(model, x0, i) == a;
      ScanComplete(model, tok, x0, n);
    }
  }

  /** Every answer in the table is produced by some candidate (soundness),
      so the answer column holds exactly the reachable answers. */
  lemma ScanAnswersAreReachable(model: LanguageModel, tok: Tokenizer, x0: seq<int>, n: nat)
    ensures forall a :: a in AnswerColumn(Scan(model, tok, x0, n)) <==> a in ReachableAnswers(model, x0, n)
  {
    forall a
      ensures a in AnswerColumn(Scan(model, tok, x0, n)) <==> a in ReachableAnswers(model, x0, n)
    {
      ScanHoldsAnswer(model, tok, x0, n, a);
    }
  }

  /** Rows j < k of the table were first produced by candidates in the
      same order. */
  lemma {:induction false} ScanRowsOrdered(model: LanguageModel, tok: Tokenizer, x0: seq<int>, n: nat, j: nat, k: nat)
    requires j < k < |Scan(model, tok, x0, n)|
    ensures FirstCandidate(model, x0, Scan(model, tok, x0, n)[j].answerId, n) < FirstCandidate(model, x0, Scan(model, tok, x0, n)[k].answerId, n)
  {
    if k < |Scan(model, tok, x0, n - 1)| {
      ScanRowsOrdered(model, tok, x0, n - 1, j, k);
      OldRowsOrdered(model, tok, x0, n, j, k);
    } else {
      NewRowOrdered(model, tok, x0, n, j, k);
    }
  }

  /** Two rows already in the table keep their order when candidate
      n - 1 is scanned. */
  lemma OldRowsOrdered(model: LanguageModel, tok: Tokenizer, x0: seq<int>, n: nat, j: nat, k: nat)
    requires n > 0 && j < k < |Scan(model, tok, x0, n - 1)|
    requires FirstCandidate(model, x0, Scan(model, tok, x0, n - 1)[j].answerId, n - 1) < FirstCandidate(model, x0, Scan(model, tok, x0, n - 1)[k].answerId, n - 1)
    ensures k < |Scan(model, tok, x0, n)|
    ensures FirstCandidate(model, x0, Scan(model, tok, x0, n)[j].answerId, n) < FirstCandidate(model, x0, Scan(model, tok, x0, n)[k].answerId, n)
  {
    ScanKeepsRows(model, tok, x0, n, j);
    ScanKeepsRows(model, tok, x0, n, k);
    ScanRowFirstCandidateBelow(model, tok, x0, n - 1, j);
    ScanRowFirstCandidateBelow(model, tok, x0, n - 1, k);
    FirstCandidateStable(model, x0, Scan(model, tok, x0, n - 1)[j].answerId, n - 1);
    FirstCandidateStable(model, x0, Scan(model, tok, x0, n - 1)[k].answerId, n - 1);
  }

  /** A row added by candidate n - 1 comes after every earlier row. */
  lemma NewRowOrdered(model: LanguageModel, tok: Tokenizer, x0: seq<int>, n: nat, j: nat, k: nat)
    requires n > 0 && j < |Scan(model, tok, x0, n - 1)| <= k < |Scan(model, tok, x0, n)|
    ensures FirstCandidate(model, x0, Scan(model, tok, x0, n)[j].answerId, n) < FirstCandidate(model, x0, Scan(model, tok, x0, n)[k].answerId, n)
  {
    ScanKeepsRows(model, tok, x0, n, j);
    ScanRowFirstCandidateBelow(model, tok, x0, n - 1, j);
    FirstCandidateStable(model, x0, Scan(model, tok, x0, n - 1)[j].answerId, n - 1);
    NewRowFirstCandidate(model, tok, x0, n, k);
  }

  /** A row added by candidate n - 1 was first produced by it. */
  lemma NewRowFirstCandidate(model: LanguageModel, tok: Tokenizer, x0: seq<int>, n: nat, k: nat)
    requires n > 0 && |Scan(model, tok, x0, n - 1)| <= k < |Scan(model, tok, x0, n)|
    ensures FirstCandidate(model, x0, Scan(model, tok, x0, n)[k].answerId, n) == n - 1
  {
    ScanNewRow(model, tok, x0, n, k);
    NewAnswerFirstCandidate(model, tok, x0, n);
  }

  /** Rows appear in ascending order of the first candidate that produced
      them (discovery order). */
  lemma ScanDiscoveryOrder(model: LanguageModel, tok: Tokenizer, x0: seq<int>, n: nat)
    ensures forall j, k :: 0 <= j < k < |Scan(model, tok, x0, n)| ==>
        FirstCandidate(model, x0, Scan(model, tok, x0, n)[j].answerId, n) < FirstCandidate(model, x0, Scan(model, tok, x0, n)[k].answerId, n)
  {
    forall j, k | 0 <= j < k < |Scan(model, tok, x0, n)|
      ensures FirstCandidate(model, x0, Scan(model, tok, x0, n)[j].answerId, n) < FirstCandidate(model, x0, Scan(model, tok, x0, n)[k].answerId, n)
    {
      ScanRowsOrdered(model, tok, x0, n, j, k);
    }
  }

  /** One more candidate adds its prediction to the reachable answers. */
  lemma ReachableStep(model: LanguageModel, x0: seq<int>, n: nat)
    ensures ReachableAnswers(model, x0, n + 1) == ReachableAnswers(model, x0, n) + {Prediction(model, x0, n)}
  {
    var before, after := ReachableAnswers(model, x0, n), ReachableAnswers(model, x0, n + 1);
    forall a | a in after
      ensures a in before + {Prediction(model, x0, n)}
    {
      var i :| 0 <= i < n + 1 && Prediction(model, x0, i) == a;
      if i < n {
        assert a in before;
      }
    }
  }

  /** The table has exactly one row per distinct reachable answer. */
  lemma {:induction false} ScanRowCount(model: LanguageModel, tok: Tokenizer, x0: seq<int>, n: nat)
    ensures |Scan(model, tok, x0, n)| == |ReachableAnswers(model, x0, n)|
  {
    if n == 0 {
      assert ReachableAnswers(model, x0, 0) == {};
    } else {
      ScanRowCount(model, tok, x0, n - 1);
      var table := Scan(model, tok, x0, n - 1);
      var a := Prediction(model, x0, n - 1);
      var before := ReachableAnswers(model, x0, n - 1);
      ScanHoldsAnswer(model, tok, x0, n - 1, a);
      ReachableStep(model, x0, n - 1);
      if a in AnswerColumn(table) {
        assert before + {a} == before;
        assert Scan(model, tok, x0, n) == table;
      } else {
        assert Scan(model, tok, x0, n) == table + [Record(model, tok, x0, n - 1)];
        assert |before + {a}| == |before| + 1;
      }
    }
  }

  /** The fixed fields of every row, and base_correct holds exactly when
      the row's answer is the unprompted prediction. */
  lemma ScanRowFields(model: LanguageModel, tok: Tokenizer, x0: seq<int>, n: nat)
    ensures forall k :: 0 <= k < |Scan(model, tok, x0, n)| ==>
        && Scan(model, tok, x0, n)[k].promptCorrect
        && Scan(model, tok, x0, n)[k].promptLength == 1
        && Scan(model, tok, x0, n)[k].searchMethod == "forward"
        && Scan(model, tok, x0, n)[k].questionLength == |x0|
        && Scan(model, tok, x0, n)[k].questionIds == x0
        && Scan(model, tok, x0, n)[k].question == tok.decode(x0)
        && Scan(model, tok, x0, n)[k].answer == tok.decode([Scan(model, tok, x0, n)[k].answerId])
        && (Scan(model, tok, x0, n)[k].baseCorrect <==> Scan(model, tok, x0, n)[k].answerId == model.predict(x0))
  {
    ScanRowsFromFirstCandidate(model, tok, x0, n);
  }

  /** At most one row is base_correct, and one is exactly when the
      unprompted prediction is reachable. */
  lemma BaseCorrectRow(model: LanguageModel, tok: Tokenizer, x0: seq<int>, n: nat)
    ensures forall j, k :: 0 <= j < |Scan(model, tok, x0, n)| && 0 <= k < |Scan(model, tok, x0, n)| && Scan(model, tok, x0, n)[j].baseCorrect && Scan(model, tok, x0, n)[k].baseCorrect ==> j == k
    ensures (exists k :: 0 <= k < |Scan(model, tok, x0, n)| && Scan(model, tok, x0, n)[k].baseCorrect) <==> model.predict(x0) in ReachableAnswers(model, x0, n)
  {
    var table := Scan(model, tok, x0, n);
    ScanRowFields(model, tok, x0, n);
    ScanAnswersDistinct(model, tok, x0, n);
    ScanAnswersAreReachable(model, tok, x0, n);
    if model.predict(x0) in ReachableAnswers(model, x0, n) {
      var k :| 0 <= k < |table| && AnswerColumn(table)[k] == model.predict(x0);
      assert table[k].baseCorrect;
    }
    forall j, k | 0 <= j < |table| && 0 <= k < |table| && table[j].baseCorrect && table[k].baseCorrect
      ensures j == k
    {
      assert table[j].answerId == model.predict(x0) == table[k].answerId;
    }
  }

  /** A model that predicts the same token c whatever its input yields a
      single row, for c, which is base_correct and prompt_correct. */
  lemma ConstantModelReachesOneAnswer(model: LanguageModel, tok: Tokenizer, x0: seq<int>, n: nat, c: int)
    requires n >= 1
    requires forall s :: model.predict(s) == c
    ensures |Scan(model, tok, x0, n)| == 1
    ensures Scan(model, tok, x0, n)[0].answerId == c
    ensures Scan(model, tok, x0, n)[0].baseCorrect && Scan(model, tok, x0, n)[0].promptCorrect
  {
    assert Prediction(model, x0, 0) == c;
    assert ReachableAnswers(model, x0, n) == {c};
    ScanRowCount(model, tok, x0, n);
    ScanAnswersAreReachable(model, tok, x0, n);
    ScanRowFields(model, tok, x0, n);
    assert AnswerColumn(Scan(model, tok, x0, n))[0] in ReachableAnswers(model, x0, n);
  }

  /** The search tries exactly the brute-force candidate prompts: scoring
      them all against the question in one batch gives, in row i, the
      prediction the search computes for candidate i. */
  lemma ScanCandidatesAreBruteForcePrompts(model: LanguageModel, x0: seq<int>, vocabSize: nat)
    requires vocabSize >= 1
    ensures Answers.AnswerIds(Answers.BruteForcePrompts(vocabSize), [x0], model)
         == Success(seq(vocabSize, i => Prediction(model, x0, i)))
  {
    var r := Answers.AnswerIds(Answers.BruteForcePrompts(vocabSize), [x0], model);
    assert r.value == seq(vocabSize, i => Prediction(model, x0, i));
  }

  /** The reachable-set search. It refuses max_prompt_tokens != 1 before
      any model call; otherwise it makes one unprompted call and one call
      per vocabulary id, and returns the scanned table. `calls` counts the
      model's forward passes. */
  method ReachableSet(x0: seq<int>, model: LanguageModel, tok: Tokenizer, maxPromptTokens: int)
    returns (r: Result<seq<Row>>, ghost calls: nat)
    ensures maxPromptTokens != 1 ==> r == Failure(NotImplemented)
    ensures maxPromptTokens == 1 ==> r == Success(Scan(model, tok, x0, tok.vocabSize))
    ensures calls == if maxPromptTokens == 1 then tok.vocabSize + 1 else 0
  {
    calls := 0;
    if maxPromptTokens != 1 {
      return Failure(NotImplemented), calls;
    }
    var baseAnswerId := model.predict(x0);
    calls := calls + 1;
    var question := tok.decode(x0);
    var table: seq<Row> := [];
    for i := 0 to tok.vocabSize
      invariant table == Scan(model, tok, x0, i)
      invariant calls == i + 1
    {
      var input := [i] + x0;
      var answerId := model.predict(input);
      calls := calls + 1;
      if answerId in AnswerColumn(table) {
        continue;
      }
      var baseLoss := model.loss(x0, answerId);
      var promptedLoss := model.loss(input, answerId);
      var row := Row(question, x0, tok.decode([answerId]), answerId, baseLoss, "forward", 1,
                     promptedLoss, baseAnswerId == answerId, true, |x0|);
      table := table + [row];
    }
    return Success(table), calls;
  }
}
