/**
  How the three stages fit together. The judge script
  (code/call_llm_and_collect_answers.py, lines 58-77) copies each prompt
  record and adds an `answer` key, `None` and an `error` key when the call
  failed. The model takes the answer text as a parameter and does not call
  the judge.
 */
module Pipeline {
  import opened Wrappers
  import opened Tables
  import opened Json
  import opened AnswerParser
  import opened TeamPairs
  import opened Prompts
  import opened TrainingData

  /** What the judge script writes for one prompt record: `{**rec, "answer": answer}`,
      or `{**rec, "answer": None, "error": ...}` when `answer` is `None`. */
  function AnswerObject(rec: PromptRecord, answer: Option<string>, error: string): map<string, JsonValue>
  {
    var base := map["pair_id" := JString(rec.pairId), "prompt_type" := JString(PromptTypeName(rec.promptType)),
                     "teamA" := JString(rec.teamA), "teamB" := JString(rec.teamB),
                     "prompt" := JString(rec.prompt)];
    match answer
    case Some(a) => base["answer" := JString(a)]
    case None => base["answer" := JNull]["error" := JString(error)]
  }

  /** The identifier and question type the label reader finds in the judge's record. */
  lemma AnswerObjectType(rec: PromptRecord, answer: Option<string>, error: string)
    ensures Get(AnswerObject(rec, answer, error), "pair_id") == JString(rec.pairId)
    ensures QuestionTypeOf(AnswerObject(rec, answer, error)) == JString(PromptTypeName(rec.promptType))
  {
    var obj := AnswerObject(rec, answer, error);
    assert Get(obj, "type") == JNull;
    assert Get(obj, "prompt_type") == JString(PromptTypeName(rec.promptType));
    assert Truthy([Get(obj, "type"), Get(obj, "prompt_type"), Get(obj, "question_type")][1]);
  }

  /** The answer text the label reader finds: the answer, or null when the
      call failed or answered nothing. */
  lemma AnswerObjectText(rec: PromptRecord, answer: Option<string>, error: string)
    ensures AnswerTextOf(AnswerObject(rec, answer, error)) ==
              if answer.Some? && answer.value != "" then JString(answer.value) else JNull
  {
    var obj := AnswerObject(rec, answer, error);
    if !(answer.Some? && answer.value != "") {
      assert Get(obj, "response") == JNull && Get(obj, "model_answer") == JNull && Get(obj, "content") == JNull;
    }
  }

  /** An answer to a generated prompt becomes a label row exactly when the
      prompt was a `better_offense` one. The row keeps the prompt's pair id. Its
      choice is read from the answer, and a failed call gives no choice. */
  lemma AnswerObjectLabel(rec: PromptRecord, answer: Option<string>, error: string)
    ensures LabelOf(AnswerObject(rec, answer, error)).Some? <==> rec.promptType == BetterOffense
    ensures LabelOf(AnswerObject(rec, answer, error)).Some? ==>
              var row := LabelOf(AnswerObject(rec, answer, error)).value;
              && row.pairId == JString(rec.pairId)
              && row.choice == (if answer.Some? && answer.value != "" then ExtractChoice(JString(answer.value)) else None)
  {
    AnswerObjectType(rec, answer, error);
    AnswerObjectText(rec, answer, error);
    assert PromptTypeName(StyleComparison) != BetterOffenseType by {
      assert PromptTypeName(StyleComparison)[0] != BetterOffenseType[0];
    }
  }

  /** The pair table stage 1 writes has the columns stages 2 and 3 require
      and always passes the `validate="m:1"` join, its pair ids being unique.
      A label for `PAIR_<k+1>` gets the teams of the k-th pair. */
  lemma CreatedPairsJoin(labels: seq<LabelRow>, pairs: seq<Pair>, ranked: seq<RankedTeam>)
    requires IsPairingOf(pairs, ranked)
    ensures MissingColumns(RequiredPairColumns, PairsTableOf(pairs).columns) == []
    ensures MissingColumns(["teamA", "teamB"], PairsTableOf(pairs).columns) == []
    ensures JoinLabels(labels, PairsTableOf(pairs)).Success?
    ensures forall i, k :: 0 <= i < |labels| && 0 <= k < |pairs| && labels[i].pairId == JString(PairId(k + 1)) ==>
              JoinLabels(labels, PairsTableOf(pairs)).value[i].teamA == Some(pairs[k].teamA) &&
              JoinLabels(labels, PairsTableOf(pairs)).value[i].teamB == Some(pairs[k].teamB)
  {
    PairIdsDistinct(pairs, ranked);
    var table := PairsTableOf(pairs);
    assert UniquePairIds(table.rows);
    var joined := JoinLabels(labels, table).value;
    forall i, k | 0 <= i < |labels| && 0 <= k < |pairs| && labels[i].pairId == JString(PairId(k + 1))
      ensures joined[i].teamA == Some(pairs[k].teamA) && joined[i].teamB == Some(pairs[k].teamB)
    {
      assert pairs[k] == PairAt(ranked, k);
      assert MatchesPair(labels[i].pairId, table.rows[k]);
    }
  }
}
