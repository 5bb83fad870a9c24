/** Question mapping (`ClinicalLogicEngine.map_entities_to_questions`):
    walk the question ids of the detected scenario in order, answer each by
    its hand-coded rule, and keep the answers that are present and not the
    "not_stated" sentinel. */
module Mapping {
  import opened Outcomes
  import opened Text
  import opened Entities
  import opened Registry

  /** Answers at or above this confidence are marked for auto-fill. */
  const AutoFillThreshold: real := 0.7

  /** One entry of the mapped answer list. `questionText` is None when the
      schema has no entry for the id. */
  datatype AnswerRecord = AnswerRecord(
    questionId: int,
    questionText: Option<string>,
    answer: string,
    confidence: real,
    autoFill: bool)

  /** `any("breath" in s.get("value", "").lower() for s in symptoms)`. */
  function MentionsBreath(symptoms: seq<Fact>): (b: bool)
    ensures b <==> exists i :: 0 <= i < |symptoms| && Contains(Lower(symptoms[i].value), "breath")
    decreases |symptoms|
  {
    if symptoms == [] then false
    else Contains(Lower(symptoms[0].value), "breath") || MentionsBreath(symptoms[1..])
  }

  /** The answer and confidence the rules give question `id`. An absent
      answer (Python's None, or a missing demographics value) is "". */
  function Resolve(e: EntityRecord, id: int): (r: (string, real))
    ensures id == 101 && MentionsBreath(e.symptoms) ==> r == ("Yes", 1.0)
    ensures id == 101 && !MentionsBreath(e.symptoms) ==> r == ("", 0.0)
    ensures id == 102 ==> r == (e.demographics.age.value, e.demographics.age.confidence)
    ensures id == 103 ==> r == (e.demographics.gender.value, e.demographics.gender.confidence)
    ensures id !in {101, 102, 103} ==> r.0 == ""
  {
    if id == 101 then
      if MentionsBreath(e.symptoms) then ("Yes", 1.0) else ("", 0.0)
    else if id == 102 then
      (e.demographics.age.value, e.demographics.age.confidence)
    else if id == 103 then
      (e.demographics.gender.value, e.demographics.gender.confidence)
    else
      ("", 0.0)
  }

  /** `answer and answer != "not_stated"`. */
  predicate Emittable(answer: string) {
    answer != "" && answer != NotStated
  }

  /** The record emitted for question `id` with the given answer. */
  function Record(id: int, answer: string, conf: real): AnswerRecord {
    AnswerRecord(id, QuestionText(id), answer, conf, conf >= AutoFillThreshold)
  }

  /** What the mapping emits for a single question id. */
  function AnswerFor(e: EntityRecord, id: int): seq<AnswerRecord> {
    var (answer, conf) := Resolve(e, id);
    if Emittable(answer) then [Record(id, answer, conf)] else []
  }

  /** The answers emitted for a list of question ids, in list order. */
  function Answers(e: EntityRecord, ids: seq<int>): seq<AnswerRecord>
    decreases |ids|
  {
    if ids == [] then [] else AnswerFor(e, ids[0]) + Answers(e, ids[1..])
  }

  /** Mapping a concatenation of id lists concatenates the answers. */
  lemma {:induction false} AnswersAppend(e: EntityRecord, a: seq<int>, b: seq<int>)
    ensures Answers(e, a + b) == Answers(e, a) + Answers(e, b)
    decreases |a|
  {
    if a != [] {
      assert (a + b)[0] == a[0] && (a + b)[1..] == a[1..] + b;
      AnswersAppend(e, a[1..], b);
    } else {
      assert a + b == b;
    }
  }

  /** The per-question rules of the mapping loop: the answer starts absent
      with confidence 0.0 and the rule for the id, if any, overwrites both. */
  method AnswerQuestion(e: EntityRecord, id: int) returns (answer: string, conf: real)
    ensures (answer, conf) == Resolve(e, id)
  {
    answer := "";
    conf := 0.0;
    if id == 101 {
      if MentionsBreath(e.symptoms) {
        answer := "Yes";
        conf := 1.0;
      }
    } else if id == 102 {
      answer := e.demographics.age.value;
      conf := e.demographics.age.confidence;
    } else if id == 103 {
      answer := e.demographics.gender.value;
      conf := e.demographics.gender.confidence;
    }
  }

  /** The loop of `map_entities_to_questions` over a question id list:
      answer each id in order and append the emittable answers. */
  method MapQuestionIds(e: EntityRecord, ids: seq<int>) returns (mapped: seq<AnswerRecord>)
    ensures mapped == Answers(e, ids)
  {
    mapped := [];
    for i := 0 to |ids|
      invariant mapped == Answers(e, ids[..i])
    {
      var id := ids[i];
      assert ids[..i + 1] == ids[..i] + [id];
      AnswersAppend(e, ids[..i], [id]);
      var answer, conf := AnswerQuestion(e, id);
      if answer != "" && answer != NotStated {
        mapped := mapped + [AnswerRecord(id, QuestionText(id), answer, conf, conf >= AutoFillThreshold)];
      }
    }
    assert ids[..|ids|] == ids;
  }

  /** `map_entities_to_questions`: "unknown" maps to no answers; otherwise
      the scenario's question ids are mapped in order. A key outside the
      registry raises KeyError in the source, so callers pass "unknown" or
      a registered key. */
  method MapEntitiesToQuestions(e: EntityRecord, scenario: string) returns (mapped: seq<AnswerRecord>)
    requires scenario == Unknown || IsScenarioKey(scenario)
    ensures scenario == Unknown ==> mapped == []
    ensures scenario != Unknown ==> mapped == Answers(e, QuestionIds(scenario))
  {
    if scenario == Unknown {
      return [];
    }
    mapped := MapQuestionIds(e, QuestionIds(scenario));
  }

  /** Every emitted record answers one of the listed questions with the
      answer its rule gives, that answer is present and not "not_stated",
      the text is the schema's, and auto-fill holds exactly when the
      confidence reaches the inclusive 0.7 bound. */
  lemma {:induction false} AnswersSound(e: EntityRecord, ids: seq<int>, r: AnswerRecord)
    requires r in Answers(e, ids)
    ensures r.questionId in ids
    ensures Emittable(r.answer) && r.answer != ""
    ensures (r.answer, r.confidence) == Resolve(e, r.questionId)
    ensures r.questionText == QuestionText(r.questionId)
    ensures r.autoFill <==> r.confidence >= 0.7
    decreases |ids|
  {
    if r !in AnswerFor(e, ids[0]) {
      AnswersSound(e, ids[1..], r);
    }
  }

  /** Every listed question whose rule gives an emittable answer is
      answered. */
  lemma {:induction false} AnswersComplete(e: EntityRecord, ids: seq<int>, id: int)
    requires id in ids && Emittable(Resolve(e, id).0)
    ensures Record(id, Resolve(e, id).0, Resolve(e, id).1) in Answers(e, ids)
    decreases |ids|
  {
    if ids[0] != id {
      AnswersComplete(e, ids[1..], id);
    }
  }

  /** The question ids of a list of records. */
  function IdsOf(records: seq<AnswerRecord>): (ids: seq<int>)
    ensures |ids| == |records|
    ensures forall k :: 0 <= k < |records| ==> ids[k] == records[k].questionId
  {
    seq(|records|, k requires 0 <= k < |records| => records[k].questionId)
  }

  /** `xs` is `ys` with some elements deleted, the rest kept in order. */
  predicate IsSubsequence(xs: seq<int>, ys: seq<int>)
    decreases |ys|
  {
    if xs == [] then true
    else if ys == [] then false
    else if xs[0] == ys[0] then IsSubsequence(xs[1..], ys[1..])
    else IsSubsequence(xs, ys[1..])
  }

  lemma {:induction false} SubsequenceShorter(xs: seq<int>, ys: seq<int>)
    requires IsSubsequence(xs, ys)
    ensures |xs| <= |ys|
    decreases |ys|
  {
    if xs != [] && ys != [] {
      if xs[0] == ys[0] {
        SubsequenceShorter(xs[1..], ys[1..]);
      } else {
        SubsequenceShorter(xs, ys[1..]);
      }
    }
  }

  /** The answered ids appear in the order of the question list, each at
      most once per occurrence there, so there are never more answers than
      questions. */
  lemma {:induction false} AnswersInOrder(e: EntityRecord, ids: seq<int>)
    ensures IsSubsequence(IdsOf(Answers(e, ids)), ids)
    ensures |Answers(e, ids)| <= |ids|
    decreases |ids|
  {
    if ids != [] {
      AnswersInOrder(e, ids[1..]);
      var rest := Answers(e, ids[1..]);
      if AnswerFor(e, ids[0]) != [] {
        assert IdsOf(AnswerFor(e, ids[0]) + rest) == [ids[0]] + IdsOf(rest);
      } else {
        assert Answers(e, ids) == rest;
        SubsequenceOfTail(IdsOf(rest), ids);
      }
      SubsequenceShorter(IdsOf(Answers(e, ids)), ids);
    }
  }

  /** A subsequence of the tail of a list is a subsequence of the list. */
  lemma {:induction false} SubsequenceOfTail(xs: seq<int>, ys: seq<int>)
    requires ys != [] && IsSubsequence(xs, ys[1..])
    ensures IsSubsequence(xs, ys)
    decreases |ys|, 1
  {
    if xs != [] && xs[0] == ys[0] {
      DropFirst(xs, ys[1..]);
    }
  }

  /** Dropping the first element of a subsequence keeps it a subsequence. */
  lemma {:induction false} DropFirst(xs: seq<int>, zs: seq<int>)
    requires xs != [] && IsSubsequence(xs, zs)
    ensures IsSubsequence(xs[1..], zs)
    decreases |zs|, 2
  {
    if xs[0] == zs[0] {
      SubsequenceOfTail(xs[1..], zs);
    } else {
      DropFirst(xs, zs[1..]);
      SubsequenceOfTail(xs[1..], zs);
    }
  }

  /** Only questions 101, 102 and 103 have a rule; a list without them is
      never answered. */
  lemma {:induction false} UnansweredIds(e: EntityRecord, ids: seq<int>)
    requires forall k :: 0 <= k < |ids| ==> ids[k] !in {101, 102, 103}
    ensures Answers(e, ids) == []
    decreases |ids|
  {
    if ids != [] {
      UnansweredIds(e, ids[1..]);
    }
  }

  /** Only the Pulmonary Embolism protocol asks questions that have a rule,
      so every other registered scenario maps to no answers. */
  lemma OnlyEmbolismAnswers(e: EntityRecord, i: nat)
    requires i < |Scenarios| && Scenarios[i].key != "chest_pain_pe"
    ensures Answers(e, Scenarios[i].questionIds) == []
  {
    if i == 0 {
      UnansweredIds(e, Scenarios[0].questionIds);
    } else if i == 1 {
      UnansweredIds(e, Scenarios[1].questionIds);
    } else {
      UnansweredIds(e, Scenarios[2].questionIds);
    }
  }

  /** A document without any of the expected keys answers nothing: no
      symptom mentions breath and both demographics values are absent. */
  lemma {:induction false} NoEntitiesNoAnswers(ids: seq<int>)
    ensures Answers(NoEntities, ids) == []
    decreases |ids|
  {
    if ids != [] {
      NoEntitiesNoAnswers(ids[1..]);
    }
  }
}
