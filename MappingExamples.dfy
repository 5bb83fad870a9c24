/** The worked encounter carried through question mapping. */
module MappingExamples {
  import opened Outcomes
  import opened Text
  import opened Entities
  import opened Registry
  import opened Mapping

  lemma EncounterMentionsBreath()
    ensures MentionsBreath(ChestPainEncounter.symptoms)
  {
    var symptom := "shortness of breath";
    assert Lower(symptom) == symptom;
    OccurrenceContained(symptom, "breath", 13);
  }

  lemma EmbolismQuestionIds()
    ensures IsScenarioKey("chest_pain_pe") && QuestionIds("chest_pain_pe") == [101, 102, 103, 104]
  {
    assert Scenarios[3].key == "chest_pain_pe";
    KeysDistinct();
  }

  /** The encounter under the Pulmonary Embolism protocol: shortness of
      breath is answered "Yes" with confidence 1.0 and the age "54" with
      0.9, both marked for auto-fill; the gender, "not_stated", and the exam
      type, which has no rule, are omitted. */
  lemma EncounterAnswers()
    ensures IsScenarioKey("chest_pain_pe")
    ensures Answers(ChestPainEncounter, QuestionIds("chest_pain_pe")) == [
      AnswerRecord(101, Some("Is there shortness of breath?"), "Yes", 1.0, true),
      AnswerRecord(102, Some("Patient Age"), "54", 0.9, true)]
  {
    EmbolismQuestionIds();
    EncounterMentionsBreath();
    var ids := [101, 102, 103, 104];
    assert ids[1..][1..][1..][1..] == [];
  }
}
