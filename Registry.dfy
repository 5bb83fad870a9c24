/** The two static tables of the clinical logic: the scenario registry, in
    declaration order, and the question schema. Both are constants. */
module Registry {
  import opened Outcomes

  /** The scenario tag returned when no scenario has any keyword evidence. */
  const Unknown: string := "unknown"

  datatype Scenario = Scenario(
    key: string,
    name: string,
    questionIds: seq<int>,
    keywords: seq<string>)

  datatype QuestionType = Demographic | Boolean | Integer | Text

  datatype Question = Question(text: string, kind: QuestionType)

  /** QUESTION_REGISTRY, in the order its entries are declared (which is the
      order a Python dict iterates them). */
  const Scenarios: seq<Scenario> := [
    Scenario("fever_respiratory", "Fever & Respiratory",
             [1, 5, 7, 12],
             ["cough", "sore throat", "fever", "breath", "respiratory"]),
    Scenario("abdominal_pain", "Abdominal Pain",
             [2, 8, 15, 20],
             ["stomach", "abdominal", "belly", "pain", "vomit"]),
    Scenario("headache", "Headache",
             [3, 9, 14],
             ["headache", "migraine", "head"]),
    Scenario("chest_pain_pe", "Pulmonary Embolism (PE) Protocol",
             [101, 102, 103, 104],
             ["pe", "chest", "pulmonary", "embolism", "shortness of breath"])
  ]

  /** QUESTION_SCHEMA. */
  const Schema: map<int, Question> := map[
    1 := Question("What is the patient's age?", Demographic),
    5 := Question("Is fever present?", Boolean),
    7 := Question("Is cough present?", Boolean),
    101 := Question("Is there shortness of breath?", Boolean),
    102 := Question("Patient Age", Integer),
    103 := Question("Patient Gender", Text),
    104 := Question("Exam Type", Text)
  ]

  /** `key` names a registered scenario. */
  predicate IsScenarioKey(key: string) {
    exists i :: 0 <= i < |Scenarios| && Scenarios[i].key == key
  }

  /** Registry keys are distinct and none of them is the "unknown" tag, so
      a returned tag names at most one scenario. */
  lemma KeysDistinct()
    ensures forall i, j :: 0 <= i < j < |Scenarios| ==> Scenarios[i].key != Scenarios[j].key
    ensures forall i :: 0 <= i < |Scenarios| ==> Scenarios[i].key != Unknown
  {
  }

  /** Every scenario lists at least one keyword. */
  lemma KeywordsNonEmpty()
    ensures forall i :: 0 <= i < |Scenarios| ==> |Scenarios[i].keywords| > 0
  {
  }

  /** The position of `key` in the registry, searching from `from` on. */
  function IndexFrom(key: string, from: nat): (i: nat)
    requires exists k :: from <= k < |Scenarios| && Scenarios[k].key == key
    ensures from <= i < |Scenarios| && Scenarios[i].key == key
    decreases |Scenarios| - from
  {
    if Scenarios[from].key == key then from else IndexFrom(key, from + 1)
  }

  /** `QUESTION_REGISTRY[key]["question_ids"]`; a key outside the registry
      raises KeyError in the source, so callers must pass a registered one. */
  function QuestionIds(key: string): (ids: seq<int>)
    requires IsScenarioKey(key)
    ensures exists i :: 0 <= i < |Scenarios| && Scenarios[i].key == key && Scenarios[i].questionIds == ids
  {
    Scenarios[IndexFrom(key, 0)].questionIds
  }

  /** `QUESTION_SCHEMA.get(id, {}).get("text")`: the display text, or None
      when the schema has no entry for the id. */
  function QuestionText(id: int): (text: Option<string>)
    ensures text.Some? <==> id in Schema
    ensures text.Some? ==> text.value == Schema[id].text
  {
    if id in Schema then Some(Schema[id].text) else None
  }
}
