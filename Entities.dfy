/** The entity document that the extraction step hands to the clinical
    logic. A key the document lacks reads as the default that the logic's
    `.get` calls supply: an empty value (or `None` for a demographics value,
    written here as the empty value), confidence 0.0, no symptoms. A `null`
    demographics value is falsy and is written as the empty value. A `null`
    complaint or symptom value has no representation here, because the
    logic raises on it; so does a `null` demographics confidence whose
    answer is emitted. A confidence that no operation reads may be any real. */
module Entities {

  /** The sentinel the extractor writes for a fact the transcript does not
      state. */
  const NotStated: string := "not_stated"

  /** One extracted fact: its text and the extractor's confidence in it. */
  datatype Fact = Fact(value: string, confidence: real)

  datatype Demographics = Demographics(age: Fact, gender: Fact)

  /** chief_complaint, symptoms, duration, severity and demographics. The
      source phrase the extractor quotes beside each fact is not kept. The
      complaint and symptom confidences, `duration` and `severity` are
      carried but no operation of the logic reads them. */
  datatype EntityRecord = EntityRecord(
    chiefComplaint: Fact,
    symptoms: seq<Fact>,
    duration: Fact,
    severity: Fact,
    demographics: Demographics)

  /** A fact whose key is missing from the document. */
  const Missing: Fact := Fact("", 0.0)

  /** The record the logic sees when the document has none of the expected
      keys, as happens with the extraction step's error record
      `{"error": ..., "raw": ...}`. */
  const NoEntities: EntityRecord :=
    EntityRecord(Missing, [], Missing, Missing, Demographics(Missing, Missing))

  /** The values of the symptom list, in extraction order. */
  function SymptomValues(symptoms: seq<Fact>): (values: seq<string>)
    ensures |values| == |symptoms|
    ensures forall i :: 0 <= i < |symptoms| ==> values[i] == symptoms[i].value
  {
    seq(|symptoms|, i requires 0 <= i < |symptoms| => symptoms[i].value)
  }

  /** A worked encounter: chest pain with shortness of breath in a patient
      aged 54 whose gender the transcript does not state. */
  const ChestPainEncounter: EntityRecord :=
    EntityRecord(
      Fact("chest pain", 0.95),
      [Fact("shortness of breath", 0.9)],
      Missing,
      Missing,
      Demographics(Fact("54", 0.9), Fact(NotStated, 0.0)))
}
