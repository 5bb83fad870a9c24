# Clinical intake reasoning core, in Dafny

This project models the reasoning layer of a clinical voice-intake pipeline.
The pipeline turns a recorded patient encounter into answers to a fixed
questionnaire. The model covers four parts:

- **Scenario registry and question schema** (`Registry.dfy`). There are four
  clinical scenarios, listed in declaration order. Each has a key, a display
  name, an ordered list of question ids and a list of keywords. The schema
  maps question ids to their display text and answer type.
- **Scenario detection** (`Detection.dfy`).
  - The chief complaint and the symptom values are joined with spaces and
    lower-cased to form the corpus.
  - Each scenario gets a count of how many of its keywords occur in the
    corpus as substrings.
  - The first scenario with the strictly largest non-zero count wins. When
    every count is zero the result is `"unknown"`.
  - `DetectScenario` is the registry scan, written as a loop. It is proved
    against `FirstBest` and `NoEvidence`.
- **Question mapping** (`Mapping.dfy`).
  - Each question id of the detected scenario is answered by its own rule:
    - question 101: "Yes" with confidence 1.0 when a symptom mentions
      "breath";
    - questions 102 and 103: the age and gender values and their
      confidences.
  - Only answers that are present and not `"not_stated"` are kept.
  - A kept answer gets the schema text and an auto-fill flag for
    confidence >= 0.7.
  - `MapEntitiesToQuestions` and `MapQuestionIds` are the loop. They are
    proved against the specification function `Answers`.
- **Transcript cleaning** (`Transcript.dfy`).
  - The speech recogniser's placeholder tokens (`{period}`, `{comma}`, …)
    are replaced by punctuation, matched in any case.
  - Bracketed annotations (`\[.*?\]`, lazy, stopping at a line feed) are
    deleted.
  - Runs of whitespace are collapsed to one space and the ends are stripped.
  - `CleanTranscript` is the loop over the replacement table, proved against
    `Clean`.
- **JSON span selection** (`JsonSpan.dfy`).
  - The greedy, dot-matches-newline pattern `\{.*\}` selects the text from
    the first `{` to the last `}`.
  - That span goes to a parser that may fail. The parser is a parameter.
  - The outcome is the parsed document, or an error record holding the
    message and the raw generated text.

Supporting modules:

- `Text.dfy`:
  - ASCII lower-casing;
  - Python's substring test `in`;
  - `" ".join`;
  - `re.sub(r"\s+", " ", s)`;
  - `str.strip()`.
- `Entities.dfy`: the entity document. A missing key reads as the source's
  `.get` default: `""` for a value (or `None` for the demographics values,
  which the model writes as `""`), `0.0` for a confidence and `[]` for the
  symptoms.
- `Outcomes.dfy`: `Option` and `Result`.

The `*Examples.dfy` files prove worked examples about these modules:

- the chest-pain encounter is detected as `chest_pain_pe` and answers
  questions 101 and 102;
- placeholders are replaced in any case;
- a bracket split across a placeholder is rejoined into a placeholder;
- a bracket that crosses a line feed is kept.

## Model

| member | source | states |
|---|---|---|
| Registry.QuestionIds | src/logic_engine.py:68 | the result is the question-id list of the registered scenario with that key |
| Registry.QuestionText | src/logic_engine.py:91 | the text is present exactly when the schema has the id, and then it is the schema's text |
| Registry.KeysDistinct | src/logic_engine.py:4-25 | registry keys are pairwise distinct and none is "unknown" |
| Registry.KeywordsNonEmpty | src/logic_engine.py:4-25 | every scenario lists at least one keyword |
| Text.ScanIffContains | src/logic_engine.py:53 | a left-to-right scan finds the keyword exactly when it occurs somewhere in the corpus |
| Detection.Corpus | src/logic_engine.py:44-47 | computes the chief complaint value, one space and the symptom values joined by single spaces, lower-cased as a whole |
| Detection.CorpusParts | src/logic_engine.py:44-47 | the corpus has no upper-case letter and contains the lower-cased chief complaint and every lower-cased symptom value |
| Detection.MatchCount | src/logic_engine.py:53 | the count is at most the number of keywords, is zero iff no keyword occurs, and is full iff every keyword occurs |
| Detection.DetectScenario | src/logic_engine.py:39-58 | "unknown" iff no scenario has evidence; otherwise the key of a scenario with non-zero evidence that no scenario beats and that every earlier scenario falls strictly short of; so the result is the tag `DetectedAs` assigns to the corpus |
| Detection.FirstBestUnique | src/logic_engine.py:52-56 | at most one scenario satisfies the strict-maximum, earliest-wins rule |
| Detection.DetectedAsFunctional | src/logic_engine.py:49-58 | a corpus determines a single detected tag, so ties always go to the earlier declaration |
| Detection.FullEvidenceWins | src/logic_engine.py:49-56 | full evidence for scenario k and none for earlier scenarios selects k when no later scenario lists more keywords |
| Detection.SentinelTextHasNoEvidence | src/logic_engine.py:52-53 | a corpus written only with the letters of "not_stated" and spaces contains no keyword of any scenario |
| Detection.SentinelCorpus | src/logic_engine.py:44-47 | a document whose complaint and symptoms are all "not_stated" or missing yields a corpus of those letters and spaces |
| Detection.NotStatedHasNoEvidence | src/logic_engine.py:44-58 | such a document gives every scenario a zero count, so detection says "unknown" |
| Detection.ErrorRecordIsUnknown | src/logic_engine.py:44-58 | a document with none of the expected keys is detected as "unknown" |
| DetectionExamples.MatchCountByFlags | src/logic_engine.py:53 | the keyword count equals the number of keywords found, counted flag by flag |
| DetectionExamples.LastLeads | src/logic_engine.py:52-56 | a last scenario that strictly out-counts all others is the one selected |
| DetectionExamples.EncounterPatternFirstBest | src/logic_engine.py:52-56 | on any corpus with the chest-pain encounter's keyword pattern, the embolism protocol wins with 2 matches against 1, 1 and 0 |
| DetectionExamples.ChestPainEncounterDetected | src/logic_engine.py:39-58 | "chest pain" plus the symptom "shortness of breath" is detected as chest_pain_pe |
| DetectionExamples.HeadacheOutweighed | src/logic_engine.py:15-24 | a corpus holding all three headache keywords and no earlier keyword still selects chest_pain_pe when four of its keywords occur |
| Mapping.MentionsBreath | src/logic_engine.py:75-76 | true iff some symptom value, lower-cased, contains "breath" |
| Mapping.Resolve | src/logic_engine.py:71-86 | 101 gives ("Yes", 1.0) when a symptom mentions breath and no answer otherwise; 102 and 103 copy the age and gender value and confidence; every other id gives no answer |
| Mapping.AnswerQuestion | src/logic_engine.py:71-86 | the per-id branch computes exactly the answer and confidence `Resolve` prescribes |
| Mapping.Emittable | src/logic_engine.py:88 | holds when the answer is truthy (non-empty) and is not "not_stated" |
| Mapping.Record | src/logic_engine.py:89-95 | builds the answer record: the id, the schema text for the id, the answer, the confidence, and auto-fill when the confidence is at least 0.7 |
| Mapping.AnswerFor | src/logic_engine.py:70-95 | one loop iteration: the record for the id when the rule's answer is emittable, and nothing otherwise |
| Mapping.Answers | src/logic_engine.py:70-95 | the records of the loop over a list of ids, in list order; `AnswersSound`, `AnswersComplete` and `AnswersInOrder` state what it contains |
| Mapping.MapQuestionIds | src/logic_engine.py:70-95 | the loop's output is `Answers` of the whole id list |
| Mapping.MapEntitiesToQuestions | src/logic_engine.py:60-97 | "unknown" maps to no answers; a registered key maps to `Answers` of its question ids |
| Mapping.AnswersAppend | src/logic_engine.py:70-95 | mapping a concatenation of id lists concatenates the answers |
| Mapping.AnswersSound | src/logic_engine.py:88-95 | every record answers a listed id with its rule's answer and confidence, the answer is non-empty and not "not_stated", the text is the schema's, and auto-fill holds iff confidence >= 0.7 |
| Mapping.AnswersComplete | src/logic_engine.py:88-95 | every listed id whose rule gives an emittable answer has its record in the output |
| Mapping.AnswersInOrder | src/logic_engine.py:70-95 | the answered ids are a subsequence of the question ids, so the order is kept and there are never more answers than questions |
| Mapping.UnansweredIds | src/logic_engine.py:74-88 | ids other than 101, 102 and 103 are never answered |
| Mapping.OnlyEmbolismAnswers | src/logic_engine.py:68-86 | every scenario other than chest_pain_pe maps to no answers, whatever the entities |
| Mapping.NoEntitiesNoAnswers | src/logic_engine.py:74-88 | a document with none of the expected keys answers no question |
| MappingExamples.EncounterMentionsBreath | src/logic_engine.py:75-76 | the symptom "shortness of breath" mentions breath |
| MappingExamples.EncounterAnswers | src/logic_engine.py:60-97 | the chest-pain encounter answers 101 with "Yes" at 1.0 and 102 with "54" at 0.9, both auto-filled, and omits the not-stated gender |
| Transcript.ReplacementsWellFormed | src/nlp_engine.py:33-41 | every placeholder pattern of the table is non-empty |
| Transcript.ReplaceToken | src/nlp_engine.py:45 | one case-insensitive `re.sub` of a literal placeholder: scanning left to right, each match is replaced and scanning resumes after it |
| Transcript.AnyCaseReplaced | src/nlp_engine.py:45 | a placeholder written in any mix of cases becomes its replacement |
| Transcript.NoTokenUnchanged | src/nlp_engine.py:45 | text in which the placeholder occurs nowhere is returned unchanged |
| Transcript.BraceTokenUnchanged | src/nlp_engine.py:45 | a placeholder that matches at no '{' of the text leaves it unchanged |
| Transcript.ReplaceTokenAfter | src/nlp_engine.py:45 | text before the first '{' is copied through a placeholder pass |
| Transcript.TokenGone | src/nlp_engine.py:45 | after a pass, the placeholder occurs nowhere in the output, for placeholders whose only '{' is the first character and whose replacement has no '{' and does not start with a character of the placeholder |
| Transcript.TableSelfClearing | src/nlp_engine.py:34-39 | all six placeholders of the table meet the conditions of `TokenGone` |
| Transcript.TablePassLeavesNone | src/nlp_engine.py:44-45 | each placeholder pass of the table leaves no occurrence of its own placeholder, in any case |
| Transcript.DeleteBrackets | src/nlp_engine.py:40-45 | the `re.sub` of the lazy bracket pattern: scanning left to right, each '[' that the lazy match closes is deleted through its ']'; any other character is kept |
| Transcript.CloseBracket | src/nlp_engine.py:40 | the lazy match ends at the first ']' with no ']' or line feed before it; there is no match when every later ']' has a line feed before it |
| Transcript.NoBracketUnchanged | src/nlp_engine.py:40 | text without '[' passes the bracket deletion unchanged |
| Transcript.DeleteBracketsAfter | src/nlp_engine.py:40 | text before the first '[' is copied through the bracket deletion |
| Transcript.CloseOnLaterLineKept | src/nlp_engine.py:40 | deletion keeps a line feed before every ']' when the input has one |
| Transcript.NoSpanAfterDelete | src/nlp_engine.py:40 | after deletion no '[' is followed by a ']' on the same line, so the pattern has nothing left to match |
| Transcript.ApplyRules | src/nlp_engine.py:43-45 | applies the passes of a rule table in table order, each to the output of the one before |
| Transcript.Clean | src/nlp_engine.py:43-47 | the table's passes, then the collapse of whitespace runs, then the strip |
| Transcript.CleanNormalised | src/nlp_engine.py:47 | the cleaned text has no whitespace run other than one space, no whitespace at either end, and no line feed |
| Transcript.CleanTranscript | src/nlp_engine.py:28-48 | the loop over the table followed by collapsing and stripping computes `Clean`, and the result is normalised |
| Transcript.UntouchedByRules | src/nlp_engine.py:43-45 | text with no placeholder in any case and no '[' passes every prefix of the table unchanged |
| Transcript.CleanFixedPoint | src/nlp_engine.py:28-48 | such text, when already single-spaced and stripped, is returned unchanged |
| Text.CollapseSpaces | src/nlp_engine.py:47 | `re.sub(r"\s+", " ", s)`: each maximal run of whitespace becomes one space |
| Text.Strip | src/nlp_engine.py:47 | `str.strip()`: leading and then trailing whitespace removed |
| Text.CollapseSpacesSingleSpaced | src/nlp_engine.py:47 | after collapsing, every whitespace character is a single space with no whitespace next to it |
| Text.StripNormalises | src/nlp_engine.py:47 | stripping single-spaced text leaves it single-spaced with no whitespace at either end |
| TranscriptExamples.TokensKeep | src/nlp_engine.py:43-45 | when every placeholder pass leaves a text alone, the table reduces to the bracket deletion |
| TranscriptExamples.DotClean | src/nlp_engine.py:28-48 | "." is cleaned to "." |
| TranscriptExamples.PlaceholderCleaned | src/nlp_engine.py:34 | "{period}" and "{PERIOD}" are both cleaned to "." |
| TranscriptExamples.SplitPlaceholderJoined | src/nlp_engine.py:34-45 | "{peri[x]od}" is cleaned to "{period}", because the bracket pass runs after the placeholder passes |
| TranscriptExamples.CleanNotIdempotent | src/nlp_engine.py:28-48 | cleaning twice can differ from cleaning once |
| TranscriptExamples.ParagraphBetween | src/nlp_engine.py:33-45 | in brace-free text around one "{new_paragraph}", the placeholder passes change only that placeholder, into a line feed, before the bracket pass |
| TranscriptExamples.LineBreakKeepsBracket | src/nlp_engine.py:40 | a '[' whose line ends before any ']' is not deleted by the lazy bracket pattern, which cannot cross a line feed |
| TranscriptExamples.BreakBetweenWords | src/nlp_engine.py:47 | a line feed between two whitespace-free words collapses to one space |
| TranscriptExamples.BracketAcrossLineKept | src/nlp_engine.py:38-47 | for any words a and b free of whitespace, brackets and '{', "[a{new_paragraph}b]" is cleaned to "[a b]": the line feed keeps the bracketed text and then becomes a space |
| JsonSpan.FirstIndex | src/nlp_engine.py:101 | absent iff the character does not occur; otherwise the position of its first occurrence |
| JsonSpan.LastIndex | src/nlp_engine.py:101 | absent iff the character does not occur; otherwise the position of its last occurrence |
| JsonSpan.JsonSpan | src/nlp_engine.py:101-102 | a span exists iff some '{' has a '}' after it; the span runs from a '{' with none before it to a '}' with none after it |
| JsonSpan.SpanCoversPairs | src/nlp_engine.py:101 | the span starts no later and ends no earlier than any '{' … '}' pair, so it is the longest match |
| JsonSpan.SelectJson | src/nlp_engine.py:100-108 | a document iff a span exists and parses, and the document is the parse of the span; every error record carries the raw text; the "no JSON" message appears iff no '{' has a '}' after it; otherwise the message is "JSON parsing failed: " followed by the parser's message |
| JsonSpan.DocumentInProse | src/nlp_engine.py:100-104 | a parsable document surrounded by text with no '{' before it and no '}' after it is extracted whole |

A corpus holding every keyword of a scenario and no keyword of an earlier
scenario need not select that scenario.

- The headache scenario has three keywords. The later embolism protocol has
  five.
- A corpus that holds all three headache keywords and four embolism keywords
  selects the embolism protocol (`DetectionExamples.HeadacheOutweighed`).
- `Detection.FullEvidenceWins` proves the rule with the proviso it needs: no
  later scenario lists more keywords than the selected one.

## Left out

- Speech recognition, loading and running the language model, the
  extraction prompt, the model-download script and the command-line driver
  are not modelled. They are foreign library calls or I/O.
- The lazily created module-level engine instances are not modelled.
- `json.loads` is the parameter `parse` of `JsonSpan.SelectJson`. The
  documents it can build, and their nesting, are not modelled.
- Only exceptions from the parse are modelled as error records. The search
  itself cannot raise.
- `str.lower()`, `re.IGNORECASE`, `\s` and `str.strip()` are modelled on
  ASCII only:
  - `LowerChar` maps only A–Z;
  - whitespace is space, `\t`–`\r` and `\x1c`–`\x1f`.
  - Non-ASCII case folding and Unicode spaces are not modelled.
- Confidences are `real`, not binary floating point. The 0.7 threshold is
  compared exactly.
- A key missing from the entity document reads as the default the source's
  `.get` calls supply: a missing value is `""` (or `None` for the
  demographics values, which the model writes as `""`), a missing
  confidence is `0.0` and missing symptoms are `[]`.
- Documents holding `null` where the source raises are outside the model.
  - A `null` chief-complaint value raises `TypeError` at the string
    concatenation (src/logic_engine.py:45).
  - A `null` symptom value raises `TypeError` in `" ".join` (line 46) and
    `AttributeError` at `.lower()` (line 75).
  - A `null` demographics confidence raises `TypeError` at `conf >= 0.7`
    (line 94) when its answer is emitted.
- A `null` demographics value is modelled. It is falsy, as `""` is
  (lines 81, 85, 88), and the model writes it as `""`.
- A missing or `None` answer and an empty answer are both falsy in the
  source, so `Resolve` reports both as `""`.
- Entity values of other JSON types (numbers, lists) are not modelled. Nor
  are documents whose fields have the wrong shape, where the source would
  raise.
- Mapping.MapEntitiesToQuestions: requires the scenario to be "unknown" or a
  registered key. Any other key raises `KeyError` in the source, and that
  exception is not modelled.
- The `source_phrase` fields are not kept.
- `EntityRecord` carries the chief complaint's confidence, the symptom
  confidences, `duration` and `severity`. No operation reads them.
- The `scenario_name` and question `type` fields of the registry are data
  only. They are stored but no operation reads them.
