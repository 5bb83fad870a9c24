/** Scenario detection (`ClinicalLogicEngine.detect_scenario`): count the
    keyword evidence for each registered scenario in a lower-cased corpus
    and keep the first scenario with the largest non-zero count. */
module Detection {
  import opened Text
  import opened Entities
  import opened Registry

  /** The text searched for keywords: the chief complaint, a space, and the
      symptom values joined by spaces, all lower-cased. A "not_stated" value
      is searched like any other text. */
  function Corpus(e: EntityRecord): string {
    Lower(e.chiefComplaint.value + " " + Join(" ", SymptomValues(e.symptoms)))
  }

  /** The corpus has no upper-case letter, and it holds the lower-cased
      chief complaint and every lower-cased symptom value. */
  lemma CorpusParts(e: EntityRecord)
    ensures forall i :: 0 <= i < |Corpus(e)| ==> !IsUpper(Corpus(e)[i])
    ensures Contains(Corpus(e), Lower(e.chiefComplaint.value))
    ensures forall k :: 0 <= k < |e.symptoms| ==> Contains(Corpus(e), Lower(e.symptoms[k].value))
  {
    var complaint, joined := e.chiefComplaint.value, Join(" ", SymptomValues(e.symptoms));
    assert complaint + " " + joined == complaint + (" " + joined);
    OccurrenceContained(complaint, complaint, 0);
    ContainsInPrefix(complaint, " " + joined, complaint);
    LowerContains(complaint + (" " + joined), complaint);
    forall k | 0 <= k < |e.symptoms|
      ensures Contains(Corpus(e), Lower(e.symptoms[k].value))
    {
      PartInJoin(" ", SymptomValues(e.symptoms), k);
      ContainsInSuffix(complaint + " ", joined, e.symptoms[k].value);
      LowerContains(complaint + " " + joined, e.symptoms[k].value);
    }
  }

  /** `sum(1 for kw in keywords if kw in corpus)`. */
  function MatchCount(keywords: seq<string>, corpus: string): (n: nat)
    ensures n <= |keywords|
    ensures n == 0 <==> forall k :: 0 <= k < |keywords| ==> !Contains(corpus, keywords[k])
    ensures n == |keywords| <==> forall k :: 0 <= k < |keywords| ==> Contains(corpus, keywords[k])
    decreases |keywords|
  {
    if keywords == [] then 0
    else (if Contains(corpus, keywords[0]) then 1 else 0) + MatchCount(keywords[1..], corpus)
  }

  /** No keyword of the list occurs in the corpus. */
  predicate NoKeyword(keywords: seq<string>, corpus: string) {
    forall k :: 0 <= k < |keywords| ==> !Contains(corpus, keywords[k])
  }

  /** The keyword evidence for the scenario declared at position `i`. */
  function Matches(i: nat, corpus: string): nat
    requires i < |Scenarios|
  {
    MatchCount(Scenarios[i].keywords, corpus)
  }

  /** No registered scenario has any keyword in the corpus. */
  predicate NoEvidence(corpus: string) {
    forall i :: 0 <= i < |Scenarios| ==> Matches(i, corpus) == 0
  }

  /** The scenario at position `k` has non-zero evidence, no scenario has
      more, and every scenario declared before it has strictly less. */
  predicate FirstBest(k: int, corpus: string) {
    0 <= k < |Scenarios| &&
    Matches(k, corpus) > 0 &&
    (forall i :: 0 <= i < |Scenarios| ==> Matches(i, corpus) <= Matches(k, corpus)) &&
    (forall i :: 0 <= i < k ==> Matches(i, corpus) < Matches(k, corpus))
  }

  /** The outcome of detection on a corpus: "unknown" when no scenario has
      evidence, otherwise the key of the first best scenario. */
  predicate DetectedAs(corpus: string, scenario: string) {
    (scenario == Unknown && NoEvidence(corpus)) ||
    (exists k :: 0 <= k < |Scenarios| && FirstBest(k, corpus) && Scenarios[k].key == scenario)
  }

  /** `detect_scenario`: a scan of the registry in declaration order that
      replaces the best scenario only on a strictly larger count. */
  method DetectScenario(e: EntityRecord) returns (scenario: string)
    ensures scenario == Unknown <==> NoEvidence(Corpus(e))
    ensures scenario != Unknown ==>
      exists k :: FirstBest(k, Corpus(e)) && Scenarios[k].key == scenario
    ensures DetectedAs(Corpus(e), scenario)
  {
    var corpus := Corpus(e);
    var best := Unknown;
    var maxMatches := 0;
    ghost var bestIndex := 0;
    for i := 0 to |Scenarios|
      invariant maxMatches == 0 ==> best == Unknown
      invariant forall j :: 0 <= j < i ==> Matches(j, corpus) <= maxMatches
      invariant maxMatches > 0 ==>
        bestIndex < i && Scenarios[bestIndex].key == best && Matches(bestIndex, corpus) == maxMatches &&
        forall j :: 0 <= j < bestIndex ==> Matches(j, corpus) < maxMatches
    {
      var matches := MatchCount(Scenarios[i].keywords, corpus);
      if matches > maxMatches {
        maxMatches := matches;
        best := Scenarios[i].key;
        bestIndex := i;
      }
    }
    scenario := best;
    KeysDistinct();
    if maxMatches > 0 {
      assert FirstBest(bestIndex, corpus);
    }
  }

  /** At most one scenario is the first best one, so the detected tag is
      determined by the corpus alone. */
  lemma FirstBestUnique(corpus: string, k1: int, k2: int)
    requires FirstBest(k1, corpus) && FirstBest(k2, corpus)
    ensures k1 == k2
  {
  }

  /** Exactly one tag is detected for every corpus. */
  lemma DetectedAsFunctional(corpus: string, s1: string, s2: string)
    requires DetectedAs(corpus, s1) && DetectedAs(corpus, s2)
    ensures s1 == s2
  {
    KeysDistinct();
    if s1 != Unknown && s2 != Unknown {
      var k1 :| FirstBest(k1, corpus) && Scenarios[k1].key == s1;
      var k2 :| FirstBest(k2, corpus) && Scenarios[k2].key == s2;
      FirstBestUnique(corpus, k1, k2);
    }
  }

  /** A corpus holding every keyword of the scenario at position `k` and no
      keyword of an earlier scenario selects that scenario, provided no later
      scenario lists more keywords than it does. Without that proviso the
      claim fails: see `DetectionExamples.HeadacheOutweighed`. */
  lemma FullEvidenceWins(corpus: string, k: nat)
    requires k < |Scenarios|
    requires forall j :: 0 <= j < |Scenarios[k].keywords| ==> Contains(corpus, Scenarios[k].keywords[j])
    requires forall i :: 0 <= i < k ==> NoKeyword(Scenarios[i].keywords, corpus)
    requires forall i :: k < i < |Scenarios| ==> |Scenarios[i].keywords| <= |Scenarios[k].keywords|
    ensures FirstBest(k, corpus)
  {
    KeywordsNonEmpty();
    var top := Matches(k, corpus);
    assert top == |Scenarios[k].keywords| > 0;
    forall i | 0 <= i < |Scenarios|
      ensures Matches(i, corpus) <= top
    {
      if i < k {
        assert NoKeyword(Scenarios[i].keywords, corpus);
      }
    }
  }

  /** The characters of the "not_stated" sentinel, and the space. */
  const SentinelAlphabet: set<char> := {'n', 'o', 't', '_', 's', 'a', 'e', 'd', ' '}

  /** Every keyword of the list has, at the matching entry of `positions`, a
      character that the sentinel does not use. */
  predicate ForeignAt(keywords: seq<string>, positions: seq<nat>) {
    |positions| == |keywords| &&
    forall k :: 0 <= k < |keywords| ==>
      positions[k] < |keywords[k]| && keywords[k][positions[k]] !in SentinelAlphabet
  }

  /** For each scenario, the position in each of its keywords of a character
      that the sentinel does not use. */
  const ForeignPositions: seq<seq<nat>> :=
    [[0, 2, 0, 0, 0], [3, 1, 0, 0, 0], [0, 0, 0], [0, 0, 0, 1, 1]]

  lemma FeverKeywordsForeign()
    ensures ForeignAt(Scenarios[0].keywords, ForeignPositions[0])
  {
  }

  lemma AbdominalKeywordsForeign()
    ensures ForeignAt(Scenarios[1].keywords, ForeignPositions[1])
  {
  }

  lemma HeadacheKeywordsForeign()
    ensures ForeignAt(Scenarios[2].keywords, ForeignPositions[2])
  {
  }

  lemma EmbolismKeywordsForeign()
    ensures ForeignAt(Scenarios[3].keywords, ForeignPositions[3])
  {
  }

  /** Every registered keyword uses a character that the sentinel does not. */
  lemma KeywordsOutsideSentinelAlphabet(i: nat)
    requires i < |Scenarios|
    ensures i < |ForeignPositions| && ForeignAt(Scenarios[i].keywords, ForeignPositions[i])
  {
    if i == 0 {
      FeverKeywordsForeign();
    } else if i == 1 {
      AbdominalKeywordsForeign();
    } else if i == 2 {
      HeadacheKeywordsForeign();
    } else {
      EmbolismKeywordsForeign();
    }
  }

  /** A corpus written only with the sentinel's characters gives no scenario
      any evidence. */
  lemma SentinelTextHasNoEvidence(corpus: string)
    requires Within(corpus, SentinelAlphabet)
    ensures NoEvidence(corpus)
  {
    forall i | 0 <= i < |Scenarios|
      ensures Matches(i, corpus) == 0
    {
      KeywordsOutsideSentinelAlphabet(i);
      var keywords, positions := Scenarios[i].keywords, ForeignPositions[i];
      forall k | 0 <= k < |keywords|
        ensures !Contains(corpus, keywords[k])
      {
        ForeignCharNotContained(corpus, keywords[k], SentinelAlphabet, positions[k]);
      }
    }
  }

  /** "not_stated", the empty text and a space are written with the
      sentinel's characters, none of which is upper case. */
  lemma SentinelAlphabetFacts()
    ensures Within(NotStated, SentinelAlphabet) && Within("", SentinelAlphabet)
    ensures Within(" ", SentinelAlphabet)
    ensures forall c :: c in SentinelAlphabet ==> !IsUpper(c)
  {
  }

  /** The corpus of a document whose chief complaint and symptoms are all
      "not_stated" or missing is written with the sentinel's characters. */
  lemma SentinelCorpus(e: EntityRecord)
    requires e.chiefComplaint.value in {NotStated, ""}
    requires forall i :: 0 <= i < |e.symptoms| ==> e.symptoms[i].value in {NotStated, ""}
    ensures Within(Corpus(e), SentinelAlphabet)
  {
    var A := SentinelAlphabet;
    var chief, values := e.chiefComplaint.value, SymptomValues(e.symptoms);
    SentinelAlphabetFacts();
    assert Within(chief, A);
    assert forall k :: 0 <= k < |values| ==> Within(values[k], A);
    JoinWithin(" ", values, A);
    WithinConcat(chief, " ", A);
    WithinConcat(chief + " ", Join(" ", values), A);
    LowerWithin(chief + " " + Join(" ", values), A);
  }

  /** A document whose chief complaint and symptoms are all "not_stated" (or
      missing) gives no scenario any evidence, so detection says "unknown". */
  lemma NotStatedHasNoEvidence(e: EntityRecord)
    requires e.chiefComplaint.value in {NotStated, ""}
    requires forall i :: 0 <= i < |e.symptoms| ==> e.symptoms[i].value in {NotStated, ""}
    ensures NoEvidence(Corpus(e))
  {
    SentinelCorpus(e);
    SentinelTextHasNoEvidence(Corpus(e));
  }

  /** The extraction step's error record carries none of the expected keys;
      detection on it says "unknown". */
  lemma ErrorRecordIsUnknown()
    ensures NoEvidence(Corpus(NoEntities))
  {
    NotStatedHasNoEvidence(NoEntities);
  }
}
