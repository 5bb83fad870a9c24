/** Worked examples for scenario detection, each evidence count proved from
    the substring facts of one encounter. Every literal substring test has
    a lemma of its own, which keeps each proof small. */
module DetectionExamples {
  import opened Text
  import opened Entities
  import opened Registry
  import opened Detection

  /** A word-free keyword absent from every word is absent from the words
      joined by spaces. */
  lemma AbsentFromWords(words: seq<string>, keyword: string)
    requires keyword != [] && ' ' !in keyword
    requires forall k :: 0 <= k < |words| ==> !Contains(words[k], keyword)
    ensures !Contains(Join(" ", words), keyword)
  {
    if Contains(Join(" ", words), keyword) {
      ContainsInJoin(words, keyword);
    }
  }

  /** A string is absent when a part of it is. */
  lemma AbsentWithPart(s: string, p: string, part: string)
    requires !Contains(s, part) && Contains(p, part)
    ensures !Contains(s, p)
  {
    if Contains(s, p) {
      ContainsTransitive(s, p, part);
    }
  }

  const EncounterText: string := "chest pain shortness of breath"
  const EncounterWords: seq<string> := ["chest", "pain", "shortness", "of", "breath"]

  /** Lowering leaves text without upper-case letters unchanged. */
  lemma LowerKeeps(s: string)
    requires forall i :: 0 <= i < |s| ==> !IsUpper(s[i])
    ensures Lower(s) == s
  {
  }

  lemma ComplaintLowerCase()
    ensures Lower("chest pain") == "chest pain"
  {
    LowerKeeps("chest pain");
  }

  lemma SymptomLowerCase()
    ensures Lower("shortness of breath") == "shortness of breath"
  {
    LowerKeeps("shortness of breath");
  }

  /** The corpus of a record with one symptom, both already lower case. */
  lemma OneSymptomCorpus(e: EntityRecord, complaint: string, symptom: string)
    requires e.chiefComplaint.value == complaint && |e.symptoms| == 1 && e.symptoms[0].value == symptom
    requires Lower(complaint) == complaint && Lower(symptom) == symptom
    ensures Corpus(e) == complaint + (" " + symptom)
  {
    assert SymptomValues(e.symptoms) == [symptom];
    LowerConcat(complaint, " " + symptom);
    LowerConcat(" ", symptom);
    assert complaint + " " + symptom == complaint + (" " + symptom);
  }

  lemma CorpusSpelled()
    ensures Corpus(ChestPainEncounter) == "chest pain" + (" " + "shortness of breath")
  {
    ComplaintLowerCase();
    SymptomLowerCase();
    OneSymptomCorpus(ChestPainEncounter, "chest pain", "shortness of breath");
  }

  lemma TextSpelled()
    ensures EncounterText == "chest pain" + (" " + "shortness of breath")
  {
  }

  lemma EncounterCorpus()
    ensures Corpus(ChestPainEncounter) == EncounterText
  {
    CorpusSpelled();
    TextSpelled();
  }

  lemma EncounterJoin()
    ensures EncounterText == Join(" ", EncounterWords)
  {
  }

  /** A keyword without spaces that a scan of each word of the encounter
      does not find. */
  lemma AbsentFromEncounter(keyword: string)
    requires keyword != [] && ' ' !in keyword
    requires !Scan("chest", keyword) && !Scan("pain", keyword) && !Scan("shortness", keyword)
    requires !Scan("of", keyword) && !Scan("breath", keyword)
    ensures !Contains(EncounterText, keyword)
  {
    ScanIffContains("chest", keyword);
    ScanIffContains("pain", keyword);
    ScanIffContains("shortness", keyword);
    ScanIffContains("of", keyword);
    ScanIffContains("breath", keyword);
    EncounterJoin();
    AbsentFromFive("chest", "pain", "shortness", "of", "breath", keyword);
  }

  /** The five-word case of AbsentFromWords, stated over parameters. */
  lemma AbsentFromFive(a: string, b: string, c: string, d: string, e: string, keyword: string)
    requires keyword != [] && ' ' !in keyword
    requires !Contains(a, keyword) && !Contains(b, keyword) && !Contains(c, keyword)
    requires !Contains(d, keyword) && !Contains(e, keyword)
    ensures !Contains(Join(" ", [a, b, c, d, e]), keyword)
  {
    var words := [a, b, c, d, e];
    assert forall k :: 0 <= k < |words| ==> words[k] in {a, b, c, d, e};
    AbsentFromWords(words, keyword);
  }

  // One lemma per keyword keeps each literal evaluation small.
  lemma EncounterLacksCough()
    ensures !Contains(EncounterText, "cough")
  {
    AbsentFromEncounter("cough");
  }

  lemma EncounterLacksThroat()
    ensures !Contains(EncounterText, "throat")
  {
    AbsentFromEncounter("throat");
  }

  lemma EncounterLacksFever()
    ensures !Contains(EncounterText, "fever")
  {
    AbsentFromEncounter("fever");
  }

  lemma EncounterLacksRespiratory()
    ensures !Contains(EncounterText, "respiratory")
  {
    AbsentFromEncounter("respiratory");
  }

  lemma EncounterLacksStomach()
    ensures !Contains(EncounterText, "stomach")
  {
    AbsentFromEncounter("stomach");
  }

  lemma EncounterLacksAbdominal()
    ensures !Contains(EncounterText, "abdominal")
  {
    AbsentFromEncounter("abdominal");
  }

  lemma EncounterLacksBelly()
    ensures !Contains(EncounterText, "belly")
  {
    AbsentFromEncounter("belly");
  }

  lemma EncounterLacksVomit()
    ensures !Contains(EncounterText, "vomit")
  {
    AbsentFromEncounter("vomit");
  }

  lemma EncounterLacksHeadache()
    ensures !Contains(EncounterText, "headache")
  {
    AbsentFromEncounter("headache");
  }

  lemma EncounterLacksMigraine()
    ensures !Contains(EncounterText, "migraine")
  {
    AbsentFromEncounter("migraine");
  }

  lemma HeadNotInFirstWords()
    ensures !Scan("chest", "head") && !Scan("pain", "head")
  {
  }

  lemma HeadNotInLastWords()
    ensures !Scan("shortness", "head") && !Scan("of", "head") && !Scan("breath", "head")
  {
  }

  lemma EncounterLacksHead()
    ensures !Contains(EncounterText, "head")
  {
    HeadNotInFirstWords();
    HeadNotInLastWords();
    AbsentFromEncounter("head");
  }

  lemma PeNotInFirstWords()
    ensures !Scan("chest", "pe") && !Scan("pain", "pe")
  {
  }

  lemma PeNotInShortness()
    ensures !Scan("shortness", "pe")
  {
  }

  lemma PeNotInLastWords()
    ensures !Scan("of", "pe") && !Scan("breath", "pe")
  {
  }

  lemma EncounterLacksPe()
    ensures !Contains(EncounterText, "pe")
  {
    PeNotInFirstWords();
    PeNotInShortness();
    PeNotInLastWords();
    AbsentFromEncounter("pe");
  }

  lemma EncounterLacksPulmonary()
    ensures !Contains(EncounterText, "pulmonary")
  {
    AbsentFromEncounter("pulmonary");
  }

  lemma EncounterLacksEmbolism()
    ensures !Contains(EncounterText, "embolism")
  {
    AbsentFromEncounter("embolism");
  }

  lemma SoreThroatHasThroat()
    ensures Contains("sore throat", "throat")
  {
    OccurrenceContained("sore throat", "throat", 5);
  }

  lemma EncounterLacksSoreThroat()
    ensures !Contains(EncounterText, "sore throat")
  {
    EncounterLacksThroat();
    SoreThroatHasThroat();
    AbsentWithPart(EncounterText, "sore throat", "throat");
  }

  lemma EncounterHasBreath()
    ensures Contains(EncounterText, "breath")
  {
    OccurrenceContained(EncounterText, "breath", 24);
  }

  lemma EncounterHasPain()
    ensures Contains(EncounterText, "pain")
  {
    EncounterJoin();
    PartInJoin(" ", EncounterWords, 1);
  }

  lemma EncounterHasChest()
    ensures Contains(EncounterText, "chest")
  {
    OccurrenceContained(EncounterText, "chest", 0);
  }

  lemma EncounterHasShortnessOfBreath()
    ensures Contains(EncounterText, "shortness of breath")
  {
    assert EncounterText == "chest pain " + "shortness of breath";
    OccurrenceContained("shortness of breath", "shortness of breath", 0);
    ContainsInSuffix("chest pain ", "shortness of breath", "shortness of breath");
  }

  /** The number of true flags. */
  function CountTrue(flags: seq<bool>): nat {
    if flags == [] then 0 else (if flags[0] then 1 else 0) + CountTrue(flags[1..])
  }

  /** The evidence count is the number of keywords flagged as present. */
  lemma {:induction false} MatchCountByFlags(keywords: seq<string>, corpus: string, flags: seq<bool>)
    requires |flags| == |keywords|
    requires forall k :: 0 <= k < |keywords| ==> Contains(corpus, keywords[k]) == flags[k]
    ensures MatchCount(keywords, corpus) == CountTrue(flags)
    decreases |keywords|
  {
    if keywords != [] {
      MatchCountByFlags(keywords[1..], corpus, flags[1..]);
    }
  }

  /** Any corpus with the substring pattern of the encounter: "breath" is its
      only Fever & Respiratory keyword and "pain" its only Abdominal Pain
      keyword, it has no Headache keyword, and "chest" and "shortness of
      breath" are its Pulmonary Embolism keywords. */
  predicate EncounterPattern(corpus: string) {
    !Contains(corpus, "cough") && !Contains(corpus, "sore throat") && !Contains(corpus, "fever") &&
    Contains(corpus, "breath") && !Contains(corpus, "respiratory") &&
    !Contains(corpus, "stomach") && !Contains(corpus, "abdominal") && !Contains(corpus, "belly") &&
    Contains(corpus, "pain") && !Contains(corpus, "vomit") &&
    !Contains(corpus, "headache") && !Contains(corpus, "migraine") && !Contains(corpus, "head") &&
    !Contains(corpus, "pe") && Contains(corpus, "chest") && !Contains(corpus, "pulmonary") &&
    !Contains(corpus, "embolism") && Contains(corpus, "shortness of breath")
  }

  lemma PatternFeverEvidence(corpus: string)
    requires EncounterPattern(corpus)
    ensures Matches(0, corpus) == 1
  {
    MatchCountByFlags(Scenarios[0].keywords, corpus, [false, false, false, true, false]);
  }

  lemma PatternAbdominalEvidence(corpus: string)
    requires EncounterPattern(corpus)
    ensures Matches(1, corpus) == 1
  {
    MatchCountByFlags(Scenarios[1].keywords, corpus, [false, false, false, true, false]);
  }

  lemma PatternHeadacheEvidence(corpus: string)
    requires EncounterPattern(corpus)
    ensures Matches(2, corpus) == 0
  {
    MatchCountByFlags(Scenarios[2].keywords, corpus, [false, false, false]);
  }

  lemma PatternEmbolismEvidence(corpus: string)
    requires EncounterPattern(corpus)
    ensures Matches(3, corpus) == 2
  {
    MatchCountByFlags(Scenarios[3].keywords, corpus, [false, true, false, false, true]);
  }

  /** With that pattern the evidence counts are 1, 1, 0 and 2, so the
      Pulmonary Embolism protocol is the first best scenario. */
  lemma EncounterPatternFirstBest(corpus: string)
    requires EncounterPattern(corpus)
    ensures FirstBest(3, corpus)
  {
    PatternFeverEvidence(corpus);
    PatternAbdominalEvidence(corpus);
    PatternHeadacheEvidence(corpus);
    PatternEmbolismEvidence(corpus);
    LastLeads(corpus);
  }

  /** Counts of the first three scenarios below that of the last one make
      the last scenario the first best one. */
  lemma LastLeads(corpus: string)
    requires Matches(0, corpus) < Matches(3, corpus) && Matches(1, corpus) < Matches(3, corpus)
    requires Matches(2, corpus) < Matches(3, corpus)
    ensures FirstBest(3, corpus)
  {
    assert |Scenarios| == 4;
    assert forall i :: 0 <= i < |Scenarios| ==> Matches(i, corpus) <= Matches(3, corpus) by {
      forall i | 0 <= i < |Scenarios| ensures Matches(i, corpus) <= Matches(3, corpus) {
        if i == 0 {} else if i == 1 {} else if i == 2 {} else {}
      }
    }
    assert forall i :: 0 <= i < 3 ==> Matches(i, corpus) < Matches(3, corpus) by {
      forall i | 0 <= i < 3 ensures Matches(i, corpus) < Matches(3, corpus) {
        if i == 0 {} else if i == 1 {} else {}
      }
    }
  }

  lemma EncounterHasPattern()
    ensures EncounterPattern(EncounterText)
  {
    EncounterLacksCough();
    EncounterLacksSoreThroat();
    EncounterLacksFever();
    EncounterHasBreath();
    EncounterLacksRespiratory();
    EncounterLacksStomach();
    EncounterLacksAbdominal();
    EncounterLacksBelly();
    EncounterHasPain();
    EncounterLacksVomit();
    EncounterLacksHeadache();
    EncounterLacksMigraine();
    EncounterLacksHead();
    EncounterLacksPe();
    EncounterHasChest();
    EncounterLacksPulmonary();
    EncounterLacksEmbolism();
    EncounterHasShortnessOfBreath();
  }

  /** Chest pain with shortness of breath: "breath" gives Fever & Respiratory
      one match and "pain" gives Abdominal Pain one, but "chest" and
      "shortness of breath" give the Pulmonary Embolism protocol two, so it
      is detected. */
  lemma ChestPainEncounterDetected()
    ensures DetectedAs(Corpus(ChestPainEncounter), "chest_pain_pe")
  {
    EncounterCorpus();
    EncounterHasPattern();
    EncounterPatternFirstBest(EncounterText);
  }

  /** The proviso of `FullEvidenceWins` cannot be dropped: a corpus with all
      three Headache keywords, no keyword of the two earlier scenarios, and
      four of the Pulmonary Embolism keywords selects the later scenario,
      since four matches beat three under the strict comparison. */
  lemma HeadacheOutweighed(corpus: string)
    requires NoKeyword(Scenarios[0].keywords, corpus) && NoKeyword(Scenarios[1].keywords, corpus)
    requires Contains(corpus, "headache") && Contains(corpus, "migraine") && Contains(corpus, "head")
    requires Contains(corpus, "pe") && Contains(corpus, "chest") && Contains(corpus, "pulmonary")
    requires Contains(corpus, "embolism") && !Contains(corpus, "shortness of breath")
    ensures Matches(2, corpus) == |Scenarios[2].keywords|
    ensures !FirstBest(2, corpus) && FirstBest(3, corpus)
  {
    MatchCountByFlags(Scenarios[2].keywords, corpus, [true, true, true]);
    MatchCountByFlags(Scenarios[3].keywords, corpus, [true, true, true, true, false]);
    LastLeads(corpus);
  }
}
