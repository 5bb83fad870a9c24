/** Worked examples of transcript cleaning. */
module TranscriptExamples {
  import opened Text
  import opened Outcomes
  import opened Transcript

  /** The table written out: the six placeholder passes in order, then the
      bracket deletion. */
  lemma TableUnrolled(s: string)
    ensures ApplyRules(s, Replacements) ==
      DeleteBrackets(
        ReplaceToken(ReplaceToken(ReplaceToken(ReplaceToken(ReplaceToken(ReplaceToken(s,
          "{period}", "."), "{comma}", ","), "{colon}", ":"), "{question_mark}", "?"),
          "{new_paragraph}", "\n"), "{new paragraph}", "\n"))
  {
    ReplacementsWellFormed();
    TableFront(s);
    var s3 := ReplaceToken(ReplaceToken(ReplaceToken(s, "{period}", "."), "{comma}", ","), "{colon}", ":");
    var s4 := ReplaceToken(s3, "{question_mark}", "?");
    var s5 := ReplaceToken(s4, "{new_paragraph}", "\n");
    var s6 := ReplaceToken(s5, "{new paragraph}", "\n");
    assert Replacements[..4][..3] == Replacements[..3];
    assert ApplyRules(s, Replacements[..4]) == s4;
    assert Replacements[..5][..4] == Replacements[..4];
    assert ApplyRules(s, Replacements[..5]) == s5;
    assert Replacements[..6][..5] == Replacements[..5];
    assert ApplyRules(s, Replacements[..6]) == s6;
    assert Replacements[..7][..6] == Replacements[..6];
    assert Replacements[..7] == Replacements;
  }

  /** The first three passes of the table. */
  lemma TableFront(s: string)
    ensures forall k :: 0 <= k < |Replacements[..3]| ==> WellFormed(Replacements[..3][k])
    ensures ApplyRules(s, Replacements[..3]) ==
      ReplaceToken(ReplaceToken(ReplaceToken(s, "{period}", "."), "{comma}", ","), "{colon}", ":")
  {
    ReplacementsWellFormed();
    var s1 := ReplaceToken(s, "{period}", ".");
    var s2 := ReplaceToken(s1, "{comma}", ",");
    assert Replacements[..0] == [];
    assert Replacements[..1][..0] == Replacements[..0];
    assert ApplyRules(s, Replacements[..1]) == s1;
    assert Replacements[..2][..1] == Replacements[..1];
    assert ApplyRules(s, Replacements[..2]) == s2;
    assert Replacements[..3][..2] == Replacements[..2];
  }

  lemma DotClean()
    ensures Clean(".") == "."
  {
    TableUnrolled(".");
    BraceTokenUnchanged(".", "{period}", ".");
    BraceTokenUnchanged(".", "{comma}", ",");
    BraceTokenUnchanged(".", "{colon}", ":");
    BraceTokenUnchanged(".", "{question_mark}", "?");
    BraceTokenUnchanged(".", "{new_paragraph}", "\n");
    BraceTokenUnchanged(".", "{new paragraph}", "\n");
    NoBracketUnchanged(".");
    CollapseSpacesKeepsSingleSpaced(".");
    StripKeepsStripped(".");
  }

  /** The placeholder in any case becomes its punctuation. */
  lemma PlaceholderCleaned()
    ensures Clean("{period}") == "." && Clean("{PERIOD}") == "."
  {
    assert Lower("{period}") == "{period}";
    assert Lower("{PERIOD}") == "{period}";
    AnyCaseReplaced("{period}", "{period}", ".");
    AnyCaseReplaced("{PERIOD}", "{period}", ".");
    TableUnrolled("{period}");
    TableUnrolled("{PERIOD}");
    TableUnrolled(".");
    DotClean();
  }

  /** A token starting with '{' leaves a text whose only '{' is its first
      character alone when the text differs from the token at position `k`
      (or is too short to hold it). */
  lemma LeadingBraceMismatch(s: string, t: string, r: string, k: nat)
    requires t != [] && t[0] == '{' && s != [] && '{' !in s[1..]
    requires |t| <= |s| ==> k < |t| && LowerChar(s[k]) != t[k]
    ensures ReplaceToken(s, t, r) == s
  {
    forall i | 0 < i < |s|
      ensures s[i] != '{'
    {
      assert s[i] == s[1..][i - 1];
    }
    if |t| <= |s| {
      assert Lower(s[0..|t|])[k] == LowerChar(s[k]);
    }
    BraceTokenUnchanged(s, t, r);
  }

  /** The six placeholder passes leave a text alone when each of them
      does. */
  lemma TokensKeep(s: string)
    requires ReplaceToken(s, "{period}", ".") == s
    requires ReplaceToken(s, "{comma}", ",") == s
    requires ReplaceToken(s, "{colon}", ":") == s
    requires ReplaceToken(s, "{question_mark}", "?") == s
    requires ReplaceToken(s, "{new_paragraph}", "\n") == s
    requires ReplaceToken(s, "{new paragraph}", "\n") == s
    ensures ApplyRules(s, Replacements) == DeleteBrackets(s)
  {
    TableUnrolled(s);
  }

  lemma SplitShortTokensKeep()
    ensures ReplaceToken("{peri[x]od}", "{period}", ".") == "{peri[x]od}"
    ensures ReplaceToken("{peri[x]od}", "{comma}", ",") == "{peri[x]od}"
    ensures ReplaceToken("{peri[x]od}", "{colon}", ":") == "{peri[x]od}"
  {
    var s := "{peri[x]od}";
    assert '{' !in s[1..];
    LeadingBraceMismatch(s, "{period}", ".", 5);
    LeadingBraceMismatch(s, "{comma}", ",", 1);
    LeadingBraceMismatch(s, "{colon}", ":", 1);
  }

  lemma SplitLongTokensKeep()
    ensures ReplaceToken("{peri[x]od}", "{question_mark}", "?") == "{peri[x]od}"
    ensures ReplaceToken("{peri[x]od}", "{new_paragraph}", "\n") == "{peri[x]od}"
    ensures ReplaceToken("{peri[x]od}", "{new paragraph}", "\n") == "{peri[x]od}"
  {
    var s := "{peri[x]od}";
    assert '{' !in s[1..];
    LeadingBraceMismatch(s, "{question_mark}", "?", 0);
    LeadingBraceMismatch(s, "{new_paragraph}", "\n", 0);
    LeadingBraceMismatch(s, "{new paragraph}", "\n", 0);
  }

  lemma SplitPlaceholderKept()
    ensures ApplyRules("{peri[x]od}", Replacements) == DeleteBrackets("{peri[x]od}")
  {
    SplitShortTokensKeep();
    SplitLongTokensKeep();
    TokensKeep("{peri[x]od}");
  }

  lemma PeriodTokenNormal()
    ensures Strip(CollapseSpaces("{period}")) == "{period}"
  {
    CollapseSpacesKeepsSingleSpaced("{period}");
    StripKeepsStripped("{period}");
  }

  lemma InnerBracketDeleted()
    ensures DeleteBrackets("[x]od}") == "od}"
  {
    assert CloseBracket("[x]od}", 1) == Some(2);
    assert "[x]od}"[3..] == "od}";
    NoBracketUnchanged("od}");
  }

  lemma SplitBracketDeleted()
    ensures DeleteBrackets("{peri[x]od}") == "{period}"
  {
    assert "{peri[x]od}" == "{peri" + "[x]od}";
    DeleteBracketsAfter("{peri", "[x]od}");
    InnerBracketDeleted();
    assert "{peri" + "od}" == "{period}";
  }

  /** "{peri[x]od}" holds no placeholder, so only the bracket deletion
      changes it, and that deletion forms "{period}". */
  lemma SplitPlaceholderJoined()
    ensures Clean("{peri[x]od}") == "{period}"
  {
    SplitPlaceholderKept();
    SplitBracketDeleted();
    PeriodTokenNormal();
  }

  /** Cleaning is not idempotent: a second pass turns the placeholder that
      the bracket deletion formed into a full stop. */
  lemma CleanNotIdempotent()
    ensures Clean(Clean("{peri[x]od}")) != Clean("{peri[x]od}")
  {
    SplitPlaceholderJoined();
    PlaceholderCleaned();
  }

  /** A '{'-token that does not match at the only '{' of the text leaves
      it unchanged. */
  lemma AfterPrefixKeep(a: string, b: string, t: string, r: string, k: nat)
    requires t != [] && t[0] == '{' && '{' !in a
    requires b != [] && '{' !in b[1..]
    requires |t| <= |b| ==> k < |t| && LowerChar(b[k]) != t[k]
    ensures ReplaceToken(a + b, t, r) == a + b
  {
    LeadingBraceMismatch(b, t, r, k);
    ReplaceTokenAfter(a, b, t, r);
  }

  /** Text with no whitespace, no square bracket and no '{'. */
  predicate Plain(s: string) {
    forall i :: 0 <= i < |s| ==> !IsSpace(s[i]) && s[i] != '[' && s[i] != ']' && s[i] != '{'
  }

  /** A paragraph placeholder at the head of brace-free text becomes a
      line feed. */
  lemma ParagraphAtHead(y: string)
    requires '{' !in y
    ensures ReplaceToken("{new_paragraph}" + y, "{new_paragraph}", "\n") == "\n" + y
  {
    var s := "{new_paragraph}" + y;
    assert s[0..15] == "{new_paragraph}";
    assert Lower("{new_paragraph}") == "{new_paragraph}";
    assert s[15..] == y;
    BraceTokenUnchanged(y, "{new_paragraph}", "\n");
  }

  /** Text whose only '{' opens a placeholder spelled "{n…" passes the
      period and comma passes unchanged. */
  lemma PunctuationKeep(A: string, B: string)
    requires '{' !in A && |B| > 1 && B[1] == 'n' && '{' !in B[1..]
    ensures ReplaceToken(A + B, "{period}", ".") == A + B
    ensures ReplaceToken(A + B, "{comma}", ",") == A + B
  {
    AfterPrefixKeep(A, B, "{period}", ".", 1);
    AfterPrefixKeep(A, B, "{comma}", ",", 1);
  }

  /** … and the colon and question-mark passes. */
  lemma ColonQuestionKeep(A: string, B: string)
    requires '{' !in A && |B| > 1 && B[1] == 'n' && '{' !in B[1..]
    ensures ReplaceToken(A + B, "{colon}", ":") == A + B
    ensures ReplaceToken(A + B, "{question_mark}", "?") == A + B
  {
    AfterPrefixKeep(A, B, "{colon}", ":", 1);
    AfterPrefixKeep(A, B, "{question_mark}", "?", 1);
  }

  /** The table on a text that only the underscored paragraph pass
      changes. */
  lemma OnlyParagraphChanges(s: string, s5: string)
    requires ReplaceToken(s, "{period}", ".") == s
    requires ReplaceToken(s, "{comma}", ",") == s
    requires ReplaceToken(s, "{colon}", ":") == s
    requires ReplaceToken(s, "{question_mark}", "?") == s
    requires ReplaceToken(s, "{new_paragraph}", "\n") == s5
    requires ReplaceToken(s5, "{new paragraph}", "\n") == s5
    ensures ApplyRules(s, Replacements) == DeleteBrackets(s5)
  {
    TableUnrolled(s);
  }

  /** The underscored paragraph pass turns the one placeholder between two
      brace-free texts into a line feed. */
  lemma ParagraphTurnsToLine(A: string, y: string)
    requires '{' !in A && '{' !in y
    ensures ReplaceToken(A + ("{new_paragraph}" + y), "{new_paragraph}", "\n") == A + ("\n" + y)
  {
    ParagraphAtHead(y);
    ReplaceTokenAfter(A, "{new_paragraph}" + y, "{new_paragraph}", "\n");
  }

  /** The spaced paragraph pass finds no '{' to match at. */
  lemma SpacedParagraphAbsent(A: string, y: string)
    requires '{' !in A && '{' !in y
    ensures ReplaceToken(A + ("\n" + y), "{new paragraph}", "\n") == A + ("\n" + y)
  {
    assert '{' !in A + ("\n" + y);
    BraceTokenUnchanged(A + ("\n" + y), "{new paragraph}", "\n");
  }

  /** After its leading '{', a paragraph placeholder followed by brace-free
      text has no '{', and its second character is 'n'. */
  lemma ParagraphTail(y: string)
    requires '{' !in y
    ensures ("{new_paragraph}" + y)[1] == 'n'
    ensures '{' !in ("{new_paragraph}" + y)[1..]
  {
    assert ("{new_paragraph}" + y)[1..] == "new_paragraph}" + y;
  }

  /** A brace-free text with one underscored paragraph placeholder in it:
      only that placeholder matches, and it becomes a line feed. */
  lemma ParagraphBetween(x: string, y: string)
    requires '{' !in x && '{' !in y
    ensures ApplyRules(x + ("{new_paragraph}" + y), Replacements) == DeleteBrackets(x + ("\n" + y))
  {
    ParagraphTail(y);
    PunctuationKeep(x, "{new_paragraph}" + y);
    ColonQuestionKeep(x, "{new_paragraph}" + y);
    ParagraphTurnsToLine(x, y);
    SpacedParagraphAbsent(x, y);
    OnlyParagraphChanges(x + ("{new_paragraph}" + y), x + ("\n" + y));
  }

  /** The lazy `.*?` cannot cross the line feed, so nothing is deleted from
      a bracket opened before it and closed after it. */
  lemma LineBreakKeepsBracket(x: string, y: string)
    requires x != [] && x[0] == '['
    requires forall i :: 0 < i < |x| ==> x[i] != '[' && x[i] != ']' && x[i] != '\n'
    requires '[' !in y
    ensures DeleteBrackets(x + ("\n" + y)) == x + ("\n" + y)
  {
    var s := x + ("\n" + y);
    assert s[|x|] == '\n';
    assert forall m :: 1 <= m < |x| ==> s[m] == x[m];
    NoCloseBeforeBreak(s, |x|);
    assert s[1..] == x[1..] + ("\n" + y);
    UnclosedBracketKept(s);
  }

  /** An opening bracket the lazy match cannot close is kept, and so is
      the bracket-free rest. */
  lemma UnclosedBracketKept(s: string)
    requires s != [] && s[0] == '[' && '[' !in s[1..]
    requires CloseBracket(s, 1).None?
    ensures DeleteBrackets(s) == s
  {
    NoBracketUnchanged(s[1..]);
    assert [s[0]] + s[1..] == s;
  }

  /** A line feed reached before any ']' ends the lazy match unsuccessfully. */
  lemma NoCloseBeforeBreak(s: string, k: nat)
    requires 1 <= k < |s| && s[k] == '\n'
    requires forall m :: 1 <= m < k ==> s[m] != ']' && s[m] != '\n'
    ensures CloseBracket(s, 1).None?
  {
  }

  /** A line feed between two words becomes a space. */
  lemma BreakBetweenWords(x: string, y: string)
    requires forall i :: 0 <= i < |x| ==> !IsSpace(x[i])
    requires forall i :: 0 <= i < |y| ==> !IsSpace(y[i])
    requires y != []
    ensures CollapseSpaces(x + ("\n" + y)) == x + (" " + y)
  {
    CollapseSpacesAfterWord(x, "\n" + y);
    assert ("\n" + y)[1..] == y;
    CollapseSpacesAfterWord(y, []);
    assert y + [] == y;
  }

  /** What `Plain` words give once wrapped in brackets. */
  lemma Wrapped(a: string, b: string)
    requires Plain(a) && Plain(b)
    ensures '{' !in "[" + a && '{' !in b + "]" && '[' !in b + "]"
    ensures forall i :: 0 < i < |"[" + a| ==> ("[" + a)[i] != '[' && ("[" + a)[i] != ']' && ("[" + a)[i] != '\n'
    ensures forall i :: 0 <= i < |"[" + a| ==> !IsSpace(("[" + a)[i])
    ensures forall i :: 0 <= i < |b + "]"| ==> !IsSpace((b + "]")[i])
  {
    var x, y := "[" + a, b + "]";
    forall i | 0 < i < |x| ensures x[i] == a[i - 1] { }
    forall i | 0 <= i < |b| ensures y[i] == b[i] { }
  }

  /** A bracketed note split across lines by a paragraph placeholder is
      kept: "[a{new_paragraph}b]" is cleaned to "[a b]" for any words `a`
      and `b`. */
  lemma BracketAcrossLineKept(a: string, b: string)
    requires Plain(a) && Plain(b)
    ensures Clean("[" + a + "{new_paragraph}" + b + "]") == "[" + a + " " + b + "]"
  {
    var x, y := "[" + a, b + "]";
    Wrapped(a, b);
    ParagraphBetween(x, y);
    LineBreakKeepsBracket(x, y);
    BreakBetweenWords(x, y);
    Regrouped(a, b);
    StripKeepsStripped(x + (" " + y));
  }

  lemma Regrouped(a: string, b: string)
    ensures "[" + a + "{new_paragraph}" + b + "]" == ("[" + a) + ("{new_paragraph}" + (b + "]"))
    ensures "[" + a + " " + b + "]" == ("[" + a) + (" " + (b + "]"))
  {
  }
}
