/** Transcript normalisation (`ClinicalEntityExtractor.clean_transcript`):
    rewrite the speech recogniser's placeholder tokens into punctuation,
    delete bracketed annotations, then collapse and strip whitespace. */
module Transcript {
  import opened Outcomes
  import opened Text

  /** One entry of the replacement table: a placeholder token, matched
      literally but ignoring case and replaced by a fixed text, or the
      `\[.*?\]` annotation pattern, whose matches are deleted. Tokens are
      written in lower case. */
  datatype Rule = Token(token: string, replacement: string) | BracketSpan

  predicate WellFormed(rule: Rule) {
    rule.Token? ==> rule.token != []
  }

  /** The replacement table, in the order the dictionary iterates it. */
  const Replacements: seq<Rule> := [
    Token("{period}", "."),
    Token("{comma}", ","),
    Token("{colon}", ":"),
    Token("{question_mark}", "?"),
    Token("{new_paragraph}", "\n"),
    Token("{new paragraph}", "\n"),
    BracketSpan
  ]

  lemma ReplacementsWellFormed()
    ensures forall k :: 0 <= k < |Replacements| ==> WellFormed(Replacements[k])
  {
  }

  // ---------------------------------------------------------------------
  // Placeholder tokens
  // ---------------------------------------------------------------------

  /** The lower-case token `t` occurs at position `i` of `s` when case is
      ignored. */
  predicate TokenAt(s: string, t: string, i: int) {
    0 <= i && i + |t| <= |s| && Lower(s[i..i + |t|]) == t
  }

  /** `re.sub(re.escape(t), r, s, flags=re.IGNORECASE)`: scan left to right,
      replacing each occurrence of the token and resuming after it. */
  function ReplaceToken(s: string, t: string, r: string): string
    requires t != []
    decreases |s|
  {
    if s == [] then []
    else if TokenAt(s, t, 0) then r + ReplaceToken(s[|t|..], t, r)
    else [s[0]] + ReplaceToken(s[1..], t, r)
  }

  /** The token written in any mix of cases is replaced. */
  lemma AnyCaseReplaced(s: string, t: string, r: string)
    requires t != [] && Lower(s) == t
    ensures ReplaceToken(s, t, r) == r
  {
    assert s[0..|t|] == s;
    assert s[|t|..] == [];
  }

  /** Text in which the token does not occur is left as it is. */
  lemma {:induction false} NoTokenUnchanged(s: string, t: string, r: string)
    requires t != []
    requires forall i :: 0 <= i <= |s| ==> !TokenAt(s, t, i)
    ensures ReplaceToken(s, t, r) == s
    decreases |s|
  {
    if s != [] {
      forall i | 0 <= i <= |s| - 1 ensures !TokenAt(s[1..], t, i) {
        assert !TokenAt(s, t, i + 1);
        if i + |t| <= |s| - 1 {
          assert s[1..][i..i + |t|] == s[i + 1..i + 1 + |t|];
        }
      }
      NoTokenUnchanged(s[1..], t, r);
    }
  }

  /** A text that starts with the token starts, once replaced, with the
      replacement. */
  lemma ReplacedHead(s: string, t: string, r: string)
    requires t != [] && r != [] && TokenAt(s, t, 0)
    ensures ReplaceToken(s, t, r) != [] && ReplaceToken(s, t, r)[0] == r[0]
  {
  }

  /** Until a replacement happens, the output copies the input: when none of
      the first `m` output characters lower-cases like the replacement's
      first character, those characters are the input's. */
  lemma {:induction false} UnchangedPrefix(s: string, t: string, r: string, m: nat)
    requires t != [] && r != []
    requires m <= |ReplaceToken(s, t, r)|
    requires forall k :: 0 <= k < m ==> LowerChar(ReplaceToken(s, t, r)[k]) != LowerChar(r[0])
    ensures m <= |s| && ReplaceToken(s, t, r)[..m] == s[..m]
    decreases m
  {
    if m > 0 {
      var out := ReplaceToken(s, t, r);
      if TokenAt(s, t, 0) {
        ReplacedHead(s, t, r);
        assert false;
      } else {
        var rest := ReplaceToken(s[1..], t, r);
        assert out == [s[0]] + rest;
        forall k | 0 <= k < m - 1
          ensures LowerChar(rest[k]) != LowerChar(r[0])
        {
          assert rest[k] == out[k + 1];
        }
        UnchangedPrefix(s[1..], t, r, m - 1);
        assert out[..m] == [s[0]] + rest[..m - 1];
        assert s[..m] == [s[0]] + s[1..][..m - 1];
      }
    }
  }

  /** Only '{' lower-cases to '{'. */
  lemma LowerToBrace(c: char)
    requires LowerChar(c) == '{'
    ensures c == '{'
  {
  }

  /** A token that starts with '{' can only match at a '{'; text where it
      matches at none of them is left as it is. */
  lemma BraceTokenUnchanged(s: string, t: string, r: string)
    requires t != [] && t[0] == '{'
    requires forall i :: 0 <= i < |s| && s[i] == '{' ==> !TokenAt(s, t, i)
    ensures ReplaceToken(s, t, r) == s
  {
    forall i | 0 <= i <= |s|
      ensures !TokenAt(s, t, i)
    {
      if TokenAt(s, t, i) {
        assert LowerChar(s[i]) == Lower(s[i..i + |t|])[0];
        LowerToBrace(s[i]);
      }
    }
    NoTokenUnchanged(s, t, r);
  }

  /** Text before the first '{' passes a '{'-token's pass untouched. */
  lemma {:induction false} ReplaceTokenAfter(a: string, b: string, t: string, r: string)
    requires t != [] && t[0] == '{' && '{' !in a
    ensures ReplaceToken(a + b, t, r) == a + ReplaceToken(b, t, r)
    decreases |a|
  {
    if a == [] {
      assert a + b == b;
    } else {
      var s := a + b;
      assert s[0] == a[0] && s[1..] == a[1..] + b;
      if TokenAt(s, t, 0) {
        assert LowerChar(s[0]) == Lower(s[0..|t|])[0];
        LowerToBrace(s[0]);
      }
      assert '{' !in a[1..];
      ReplaceTokenAfter(a[1..], b, t, r);
    }
  }

  /** A token at the start of `[c] + rest` spells its first character with
      `c` and the rest with the start of `rest`. */
  lemma TokenSplit(c: char, rest: string, t: string)
    requires t != [] && TokenAt([c] + rest, t, 0)
    ensures |t| - 1 <= |rest| && LowerChar(c) == t[0]
    ensures forall k :: 0 <= k < |t| - 1 ==> LowerChar(rest[k]) == t[k + 1]
  {
    var s := [c] + rest;
    forall k | 0 <= k < |t| - 1
      ensures LowerChar(rest[k]) == t[k + 1]
    {
      assert rest[k] == s[k + 1] && Lower(s[0..|t|])[k + 1] == t[k + 1];
    }
    assert Lower(s[0..|t|])[0] == t[0];
  }

  /** The converse of `TokenSplit`. */
  lemma TokenJoin(c: char, rest: string, t: string)
    requires t != [] && |t| - 1 <= |rest| && LowerChar(c) == t[0]
    requires forall k :: 0 <= k < |t| - 1 ==> LowerChar(rest[k]) == t[k + 1]
    ensures TokenAt([c] + rest, t, 0)
  {
    var s := [c] + rest;
    var l := Lower(s[0..|t|]);
    forall k | 0 <= k < |t|
      ensures l[k] == t[k]
    {
      if k > 0 {
        assert s[k] == rest[k - 1];
      }
    }
  }

  /** Where the token does not start the text, the pass cannot make it
      start the output: the output copies the input up to the first
      replacement, and the replacement's first character is not in the
      token. */
  lemma HeadStaysUnmatched(s: string, t: string, r: string)
    requires t != [] && r != [] && LowerChar(r[0]) !in t
    requires s != [] && !TokenAt(s, t, 0)
    ensures !TokenAt(ReplaceToken(s, t, r), t, 0)
  {
    var out, rest := ReplaceToken(s, t, r), ReplaceToken(s[1..], t, r);
    assert out == [s[0]] + rest;
    assert [s[0]] + s[1..] == s;
    if TokenAt(out, t, 0) {
      var m := |t| - 1;
      TokenSplit(s[0], rest, t);
      forall k | 0 <= k < m
        ensures LowerChar(rest[k]) != LowerChar(r[0])
      {
        assert t[k + 1] in t;
      }
      UnchangedPrefix(s[1..], t, r, m);
      forall k | 0 <= k < m
        ensures LowerChar(s[1..][k]) == t[k + 1]
      {
        assert s[1..][k] == s[1..][..m][k] == rest[..m][k];
      }
      TokenJoin(s[0], s[1..], t);
      assert false;
    }
  }

  /** No occurrence of a token survives its own pass, for a token that
      starts with its only '{' and a replacement without '{' whose first
      character, lower-cased, appears nowhere in the token. Every
      placeholder of the table qualifies. */
  lemma {:induction false} TokenGone(s: string, t: string, r: string, i: int)
    requires t != [] && t[0] == '{' && '{' !in t[1..]
    requires r != [] && '{' !in r && LowerChar(r[0]) !in t
    ensures !TokenAt(ReplaceToken(s, t, r), t, i)
    decreases |s|
  {
    var out := ReplaceToken(s, t, r);
    if s != [] && TokenAt(out, t, i) {
      assert Lower(out[i..i + |t|])[0] == t[0] == '{';
      LowerToBrace(out[i]);
      if TokenAt(s, t, 0) {
        var rest := ReplaceToken(s[|t|..], t, r);
        assert out == r + rest;
        if i < |r| {
          assert false;
        } else {
          assert out[i..i + |t|] == rest[i - |r|..i - |r| + |t|];
          TokenGone(s[|t|..], t, r, i - |r|);
          assert false;
        }
      } else {
        var rest := ReplaceToken(s[1..], t, r);
        assert out == [s[0]] + rest;
        if i == 0 {
          HeadStaysUnmatched(s, t, r);
          assert false;
        } else {
          assert out[i..i + |t|] == rest[i - 1..i - 1 + |t|];
          TokenGone(s[1..], t, r, i - 1);
          assert false;
        }
      }
    }
  }

  /** The conditions under which `TokenGone` applies. */
  predicate SelfClearing(t: string, r: string) {
    t != [] && t[0] == '{' && '{' !in t[1..] && r != [] && '{' !in r && LowerChar(r[0]) !in t
  }

  lemma PeriodSelfClearing()
    ensures SelfClearing("{period}", ".")
  {
  }

  lemma CommaSelfClearing()
    ensures SelfClearing("{comma}", ",")
  {
  }

  lemma ColonSelfClearing()
    ensures SelfClearing("{colon}", ":")
  {
  }

  lemma QuestionMarkSelfClearing()
    ensures SelfClearing("{question_mark}", "?")
  {
  }

  lemma NewParagraphSelfClearing()
    ensures SelfClearing("{new_paragraph}", "\n")
  {
  }

  lemma SpacedParagraphSelfClearing()
    ensures SelfClearing("{new paragraph}", "\n")
  {
  }

  lemma TableSelfClearing(k: nat)
    requires k < |Replacements| && Replacements[k].Token?
    ensures SelfClearing(Replacements[k].token, Replacements[k].replacement)
  {
    if k == 0 {
      PeriodSelfClearing();
    } else if k == 1 {
      CommaSelfClearing();
    } else if k == 2 {
      ColonSelfClearing();
    } else if k == 3 {
      QuestionMarkSelfClearing();
    } else if k == 4 {
      NewParagraphSelfClearing();
    } else {
      SpacedParagraphSelfClearing();
    }
  }

  /** Each placeholder pass of the table leaves no occurrence of its own
      placeholder, in any case, in the text it returns. */
  lemma TablePassLeavesNone(s: string, k: nat, i: int)
    requires k < |Replacements| && Replacements[k].Token?
    ensures !TokenAt(ReplaceToken(s, Replacements[k].token, Replacements[k].replacement),
                     Replacements[k].token, i)
  {
    TableSelfClearing(k);
    TokenGone(s, Replacements[k].token, Replacements[k].replacement, i);
  }

  // ---------------------------------------------------------------------
  // Bracketed annotations
  // ---------------------------------------------------------------------

  /** Where the lazy `.*?\]` that follows a '[' ends when it starts matching
      at position `j`: the first ']' from `j` on, provided no line feed
      comes first (without DOTALL, `.` does not match a line feed). */
  function CloseBracket(s: string, j: nat): (r: Option<nat>)
    requires j <= |s|
    ensures r.Some? ==> j <= r.value < |s| && s[r.value] == ']'
    ensures r.Some? ==> forall k :: j <= k < r.value ==> s[k] != ']' && s[k] != '\n'
    ensures r.None? ==> forall m :: j <= m < |s| && s[m] == ']' ==> '\n' in s[j..m]
    decreases |s| - j
  {
    if j == |s| then None
    else if s[j] == ']' then Some(j)
    else if s[j] == '\n' then None
    else CloseBracket(s, j + 1)
  }

  /** `re.sub(r"\[.*?\]", "", s)`: scan left to right, deleting each
      shortest bracketed span that has no line feed inside. */
  function DeleteBrackets(s: string): string
    decreases |s|
  {
    if s == [] then []
    else if s[0] == '[' && CloseBracket(s, 1).Some? then DeleteBrackets(s[CloseBracket(s, 1).value + 1..])
    else [s[0]] + DeleteBrackets(s[1..])
  }

  /** Text without '[' is left as it is. */
  lemma {:induction false} NoBracketUnchanged(s: string)
    requires '[' !in s
    ensures DeleteBrackets(s) == s
    decreases |s|
  {
    if s != [] {
      assert '[' !in s[1..];
      NoBracketUnchanged(s[1..]);
    }
  }

  /** Text before the first '[' passes through the deletion untouched. */
  lemma {:induction false} DeleteBracketsAfter(a: string, b: string)
    requires '[' !in a
    ensures DeleteBrackets(a + b) == a + DeleteBrackets(b)
    decreases |a|
  {
    if a == [] {
      assert a + b == b;
    } else {
      assert (a + b)[0] == a[0] && (a + b)[1..] == a[1..] + b;
      assert '[' !in a[1..];
      DeleteBracketsAfter(a[1..], b);
    }
  }

  /** Every ']' of `s` has a line feed before it. */
  predicate CloseOnLaterLine(s: string) {
    forall m :: 0 <= m < |s| && s[m] == ']' ==> '\n' in s[..m]
  }

  /** No '[' is followed by a ']' on the same line: nothing is left for
      `\[.*?\]` to match. */
  predicate NoSpanLeft(s: string) {
    forall i, m :: 0 <= i < m < |s| && s[i] == '[' && s[m] == ']' ==> '\n' in s[i + 1..m]
  }

  /** A '[' that starts a text whose ']'s all lie on later lines opens no
      span. */
  lemma FirstLineOpenUnclosed(s: string)
    requires s != [] && s[0] == '[' && CloseOnLaterLine(s)
    ensures CloseBracket(s, 1).None?
  {
  }

  lemma CloseOnLaterLineTail(s: string)
    requires s != [] && s[0] != '\n' && CloseOnLaterLine(s)
    ensures CloseOnLaterLine(s[1..])
  {
    forall m | 0 <= m < |s| - 1 && s[1..][m] == ']'
      ensures '\n' in s[1..][..m]
    {
      assert s[m + 1] == ']';
      assert s[..m + 1] == [s[0]] + s[1..][..m];
    }
  }

  lemma CloseOnLaterLineCons(c: char, rest: string)
    requires c == '\n' || (c != ']' && CloseOnLaterLine(rest))
    ensures CloseOnLaterLine([c] + rest)
  {
    var out := [c] + rest;
    forall m | 0 <= m < |out| && out[m] == ']'
      ensures '\n' in out[..m]
    {
      if c == '\n' {
        assert out[..m][0] == '\n';
      } else {
        assert rest[m - 1] == ']';
        assert out[..m] == [c] + rest[..m - 1];
      }
    }
  }

  /** Deleting spans never brings a ']' up onto the first line. */
  lemma {:induction false} CloseOnLaterLineKept(s: string)
    requires CloseOnLaterLine(s)
    ensures CloseOnLaterLine(DeleteBrackets(s))
    decreases |s|
  {
    if s != [] {
      if s[0] == '[' {
        FirstLineOpenUnclosed(s);
      }
      var rest := DeleteBrackets(s[1..]);
      assert DeleteBrackets(s) == [s[0]] + rest;
      if s[0] != '\n' {
        CloseOnLaterLineTail(s);
        CloseOnLaterLineKept(s[1..]);
      }
      CloseOnLaterLineCons(s[0], rest);
    }
  }

  /** Putting a character in front of text without spans adds none,
      unless it is a '[' and some ']' sits on the first line. */
  lemma NoSpanCons(c: char, rest: string)
    requires NoSpanLeft(rest)
    requires c == '[' ==> CloseOnLaterLine(rest)
    ensures NoSpanLeft([c] + rest)
  {
    var out := [c] + rest;
    forall i, m | 0 <= i < m < |out| && out[i] == '[' && out[m] == ']'
      ensures '\n' in out[i + 1..m]
    {
      if i == 0 {
        assert rest[m - 1] == ']';
        assert out[1..m] == rest[..m - 1];
      } else {
        assert rest[i - 1] == '[' && rest[m - 1] == ']';
        assert out[i + 1..m] == rest[i..m - 1];
      }
    }
  }

  /** After deletion no bracketed span without a line feed remains. */
  lemma {:induction false} NoSpanAfterDelete(s: string)
    ensures NoSpanLeft(DeleteBrackets(s))
    decreases |s|
  {
    if s != [] {
      if s[0] == '[' && CloseBracket(s, 1).Some? {
        NoSpanAfterDelete(s[CloseBracket(s, 1).value + 1..]);
      } else {
        var rest := DeleteBrackets(s[1..]);
        assert DeleteBrackets(s) == [s[0]] + rest;
        NoSpanAfterDelete(s[1..]);
        if s[0] == '[' {
          forall m | 0 <= m < |s| - 1 && s[1..][m] == ']'
            ensures '\n' in s[1..][..m]
          {
            assert s[m + 1] == ']';
          }
          CloseOnLaterLineKept(s[1..]);
        }
        NoSpanCons(s[0], rest);
      }
    }
  }

  // ---------------------------------------------------------------------
  // The whole pass
  // ---------------------------------------------------------------------

  /** One `re.sub` of the table. */
  function Apply(rule: Rule, s: string): string
    requires WellFormed(rule)
  {
    match rule
    case Token(t, r) => ReplaceToken(s, t, r)
    case BracketSpan => DeleteBrackets(s)
  }

  /** The rules applied in order, the first one first. */
  function ApplyRules(s: string, rules: seq<Rule>): string
    requires forall k :: 0 <= k < |rules| ==> WellFormed(rules[k])
    decreases |rules|
  {
    if rules == [] then s else Apply(rules[|rules| - 1], ApplyRules(s, rules[..|rules| - 1]))
  }

  /** What `clean_transcript` returns. */
  function Clean(raw: string): string {
    ReplacementsWellFormed();
    Strip(CollapseSpaces(ApplyRules(raw, Replacements)))
  }

  /** The cleaned text is single-spaced, has no whitespace at either end,
      and so has no line feed: the paragraph tokens' line feeds end up as
      spaces. */
  lemma CleanNormalised(raw: string)
    ensures SingleSpaced(Clean(raw)) && Stripped(Clean(raw))
    ensures '\n' !in Clean(raw)
  {
    ReplacementsWellFormed();
    var collapsed := CollapseSpaces(ApplyRules(raw, Replacements));
    CollapseSpacesSingleSpaced(ApplyRules(raw, Replacements));
    StripNormalises(collapsed);

  }

  /** `clean_transcript`: each table entry rewrites the text in turn, then
      whitespace runs become single spaces and the ends are stripped. */
  method CleanTranscript(raw: string) returns (cleaned: string)
    ensures cleaned == Clean(raw)
    ensures SingleSpaced(cleaned) && Stripped(cleaned) && '\n' !in cleaned
  {
    ReplacementsWellFormed();
    cleaned := raw;
    for i := 0 to |Replacements|
      invariant cleaned == ApplyRules(raw, Replacements[..i])
    {
      assert Replacements[..i + 1][..i] == Replacements[..i];
      match Replacements[i]
      case Token(t, r) =>
        cleaned := ReplaceToken(cleaned, t, r);
      case BracketSpan =>
        cleaned := DeleteBrackets(cleaned);
    }
    assert Replacements[..|Replacements|] == Replacements;
    cleaned := Strip(CollapseSpaces(cleaned));
    CleanNormalised(raw);
  }

  /** Text with no placeholder token in any case and no '[' passes the
      table unchanged. */
  predicate Untouched(s: string) {
    '[' !in s &&
    forall k, i :: 0 <= k < |Replacements| && Replacements[k].Token? && 0 <= i <= |s| ==>
      !TokenAt(s, Replacements[k].token, i)
  }

  lemma {:induction false} UntouchedByRules(s: string, n: nat)
    requires Untouched(s) && n <= |Replacements|
    ensures forall k :: 0 <= k < |Replacements[..n]| ==> WellFormed(Replacements[..n][k])
    ensures ApplyRules(s, Replacements[..n]) == s
    decreases n
  {
    ReplacementsWellFormed();
    if n > 0 {
      UntouchedByRules(s, n - 1);
      assert Replacements[..n][..n - 1] == Replacements[..n - 1];
      match Replacements[n - 1]
      case Token(t, r) =>
        NoTokenUnchanged(s, t, r);
      case BracketSpan =>
        NoBracketUnchanged(s);
    }
  }

  /** Text that has no placeholder and no '[' and is already single-spaced
      and stripped is returned unchanged. */
  lemma CleanFixedPoint(raw: string)
    requires Untouched(raw) && SingleSpaced(raw) && Stripped(raw)
    ensures Clean(raw) == raw
  {
    UntouchedByRules(raw, |Replacements|);
    assert Replacements[..|Replacements|] == Replacements;
    CollapseSpacesKeepsSingleSpaced(raw);
    StripKeepsStripped(raw);
  }
}
