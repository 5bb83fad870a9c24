/** The string operations the core relies on, restricted to ASCII:
    `str.lower()`, the `in` substring test, `str.join`, the `\s` class of
    regular expressions and `str.strip()`. */
module Text {

  // ---------------------------------------------------------------------
  // Lower-casing
  // ---------------------------------------------------------------------

  predicate IsUpper(c: char) {
    'A' <= c <= 'Z'
  }

  /** `c.lower()` on an ASCII character. */
  function LowerChar(c: char): (r: char)
    ensures !IsUpper(r)
    ensures !IsUpper(c) ==> r == c
  {
    if IsUpper(c) then (c as int + 32) as char else c
  }

  /** `s.lower()` on ASCII text: every upper-case letter is replaced by its
      lower-case form and nothing else moves. */
  function Lower(s: string): (r: string)
    ensures |r| == |s|
    ensures forall i :: 0 <= i < |s| ==> r[i] == LowerChar(s[i])
  {
    seq(|s|, i requires 0 <= i < |s| => LowerChar(s[i]))
  }

  lemma LowerConcat(a: string, b: string)
    ensures Lower(a + b) == Lower(a) + Lower(b)
  {
  }

  lemma LowerSlice(s: string, i: nat, j: nat)
    requires i <= j <= |s|
    ensures Lower(s[i..j]) == Lower(s)[i..j]
  {
  }

  /** Lowering keeps every occurrence: `p in s` implies
      `p.lower() in s.lower()`. */
  lemma LowerContains(s: string, p: string)
    requires Contains(s, p)
    ensures Contains(Lower(s), Lower(p))
  {
    var i :| 0 <= i <= |s| - |p| && OccursAt(s, p, i);
    LowerSlice(s, i, i + |p|);
    OccurrenceContained(Lower(s), Lower(p), i);
  }

  // ---------------------------------------------------------------------
  // Substring test
  // ---------------------------------------------------------------------

  /** `p` occurs in `s` starting at position `i`. */
  predicate OccursAt(s: string, p: string, i: int) {
    0 <= i && i + |p| <= |s| && s[i..i + |p|] == p
  }

  /** Python's `p in s` for strings: `p` occurs somewhere in `s` as a
      contiguous substring (the empty string occurs everywhere). */
  predicate Contains(s: string, p: string) {
    exists i :: 0 <= i <= |s| - |p| && OccursAt(s, p, i)
  }

  /** An occurrence at a known position is found. */
  lemma OccurrenceContained(s: string, p: string, i: nat)
    requires OccursAt(s, p, i)
    ensures Contains(s, p)
  {
  }

  /** `s` begins with `p`, compared character by character. */
  predicate StartsWith(s: string, p: string)
    decreases |p|
  {
    p == [] || (s != [] && s[0] == p[0] && StartsWith(s[1..], p[1..]))
  }

  lemma {:induction false} StartsWithIffPrefix(s: string, p: string)
    ensures StartsWith(s, p) <==> |p| <= |s| && s[..|p|] == p
    decreases |p|
  {
    if p != [] && s != [] {
      StartsWithIffPrefix(s[1..], p[1..]);
      if |p| <= |s| {
        assert s[..|p|] == [s[0]] + s[1..][..|p| - 1];
        assert p == [p[0]] + p[1..];
      }
    }
  }

  /** The left-to-right scan that decides `p in s`: try each start position
      in turn. It is what the verifier evaluates on short literal strings. */
  predicate Scan(s: string, p: string)
    decreases |s|
  {
    |p| <= |s| && (StartsWith(s, p) || (s != [] && Scan(s[1..], p)))
  }

  /** The scan finds exactly the occurrences that `Contains` speaks of. */
  lemma {:induction false} ScanIffContains(s: string, p: string)
    ensures Scan(s, p) <==> Contains(s, p)
    decreases |s|
  {
    StartsWithIffPrefix(s, p);
    if |p| > |s| {
    } else if StartsWith(s, p) {
      assert s[0..0 + |p|] == s[..|p|];
      assert OccursAt(s, p, 0);
    } else if s == [] {
    } else {
      ScanIffContains(s[1..], p);
      if Scan(s[1..], p) {
        var i :| 0 <= i <= |s[1..]| - |p| && OccursAt(s[1..], p, i);
        TailOccurrence(s, p, i);
      } else {
        forall i | 0 <= i <= |s| - |p|
          ensures !OccursAt(s, p, i)
        {
          if i == 0 {
            assert s[0..0 + |p|] == s[..|p|];
          } else {
            TailOccurrence(s, p, i - 1);
          }
        }
      }
    }
  }

  /** An occurrence in the tail is an occurrence one position later in the
      whole string, and conversely. */
  lemma TailOccurrence(s: string, p: string, i: nat)
    requires s != []
    ensures OccursAt(s[1..], p, i) <==> OccursAt(s, p, i + 1)
  {
    if i + 1 + |p| <= |s| {
      var u, v := s[1..][i..i + |p|], s[i + 1..i + 1 + |p|];
      forall k | 0 <= k < |p|
        ensures u[k] == v[k]
      {
      }
      assert u == v;
    }
  }

  /** A substring of a substring is a substring. */
  lemma ContainsTransitive(s: string, p: string, q: string)
    requires Contains(s, p) && Contains(p, q)
    ensures Contains(s, q)
  {
    var i :| 0 <= i <= |s| - |p| && OccursAt(s, p, i);
    var j :| 0 <= j <= |p| - |q| && OccursAt(p, q, j);
    var u, v := s[i + j..i + j + |q|], p[j..j + |q|];
    forall k | 0 <= k < |q|
      ensures u[k] == v[k]
    {
      assert u[k] == s[i..i + |p|][j + k];
    }
    assert u == q;
    OccurrenceContained(s, q, i + j);
  }

  /** An occurrence of a string without the separator character lies on
      one side of the separator. */
  lemma ContainsAcrossSeparator(a: string, sep: char, b: string, p: string)
    requires sep !in p
    requires Contains(a + [sep] + b, p)
    ensures Contains(a, p) || Contains(b, p)
  {
    var s := a + [sep] + b;
    var i :| 0 <= i <= |s| - |p| && OccursAt(s, p, i);
    assert s[|a|] == sep;
    assert forall k :: i <= k < i + |p| ==> s[k] == p[k - i];
    if i + |p| <= |a| {
      assert s[i..i + |p|] == a[i..i + |p|];
      OccurrenceContained(a, p, i);
    } else if i > |a| {
      assert s[i..i + |p|] == b[i - |a| - 1..i - |a| - 1 + |p|];
      OccurrenceContained(b, p, i - |a| - 1);
    } else {
      assert false;
    }
  }

  /** An occurrence of a string without spaces in a space-joined list lies
      within one of the parts. */
  lemma {:induction false} ContainsInJoin(parts: seq<string>, p: string)
    requires p != [] && ' ' !in p
    requires Contains(Join(" ", parts), p)
    ensures exists k :: 0 <= k < |parts| && Contains(parts[k], p)
    decreases |parts|
  {
    if |parts| == 0 {
      assert false;
    } else if |parts| > 1 {
      assert Join(" ", parts) == parts[0] + [' '] + Join(" ", parts[1..]);
      ContainsAcrossSeparator(parts[0], ' ', Join(" ", parts[1..]), p);
      if !Contains(parts[0], p) {
        ContainsInJoin(parts[1..], p);
        var k :| 0 <= k < |parts[1..]| && Contains(parts[1..][k], p);
        assert Contains(parts[k + 1], p);
      }
    }
  }

  /** A substring of the first part of a concatenation is a substring of
      the whole. */
  lemma ContainsInPrefix(a: string, b: string, p: string)
    requires Contains(a, p)
    ensures Contains(a + b, p)
  {
    var i :| 0 <= i <= |a| - |p| && OccursAt(a, p, i);
    assert (a + b)[i..i + |p|] == a[i..i + |p|];
    OccurrenceContained(a + b, p, i);
  }

  /** A substring of the last part of a concatenation is a substring of the
      whole. */
  lemma ContainsInSuffix(a: string, b: string, p: string)
    requires Contains(b, p)
    ensures Contains(a + b, p)
  {
    var i :| 0 <= i <= |b| - |p| && OccursAt(b, p, i);
    assert (a + b)[|a| + i..|a| + i + |p|] == b[i..i + |p|];
    OccurrenceContained(a + b, p, |a| + i);
  }

  /** Every part of a join is a substring of it. */
  lemma {:induction false} PartInJoin(sep: string, parts: seq<string>, k: nat)
    requires k < |parts|
    ensures Contains(Join(sep, parts), parts[k])
    decreases |parts|
  {
    if |parts| == 1 {
      OccurrenceContained(parts[0], parts[0], 0);
    } else if k == 0 {
      OccurrenceContained(parts[0], parts[0], 0);
      ContainsInPrefix(parts[0], sep + Join(sep, parts[1..]), parts[0]);
      assert parts[0] + sep + Join(sep, parts[1..]) == parts[0] + (sep + Join(sep, parts[1..]));
    } else {
      PartInJoin(sep, parts[1..], k - 1);
      ContainsInSuffix(parts[0] + sep, Join(sep, parts[1..]), parts[k]);
    }
  }

  // ---------------------------------------------------------------------
  // Alphabets
  // ---------------------------------------------------------------------

  /** Every character of `s` belongs to `alphabet`. */
  predicate Within(s: string, alphabet: set<char>)
    decreases |s|
  {
    s == [] || (s[0] in alphabet && Within(s[1..], alphabet))
  }

  lemma {:induction false} WithinAt(s: string, alphabet: set<char>, i: nat)
    requires Within(s, alphabet) && i < |s|
    ensures s[i] in alphabet
    decreases i
  {
    if i > 0 {
      WithinAt(s[1..], alphabet, i - 1);
    }
  }

  lemma {:induction false} WithinConcat(a: string, b: string, alphabet: set<char>)
    requires Within(a, alphabet) && Within(b, alphabet)
    ensures Within(a + b, alphabet)
    decreases |a|
  {
    if a == [] {
      assert a + b == b;
    }
    if a != [] {
      assert a[0] in alphabet && Within(a[1..], alphabet);
      WithinConcat(a[1..], b, alphabet);
      assert (a + b)[0] == a[0] && (a + b)[1..] == a[1..] + b;
    }
  }

  /** A string that uses a character outside the alphabet of `s` cannot
      occur in `s`. */
  lemma ForeignCharNotContained(s: string, p: string, alphabet: set<char>, j: nat)
    requires Within(s, alphabet)
    requires j < |p| && p[j] !in alphabet
    ensures !Contains(s, p)
  {
    forall i | 0 <= i <= |s| - |p| && OccursAt(s, p, i)
      ensures false
    {
      assert s[i..i + |p|][j] == s[i + j];
      WithinAt(s, alphabet, i + j);
    }
  }

  /** Lower-casing keeps a string inside an alphabet without upper-case
      letters. */
  lemma {:induction false} LowerWithin(s: string, alphabet: set<char>)
    requires Within(s, alphabet)
    requires forall c :: c in alphabet ==> !IsUpper(c)
    ensures Within(Lower(s), alphabet)
    decreases |s|
  {
    if s != [] {
      assert Lower(s) == [s[0]] + Lower(s[1..]);
      LowerWithin(s[1..], alphabet);
      assert Lower(s)[1..] == Lower(s[1..]);
    }
  }

  // ---------------------------------------------------------------------
  // Joining
  // ---------------------------------------------------------------------

  /** Python's `sep.join(parts)`. */
  function Join(sep: string, parts: seq<string>): string
    decreases |parts|
  {
    if |parts| == 0 then ""
    else if |parts| == 1 then parts[0]
    else parts[0] + sep + Join(sep, parts[1..])
  }

  /** A join of parts drawn from an alphabet that also holds the separator
      stays inside the alphabet. */
  lemma {:induction false} JoinWithin(sep: string, parts: seq<string>, alphabet: set<char>)
    requires Within(sep, alphabet)
    requires forall k :: 0 <= k < |parts| ==> Within(parts[k], alphabet)
    ensures Within(Join(sep, parts), alphabet)
    decreases |parts|
  {
    if |parts| > 1 {
      JoinWithin(sep, parts[1..], alphabet);
      WithinConcat(parts[0], sep, alphabet);
      WithinConcat(parts[0] + sep, Join(sep, parts[1..]), alphabet);
    }
  }

  // ---------------------------------------------------------------------
  // Whitespace
  // ---------------------------------------------------------------------

  /** The ASCII characters that CPython's `str.isspace()` accepts, which are
      also those that `\s` matches in a `str` pattern and those that
      `str.strip()` removes: tab, line feed, vertical tab, form feed,
      carriage return, the four information separators 0x1C-0x1F, and
      space. */
  predicate IsSpace(c: char) {
    c == ' ' || '\t' <= c <= '\r' || '\U{1C}' <= c <= '\U{1F}'
  }

  /** Whitespace only ever appears as a single plain space. */
  predicate SingleSpaced(s: string) {
    (forall i :: 0 <= i < |s| && IsSpace(s[i]) ==> s[i] == ' ') &&
    (forall i :: 0 <= i < |s| - 1 ==> !(IsSpace(s[i]) && IsSpace(s[i + 1])))
  }

  /** No whitespace at either end. */
  predicate Stripped(s: string) {
    s == [] || (!IsSpace(s[0]) && !IsSpace(s[|s| - 1]))
  }

  /** `re.sub(r'\s+', ' ', s)`: each maximal run of whitespace becomes one
      space. The space is emitted for the last character of the run. */
  function CollapseSpaces(s: string): string
    decreases |s|
  {
    if s == [] then []
    else if IsSpace(s[0]) then
      if |s| > 1 && IsSpace(s[1]) then CollapseSpaces(s[1..])
      else " " + CollapseSpaces(s[1..])
    else [s[0]] + CollapseSpaces(s[1..])
  }

  /** After collapsing, whitespace is single spaces only, and the result
      begins with whitespace exactly when the input does. */
  lemma {:induction false} CollapseSpacesSingleSpaced(s: string)
    ensures SingleSpaced(CollapseSpaces(s))
    ensures CollapseSpaces(s) == [] <==> s == []
    ensures s != [] ==> (IsSpace(CollapseSpaces(s)[0]) <==> IsSpace(s[0]))
    decreases |s|
  {
    if s != [] {
      CollapseSpacesSingleSpaced(s[1..]);
      var rest := CollapseSpaces(s[1..]);
      if IsSpace(s[0]) && |s| > 1 && IsSpace(s[1]) {
      } else {
        var r := [if IsSpace(s[0]) then ' ' else s[0]] + rest;
        assert CollapseSpaces(s) == r;
        forall i | 0 <= i < |r| - 1
          ensures !(IsSpace(r[i]) && IsSpace(r[i + 1]))
        {
          if i > 0 {
            assert r[i] == rest[i - 1] && r[i + 1] == rest[i];
          }
        }
        forall i | 0 <= i < |r| && IsSpace(r[i])
          ensures r[i] == ' '
        {
          if i > 0 {
            assert r[i] == rest[i - 1];
          }
        }
      }
    }
  }

  /** Text whose whitespace is already single spaces is left as it is. */
  lemma {:induction false} CollapseSpacesKeepsSingleSpaced(s: string)
    requires SingleSpaced(s)
    ensures CollapseSpaces(s) == s
    decreases |s|
  {
    if s != [] {
      assert SingleSpaced(s[1..]) by {
        forall i | 0 <= i < |s[1..]| - 1
          ensures !(IsSpace(s[1..][i]) && IsSpace(s[1..][i + 1]))
        {
          assert s[1..][i] == s[i + 1] && s[1..][i + 1] == s[i + 2];
        }
      }
      CollapseSpacesKeepsSingleSpaced(s[1..]);
      if IsSpace(s[0]) {
        assert s[0] == ' ';
        assert !(|s| > 1 && IsSpace(s[1]));
      }
    }
  }

  /** A word with no whitespace in front of the text is copied through the
      collapse. */
  lemma {:induction false} CollapseSpacesAfterWord(x: string, y: string)
    requires forall i :: 0 <= i < |x| ==> !IsSpace(x[i])
    ensures CollapseSpaces(x + y) == x + CollapseSpaces(y)
    decreases |x|
  {
    if x == [] {
      assert x + y == y;
    } else {
      assert (x + y)[0] == x[0] && (x + y)[1..] == x[1..] + y;
      CollapseSpacesAfterWord(x[1..], y);
    }
  }

  /** `s.lstrip()`. */
  function StripStart(s: string): string
    decreases |s|
  {
    if s != [] && IsSpace(s[0]) then StripStart(s[1..]) else s
  }

  /** `s.rstrip()`. */
  function StripEnd(s: string): string
    decreases |s|
  {
    if s != [] && IsSpace(s[|s| - 1]) then StripEnd(s[..|s| - 1]) else s
  }

  /** `s.strip()`. */
  function Strip(s: string): string {
    StripEnd(StripStart(s))
  }

  /** `lstrip` removes a prefix and leaves a string that does not start with
      whitespace. */
  lemma {:induction false} StripStartIsSuffix(s: string)
    ensures exists k :: 0 <= k <= |s| && StripStart(s) == s[k..]
    ensures StripStart(s) != [] ==> !IsSpace(StripStart(s)[0])
    decreases |s|
  {
    if s != [] && IsSpace(s[0]) {
      StripStartIsSuffix(s[1..]);
      var k :| 0 <= k <= |s[1..]| && StripStart(s[1..]) == s[1..][k..];
      assert s[1..][k..] == s[k + 1..];
    } else {
      assert s == s[0..];
    }
  }

  /** `rstrip` removes a suffix and leaves a string that does not end with
      whitespace. */
  lemma {:induction false} StripEndIsPrefix(s: string)
    ensures exists k :: 0 <= k <= |s| && StripEnd(s) == s[..k]
    ensures StripEnd(s) != [] ==> !IsSpace(StripEnd(s)[|StripEnd(s)| - 1])
    decreases |s|
  {
    if s != [] && IsSpace(s[|s| - 1]) {
      StripEndIsPrefix(s[..|s| - 1]);
      var k :| 0 <= k <= |s| - 1 && StripEnd(s[..|s| - 1]) == s[..|s| - 1][..k];
      assert s[..|s| - 1][..k] == s[..k];
    } else {
      assert s == s[..|s|];
    }
  }

  lemma SingleSpacedSlice(s: string, i: nat, j: nat)
    requires i <= j <= |s| && SingleSpaced(s)
    ensures SingleSpaced(s[i..j])
  {
    var t := s[i..j];
    forall k | 0 <= k < |t| - 1
      ensures !(IsSpace(t[k]) && IsSpace(t[k + 1]))
    {
      assert t[k] == s[i + k] && t[k + 1] == s[i + k + 1];
    }
  }

  /** Stripping single-spaced text leaves it single-spaced, with no
      whitespace at either end. */
  lemma StripNormalises(s: string)
    requires SingleSpaced(s)
    ensures SingleSpaced(Strip(s)) && Stripped(Strip(s))
  {
    StripStartIsSuffix(s);
    var k :| 0 <= k <= |s| && StripStart(s) == s[k..];
    SingleSpacedSlice(s, k, |s|);
    var t := StripStart(s);
    StripEndIsPrefix(t);
    var m :| 0 <= m <= |t| && StripEnd(t) == t[..m];
    SingleSpacedSlice(t, 0, m);
    if Strip(s) != [] {
      assert Strip(s)[0] == t[0];
    }
  }

  /** Text with no whitespace at either end is left as it is by `strip`. */
  lemma StripKeepsStripped(s: string)
    requires Stripped(s)
    ensures Strip(s) == s
  {
  }
}
