/** Two sample titles that illustrate `extract_version`, and the
    skipping lemmas that walk the search past their leading characters.

    "[DevCo] My Game [v1.4.2]": the first pattern, `[v…]`, does not match at
    the opening bracket of the developer's tag, since no `v` follows it, and
    the search reaches the second bracket, where it matches and gives
    "1.4.2".

    "My Game [Final]": none of the four version patterns matches anywhere in
    the title, so the list is tried down to its last pattern, the bracketed
    status word, which matches at the bracket and gives "Final".

    Each search is walked character by character with lemmas that show a
    pattern cannot start at a given index: no `[` there, or no `v` after it. */
module VersionExamples {
  import opened Wrappers
  import opened Text
  import opened Version

  /** Indices where a pattern cannot start can be skipped by the search. */
  lemma {:induction false} SearchSkips(p: Pattern, s: string, i: nat, j: nat)
    requires i <= j
    requires forall x :: i <= x < j ==> MatchAt(p, s, x).None?
    ensures SearchFrom(p, s, i) == SearchFrom(p, s, j)
    decreases j - i
  {
    if i < j {
      SearchSkips(p, s, i + 1, j);
    }
  }

  /** Without a `v` at `i`, neither `\bv...` nor `version...` starts there. */
  lemma NoVAt(s: string, i: nat)
    requires i < |s| && LowerChar(s[i]) != 'v'
    ensures MatchAt(BareV, s, i).None? && MatchAt(VersionWord, s, i).None?
  {
    assert MatchBareV(s, i).None?;
    if i + 7 <= |s| {
      assert Lower(s[i..i + 7])[0] == LowerChar(s[i]);
    }
    assert MatchVersionWord(s, i).None?;
  }

  /** Without a `[` at `i`, none of the bracketed patterns starts there. */
  lemma NoOpenAt(s: string, i: nat)
    requires i < |s| && s[i] != '['
    ensures MatchAt(BracketV, s, i).None? && MatchAt(BracketDotted, s, i).None?
    ensures MatchAt(BracketFinal, s, i).None?
  {
  }

  /** A stretch without `[` holds no start of a bracketed pattern. */
  lemma {:induction false} SkipNoOpen(p: Pattern, s: string, i: nat, j: nat)
    requires p == BracketV || p == BracketDotted || p == BracketFinal
    requires i <= j <= |s| && '[' !in s[i..j]
    ensures SearchFrom(p, s, i) == SearchFrom(p, s, j)
    decreases j - i
  {
    if i < j {
      assert s[i..j][0] == s[i];
      NoOpenAt(s, i);
      assert s[i + 1..j] == s[i..j][1..];
      SkipNoOpen(p, s, i + 1, j);
    }
  }

  lemma OnlyVLowersToV(c: char)
    ensures LowerChar(c) == 'v' ==> c == 'v' || c == 'V'
  {
  }

  /** A stretch without `v` or `V` holds no start of `\bv...` or `version...`. */
  lemma {:induction false} SkipNoV(p: Pattern, s: string, i: nat, j: nat)
    requires p == BareV || p == VersionWord
    requires i <= j <= |s| && 'v' !in s[i..j] && 'V' !in s[i..j]
    ensures SearchFrom(p, s, i) == SearchFrom(p, s, j)
    decreases j - i
  {
    if i < j {
      assert s[i..j][0] == s[i];
      OnlyVLowersToV(s[i]);
      NoVAt(s, i);
      assert s[i + 1..j] == s[i..j][1..];
      SkipNoV(p, s, i + 1, j);
    }
  }

  lemma ExampleBracketedVersion(s: string)
    requires s == "[" + "DevCo] My Game " + "[v1.4.2]"
    ensures ExtractVersion(s) == "1.4.2"
  {
    BracketedSearch(s);
    assert Patterns[0] == BracketV;
    FirstMatchSome(s, 0);
    assert s[18..23] == "1.4.2";
  }

  lemma BracketedSearch(s: string)
    requires s == "[" + "DevCo] My Game " + "[v1.4.2]"
    ensures SearchFrom(BracketV, s, 0) == Some((16, 18, 23))
  {
    BracketedNotAt0(s);
    assert s[1..16] == "DevCo] My Game ";
    SkipNoOpen(BracketV, s, 1, 16);
    BracketedAt16(s);
  }

  lemma BracketedNotAt0(s: string)
    requires s == "[" + "DevCo] My Game " + "[v1.4.2]"
    ensures SearchFrom(BracketV, s, 0) == SearchFrom(BracketV, s, 1)
  {
    assert LowerChar(s[1]) == 'd';
    assert MatchBracketV(s, 0).None?;
    assert MatchAt(BracketV, s, 0).None?;
  }

  lemma BracketedAt16(s: string)
    requires s == "[" + "DevCo] My Game " + "[v1.4.2]"
    ensures SearchFrom(BracketV, s, 16) == Some((16, 18, 23))
  {
    ExampleBracketedVersionAt16(s);
    assert MatchAt(BracketV, s, 16) == Some((18, 23));
  }

  lemma ExampleBracketedVersionAt16(s: string)
    requires s == "[" + "DevCo] My Game " + "[v1.4.2]"
    ensures MatchBracketV(s, 16) == Some((18, 23))
  {
    assert VStart(s, 17) == 18;
    IndexFromFirst(s, ']', 18, 23);
    assert s[18..23] == "1.4.2";
    var g := s[18..23];
    assert Run(g, 4, DigitsOrDots) == 1;
    assert Run(g, 2, DigitsOrDots) == 3;
    assert Run(g, 0, DigitsOrDots) == 5;
    assert L1Ok(g);
  }

  lemma ExampleFinal(s: string)
    requires s == "My Game " + "[" + "Final]"
    ensures ExtractVersion(s) == "Final"
  {
    FinalSkipsFour(s);
    FinalAtLast(s);
  }

  /** No pattern but the last matches "My Game [Final]". */
  lemma FinalSkipsFour(s: string)
    requires s == "My Game " + "[" + "Final]"
    ensures FirstMatch(s, 0) == FirstMatch(s, 4)
  {
    assert Patterns[0] == BracketV && Patterns[1] == BracketDotted && Patterns[2] == BareV;
    assert Patterns[3] == VersionWord;
    FinalNoBracketV(s);
    FirstMatchNone(s, 0);
    FinalNoBracketDotted(s);
    FirstMatchNone(s, 1);
    FinalNoV(s);
    FirstMatchNone(s, 2);
    FirstMatchNone(s, 3);
  }

  lemma FinalAtLast(s: string)
    requires s == "My Game " + "[" + "Final]"
    ensures FirstMatch(s, 4) == "Final"
  {
    assert Patterns[4] == BracketFinal;
    FinalBracketFinal(s);
    FirstMatchSome(s, 4);
    assert s[9..14] == "Final";
  }

  /** A pattern that matches nowhere passes the title to the next one. */
  lemma FirstMatchNone(title: string, k: nat)
    requires k < |Patterns| && SearchFrom(Patterns[k], title, 0).None?
    ensures FirstMatch(title, k) == FirstMatch(title, k + 1)
  {
  }

  /** A pattern that matches gives the group of its leftmost match. */
  lemma FirstMatchSome(title: string, k: nat)
    requires k < |Patterns| && SearchFrom(Patterns[k], title, 0).Some?
    ensures var m := SearchFrom(Patterns[k], title, 0).value;
      m.1 <= m.2 <= |title| && FirstMatch(title, k) == title[m.1..m.2]
  {
  }

  lemma FinalNoBracketV(s: string)
    requires s == "My Game " + "[" + "Final]"
    ensures SearchFrom(BracketV, s, 0).None?
  {
    assert s[..8] == "My Game " && s[9..15] == "Final]";
    SkipNoOpen(BracketV, s, 0, 8);
    SkipNoOpen(BracketV, s, 9, 15);
    assert LowerChar(s[9]) == 'f';
    assert MatchAt(BracketV, s, 8).None?;
    assert SearchFrom(BracketV, s, 8) == SearchFrom(BracketV, s, 9);
  }

  lemma FinalNoBracketDotted(s: string)
    requires s == "My Game " + "[" + "Final]"
    ensures SearchFrom(BracketDotted, s, 0).None?
  {
    assert s[..8] == "My Game " && s[9..15] == "Final]";
    SkipNoOpen(BracketDotted, s, 0, 8);
    SkipNoOpen(BracketDotted, s, 9, 15);
    IndexFromFirst(s, ']', 9, 14);
    assert Run(s[9..14], 0, Digits) == 0;
    assert MatchAt(BracketDotted, s, 8).None?;
    assert SearchFrom(BracketDotted, s, 8) == SearchFrom(BracketDotted, s, 9);
  }

  lemma FinalNoV(s: string)
    requires s == "My Game " + "[" + "Final]"
    ensures SearchFrom(BareV, s, 0).None? && SearchFrom(VersionWord, s, 0).None?
  {
    assert s[0..15] == "My Game [Final]";
    SkipNoV(BareV, s, 0, 15);
    SkipNoV(VersionWord, s, 0, 15);
  }

  lemma FinalBracketFinal(s: string)
    requires s == "My Game " + "[" + "Final]"
    ensures SearchFrom(BracketFinal, s, 0) == Some((8, 9, 14))
  {
    assert s[..8] == "My Game ";
    SkipNoOpen(BracketFinal, s, 0, 8);
    IndexFromFirst(s, ']', 9, 14);
    assert Lower(s[9..14]) == "final";
    assert MatchAt(BracketFinal, s, 8) == Some((9, 14));
  }
}
