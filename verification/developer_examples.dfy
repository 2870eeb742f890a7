/** Two titles run through the title tiers of `extract_developer`: one whose
    first bracketed group names the developer, one with a dash. */
module DeveloperExamples {
  import opened Wrappers
  import opened Text
  import opened Capture
  import opened Developer

  /** The title "[DevCo] My Game [v1.4.2]". */
  predicate IsBracketExample(s: string) {
    s == "[" + "DevCo] My Game " + "[v1.4.2]"
  }

  lemma ExampleSecondBracket(s: string)
    requires IsBracketExample(s)
    ensures BracketsFrom(s, 7) == ["v1.4.2"]
  {
    IndexFromFirst(s, ']', 17, 23);
    assert BracketsFrom(s, 24) == [];
    assert s[17..23] == "v1.4.2";
    BracketsStep(s, 16, 23);
    BracketsSkip(s, 7, 16);
  }

  lemma ExampleBrackets(s: string)
    requires IsBracketExample(s)
    ensures Brackets(s) == ["DevCo", "v1.4.2"]
  {
    IndexFromFirst(s, ']', 1, 6);
    BracketsStep(s, 0, 6);
    ExampleSecondBracket(s);
    assert s[1..6] == "DevCo";
  }

  lemma ExampleNoDash(s: string)
    requires IsBracketExample(s)
    ensures DashCandidate(s).None?
  {
    assert '-' !in s;
    IndexFromAbsent(s, '-', 0);
  }

  /** A title without a dash whose first bracket names the developer. */
  lemma ExampleBracketDeveloper(s: string)
    requires IsBracketExample(s)
    ensures ExtractDeveloper(s, "", None) == "DevCo"
  {
    ExampleBrackets(s);
    ExampleNoDash(s);
    assert !LooksLikeVersion("DevCo");
  }

  lemma {:induction false} BracketsSkip(s: string, i: nat, j: nat)
    requires i <= j <= |s|
    requires forall x :: i <= x < j ==> s[x] != '['
    ensures BracketsFrom(s, i) == BracketsFrom(s, j)
    decreases j - i
  {
    if i < j {
      BracketsSkip(s, i + 1, j);
    }
  }

  /** The title "DevCo - My Game". */
  predicate IsDashExample(s: string) {
    s == "DevCo" + " - My Game"
  }

  lemma ExampleDashCandidate(s: string)
    requires IsDashExample(s)
    ensures DashCandidate(s) == Some("DevCo")
  {
    DashExampleShape(s);
    ExampleDashTail(s[7..]);
    DashCandidateAt(s, 6);
    StripOneTrailing("DevCo");
  }

  lemma DashExampleShape(s: string)
    requires IsDashExample(s)
    ensures IndexFrom(s, '-', 0) == Some(6) && s[..6] == "DevCo" + " " && s[7..] == " My Game"
    ensures '[' !in s[..6]
  {
    IndexFromFirst(s, '-', 0, 6);
    assert s[..6] == "DevCo" + " ";
  }

  /** The dash candidate when the first dash is at `d` and the checks pass. */
  lemma DashCandidateAt(title: string, d: nat)
    requires IndexFrom(title, '-', 0) == Some(d) && d >= 1
    requires '[' !in title[..d] && TailOk(title[d + 1..])
    ensures DashCandidate(title) == Some(Strip(title[..d]))
  {
  }

  lemma ExampleDashTail(t: string)
    requires t == " My Game"
    ensures TailOk(t)
  {
    assert DropFinalNewline(t) == t;
    assert LastLineStart(t) == 0 by {
      LastLineCovers(t, 0);
    }
  }

  /** Stripping a word followed by one space drops the space. */
  lemma StripOneTrailing(w: string)
    requires |w| > 0 && !IsSpace(w[0]) && !IsSpace(w[|w| - 1])
    ensures Strip(w + " ") == w
  {
    var s := w + " ";

    assert s[0] == w[0];
    assert Run(s, 0, Spaces) == 0;
    assert s[|w|] == ' ' && s[|w| - 1] == w[|w| - 1];
    assert RunBack(s, |w|, Spaces) == 0;
    assert RunBack(s, |s|, Spaces) == 1;
    assert s[0..|w|] == w;
  }

  lemma ExampleDashAccepts(s: string)
    requires IsDashExample(s)
    ensures DashAccepts("DevCo", s)
  {
    assert "DevCo"[0] == 'D';
    assert Run("DevCo", 0, Digits) == 0;
  }

  /** A title with a dash: the text before it names the developer. */
  lemma ExampleDashDeveloper(s: string)
    requires IsDashExample(s)
    ensures DashTier(s) == Some("DevCo")
  {
    ExampleDashCandidate(s);
    ExampleDashAccepts(s);
  }
}
