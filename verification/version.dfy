/** `extract_version`: five fixed case-insensitive patterns tried in order;
    the first pattern that matches anywhere in the title yields its capture
    group. */
module Version {
  /* Each pattern is written twice: declaratively (`Spans`, which says which
     capture a pattern may produce at a start index, in the shape of the
     regular expression) and as a matcher (`MatchAt`). The matcher is proved
     to find a span exactly when one exists. */

  import opened Wrappers
  import opened Text
  import opened Config

  /** The five patterns, in the order they are tried:
      `\[v\.?(\d+[\d.]*[a-zA-Z0-9]*)\]`, `\[(\d+\.[\d.]+[a-zA-Z0-9]*)\]`,
      `\bv\.?(\d+\.[\d.]+[a-zA-Z0-9]*)\b`, `version\s+(\d+\.[\d.]+[a-zA-Z0-9]*)`
      and `\[(Final|Completed|Complete)\]`. */
  datatype Pattern = BracketV | BracketDotted | BareV | VersionWord | BracketFinal

  const Patterns: seq<Pattern> := [BracketV, BracketDotted, BareV, VersionWord, BracketFinal]

  // ----- the capture languages -------------------------------------------

  /** `\d+[\d.]*[a-zA-Z0-9]*` */
  ghost predicate InL1(c: string) {
    exists p :: 1 <= p <= |c| && IsDigit(c[0]) && AllIn(c[..p], DigitsOrDots) && AllIn(c[p..], Alnums)
  }

  /** `\d+\.[\d.]+[a-zA-Z0-9]*` */
  ghost predicate InL2(c: string) {
    exists a, p :: 1 <= a && a + 1 < p <= |c| && AllIn(c[..a], Digits) && c[a] == '.'
      && AllIn(c[a + 1..p], DigitsOrDots) && AllIn(c[p..], Alnums)
  }

  /** Membership in the first language, by taking the digits-or-dots run greedily. */
  predicate L1Ok(c: string) {
    |c| > 0 && IsDigit(c[0]) && AllIn(c[Run(c, 0, DigitsOrDots)..], Alnums)
  }

  /** Membership in the second language: the digit run, one dot, a non-empty
      digits-or-dots run, then letters and digits only. */
  predicate L2Ok(c: string) {
    var a := Run(c, 0, Digits);
    0 < a < |c| && c[a] == '.' && Run(c, a + 1, DigitsOrDots) >= 1
      && AllIn(c[a + 1 + Run(c, a + 1, DigitsOrDots)..], Alnums)
  }

  lemma AlnumsSuffix(c: string, p: nat, q: nat)
    requires p <= q <= |c|
    requires AllIn(c[p..], Alnums)
    ensures AllIn(c[q..], Alnums)
  {
    assert forall x :: 0 <= x < |c| - q ==> c[q..][x] == c[p..][x + q - p];
  }

  lemma {:induction false} L1Correct(c: string)
    ensures InL1(c) <==> L1Ok(c)
  {
    if InL1(c) {
      var p :| 1 <= p <= |c| && IsDigit(c[0]) && AllIn(c[..p], DigitsOrDots) && AllIn(c[p..], Alnums);
      RunIsLongest(c, 0, p, DigitsOrDots);
      AlnumsSuffix(c, p, Run(c, 0, DigitsOrDots));
    }
    if L1Ok(c) {
      var p := Run(c, 0, DigitsOrDots);
      assert In(c[0], DigitsOrDots);
      assert 1 <= p;
      assert c[..p] == c[0..0 + p];
    }
  }

  lemma {:induction false} L2Sound(c: string)
    requires InL2(c)
    ensures L2Ok(c)
  {
    var a, p :| 1 <= a && a + 1 < p <= |c| && AllIn(c[..a], Digits) && c[a] == '.'
      && AllIn(c[a + 1..p], DigitsOrDots) && AllIn(c[p..], Alnums);
    assert c[..a] == c[0..a];
    RunStopsAt(c, 0, a, Digits);
    RunIsLongest(c, a + 1, p, DigitsOrDots);
    AlnumsSuffix(c, p, a + 1 + Run(c, a + 1, DigitsOrDots));
  }

  /** A run ends at the first character outside the class. */
  lemma RunStopsAt(s: string, i: nat, j: nat, k: CharClass)
    requires i <= j < |s| && AllIn(s[i..j], k) && !In(s[j], k)
    ensures Run(s, i, k) == j - i
  {
    RunIsLongest(s, i, j, k);
  }

  lemma {:induction false} L2Complete(c: string)
    requires L2Ok(c)
    ensures InL2(c)
  {
    var a := Run(c, 0, Digits);
    var p := a + 1 + Run(c, a + 1, DigitsOrDots);
    assert c[..a] == c[0..0 + a];
    assert 1 <= a && a + 1 < p <= |c|;
    assert AllIn(c[..a], Digits) && c[a] == '.' && AllIn(c[a + 1..p], DigitsOrDots) && AllIn(c[p..], Alnums);
  }

  lemma L2Correct(c: string)
    ensures InL2(c) <==> L2Ok(c)
  {
    if InL2(c) { L2Sound(c); }
    if L2Ok(c) { L2Complete(c); }
  }

  lemma L1StartsWithDigit(c: string)
    requires InL1(c)
    ensures |c| > 0 && IsDigit(c[0])
  {
  }

  lemma L2StartsWithDigit(c: string)
    requires InL2(c)
    ensures |c| > 0 && IsDigit(c[0])
  {
    var a, p :| 1 <= a && a + 1 < p <= |c| && AllIn(c[..a], Digits) && c[a] == '.'
      && AllIn(c[a + 1..p], DigitsOrDots) && AllIn(c[p..], Alnums);
    assert c[..a][0] == c[0];
  }

  /** A string of either language never contains `]`. */
  lemma L1NoBracket(c: string, x: nat)
    requires InL1(c) && x < |c|
    ensures c[x] != ']'
  {
    L1Correct(c);
    var p := Run(c, 0, DigitsOrDots);
    if x < p {
      assert c[0..0 + p][x] == c[x];
    } else {
      assert c[p..][x - p] == c[x];
    }
  }

  lemma L2NoBracket(c: string, x: nat)
    requires InL2(c) && x < |c|
    ensures c[x] != ']'
  {
    var a, p :| 1 <= a && a + 1 < p <= |c| && AllIn(c[..a], Digits) && c[a] == '.'
      && AllIn(c[a + 1..p], DigitsOrDots) && AllIn(c[p..], Alnums);
    if x < a {
      assert c[..a][x] == c[x];
    } else if a < x < p {
      assert c[a + 1..p][x - a - 1] == c[x];
    } else if p <= x {
      assert c[p..][x - p] == c[x];
    }
  }

  // ----- declarative matching --------------------------------------------

  /** `\b`: exactly one side of position `e` is a word character. */
  predicate WordBoundary(s: string, e: nat)
    requires e <= |s|
  {
    (e > 0 && IsWordChar(s[e - 1])) != (e < |s| && IsWordChar(s[e]))
  }

  /** `v\.?` at `i` leaves the capture starting at `c`. */
  predicate AfterV(s: string, i: nat, c: nat) {
    i < |s| && LowerChar(s[i]) == 'v'
    && (c == i + 1 || (i + 1 < |s| && s[i + 1] == '.' && c == i + 2))
  }

  const FinalWords: set<string> := {"final", "completed", "complete"}

  /** Pattern `p`, tried at index `i`, matches with its group spanning `s[c..e]`.
      For the two patterns whose group is followed by nothing that fixes its
      end, the span is the longest one, which is the one greedy quantifiers
      with backtracking settle on. */
  ghost predicate Spans(p: Pattern, s: string, i: nat, c: nat, e: nat) {
    i <= c <= e <= |s| && i < |s| &&
    match p
    case BracketV => SpansBracketV(s, i, c, e)
    case BracketDotted => SpansBracketDotted(s, i, c, e)
    case BareV => SpansBareV(s, i, c, e)
    case VersionWord => SpansVersionWord(s, i, c, e)
    case BracketFinal => SpansBracketFinal(s, i, c, e)
  }

  ghost predicate SpansBracketV(s: string, i: nat, c: nat, e: nat)
    requires i < |s| && c <= e <= |s|
  {
    s[i] == '[' && AfterV(s, i + 1, c) && e < |s| && s[e] == ']' && InL1(s[c..e])
  }

  ghost predicate SpansBracketDotted(s: string, i: nat, c: nat, e: nat)
    requires i < |s| && c <= e <= |s|
  {
    s[i] == '[' && c == i + 1 && e < |s| && s[e] == ']' && InL2(s[c..e])
  }

  ghost predicate SpansBareV(s: string, i: nat, c: nat, e: nat)
    requires i <= |s| && c <= e <= |s|
  {
    WordBoundary(s, i) && AfterV(s, i, c) && InL2(s[c..e]) && WordBoundary(s, e)
    && (forall e2: nat :: e < e2 <= |s| && InL2(s[c..e2]) ==> !WordBoundary(s, e2))
  }

  ghost predicate SpansVersionWord(s: string, i: nat, c: nat, e: nat)
    requires c <= e <= |s|
  {
    WordAt(s, i, "version") && i + 7 < c && AllIn(s[i + 7..c], Spaces) && InL2(s[c..e])
    && (forall e2: nat :: e < e2 <= |s| ==> !InL2(s[c..e2]))
  }

  ghost predicate SpansBracketFinal(s: string, i: nat, c: nat, e: nat)
    requires i < |s| && c <= e <= |s|
  {
    s[i] == '[' && c == i + 1 && e < |s| && s[e] == ']' && Lower(s[c..e]) in FinalWords
  }

  ghost predicate MatchesAt(p: Pattern, s: string, i: nat) {
    exists c: nat, e: nat :: Spans(p, s, i, c, e)
  }

  ghost predicate MatchesAnywhere(p: Pattern, s: string) {
    exists i: nat :: MatchesAt(p, s, i)
  }

  // ----- the matchers -----------------------------------------------------

  /** The largest `e` in `lo+1..hi` with `s[c..e]` in the second language and
      (when `bounded`) a word boundary at `e`. */
  function LongestL2(s: string, c: nat, hi: nat, bounded: bool): (r: Option<nat>)
    requires c <= hi <= |s|
    ensures r.Some? ==> c < r.value <= hi && InL2(s[c..r.value]) && (bounded ==> WordBoundary(s, r.value))
    ensures r.Some? ==> forall e2: nat :: r.value < e2 <= hi && InL2(s[c..e2]) ==> bounded && !WordBoundary(s, e2)
    ensures r.None? ==> forall e2: nat :: c < e2 <= hi && InL2(s[c..e2]) ==> bounded && !WordBoundary(s, e2)
    decreases hi
  {
    if hi == c then None
    else
      L2Correct(s[c..hi]);
      if L2Ok(s[c..hi]) && (!bounded || WordBoundary(s, hi)) then Some(hi)
      else LongestL2(s, c, hi - 1, bounded)
  }

  /** The capture start after `v\.?` at `i`: the regular expression takes the
      dot when there is one, and without it the group would start with a dot. */
  function VStart(s: string, i: nat): nat {
    if i + 1 < |s| && s[i + 1] == '.' then i + 2 else i + 1
  }

  lemma VStartOnly(s: string, i: nat, c: nat, e: nat)
    requires AfterV(s, i, c) && c <= e <= |s|
    requires |s[c..e]| > 0 && IsDigit(s[c..e][0])
    ensures c == VStart(s, i)
  {
    assert s[c..e][0] == s[c];
  }

  /** `\[v\.?(...)\]` at `i`: the group runs to the first `]`. */
  function MatchBracketV(s: string, i: nat): (r: Option<(nat, nat)>)
    requires i < |s|
    ensures r.Some? ==> Spans(BracketV, s, i, r.value.0, r.value.1)
    ensures r.None? ==> !MatchesAt(BracketV, s, i)
  {
    if s[i] != '[' || i + 1 >= |s| || LowerChar(s[i + 1]) != 'v' then None
    else
      var c := VStart(s, i + 1);
      var k := IndexFrom(s, ']', c);
      if k.Some? && L1Ok(s[c..k.value]) then
        L1Correct(s[c..k.value]);
        Some((c, k.value))
      else
        NoBracketV(s, i);
        None
  }

  /** `\[(...)\]` with a dotted group at `i`. */
  function MatchBracketDotted(s: string, i: nat): (r: Option<(nat, nat)>)
    requires i < |s|
    ensures r.Some? ==> Spans(BracketDotted, s, i, r.value.0, r.value.1)
    ensures r.None? ==> !MatchesAt(BracketDotted, s, i)
  {
    if s[i] != '[' then None
    else
      var k := IndexFrom(s, ']', i + 1);
      if k.Some? && L2Ok(s[i + 1..k.value]) then
        L2Correct(s[i + 1..k.value]);
        Some((i + 1, k.value))
      else
        NoBracketDotted(s, i);
        None
  }

  /** `\bv\.?(...)\b` at `i`: the longest group that ends on a word boundary. */
  function MatchBareV(s: string, i: nat): (r: Option<(nat, nat)>)
    requires i < |s|
    ensures r.Some? ==> Spans(BareV, s, i, r.value.0, r.value.1)
    ensures r.None? ==> !MatchesAt(BareV, s, i)
  {
    if !WordBoundary(s, i) || LowerChar(s[i]) != 'v' then None
    else
      var c := VStart(s, i);
      var e := LongestL2(s, c, |s|, true);
      if e.Some? then Some((c, e.value))
      else
        NoBareV(s, i);
        None
  }

  /** `version\s+(...)` at `i`: the longest group after the whitespace. */
  function MatchVersionWord(s: string, i: nat): (r: Option<(nat, nat)>)
    requires i < |s|
    ensures r.Some? ==> Spans(VersionWord, s, i, r.value.0, r.value.1)
    ensures r.None? ==> !MatchesAt(VersionWord, s, i)
  {
    if !WordAt(s, i, "version") then None
    else
      var c := i + 7 + Run(s, i + 7, Spaces);
      var e := if c == i + 7 then None else LongestL2(s, c, |s|, false);
      if e.Some? then
        VersionWordFound(s, i, c, e.value);
        Some((c, e.value))
      else
        NoVersionWord(s, i);
        None
  }

  lemma VersionWordFound(s: string, i: nat, c: nat, e: nat)
    requires i < |s| && WordAt(s, i, "version") && c == i + 7 + Run(s, i + 7, Spaces) && c > i + 7
    requires c <= |s| && LongestL2(s, c, |s|, false) == Some(e)
    ensures Spans(VersionWord, s, i, c, e)
  {
    assert s[i + 7..c] == s[i + 7..i + 7 + Run(s, i + 7, Spaces)];
    assert SpansVersionWord(s, i, c, e);
  }

  /** `\[(Final|Completed|Complete)\]` at `i`. */
  function MatchBracketFinal(s: string, i: nat): (r: Option<(nat, nat)>)
    requires i < |s|
    ensures r.Some? ==> Spans(BracketFinal, s, i, r.value.0, r.value.1)
    ensures r.None? ==> !MatchesAt(BracketFinal, s, i)
  {
    if s[i] != '[' then None
    else
      var k := IndexFrom(s, ']', i + 1);
      if k.Some? && Lower(s[i + 1..k.value]) in FinalWords then Some((i + 1, k.value))
      else
        NoBracketFinal(s, i);
        None
  }

  /** Try pattern `p` at index `i`. */
  function MatchAt(p: Pattern, s: string, i: nat): (r: Option<(nat, nat)>)
    ensures r.Some? ==> Spans(p, s, i, r.value.0, r.value.1)
    ensures r.None? ==> !MatchesAt(p, s, i)
  {
    if i >= |s| then None
    else
      match p
      case BracketV => MatchBracketV(s, i)
      case BracketDotted => MatchBracketDotted(s, i)
      case BareV => MatchBareV(s, i)
      case VersionWord => MatchVersionWord(s, i)
      case BracketFinal => MatchBracketFinal(s, i)
  }

  lemma NoBracketV(s: string, i: nat)
    requires i + 1 < |s| && s[i] == '[' && LowerChar(s[i + 1]) == 'v'
    requires var c := VStart(s, i + 1);
      var k := IndexFrom(s, ']', c);
      k.None? || !L1Ok(s[c..k.value])
    ensures !MatchesAt(BracketV, s, i)
  {
    if c: nat, e: nat :| Spans(BracketV, s, i, c, e) {
      BracketVSpanIsFound(s, i, c, e);
    }
  }

  /** A span of `\[v\.?(...)\]` is the one the matcher finds. */
  lemma BracketVSpanIsFound(s: string, i: nat, c: nat, e: nat)
    requires i < |s| && c <= e <= |s| && SpansBracketV(s, i, c, e)
    ensures i + 1 < |s| && c == VStart(s, i + 1) && IndexFrom(s, ']', c) == Some(e) && L1Ok(s[c..e])
  {
    var g := s[c..e];
    L1StartsWithDigit(g);
    VStartOnly(s, i + 1, c, e);
    forall x | c <= x < e ensures s[x] != ']' {
      L1NoBracket(g, x - c);
      assert g[x - c] == s[x];
    }
    IndexFromFirst(s, ']', c, e);
    L1Correct(g);
  }

  lemma NoBracketDotted(s: string, i: nat)
    requires i < |s| && s[i] == '['
    requires var k := IndexFrom(s, ']', i + 1); k.None? || !L2Ok(s[i + 1..k.value])
    ensures !MatchesAt(BracketDotted, s, i)
  {
    if c: nat, e: nat :| Spans(BracketDotted, s, i, c, e) {
      forall x | c <= x < e ensures s[x] != ']' {
        L2NoBracket(s[c..e], x - c);
      }
      IndexFromFirst(s, ']', c, e);
      L2Correct(s[c..e]);
    }
  }

  lemma NoBareV(s: string, i: nat)
    requires i < |s| && LowerChar(s[i]) == 'v'
    requires LongestL2(s, VStart(s, i), |s|, true).None?
    ensures !MatchesAt(BareV, s, i)
  {
    if c: nat, e: nat :| Spans(BareV, s, i, c, e) {
      L2StartsWithDigit(s[c..e]);
      VStartOnly(s, i, c, e);
    }
  }

  lemma NoVersionWord(s: string, i: nat)
    requires WordAt(s, i, "version")
    requires var c := i + 7 + Run(s, i + 7, Spaces);
      c == i + 7 || LongestL2(s, c, |s|, false).None?
    ensures !MatchesAt(VersionWord, s, i)
  {
    forall c: nat, e: nat | Spans(VersionWord, s, i, c, e) ensures false {
      VersionWordSpanStart(s, i, c, e);
    }
  }

  /** A span of `version\s+(...)` starts its group after all the
      whitespace, and some group is found there. */
  lemma VersionWordSpanStart(s: string, i: nat, c: nat, e: nat)
    requires c <= e <= |s| && SpansVersionWord(s, i, c, e)
    ensures c == i + 7 + Run(s, i + 7, Spaces) && c > i + 7 && LongestL2(s, c, |s|, false).Some?
  {
    L2StartsWithDigit(s[c..e]);
    assert s[c..e][0] == s[c];
    RunIsLongest(s, i + 7, c, Spaces);
  }

  lemma NoBracketFinal(s: string, i: nat)
    requires i < |s| && s[i] == '['
    requires var k := IndexFrom(s, ']', i + 1); k.None? || Lower(s[i + 1..k.value]) !in FinalWords
    ensures !MatchesAt(BracketFinal, s, i)
  {
    forall c: nat, e: nat | Spans(BracketFinal, s, i, c, e) ensures IndexFrom(s, ']', i + 1) == Some(e) {
      FinalSpanCloses(s, i, c, e);
    }
  }

  /** A final word in brackets closes at the first `]` after the `[`. */
  lemma FinalSpanCloses(s: string, i: nat, c: nat, e: nat)
    requires i < |s| && c <= e <= |s| && SpansBracketFinal(s, i, c, e)
    ensures IndexFrom(s, ']', i + 1) == Some(e)
  {
    var w := Lower(s[c..e]);
    FinalWordsLackBracket(w);
    forall x | c <= x < e ensures s[x] != ']' {
      assert w[x - c] == LowerChar(s[x]);
    }
    IndexFromFirst(s, ']', i + 1, e);
  }

  lemma FinalWordsLackBracket(w: string)
    requires w in FinalWords
    ensures ']' !in w
  {
  }

  /** `re.search`: the leftmost index from `i` on where `p` matches. */
  function SearchFrom(p: Pattern, s: string, i: nat): (r: Option<(nat, nat, nat)>)
    ensures r.Some? ==> i <= r.value.0 && Spans(p, s, r.value.0, r.value.1, r.value.2)
    ensures r.Some? ==> forall j: nat :: i <= j < r.value.0 ==> !MatchesAt(p, s, j)
    ensures r.None? ==> forall j: nat :: i <= j ==> !MatchesAt(p, s, j)
    decreases |s| - i
  {
    if i >= |s| then
      NoMatchPastEnd(p, s, i);
      None
    else
      match MatchAt(p, s, i)
      case Some(ce) => Some((i, ce.0, ce.1))
      case None =>
        var r := SearchFrom(p, s, i + 1);
        NoMatchHereOrAfter(p, s, i, r);
        r
  }

  /** Nothing matches at or past the end of the text. */
  lemma NoMatchPastEnd(p: Pattern, s: string, i: nat)
    requires i >= |s|
    ensures forall j: nat :: i <= j ==> !MatchesAt(p, s, j)
  {
    forall j: nat | i <= j ensures !MatchesAt(p, s, j) {
      var _ := MatchAt(p, s, j);
    }
  }

  /** A search from `i + 1` is a search from `i` when nothing matches at `i`. */
  lemma NoMatchHereOrAfter(p: Pattern, s: string, i: nat, r: Option<(nat, nat, nat)>)
    requires !MatchesAt(p, s, i)
    requires r.Some? ==> i + 1 <= r.value.0 && forall j: nat :: i + 1 <= j < r.value.0 ==> !MatchesAt(p, s, j)
    requires r.None? ==> forall j: nat :: i + 1 <= j ==> !MatchesAt(p, s, j)
    ensures r.Some? ==> forall j: nat :: i <= j < r.value.0 ==> !MatchesAt(p, s, j)
    ensures r.None? ==> forall j: nat :: i <= j ==> !MatchesAt(p, s, j)
  {
    forall j: nat | i <= j && (r.None? || j < r.value.0) ensures !MatchesAt(p, s, j) {
      if j > i {
        assert i + 1 <= j;
      }
    }
  }

  /** Pattern number `k1` is the first of those from number `k` on to match
      `title`, its leftmost match starts at `i`, and its group spans `c..e`. */
  ghost predicate Chosen(title: string, k: nat, k1: nat, i: nat, c: nat, e: nat) {
    && k <= k1 < |Patterns|
    && (forall k2 :: k <= k2 < k1 ==> !MatchesAnywhere(Patterns[k2], title))
    && (forall j: nat :: j < i ==> !MatchesAt(Patterns[k1], title, j))
    && Spans(Patterns[k1], title, i, c, e)
  }

  ghost predicate FoundFrom(title: string, k: nat, r: string) {
    exists k1: nat, i: nat, c: nat, e: nat :: Chosen(title, k, k1, i, c, e) && r == title[c..e]
  }

  /** The version of a title: the group of the first pattern that matches,
      taken at the leftmost index where that pattern matches. */
  function ExtractVersion(title: string): (r: string)
    ensures r == Unknown <==> forall p :: p in Patterns ==> !MatchesAnywhere(p, title)
    ensures r != Unknown ==> FoundFrom(title, 0, r)
  {
    FirstMatch(title, 0)
  }

  /** Try the patterns from index `k` of the list on. */
  function FirstMatch(title: string, k: nat): (r: string)
    requires k <= |Patterns|
    ensures r == Unknown <==> forall k2 :: k <= k2 < |Patterns| ==> !MatchesAnywhere(Patterns[k2], title)
    ensures r != Unknown ==> FoundFrom(title, k, r)
    decreases |Patterns| - k
  {
    if k == |Patterns| then Unknown
    else
      match SearchFrom(Patterns[k], title, 0)
      case Some(m) =>
        CaptureHead(Patterns[k], title, m.0, m.1, m.2);
        assert title[m.1..m.2][0] == title[m.1] && Unknown[0] == 'U';
        assert title[m.1..m.2] != Unknown;
        assert MatchesAt(Patterns[k], title, m.0);
        assert Chosen(title, k, k, m.0, m.1, m.2);
        title[m.1..m.2]
      case None =>
        assert !MatchesAnywhere(Patterns[k], title);
        var r := FirstMatch(title, k + 1);
        if r != Unknown then
          FoundFromEarlier(title, k, r);
          r
        else r
  }

  lemma FoundFromEarlier(title: string, k: nat, r: string)
    requires k < |Patterns| && !MatchesAnywhere(Patterns[k], title)
    requires FoundFrom(title, k + 1, r)
    ensures FoundFrom(title, k, r)
  {
    var k1: nat, i: nat, c: nat, e: nat :| Chosen(title, k + 1, k1, i, c, e) && r == title[c..e];
    assert Chosen(title, k, k1, i, c, e);
  }

  /** Every capture starts with a digit or with the first letter of a status
      word, so no capture reads "Unknown". */
  lemma CaptureHead(p: Pattern, s: string, i: nat, c: nat, e: nat)
    requires Spans(p, s, i, c, e)
    ensures c < e && (IsDigit(s[c]) || LowerChar(s[c]) == 'f' || LowerChar(s[c]) == 'c')
  {
    match p
    case BracketV =>
      L1StartsWithDigit(s[c..e]);
      assert s[c..e][0] == s[c];
    case BracketDotted =>
      L2StartsWithDigit(s[c..e]);
      assert s[c..e][0] == s[c];
    case BareV =>
      L2StartsWithDigit(s[c..e]);
      assert s[c..e][0] == s[c];
    case VersionWord =>
      L2StartsWithDigit(s[c..e]);
      assert s[c..e][0] == s[c];
    case BracketFinal =>
      var w := Lower(s[c..e]);
      assert w == "final" || w == "completed" || w == "complete";
      assert w[0] == LowerChar(s[c]);
  }
}
