/** `extract_developer`: four tiers tried in order, the first accepted
    candidate wins, and "Unknown" when none is. */
module Developer {
  /* The tiers:
     1. a labelled line of the description (`Developer:`, `Dev:`, `Made by:`,
        `Creator:`, `Author:`), cleaned of tags and a trailing `[...]`;
     2. a definition list or a bold label in the thread page;
     3. the part of the title before its first dash;
     4. the bracketed groups of the title. */

  import opened Wrappers
  import opened Text
  import opened Config
  import opened Capture
  import opened Lists

  // ----- tier 1: a labelled line of the description -----------------------

  /** The labels tier 1 tries, in order. */
  const Labels: seq<Label> := [DeveloperLabel, DevLabel, MadeByLabel, CreatorLabel, AuthorLabel]

  /** `re.sub(r'<[^>]+>', '', s)`: drop every `<`, one or more characters
      other than `>`, `>`, scanning left to right. */
  function RemoveTags(s: string): (r: string)
    ensures |r| <= |s|
    decreases |s|
  {
    if s == [] then []
    else if s[0] == '<' && IndexFrom(s, '>', 1).Some? && IndexFrom(s, '>', 1).value >= 2 then
      RemoveTags(s[IndexFrom(s, '>', 1).value + 1..])
    else [s[0]] + RemoveTags(s[1..])
  }

  /** A string contains a tag when some `<` is followed, after one or more
      characters other than `>`, by a `>`. */
  ghost predicate HasTag(s: string) {
    exists i, j :: 0 <= i && i + 1 < j < |s| && s[i] == '<' && s[j] == '>' && '>' !in s[i + 1..j]
  }

  /** Every `<` left behind is followed by no `>` at all or directly by one. */
  ghost predicate LoneOpenings(s: string) {
    forall i, j :: 0 <= i && i + 1 < j < |s| && s[i] == '<' && s[j] == '>' ==> s[i + 1] == '>'
  }

  lemma LoneOpeningsHaveNoTag(s: string)
    requires LoneOpenings(s)
    ensures !HasTag(s)
  {
    forall i, j | 0 <= i && i + 1 < j < |s| && s[i] == '<' && s[j] == '>' ensures '>' in s[i + 1..j] {
      assert s[i + 1..j][0] == s[i + 1];
    }
  }

  /** Removing tags leaves no tag behind. */
  lemma {:induction false} RemoveTagsLeavesNone(s: string)
    ensures LoneOpenings(RemoveTags(s))
    ensures !HasTag(RemoveTags(s))
    decreases |s|
  {
    if s == [] {
    } else if s[0] == '<' && IndexFrom(s, '>', 1).Some? && IndexFrom(s, '>', 1).value >= 2 {
      RemoveTagsLeavesNone(s[IndexFrom(s, '>', 1).value + 1..]);
    } else {
      var t := RemoveTags(s[1..]);
      RemoveTagsLeavesNone(s[1..]);
      var r := [s[0]] + t;
      forall i, j | 0 <= i && i + 1 < j < |r| && r[i] == '<' && r[j] == '>' ensures r[i + 1] == '>' {
        if i == 0 {
          KeptOpening(s);
          assert r[1..][j - 1] == r[j];
        } else {
          assert t[i - 1] == '<' && t[j - 1] == '>';
        }
      }
    }
    LoneOpeningsHaveNoTag(RemoveTags(s));
  }

  /** A kept leading `<` has no `>` after it, or `>` right after it. */
  lemma KeptOpening(s: string)
    requires |s| > 0 && s[0] == '<'
    requires !(IndexFrom(s, '>', 1).Some? && IndexFrom(s, '>', 1).value >= 2)
    ensures var r := [s[0]] + RemoveTags(s[1..]);
      (1 < |r| && r[1] == '>') || '>' !in r[1..]
  {
    var t := RemoveTags(s[1..]);
    if IndexFrom(s, '>', 1).Some? {
      assert s[1] == '>';
      assert s[1..][0] == '>';
      assert RemoveTags(s[1..]) == [s[1]] + RemoveTags(s[2..]);
    } else {
      assert '>' !in s[1..];
      NoCloseStaysNone(s[1..]);
    }
  }

  lemma {:induction false} NoCloseStaysNone(s: string)
    requires '>' !in s
    ensures '>' !in RemoveTags(s)
    decreases |s|
  {
    if s != [] {
      assert '>' !in s[1..];
      NoCloseStaysNone(s[1..]);
    }
  }

  /** The end anchor `\]$` holds at `e`: `s[e]` is a `]` that ends the string
      or is followed only by a final newline. */
  predicate Closes(s: string, e: nat) {
    e < |s| && s[e] == ']' && (e + 1 == |s| || (e + 2 == |s| && s[e + 1] == '\n'))
  }

  /** The regex `\s+\[.*?\]$` matches `s` from `i` to the `]` at `e`: one or
      more whitespace characters, a `[`, characters other than a newline, and
      the closing `]` at the end. */
  ghost predicate SuffixAt(s: string, i: nat, e: nat) {
    Closes(s, e)
    && exists b :: i < b < e && AllIn(s[i..b], Spaces) && s[b] == '[' && '\n' !in s[b + 1..e]
  }

  /** `re.sub(r'\s+\[.*?\]$', '', s)`: the leftmost match is removed, and a
      match reaches the end, so there is no second one. */
  function RemoveBracketSuffix(s: string): (r: string)
    ensures (exists i: nat, e: nat :: SuffixAt(s, i, e)) <==> r != s
    ensures r != s ==>
      exists i: nat, e: nat :: SuffixAt(s, i, e) && r == s[..i] + s[e + 1..]
                                 && forall i2: nat, e2: nat :: i2 < i ==> !SuffixAt(s, i2, e2)
    ensures !EndsWith(s, "\n") ==> StartsWith(s, r)
  {
    match CloseAt(s)
    case None =>
      assert forall i: nat, e: nat :: !SuffixAt(s, i, e);
      s
    case Some(e) =>
      match SuffixStart(s, 0, e)
      case None =>
        assert forall i: nat, e2: nat :: !SuffixAt(s, i, e2) by {
          forall i: nat, e2: nat | SuffixAt(s, i, e2) ensures false {
            SuffixFromIff(s, i, e);
          }
        }
        s
      case Some(i) =>
        SuffixFromIff(s, i, e);
        assert forall i2: nat, e2: nat :: i2 < i ==> !SuffixAt(s, i2, e2) by {
          forall i2: nat, e2: nat | i2 < i && SuffixAt(s, i2, e2) ensures false {
            SuffixFromIff(s, i2, e);
          }
        }
        assert |s[..i] + s[e + 1..]| < |s|;
        assert !EndsWith(s, "\n") ==> e + 1 == |s| && s[..i] + s[e + 1..] == s[..i];
        s[..i] + s[e + 1..]
  }

  /** The index of the `]` the end anchor allows, if any. */
  function CloseAt(s: string): (r: Option<nat>)
    ensures r.Some? ==> Closes(s, r.value)
    ensures forall e: nat :: Closes(s, e) ==> r == Some(e)
  {
    if |s| > 0 && s[|s| - 1] == ']' then Some(|s| - 1)
    else if |s| > 1 && s[|s| - 2] == ']' && s[|s| - 1] == '\n' then Some(|s| - 2)
    else None
  }

  /** The match from `i` to the `]` at `e`, read off greedily: the whitespace
      run from `i`, a `[` right after it, and no newline up to `e`. */
  predicate SuffixFrom(s: string, i: nat, e: nat)
    requires e < |s|
  {
    i < e && IsSpace(s[i])
    && var b := i + Run(s, i, Spaces);
    b < e && s[b] == '[' && '\n' !in s[b + 1..e]
  }

  /** The first `i` from `j` on where the match to the `]` at `e` starts. */
  function SuffixStart(s: string, j: nat, e: nat): (r: Option<nat>)
    requires e < |s|
    ensures r.Some? ==> j <= r.value && SuffixFrom(s, r.value, e)
    ensures r.Some? ==> forall k :: j <= k < r.value ==> !SuffixFrom(s, k, e)
    ensures r.None? ==> forall k :: j <= k ==> !SuffixFrom(s, k, e)
    decreases e - j
  {
    if j >= e then None
    else if SuffixFrom(s, j, e) then Some(j)
    else SuffixStart(s, j + 1, e)
  }

  /** Read greedily or by any split of the whitespace, the match is the same:
      the `[` cannot fall inside the whitespace run. */
  lemma SuffixFromIff(s: string, i: nat, e: nat)
    requires Closes(s, e)
    ensures SuffixFrom(s, i, e) <==> SuffixAt(s, i, e)
  {
    if SuffixFrom(s, i, e) {
      var b := i + Run(s, i, Spaces);
      assert i < b;
    }
    if SuffixAt(s, i, e) {
      var b :| i < b < e && AllIn(s[i..b], Spaces) && s[b] == '[' && '\n' !in s[b + 1..e];
      var n := Run(s, i, Spaces);
      RunIsLongest(s, i, b, Spaces);
      assert s[i..b][0] == s[i];
    }
  }

  /** The cleaning the source applies to a labelled group. */
  function CleanLabelled(g: string): (r: string)
  {
    RemoveBracketSuffix(Strip(Before(RemoveTags(Strip(g)), "\n")))
  }

  /** What label `l` yields on its own: the cleaned group of its leftmost match. */
  function LabelCandidate(description: string, l: Label): (r: Option<string>)
    ensures r.Some? <==> SearchLabel(l, description, 0).Some?
  {
    match SearchLabel(l, description, 0)
    case Some(g) => Some(CleanLabelled(g))
    case None => None
  }

  /** Label `l` yields nothing usable: no match, or a cleaned group of at most
      two characters. */
  predicate LabelRejected(description: string, l: Label) {
    var c := LabelCandidate(description, l);
    c.None? || |c.value| <= 2
  }

  /** Tier 1: try the labels in order; a match whose cleaned group is too
      short moves on to the next label, not to a later occurrence. */
  function DescriptionTier(description: string): (r: Option<string>)
    ensures r.Some? ==> |r.value| > 2
    ensures r.None? <==> description == [] || forall l :: l in Labels ==> LabelRejected(description, l)
    ensures r.Some? ==> exists k :: (0 <= k < |Labels| && LabelCandidate(description, Labels[k]) == r
      && forall k2 :: 0 <= k2 < k ==> LabelRejected(description, Labels[k2]))
  {
    if description == [] then None else LabelsFrom(description, Labels)
  }

  function LabelsFrom(description: string, ls: seq<Label>): (r: Option<string>)
    ensures r.Some? ==> |r.value| > 2
    ensures r.None? <==> forall l :: l in ls ==> LabelRejected(description, l)
    ensures r.Some? ==> exists k :: (0 <= k < |ls| && LabelCandidate(description, ls[k]) == r
      && forall k2 :: 0 <= k2 < k ==> LabelRejected(description, ls[k2]))
  {
    if ls == [] then None
    else if !LabelRejected(description, ls[0]) then LabelCandidate(description, ls[0])
    else
      var r := LabelsFrom(description, ls[1..]);
      RejectedHead(description, ls, r);
      r
  }

  /** A first match in the tail of `ls` is a first match in `ls` when the
      head is rejected. */
  lemma RejectedHead(description: string, ls: seq<Label>, r: Option<string>)
    requires |ls| > 0 && LabelRejected(description, ls[0])
    requires r.Some? ==> exists k :: (0 <= k < |ls[1..]| && LabelCandidate(description, ls[1..][k]) == r
      && forall k2 :: 0 <= k2 < k ==> LabelRejected(description, ls[1..][k2]))
    ensures r.Some? ==> exists k :: (0 <= k < |ls| && LabelCandidate(description, ls[k]) == r
      && forall k2 :: 0 <= k2 < k ==> LabelRejected(description, ls[k2]))
  {
    if r.Some? {
      var k :| 0 <= k < |ls[1..]| && LabelCandidate(description, ls[1..][k]) == r
        && forall k2 :: 0 <= k2 < k ==> LabelRejected(description, ls[1..][k2]);
      assert LabelCandidate(description, ls[k + 1]) == r;
      forall k2 | 0 <= k2 < k + 1 ensures LabelRejected(description, ls[k2]) {
        if k2 > 0 { assert ls[k2] == ls[1..][k2 - 1]; }
      }
    }
  }

  // ----- tier 2: page structure -------------------------------------------

  /** A `<dl>` with the stripped texts of its first `<dt>` and `<dd>`, if any. */
  datatype DefList = DefList(dt: Option<string>, dd: Option<string>)

  /** A `<strong>` or `<b>` with its stripped text and, when its next sibling
      is a text node, that text. */
  datatype Bold = Bold(text: string, nextText: Option<string>)

  /** The parts of a thread page tier 2 looks at, in document order. */
  datatype DevDoc = DevDoc(defLists: seq<DefList>, bolds: seq<Bold>)

  const TermKeywords: seq<string> := ["developer", "dev", "creator", "author"]
  const BoldKeywords: seq<string> := ["developer:", "dev:", "creator:", "author:"]

  /** A definition list names the developer. */
  predicate DefListAccepts(d: DefList) {
    d.dt.Some? && d.dd.Some? && ContainsAny(Lower(d.dt.value), TermKeywords)
    && 2 < |d.dd.value| < 100
  }

  /** The cleaned text after a bold label. */
  function BoldCandidate(b: Bold): (r: Option<string>)
    ensures r.Some? ==> |r.value| > 2
  {
    if ContainsAny(Lower(b.text), BoldKeywords) && b.nextText.Some? && b.nextText.value != [] then
      var t := Strip(LStripChar(Strip(b.nextText.value), ':'));
      if |t| > 2 then Some(t) else None
    else None
  }

  predicate HasBoldCandidate(b: Bold) {
    BoldCandidate(b).Some?
  }

  /** Tier 2: the first accepting definition list, else the first bold label
      with a usable text after it. */
  function StructureTier(doc: DevDoc): (r: Option<string>)
    ensures r.Some? ==> |r.value| > 2
    ensures (exists d :: d in doc.defLists && DefListAccepts(d)) ==>
      (r.Some? && exists k :: (0 <= k < |doc.defLists| && DefListAccepts(doc.defLists[k])
        && r.value == doc.defLists[k].dd.value
        && forall k2 :: 0 <= k2 < k ==> !DefListAccepts(doc.defLists[k2])))
    ensures r.None? <==> ((forall d :: d in doc.defLists ==> !DefListAccepts(d))
      && (forall b :: b in doc.bolds ==> BoldCandidate(b).None?))
  {
    match FirstIndex(doc.defLists, DefListAccepts, 0)
    case Some(k) => Some(doc.defLists[k].dd.value)
    case None =>
      match FirstIndex(doc.bolds, HasBoldCandidate, 0)
      case Some(k) => BoldCandidate(doc.bolds[k])
      case None => None
  }

  // ----- tier 3: the title's prefix before a dash -------------------------

  /** `.+$` can match `t` from `w` on: the rest is non-empty with no newline,
      up to the end or to a single final newline. */
  ghost predicate RestMatches(t: string, w: nat) {
    exists f :: w < f <= |t| && '\n' !in t[w..f] && (f == |t| || (f == |t| - 1 && t[f] == '\n'))
  }

  /** `\s*(.+)$` matches the text after the dash. */
  ghost predicate TailMatches(t: string) {
    exists w :: 0 <= w <= |t| && AllIn(t[..w], Spaces) && RestMatches(t, w)
  }

  /** The text without one final newline. */
  function DropFinalNewline(t: string): (r: string)
  {
    if |t| > 0 && t[|t| - 1] == '\n' then t[..|t| - 1] else t
  }

  /** Where the last line of `s` starts: just after its last newline. */
  function LastLineStart(s: string): (p: nat)
    ensures p <= |s| && '\n' !in s[p..]
    ensures p == 0 || s[p - 1] == '\n'
  {
    if s == [] then 0
    else if s[|s| - 1] == '\n' then |s|
    else
      var p := LastLineStart(s[..|s| - 1]);
      assert s[p..] == s[..|s| - 1][p..] + [s[|s| - 1]];
      p
  }

  /** A stretch without newlines reaching the end lies in the last line. */
  lemma LastLineCovers(s: string, w: nat)
    requires w <= |s| && '\n' !in s[w..]
    ensures LastLineStart(s) <= w
  {
  }

  /** Computable form of `TailMatches`: the last line of the text (without
      its final newline) is non-empty and everything before it is whitespace. */
  predicate TailOk(t: string) {
    var t0 := DropFinalNewline(t);
    LastLineStart(t0) < |t0| && AllIn(t0[..LastLineStart(t0)], Spaces)
  }

  lemma TailOkCorrect(t: string)
    ensures TailOk(t) <==> TailMatches(t)
  {
    if TailOk(t) {
      TailOkSound(t);
    }
    if TailMatches(t) {
      TailOkComplete(t);
    }
  }

  lemma TailOkSound(t: string)
    requires TailOk(t)
    ensures TailMatches(t)
  {
    var t0 := DropFinalNewline(t);
    var p := LastLineStart(t0);
    assert t[..p] == t0[..p];
    assert t[p..|t0|] == t0[p..];
    assert RestMatches(t, p);
  }

  lemma TailOkComplete(t: string)
    requires TailMatches(t)
    ensures TailOk(t)
  {
    var t0 := DropFinalNewline(t);
    var w :| 0 <= w <= |t| && AllIn(t[..w], Spaces) && RestMatches(t, w);
    var f :| w < f <= |t| && '\n' !in t[w..f] && (f == |t| || (f == |t| - 1 && t[f] == '\n'));
    assert f == |t0|;
    assert t0[w..] == t[w..f];
    LastLineCovers(t0, w);
    var p := LastLineStart(t0);
    assert t0[..p] == t[..w][..p];
    AllInSlice(t[..w], 0, p, Spaces);
  }

  /** `re.match(r'v?\d+\.', s)`, case-sensitive. */
  predicate VersionPrefix(s: string) {
    var o := if |s| > 0 && s[0] == 'v' then 1 else 0;
    o <= |s| && Run(s, o, Digits) >= 1 && o + Run(s, o, Digits) < |s| && s[o + Run(s, o, Digits)] == '.'
  }

  /** The dash tier accepts `p`, a candidate taken from `title`. */
  predicate DashAccepts(p: string, title: string) {
    !VersionPrefix(p) && 2 < |p| < 50 && 2 * |p| < |title|
  }

  /** `^([^-\[]+?)\s*-\s*(.+)$` matches with its dash at `d`: the dash is the
      first one, the lazy group before it is non-empty and has no `[`, and
      the rest after the dash matches. */
  ghost predicate DashSplits(title: string, d: nat) {
    1 <= d < |title| && title[d] == '-' && '-' !in title[..d] && '[' !in title[..d]
    && TailMatches(title[d + 1..])
  }

  /** Only the first dash can split a title. */
  lemma DashIsFirst(title: string, d: nat, d2: nat)
    requires d < |title| && title[d] == '-'
    requires DashSplits(title, d2)
    ensures d2 <= d
  {
  }

  /** The candidate the dash pattern yields: the stripped text before the dash. */
  function DashCandidate(title: string): (r: Option<string>)
    ensures r.Some? <==> exists d: nat :: DashSplits(title, d)
    ensures r.Some? ==> exists d: nat :: DashSplits(title, d) && r.value == Strip(title[..d])
  {
    match IndexFrom(title, '-', 0)
    case None => None
    case Some(d) =>
      TailOkCorrect(title[d + 1..]);
      assert '-' !in title[..d];
      forall d2: nat | DashSplits(title, d2) ensures d2 == d {
        DashIsFirst(title, d, d2);
      }
      if d >= 1 && '[' !in title[..d] && TailOk(title[d + 1..]) then
        assert DashSplits(title, d);
        Some(Strip(title[..d]))
      else None
  }

  /** Tier 3: the dash candidate, when it passes the checks. */
  function DashTier(title: string): (r: Option<string>)
    ensures r.Some? <==> DashCandidate(title).Some? && DashAccepts(DashCandidate(title).value, title)
    ensures r.Some? ==> r == DashCandidate(title)
  {
    match DashCandidate(title)
    case Some(p) => if DashAccepts(p, title) then Some(p) else None
    case None => None
  }

  // ----- tier 4: the title's bracketed groups -----------------------------

  /** `[g]` occurs in `s` at or after `i`. */
  ghost predicate BracketedAt(s: string, g: string, i: nat) {
    exists j :: i <= j && OccursAt(s, "[" + g + "]", j)
  }

  /** `re.findall(r'\[([^\]]+)\]', s[i..])`. */
  function BracketsFrom(s: string, i: nat): (r: seq<string>)
    ensures forall k :: 0 <= k < |r| ==> |r[k]| > 0 && ']' !in r[k]
    ensures forall k :: 0 <= k < |r| ==> BracketedAt(s, r[k], i)
    decreases |s| - i
  {
    if i >= |s| then []
    else if s[i] == '[' && IndexFrom(s, ']', i + 1).Some? && IndexFrom(s, ']', i + 1).value >= i + 2 then
      var e := IndexFrom(s, ']', i + 1).value;
      var g := s[i + 1..e];
      assert ']' !in g by {
        forall x | 0 <= x < |g| ensures g[x] != ']' { assert g[x] == s[i + 1 + x]; }
      }
      assert s[i..e + 1] == "[" + g + "]";
      var rest := BracketsFrom(s, e + 1);
      var r := [g] + rest;
      forall k | 0 <= k < |r|
        ensures |r[k]| > 0 && ']' !in r[k]
        ensures BracketedAt(s, r[k], i)
      {
        if k == 0 {
          assert OccursAt(s, "[" + r[0] + "]", i);
        } else {
          assert r[k] == rest[k - 1];
        }
      }
      r
    else
      var r := BracketsFrom(s, i + 1);
      forall k | 0 <= k < |r| ensures BracketedAt(s, r[k], i) {
        var j :| i + 1 <= j && OccursAt(s, "[" + r[k] + "]", j);
        assert i <= j;
      }
      r
  }

  /** The bracketed groups of a whole title. */
  function Brackets(title: string): seq<string>
  {
    BracketsFrom(title, 0)
  }

  /** A `[` whose closing `]` is at least two characters on starts a group. */
  lemma BracketsStep(s: string, i: nat, e: nat)
    requires i < |s| && s[i] == '[' && IndexFrom(s, ']', i + 1) == Some(e) && e >= i + 2
    ensures BracketsFrom(s, i) == [s[i + 1..e]] + BracketsFrom(s, e + 1)
  {
  }

  /** `re.match(r'v?\d+[\d.]*', s)`, case-sensitive: a digit, or `v` and a digit. */
  predicate LooksLikeVersion(s: string) {
    (|s| > 0 && IsDigit(s[0])) || (|s| > 1 && s[0] == 'v' && IsDigit(s[1]))
  }

  const StatusWords: seq<string> := ["final", "completed", "complete", "abandoned", "ongoing", "on hold"]

  /** Tier 4: with two or more groups the first one unless it looks like a
      version (no length check, no later group); with exactly one group, that
      group unless it looks like a version or a status, or its length is
      outside 3..49. */
  function BracketTier(title: string): (r: Option<string>)
    ensures r.Some? <==> var bs := Brackets(title);
      (|bs| > 1 && !LooksLikeVersion(bs[0]))
      || (|bs| == 1 && !LooksLikeVersion(bs[0]) && Lower(bs[0]) !in StatusWords && 2 < |bs[0]| < 50)
    ensures r.Some? ==> r.value == Brackets(title)[0]
  {
    var bs := Brackets(title);
    if |bs| > 1 then (if !LooksLikeVersion(bs[0]) then Some(bs[0]) else None)
    else if |bs| == 1 then
      (if !LooksLikeVersion(bs[0]) && Lower(bs[0]) !in StatusWords && 2 < |bs[0]| < 50 then Some(bs[0]) else None)
    else None
  }

  // ----- the four tiers together ------------------------------------------

  /** The developer of a thread, from its title, its description text and,
      when a page is at hand, the page's structure. */
  function ExtractDeveloper(title: string, description: string, doc: Option<DevDoc>): (r: string)
    ensures DescriptionTier(description).Some? ==> r == DescriptionTier(description).value
    ensures DescriptionTier(description).None? && doc.Some? && StructureTier(doc.value).Some? ==>
      r == StructureTier(doc.value).value
    ensures DescriptionTier(description).None? && (doc.None? || StructureTier(doc.value).None?) ==>
      r == (if DashTier(title).Some? then DashTier(title).value
            else if BracketTier(title).Some? then BracketTier(title).value
            else Unknown)
  {
    match DescriptionTier(description)
    case Some(d) => d
    case None =>
      match (if doc.Some? then StructureTier(doc.value) else None)
      case Some(d) => d
      case None =>
        match DashTier(title)
        case Some(d) => d
        case None =>
          match BracketTier(title)
          case Some(d) => d
          case None => Unknown
  }
}
