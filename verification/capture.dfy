/** `re.search(r'<Label>:\s*(.+?)(?:\n|<br|$)', text, re.IGNORECASE)` and its
    tag variant, for the fixed labels the extractors look for: the group
    starts after the label and any whitespace, and runs lazily to the first
    terminator. */
module Capture {
  import opened Wrappers
  import opened Text

  /** The labels searched for: five name the developer, two the tags. */
  datatype Label =
    | DeveloperLabel | DevLabel | MadeByLabel | CreatorLabel | AuthorLabel
    | TagsLabel | GenresLabel

  /** The developer patterns also end their group at `<br`; the tag
      patterns end it at a newline or the end only. */
  predicate StopsAtBreak(l: Label) {
    !(l.TagsLabel? || l.GenresLabel?)
  }

  /** Where the label ends when it occurs at `i`, ignoring case; `Made\s+by:`
      takes one or more whitespace characters between its words. */
  function LabelEnd(l: Label, s: string, i: nat): (r: Option<nat>)
    ensures r.Some? ==> i < r.value <= |s|
  {
    match l
    case DeveloperLabel => if WordAt(s, i, "developer:") then Some(i + 10) else None
    case DevLabel => if WordAt(s, i, "dev:") then Some(i + 4) else None
    case MadeByLabel =>
      if WordAt(s, i, "made") && Run(s, i + 4, Spaces) >= 1 && WordAt(s, i + 4 + Run(s, i + 4, Spaces), "by:")
      then Some(i + 7 + Run(s, i + 4, Spaces))
      else None
    case CreatorLabel => if WordAt(s, i, "creator:") then Some(i + 8) else None
    case AuthorLabel => if WordAt(s, i, "author:") then Some(i + 7) else None
    case TagsLabel => OptionalS(s, i, "tag")
    case GenresLabel => OptionalS(s, i, "genre")
  }

  /** `<word>s?:` ignoring case: the greedy `s?` takes an `s` when there is
      one, and a colon has to follow either way. */
  function OptionalS(s: string, i: nat, word: string): (r: Option<nat>)
    requires |word| > 0
    ensures r.Some? ==> i < r.value <= |s| && s[r.value - 1] == ':'
  {
    if WordAt(s, i, word + "s:") then
      assert s[i + |word| + 1] == s[i..i + |word| + 2][|word| + 1];
      Some(i + |word| + 2)
    else if WordAt(s, i, word + ":") then
      assert s[i + |word|] == s[i..i + |word| + 1][|word|];
      Some(i + |word| + 1)
    else None
  }

  /** The group `(.+?)` may start at `c` after the label ending at `k`: what
      lies between is whitespace (`\s*`) and `s[c]` is a character `.`
      matches, that is, anything but a newline. */
  ghost predicate StartOk(s: string, k: nat, c: nat) {
    k <= c < |s| && AllIn(s[k..c], Spaces) && s[c] != '\n'
  }

  /** Where the group starts: greedy `\s*` gives back characters one by one,
      so the start is the LARGEST admissible one. */
  function GroupStart(s: string, k: nat): (r: Option<nat>)
    requires k <= |s|
    ensures r.Some? ==> StartOk(s, k, r.value)
    ensures r.Some? ==> forall c :: r.value < c && StartOk(s, k, c) ==> false
    ensures r.None? ==> forall c :: !StartOk(s, k, c)
  {
    var w := Run(s, k, Spaces);
    if k + w < |s| then
      Some(k + w)
    else
      var r := LastNonNewline(s, k, k + w);
      if r.Some? then
        assert s[k..r.value] == s[k..k + w][..r.value - k];
        AllInSlice(s[k..k + w], 0, r.value - k, Spaces);
        Some(r.value)
      else None
  }

  /** The last index in `lo..hi` whose character is not a newline. */
  function LastNonNewline(s: string, lo: nat, hi: nat): (r: Option<nat>)
    requires lo <= hi <= |s|
    ensures r.Some? ==> lo <= r.value < hi && s[r.value] != '\n'
    ensures r.Some? ==> forall x :: r.value < x < hi ==> s[x] == '\n'
    ensures r.None? ==> forall x :: lo <= x < hi ==> s[x] == '\n'
    decreases hi
  {
    if hi == lo then None
    else if s[hi - 1] != '\n' then Some(hi - 1)
    else LastNonNewline(s, lo, hi - 1)
  }

  /** `(?:\n|<br|$)` at `e`, or `(?:\n|$)` when `br` is false; `$` also
      matches before a final newline, which the first alternative already
      covers. */
  predicate EndsGroup(s: string, e: nat, br: bool) {
    e == |s| || (e < |s| && s[e] == '\n') || (br && WordAt(s, e, "<br"))
  }

  /** The lazy group `(.+?)` ends at the first terminator after its first character. */
  function GroupEnd(s: string, j: nat, br: bool): (r: nat)
    requires j <= |s|
    ensures j <= r <= |s| && EndsGroup(s, r, br)
    ensures forall x :: j <= x < r ==> !EndsGroup(s, x, br)
    decreases |s| - j
  {
    if EndsGroup(s, j, br) then j else GroupEnd(s, j + 1, br)
  }

  /** The group of label `l` in `s` when the match starts at `i`. */
  function GroupAt(l: Label, s: string, i: nat): (r: Option<string>)
  {
    match LabelEnd(l, s, i)
    case None => None
    case Some(k) =>
      match GroupStart(s, k)
      case None => None
      case Some(c) => Some(s[c..GroupEnd(s, c + 1, StopsAtBreak(l))])
  }

  /** `re.search`: the group at the leftmost index where the label matches. */
  function SearchLabel(l: Label, s: string, i: nat): (r: Option<string>)
    ensures r.Some? ==> exists j :: i <= j < |s| && GroupAt(l, s, j) == r
    ensures r.None? ==> forall j :: i <= j < |s| ==> GroupAt(l, s, j).None?
    decreases |s| - i
  {
    if i >= |s| then None
    else if GroupAt(l, s, i).Some? then GroupAt(l, s, i)
    else SearchLabel(l, s, i + 1)
  }

  /** A group never contains a newline. */
  lemma {:induction false} GroupHasNoNewline(l: Label, s: string, i: nat)
    requires GroupAt(l, s, i).Some?
    ensures '\n' !in GroupAt(l, s, i).value
  {
    var k := LabelEnd(l, s, i).value;
    var c := GroupStart(s, k).value;
    var e := GroupEnd(s, c + 1, StopsAtBreak(l));
    var g := s[c..e];
    forall x | 0 <= x < |g| ensures g[x] != '\n' {
      if x > 0 {
        assert !EndsGroup(s, c + x, StopsAtBreak(l));
      }
    }
  }
}
