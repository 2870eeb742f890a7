/** `extract_tags`: the page's tag elements, then the `Tags:` and `Genres:`
    lines of the description split at `,`, `/` and `;`, gathered into a set
    and cut to twenty. */
module Tags {
  import opened Wrappers
  import opened Text
  import opened Capture

  const MaxTags: nat := 20
  const MaxTagLength: nat := 30

  /** The stripped texts of the tag elements that are kept: non-empty and
      shorter than thirty characters. */
  function ElementTags(texts: seq<string>): (r: seq<string>)
    ensures forall t :: t in r <==> t in texts && t != [] && |t| < MaxTagLength
    ensures |r| <= |texts|
  {
    if texts == [] then []
    else
      var t := ElementTags(texts[1..]);
      assert forall x :: x in texts <==> x == texts[0] || x in texts[1..];
      if texts[0] != [] && |texts[0]| < MaxTagLength then [texts[0]] + t else t
  }

  predicate IsSeparator(c: char) { c == ',' || c == '/' || c == ';' }

  /** `re.split(r'[,/;]', s)`: the pieces between separators, empty ones included. */
  function SplitSeparators(s: string): (r: seq<string>)
    ensures |r| >= 1
    ensures forall k :: 0 <= k < |r| ==> forall c :: c in r[k] ==> !IsSeparator(c)
    decreases |s|
  {
    if s == [] then [[]]
    else
      var t := SplitSeparators(s[1..]);
      if IsSeparator(s[0]) then [[]] + t
      else
        assert forall c :: c in [s[0]] + t[0] ==> c == s[0] || c in t[0];
        [[s[0]] + t[0]] + t[1..]
  }

  /** The separators of `s`, in order. */
  function Separators(s: string): (r: string)
    ensures forall c :: c in r ==> IsSeparator(c)
  {
    if s == [] then []
    else if IsSeparator(s[0]) then [s[0]] + Separators(s[1..])
    else Separators(s[1..])
  }

  /** Put pieces back together, with the given separators between them. */
  function Rejoin(pieces: seq<string>, seps: string): string
    requires |pieces| == |seps| + 1
    decreases |seps|
  {
    if seps == [] then pieces[0]
    else pieces[0] + [seps[0]] + Rejoin(pieces[1..], seps[1..])
  }

  /** Splitting loses nothing: one more piece than separators, and the
      pieces and separators rebuild the text. */
  lemma {:induction false} SplitRejoins(s: string)
    ensures |SplitSeparators(s)| == |Separators(s)| + 1
    ensures Rejoin(SplitSeparators(s), Separators(s)) == s
    decreases |s|
  {
    if s != [] {
      SplitRejoins(s[1..]);
      var t := SplitSeparators(s[1..]);
      var q := Separators(s[1..]);
      if IsSeparator(s[0]) {
        assert SplitSeparators(s)[1..] == t;
      } else {
        var r := SplitSeparators(s);
        assert r[0] == [s[0]] + t[0];
        assert r[1..] == t[1..];
        if q == [] {
          assert Rejoin(r, q) == r[0];
        } else {
          assert Rejoin(r, q) == r[0] + [q[0]] + Rejoin(t[1..], q[1..]);
          assert Rejoin(t, q) == t[0] + [q[0]] + Rejoin(t[1..], q[1..]);
        }
      }
    }
  }

  /** `[t.strip() for t in pieces if t.strip()]`. */
  function StripNonEmpty(pieces: seq<string>): (r: seq<string>)
    ensures forall t :: t in r ==> t != [] && t == Strip(t)
    ensures forall t :: t in r <==> exists p :: p in pieces && Strip(p) == t && t != []
  {
    if pieces == [] then []
    else
      var t := StripNonEmpty(pieces[1..]);
      assert forall p :: p in pieces <==> p == pieces[0] || p in pieces[1..];
      var head := Strip(pieces[0]);
      StripIdempotent(pieces[0]);
      if head != [] then [head] + t else t
  }

  lemma StripIdempotent(s: string)
    ensures Strip(Strip(s)) == Strip(s)
  {
    var t := Strip(s);
    if t != [] {
      assert Run(t, 0, Spaces) == 0;
      assert RunBack(t, |t|, Spaces) == 0;
      assert t[0..|t|] == t;
    }
  }

  /** The tags one description pattern contributes. */
  function PatternTags(l: Label, description: string): (r: seq<string>)
    requires !StopsAtBreak(l)
    ensures forall t :: t in r ==> t != [] && t == Strip(t) && !IsSeparator(t[0])
  {
    match SearchLabel(l, description, 0)
    case None => []
    case Some(g) =>
      var r := StripNonEmpty(SplitSeparators(g));
      forall t | t in r ensures !IsSeparator(t[0]) {
        var p :| p in SplitSeparators(g) && Strip(p) == t && t != [];
        StripInside(p);
      }
      r
  }

  /** Every character of a stripped text comes from the text. */
  lemma StripInside(p: string)
    ensures forall c :: c in Strip(p) ==> c in p
  {
    var a := Run(p, 0, Spaces);
    if a < |p| {
      var b := |p| - RunBack(p, |p|, Spaces);
      forall c | c in p[a..b] ensures c in p {
        var x :| 0 <= x < |p[a..b]| && p[a..b][x] == c;
        assert p[a + x] == c;
      }
    }
  }

  /** All tags before de-duplication, in the order they are found. */
  function TagCandidates(tagTexts: seq<string>, description: string): (r: seq<string>)
    ensures forall t :: t in r ==> t != []
    ensures forall t :: t in tagTexts && t != [] && |t| < MaxTagLength ==> t in r
  {
    ElementTags(tagTexts) + PatternTags(TagsLabel, description) + PatternTags(GenresLabel, description)
  }

  /** `list(set(tags))[:20]`. The order in which the set is listed is not
      fixed by the program; `order` is that listing: every candidate once. */
  function ExtractTags(candidates: seq<string>, order: seq<string>): (r: seq<string>)
    requires forall i, j :: 0 <= i < j < |order| ==> order[i] != order[j]
    requires forall t :: t in order <==> t in candidates
    ensures |r| <= MaxTags
    ensures forall i, j :: 0 <= i < j < |r| ==> r[i] != r[j]
    ensures forall t :: t in r ==> t in candidates
    ensures |order| <= MaxTags ==> forall t :: t in candidates ==> t in r
  {
    if |order| <= MaxTags then order else order[..MaxTags]
  }
}
