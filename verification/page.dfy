/** A thread page: its description, its changelog, and `extract_all_metadata`,
    which gathers every field the extractors give into one record. */
module Page {
  import opened Wrappers
  import opened Text
  import opened Config
  import opened Values
  import opened Lists
  import opened Version
  import opened Developer
  import opened Extractor
  import opened Tags

  // ----- description ------------------------------------------------------

  const MaxDescription: nat := 5000
  const Ellipsis: string := "..."

  /** `extract_description`: the text of the first post body, cut to five
      thousand characters with an ellipsis appended when it is longer; empty
      when the page has no post body. */
  function ExtractDescription(body: Option<string>): (r: string)
    ensures body.None? ==> r == []
    ensures |r| <= MaxDescription + |Ellipsis|
    ensures body.Some? && |body.value| <= MaxDescription ==> r == body.value
    ensures body.Some? && |body.value| > MaxDescription ==>
      (|r| == MaxDescription + |Ellipsis| && StartsWith(body.value, r[..MaxDescription])
      && r[MaxDescription..] == Ellipsis)
  {
    match body
    case None => []
    case Some(b) =>
      if |b| > MaxDescription then
        var r := b[..MaxDescription] + Ellipsis;
        assert r[..MaxDescription] == b[..MaxDescription];
        r
      else b
  }

  // ----- changelog --------------------------------------------------------

  const MaxChangelog: nat := 3000

  /** A heading whose lower-cased text mentions a changelog. */
  predicate IsChangelogHeading(h: Heading) {
    Contains(Lower(h.text), "changelog") || Contains(Lower(h.text), "change log")
  }

  /** The texts of the siblings up to the next `h1`-`h4`: the longest run of
      leading siblings none of which is a section heading. */
  function SectionTexts(sibs: seq<Sibling>): (r: seq<string>)
    ensures |r| <= |sibs|
    ensures forall k :: 0 <= k < |r| ==> r[k] == sibs[k].text && sibs[k].name !in SectionHeads
    ensures |r| < |sibs| ==> sibs[|r|].name in SectionHeads
  {
    if sibs == [] || sibs[0].name in SectionHeads then []
    else [sibs[0].text] + SectionTexts(sibs[1..])
  }

  /** `'\n'.join(parts)`. */
  function JoinLines(parts: seq<string>): (r: string)
    ensures parts == [] ==> r == []
    ensures |parts| == 1 ==> r == parts[0]
  {
    if parts == [] then []
    else if |parts| == 1 then parts[0]
    else parts[0] + "\n" + JoinLines(parts[1..])
  }

  /** `s.split('\n')`. */
  function SplitLines(s: string): (r: seq<string>)
    ensures |r| >= 1
    ensures forall k :: 0 <= k < |r| ==> '\n' !in r[k]
  {
    if s == [] then [[]]
    else
      var t := SplitLines(s[1..]);
      if s[0] == '\n' then [[]] + t
      else
        assert forall c :: c in [s[0]] + t[0] ==> c == s[0] || c in t[0];
        [[s[0]] + t[0]] + t[1..]
  }

  /** Joining lines that have no newline of their own loses nothing: they
      are split back apart. */
  lemma {:induction false} JoinSplits(parts: seq<string>)
    requires parts != []
    requires forall k :: 0 <= k < |parts| ==> '\n' !in parts[k]
    ensures SplitLines(JoinLines(parts)) == parts
    decreases |parts|
  {
    if |parts| == 1 {
      SplitLineless(parts[0], []);
      assert parts[0] + [] == parts[0];
    } else {
      var tail := "\n" + JoinLines(parts[1..]);
      JoinSplits(parts[1..]);
      SplitLineless(parts[0], tail);
      assert parts[0] + "\n" + JoinLines(parts[1..]) == parts[0] + tail;
      assert tail[0] == '\n' && tail[1..] == JoinLines(parts[1..]);
      assert SplitLines(tail) == [[]] + parts[1..];
      assert parts[0] + [] == parts[0];
      assert [parts[0]] + parts[1..] == parts;
    }
  }

  /** A line without a newline goes whole into the first piece of whatever follows it. */
  lemma {:induction false} SplitLineless(line: string, rest: string)
    requires '\n' !in line
    ensures SplitLines(line + rest) == [line + SplitLines(rest)[0]] + SplitLines(rest)[1..]
    decreases |line|
  {
    if line != [] {
      SplitLineless(line[1..], rest);
      assert (line + rest)[1..] == line[1..] + rest;
      assert [line[0]] + (line[1..] + SplitLines(rest)[0]) == line + SplitLines(rest)[0];
    } else {
      assert line + rest == rest;
      assert line + SplitLines(rest)[0] == SplitLines(rest)[0];
      assert [SplitLines(rest)[0]] + SplitLines(rest)[1..] == SplitLines(rest);
    }
  }

  /** A heading gives the changelog when it mentions one and has at least one
      sibling before the next section heading. */
  predicate GivesChangelog(h: Heading) {
    IsChangelogHeading(h) && SectionTexts(h.siblings) != []
  }

  /** The index of the first heading from `k` on that gives a changelog. */
  function FirstChangelog(headings: seq<Heading>, k: nat): (r: Option<nat>)
    requires k <= |headings|
    ensures r.None? ==> forall i :: k <= i < |headings| ==> !GivesChangelog(headings[i])
    ensures r.Some? ==> (k <= r.value < |headings| && GivesChangelog(headings[r.value])
      && forall i :: k <= i < r.value ==> !GivesChangelog(headings[i]))
    decreases |headings| - k
  {
    if k == |headings| then None
    else if GivesChangelog(headings[k]) then Some(k)
    else FirstChangelog(headings, k + 1)
  }

  /** `extract_changelog`: the joined section of the first heading that gives
      a changelog, cut to three thousand characters; empty when none does. */
  function ExtractChangelog(headings: seq<Heading>): (r: string)
    ensures |r| <= MaxChangelog
    ensures (forall i :: 0 <= i < |headings| ==> !GivesChangelog(headings[i])) ==> r == []
    ensures (exists i :: 0 <= i < |headings| && GivesChangelog(headings[i])) ==>
      exists i :: (0 <= i < |headings| && GivesChangelog(headings[i])
        && (forall j :: 0 <= j < i ==> !GivesChangelog(headings[j]))
        && r == Take(JoinLines(SectionTexts(headings[i].siblings)), MaxChangelog))
  {
    match FirstChangelog(headings, 0)
    case None => []
    case Some(i) => Take(JoinLines(SectionTexts(headings[i].siblings)), MaxChangelog)
  }

  // ----- the whole page ---------------------------------------------------

  /** A thread page as the extractors select from it: the text of
      `h1.p-title-value`, the text of the first post body, the developer
      structure, the label spans, the headings with their siblings, the tag
      elements' texts, the post images, the `og:image` content and every
      link of the page. */
  datatype ThreadPage = ThreadPage(
    title: Option<string>,
    body: Option<string>,
    devDoc: DevDoc,
    labels: seq<LabelNode>,
    headings: seq<Heading>,
    tagTexts: seq<string>,
    imgs: seq<Img>,
    ogImage: Option<string>,
    anchors: seq<Anchor>)

  /** Every field extracted from a thread page. */
  datatype Metadata = Metadata(
    title: string,
    url: string,
    threadId: Option<string>,
    version: string,
    engine: string,
    status: string,
    developer: string,
    description: string,
    changelog: string,
    tags: seq<string>,
    images: seq<string>,
    downloads: seq<Download>)

  /** The tags of a page. The program lists them from a set, in an order the
      language leaves open; the model lists them in order of first appearance. */
  function PageTags(tagTexts: seq<string>, description: string): (r: seq<string>)
    ensures |r| <= MaxTags
    ensures forall i, j :: 0 <= i < j < |r| ==> r[i] != r[j]
    ensures forall t :: t in r ==> t in TagCandidates(tagTexts, description)
  {
    var candidates := TagCandidates(tagTexts, description);
    var order := Dedupe(candidates, (t: string) => t);
    forall t ensures t in order <==> t in candidates {
      if t in candidates { DedupeComplete(candidates, (t: string) => t, {}, t); }
    }
    ExtractTags(candidates, order)
  }

  /** `extract_all_metadata`. */
  function ExtractMetadata(page: ThreadPage, url: string): (m: Metadata)
    ensures m.url == url && m.title == page.title.GetOr([])
    ensures m.threadId == ExtractThreadId(url)
    ensures m.version == ExtractVersion(m.title)
    ensures m.engine == EngineFromLabels(page.labels) && m.status == StatusFromLabels(page.labels)
    ensures m.developer == ExtractDeveloper(m.title, m.description, Some(page.devDoc))
    ensures m.description == ExtractDescription(page.body)
    ensures |m.tags| <= MaxTags && |m.images| <= MaxImages && |m.changelog| <= MaxChangelog
    ensures DistinctKeys(m.downloads, (d: Download) => d.url)
  {
    var title := page.title.GetOr([]);
    var description := ExtractDescription(page.body);
    Metadata(
      title, url, ExtractThreadId(url), ExtractVersion(title),
      EngineFromLabels(page.labels), StatusFromLabels(page.labels),
      ExtractDeveloper(title, description, Some(page.devDoc)),
      description, ExtractChangelog(page.headings),
      PageTags(page.tagTexts, description),
      ExtractImages(page.imgs, page.ogImage),
      ExtractDownloadLinks(page.headings, page.anchors))
  }

  /** The keys of the dictionary `extract_all_metadata` returns. */
  const MetadataKeys: set<Key> :=
    {KTitle, KUrl, KThreadId, KVersion, KEngine, KStatus, KDeveloper, KDescription,
     KChangelog, KTags, KImages, KDownloadLinks}

  function MetadataField(m: Metadata, k: Key): Value {
    match k
    case KTitle => VStr(m.title)
    case KUrl => VStr(m.url)
    case KThreadId => OptStr(m.threadId)
    case KVersion => VStr(m.version)
    case KEngine => VStr(m.engine)
    case KStatus => VStr(m.status)
    case KDeveloper => VStr(m.developer)
    case KDescription => VStr(m.description)
    case KChangelog => VStr(m.changelog)
    case KTags => VList(m.tags)
    case KImages => VList(m.images)
    case KDownloadLinks => VOther(m.downloads != [])
    case _ => VNone
  }

  /** The metadata as the dictionary the program hands on. */
  function MetadataRecord(m: Metadata): (r: Record)
    ensures r.Keys == MetadataKeys
    ensures forall k :: k in r ==> r[k] == MetadataField(m, k)
  {
    map k | k in MetadataKeys :: MetadataField(m, k)
  }
}
