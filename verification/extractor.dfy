/** The thread-page field extractors other than version and developer:
    engine and status from the prefix labels, the file host of a link, the
    thread id of a URL, the image list and the download links.

    A page arrives as the node lists the extractors select from it. */
module Extractor {
  import opened Wrappers
  import opened Text
  import opened Config
  import opened Lists

  // ----- engine and status labels -------------------------------------------

  /** A prefix label: its CSS classes in order and its stripped text. */
  datatype LabelNode = LabelNode(classes: seq<string>, text: string)

  /** No class of the label names an engine. */
  predicate NoEngine(l: LabelNode) {
    forall c :: c in l.classes ==> EngineOf(c).None?
  }

  /** The engine the first engine class of the class list names. */
  function ClassesEngine(classes: seq<string>): (r: Option<string>)
    ensures r.None? <==> forall c :: c in classes ==> EngineOf(c).None?
    ensures r.Some? ==> exists j :: FirstEngineAt(classes, j, r)
  {
    if classes == [] then None
    else if EngineOf(classes[0]).Some? then
      assert FirstEngineAt(classes, 0, EngineOf(classes[0]));
      EngineOf(classes[0])
    else
      var r := ClassesEngine(classes[1..]);
      assert forall c :: c in classes ==> c == classes[0] || c in classes[1..];
      assert r.Some? ==> exists j :: FirstEngineAt(classes, j, r) by {
        if r.Some? {
          var j :| FirstEngineAt(classes[1..], j, r);
          FirstEngineShift(classes, j, r);
        }
      }
      r
  }

  /** Class `j` is the first class in the engine table, and it names `r`. */
  predicate FirstEngineAt(classes: seq<string>, j: int, r: Option<string>) {
    0 <= j < |classes| && EngineOf(classes[j]) == r
    && forall j2 :: 0 <= j2 < j ==> EngineOf(classes[j2]).None?
  }

  lemma FirstEngineShift(classes: seq<string>, j: int, r: Option<string>)
    requires |classes| >= 1 && EngineOf(classes[0]).None?
    requires FirstEngineAt(classes[1..], j, r)
    ensures FirstEngineAt(classes, j + 1, r)
  {
    assert classes[j + 1] == classes[1..][j];
    forall j2 | 0 <= j2 < j + 1 ensures EngineOf(classes[j2]).None? {
      if j2 > 0 { assert classes[j2] == classes[1..][j2 - 1]; }
    }
  }

  /** `extract_engine_from_labels`, and the same rule in both listing parsers:
      labels in order, classes in order, the first class in the engine table. */
  function EngineFromLabels(labels: seq<LabelNode>): (r: string)
    ensures r == Unknown <==> forall l :: l in labels ==> NoEngine(l)
    ensures r != Unknown ==> exists i :: (0 <= i < |labels| && ClassesEngine(labels[i].classes) == Some(r)
      && forall i2 :: 0 <= i2 < i ==> NoEngine(labels[i2]))
  {
    if labels == [] then Unknown
    else
      match ClassesEngine(labels[0].classes)
      case Some(e) =>
        EngineFound(labels, e);
        e
      case None =>
        var r := EngineFromLabels(labels[1..]);
        EngineShift(labels, r);
        r
  }

  lemma EngineFound(labels: seq<LabelNode>, e: string)
    requires |labels| > 0 && ClassesEngine(labels[0].classes) == Some(e)
    ensures e != Unknown && !NoEngine(labels[0])
  {
    var classes := labels[0].classes;
    var j :| FirstEngineAt(classes, j, Some(e));
    assert classes[j] in labels[0].classes;
  }

  /** A first engine label in the tail of `labels` is the first one in
      `labels` when the head names no engine. */
  lemma EngineShift(labels: seq<LabelNode>, r: string)
    requires |labels| > 0 && NoEngine(labels[0])
    requires r == Unknown <==> forall l :: l in labels[1..] ==> NoEngine(l)
    requires r != Unknown ==> exists i :: (0 <= i < |labels[1..]| && ClassesEngine(labels[1..][i].classes) == Some(r)
      && forall i2 :: 0 <= i2 < i ==> NoEngine(labels[1..][i2]))
    ensures r == Unknown <==> forall l :: l in labels ==> NoEngine(l)
    ensures r != Unknown ==> exists i :: (0 <= i < |labels| && ClassesEngine(labels[i].classes) == Some(r)
      && forall i2 :: 0 <= i2 < i ==> NoEngine(labels[i2]))
  {
    assert forall l :: l in labels ==> l == labels[0] || l in labels[1..];
    if r != Unknown {
      var i :| 0 <= i < |labels[1..]| && ClassesEngine(labels[1..][i].classes) == Some(r)
        && forall i2 :: 0 <= i2 < i ==> NoEngine(labels[1..][i2]);
      assert labels[i + 1] == labels[1..][i];
      forall i2 | 0 <= i2 < i + 1 ensures NoEngine(labels[i2]) {
        if i2 > 0 { assert labels[i2] == labels[1..][i2 - 1]; }
      }
    }
  }

  /** The status a label text names on a thread page: an exact key of the
      status table, else the first key equal to it ignoring case. */
  function StatusOfText(text: string): (r: Option<string>)
    ensures r.Some? <==> exists k :: k in StatusLabels && Lower(k) == Lower(text)
    ensures r.Some? ==> r.value in StatusLabels && Lower(r.value) == Lower(text)
    ensures text in StatusLabels ==> r == Some(text)
  {
    if text in StatusLabels then Some(text) else StatusFrom(text, 0)
  }

  function StatusFrom(text: string, k: nat): (r: Option<string>)
    requires k <= |StatusLabels|
    ensures r.Some? <==> exists j :: k <= j < |StatusLabels| && Lower(StatusLabels[j]) == Lower(text)
    ensures r.Some? ==> r.value in StatusLabels && Lower(r.value) == Lower(text)
    decreases |StatusLabels| - k
  {
    if k == |StatusLabels| then None
    else if Lower(text) == Lower(StatusLabels[k]) then Some(StatusLabels[k])
    else StatusFrom(text, k + 1)
  }

  /** `extract_status_from_labels`: the first label whose text names a status. */
  function StatusFromLabels(labels: seq<LabelNode>): (r: string)
    ensures r == Unknown <==> forall l :: l in labels ==> StatusOfText(l.text).None?
    ensures r != Unknown ==> r in StatusLabels && exists i :: FirstStatusAt(labels, i, r)
  {
    if labels == [] then Unknown
    else
      match StatusOfText(labels[0].text)
      case Some(s) =>
        assert FirstStatusAt(labels, 0, s);
        s
      case None =>
        assert forall l :: l in labels ==> l == labels[0] || l in labels[1..];
        var r := StatusFromLabels(labels[1..]);
        assert r != Unknown ==> exists i :: FirstStatusAt(labels, i, r) by {
          if r != Unknown {
            var i :| FirstStatusAt(labels[1..], i, r);
            FirstStatusShift(labels, i, r);
          }
        }
        r
  }

  /** Label `i` is the first label that names a status, and it names `r`. */
  predicate FirstStatusAt(labels: seq<LabelNode>, i: int, r: string) {
    0 <= i < |labels| && StatusOfText(labels[i].text) == Some(r)
    && forall i2 :: 0 <= i2 < i ==> StatusOfText(labels[i2].text).None?
  }

  lemma FirstStatusShift(labels: seq<LabelNode>, i: int, r: string)
    requires |labels| >= 1 && StatusOfText(labels[0].text).None?
    requires FirstStatusAt(labels[1..], i, r)
    ensures FirstStatusAt(labels, i + 1, r)
  {
    assert labels[i + 1] == labels[1..][i];
    forall i2 | 0 <= i2 < i + 1 ensures StatusOfText(labels[i2].text).None? {
      if i2 > 0 { assert labels[i2] == labels[1..][i2 - 1]; }
    }
  }

  // ----- file hosts -------------------------------------------------------

  /** The host table, in its order: a domain and the host's name. */
  const Hosts: seq<(string, string)> := [
    ("mega.nz", "Mega"),
    ("gofile.io", "GoFile"),
    ("pixeldrain.com", "Pixeldrain"),
    ("workupload.com", "WorkUpload"),
    ("anonfiles.com", "AnonFiles"),
    ("mediafire.com", "MediaFire"),
    ("drive.google.com", "Google Drive"),
    ("uploadhaven.com", "UploadHaven"),
    ("mixdrop.co", "Mixdrop"),
    ("krakenfiles.com", "KrakenFiles"),
    ("dropbox.com", "Dropbox")
  ]

  /** The domains the second pass of `extract_download_links` accepts: the
      table's, except Dropbox. */
  const KnownHosts: seq<string> := [
    "mega.nz", "gofile.io", "pixeldrain.com", "workupload.com",
    "anonfiles.com", "mediafire.com", "drive.google.com",
    "uploadhaven.com", "mixdrop.co", "krakenfiles.com"
  ]

  predicate IsHostName(name: string) {
    exists k :: 0 <= k < |Hosts| && Hosts[k].1 == name
  }

  /** `_identify_host`: the first table entry whose domain occurs in the
      lower-cased URL. */
  function IdentifyHost(url: string): (r: Option<string>)
    ensures r.Some? <==> exists k :: 0 <= k < |Hosts| && Contains(Lower(url), Hosts[k].0)
    ensures r.Some? ==> exists k :: (0 <= k < |Hosts| && Hosts[k].1 == r.value
      && Contains(Lower(url), Hosts[k].0)
      && forall k2 :: 0 <= k2 < k ==> !Contains(Lower(url), Hosts[k2].0))
  {
    match HostIndex(Lower(url), 0)
    case Some(k) =>
      assert 0 <= k < |Hosts| && Contains(Lower(url), Hosts[k].0);
      Some(Hosts[k].1)
    case None => None
  }

  /** The index of the first table entry from `k` on whose domain occurs in `u`. */
  function HostIndex(u: string, k: nat): (r: Option<nat>)
    requires k <= |Hosts|
    ensures r.Some? ==> (k <= r.value < |Hosts| && Contains(u, Hosts[r.value].0)
      && forall j :: k <= j < r.value ==> !Contains(u, Hosts[j].0))
    ensures r.None? ==> forall j :: k <= j < |Hosts| ==> !Contains(u, Hosts[j].0)
    decreases |Hosts| - k
  {
    if k == |Hosts| then None
    else if Contains(u, Hosts[k].0) then Some(k)
    else HostIndex(u, k + 1)
  }

  /** Every host found is one of the table's names. */
  lemma HostIsNamed(url: string)
    requires IdentifyHost(url).Some?
    ensures IsHostName(IdentifyHost(url).value)
  {
  }

  /** A URL with one of the known domains has a host, and it is not Dropbox:
      Dropbox is last in the table, so an earlier domain wins. */
  lemma KnownHostNotDropbox(url: string)
    requires ContainsAny(Lower(url), KnownHosts)
    ensures IdentifyHost(url).Some? && IdentifyHost(url).value != "Dropbox"
  {
    var d :| d in KnownHosts && Contains(Lower(url), d);
    var j :| 0 <= j < |KnownHosts| && KnownHosts[j] == d;
    KnownDomainsPrefix();
    HostFoundBy(Lower(url), 0, j);
    var k := HostIndex(Lower(url), 0).value;
    assert IdentifyHost(url) == Some(Hosts[k].1);
  }

  lemma KnownDomainsPrefix()
    ensures forall k :: 0 <= k < |KnownHosts| ==> KnownHosts[k] == Hosts[k].0
    ensures forall k :: 0 <= k < |KnownHosts| ==> Hosts[k].1 != "Dropbox"
    ensures |KnownHosts| == |Hosts| - 1
  {
  }

  /** A domain at `j` in the table is found at `j` or before it. */
  lemma {:induction false} HostFoundBy(u: string, k: nat, j: nat)
    requires k <= j < |Hosts| && Contains(u, Hosts[j].0)
    ensures HostIndex(u, k).Some? && HostIndex(u, k).value <= j
    decreases j - k
  {
    if !Contains(u, Hosts[k].0) {
      HostFoundBy(u, k + 1, j);
    }
  }

  // ----- thread ids -------------------------------------------------------

  const ThreadsMarker: string := "/threads/"

  /** `/threads/[^/]+\.(\d+)` matches at `i` with its `\.` at `p`: the segment
      between the marker and the dot is non-empty and slash-free, and a digit
      follows the dot. */
  ghost predicate IdMatch(url: string, i: nat, p: nat) {
    OccursAt(url, ThreadsMarker, i) && i + 10 <= p && p + 1 < |url|
    && '/' !in url[i + 9..p] && url[p] == '.' && IsDigit(url[p + 1])
  }

  /** The largest `p` in `lo..hi` with a dot at `p` and a digit after it. */
  function LastDotDigit(url: string, lo: nat, hi: nat): (r: Option<nat>)
    requires hi <= |url|
    ensures r.Some? ==> lo <= r.value < hi && r.value + 1 < |url| && url[r.value] == '.' && IsDigit(url[r.value + 1])
    ensures r.Some? ==> forall p :: r.value < p < hi ==> !(p + 1 < |url| && url[p] == '.' && IsDigit(url[p + 1]))
    ensures r.None? ==> forall p :: lo <= p < hi ==> !(p + 1 < |url| && url[p] == '.' && IsDigit(url[p + 1]))
    decreases hi
  {
    if hi <= lo then None
    else if hi - 1 + 1 < |url| && url[hi - 1] == '.' && IsDigit(url[hi]) then Some(hi - 1)
    else LastDotDigit(url, lo, hi - 1)
  }

  /** Where the segment after the marker at `i` ends: the next `/`, or the end. */
  function SegmentEnd(url: string, j: nat): (e: nat)
    requires j <= |url|
    ensures j <= e <= |url| && '/' !in url[j..e] && (e == |url| || url[e] == '/')
  {
    match IndexFrom(url, '/', j)
    case Some(e) => e
    case None => |url|
  }

  /** The dot the greedy `[^/]+` settles on for a match at `i`: the last one in
      the segment that a digit follows. */
  function IdDotAt(url: string, i: nat): (r: Option<nat>)
    ensures r.Some? ==> IdMatch(url, i, r.value)
    ensures r.Some? ==> forall p: nat :: r.value < p ==> !IdMatch(url, i, p)
    ensures r.None? ==> forall p: nat :: !IdMatch(url, i, p)
  {
    if !OccursAt(url, ThreadsMarker, i) then None
    else
      var e := SegmentEnd(url, i + 9);
      var r := LastDotDigit(url, i + 10, e);
      forall p: nat | IdMatch(url, i, p) ensures p < e {
      }
      if r.Some? then
        assert url[i + 9..r.value] == url[i + 9..e][..r.value - i - 9];
        Some(r.value)
      else None
  }

  /** The leftmost match from `i` on. */
  function IdFrom(url: string, i: nat): (r: Option<(nat, nat)>)
    ensures r.Some? ==> i <= r.value.0 && IdDotAt(url, r.value.0) == Some(r.value.1)
    ensures r.Some? ==> forall i2 :: i <= i2 < r.value.0 ==> IdDotAt(url, i2).None?
    ensures r.None? ==> forall i2 :: i <= i2 ==> IdDotAt(url, i2).None?
    decreases |url| - i
  {
    if i + |ThreadsMarker| > |url| then
      assert forall i2 :: i <= i2 ==> !OccursAt(url, ThreadsMarker, i2);
      None
    else
      match IdDotAt(url, i)
      case Some(p) => Some((i, p))
      case None => IdFrom(url, i + 1)
  }

  /** `extract_thread_id`: the digits after the dot of the leftmost match. */
  function ExtractThreadId(url: string): (r: Option<string>)
    ensures r.Some? <==> exists i: nat, p: nat :: IdMatch(url, i, p)
    ensures r.Some? ==> r.value != [] && AllIn(r.value, Digits)
    ensures r.Some? ==> exists i: nat, p: nat ::
      LeftmostId(url, i, p) && r.value == DigitsAfter(url, p)
  {
    var m := IdFrom(url, 0);
    IdFromFacts(url);
    if m.Some? then Some(DigitsAfter(url, m.value.1)) else None
  }

  /** The leftmost match, when there is one, settles on a dot followed by
      a non-empty run of digits; when there is none, nothing matches. */
  lemma IdFromFacts(url: string)
    ensures IdFrom(url, 0).None? ==> forall i: nat, p: nat :: !IdMatch(url, i, p)
    ensures IdFrom(url, 0).Some? ==> var (i, p) := IdFrom(url, 0).value;
      LeftmostId(url, i, p) && DigitsAfter(url, p) != [] && AllIn(DigitsAfter(url, p), Digits)
  {
    match IdFrom(url, 0)
    case None =>
      NoIdMatchBefore(url, |url| + 1);
    case Some((i, p)) =>
      SettledId(url, i, p);
  }

  /** A dot that the match at `i` settles on, with no match settling
      earlier, is the leftmost match and is followed by digits. */
  lemma SettledId(url: string, i: nat, p: nat)
    requires IdDotAt(url, i) == Some(p)
    requires forall i2 :: 0 <= i2 < i ==> IdDotAt(url, i2).None?
    ensures LeftmostId(url, i, p) && DigitsAfter(url, p) != [] && AllIn(DigitsAfter(url, p), Digits)
  {
    NoIdMatchBefore(url, i);
    assert IdMatch(url, i, p);
    DigitsAfterDot(url, p);
  }

  /** The run of digits after the dot at `p`: what `(\d+)` captures. */
  function DigitsAfter(url: string, p: nat): string {
    if p + 1 <= |url| then url[p + 1..p + 1 + Run(url, p + 1, Digits)] else []
  }

  /** The leftmost match settles on the dot at `p`: it starts at `i`, no
      match starts earlier, and the greedy segment reaches no later dot. */
  ghost predicate LeftmostId(url: string, i: nat, p: nat) {
    IdMatch(url, i, p)
    && (forall i2: nat, p2: nat :: i2 < i ==> !IdMatch(url, i2, p2))
    && (forall p2: nat :: p < p2 ==> !IdMatch(url, i, p2))
  }

  /** Where no match settles on a dot, nothing matches at all; past the end
      of the URL nothing can match. */
  lemma NoIdMatchBefore(url: string, i: nat)
    requires forall i2 :: 0 <= i2 < i ==> IdDotAt(url, i2).None?
    requires i > |url| ==> forall i2 :: i2 >= i ==> IdDotAt(url, i2).None?
    ensures forall i2: nat, p2: nat :: i2 < i ==> !IdMatch(url, i2, p2)
    ensures i > |url| ==> forall i2: nat, p2: nat :: !IdMatch(url, i2, p2)
  {
    forall i2: nat, p2: nat | i2 < i || i > |url| ensures !IdMatch(url, i2, p2) {
      assert IdDotAt(url, i2).None?;
    }
  }

  /** The digits after a dot that a digit follows: a non-empty run. */
  lemma DigitsAfterDot(url: string, p: nat)
    requires p + 1 < |url| && IsDigit(url[p + 1])
    ensures DigitsAfter(url, p) != [] && AllIn(DigitsAfter(url, p), Digits)
  {
    var n := Run(url, p + 1, Digits);
    assert n > 0;
  }

  // ----- images -----------------------------------------------------------

  /** An `<img>` of the first post with its `src`, `data-src` and `data-url`. */
  datatype Img = Img(src: Option<string>, dataSrc: Option<string>, dataUrl: Option<string>)

  /** `src or data-src or data-url`: the first present, non-empty one. */
  function ImgSource(img: Img): (r: string)
    ensures r != [] ==> Some(r) in [img.src, img.dataSrc, img.dataUrl]
    ensures r == [] <==> img.src.GetOr([]) == [] && img.dataSrc.GetOr([]) == [] && img.dataUrl.GetOr([]) == []
  {
    if img.src.GetOr([]) != [] then img.src.value
    else if img.dataSrc.GetOr([]) != [] then img.dataSrc.value
    else img.dataUrl.GetOr([])
  }

  const ImageBlocklist: seq<string> := ["avatar", "smiley", "emoji", "icon", "rating"]

  /** An avatar, smiley or icon, judged by its lower-cased URL. */
  predicate Blocked(src: string) {
    ContainsAny(Lower(src), ImageBlocklist)
  }

  /** The sources the image loop keeps, in page order. */
  function PostImages(imgs: seq<Img>): (r: seq<string>)
    ensures forall x :: x in r ==> x != [] && !Blocked(x)
    ensures forall x :: x in r <==> exists k :: 0 <= k < |imgs| && ImgSource(imgs[k]) == x && x != [] && !Blocked(x)
  {
    if imgs == [] then []
    else
      var s := ImgSource(imgs[0]);
      var t := PostImages(imgs[1..]);
      var r := if s != [] && !Blocked(s) then [s] + t else t;
      forall x | x in r ensures exists k :: 0 <= k < |imgs| && ImgSource(imgs[k]) == x && x != [] && !Blocked(x) {
        if x in t {
          var k :| 0 <= k < |imgs[1..]| && ImgSource(imgs[1..][k]) == x && x != [] && !Blocked(x);
          assert imgs[k + 1] == imgs[1..][k];
        }
      }
      forall x | exists k :: 0 <= k < |imgs| && ImgSource(imgs[k]) == x && x != [] && !Blocked(x) ensures x in r {
        var k :| 0 <= k < |imgs| && ImgSource(imgs[k]) == x && x != [] && !Blocked(x);
        if k > 0 { assert imgs[1..][k - 1] == imgs[k]; }
      }
      r
  }

  const MaxImages: nat := 10

  /** The sources `extract_images` considers: a non-empty `og:image` in front
      of the kept post images. */
  function Candidates(imgs: seq<Img>, ogImage: Option<string>): seq<string> {
    (if ogImage.GetOr([]) != [] then [ogImage.value] else []) + PostImages(imgs)
  }

  /** `extract_images`: the kept sources with a non-empty `og:image` put in
      front, de-duplicated in order, at most ten. */
  function ExtractImages(imgs: seq<Img>, ogImage: Option<string>): (r: seq<string>)
    ensures |r| <= MaxImages
    ensures DistinctKeys(r, (x: string) => x)
    ensures ogImage.GetOr([]) != [] ==> |r| > 0 && r[0] == ogImage.value
    ensures forall k :: 0 <= k < |r| && (k > 0 || ogImage.GetOr([]) == []) ==> r[k] != [] && !Blocked(r[k])
    ensures forall x :: x in r ==> x in PostImages(imgs) || Some(x) == ogImage
  {
    var u := Dedupe(Candidates(imgs, ogImage), (x: string) => x);
    ImagesKept(imgs, ogImage, u);
    Take(u, MaxImages)
  }

  /** The first ten of the de-duplicated candidates keep their shape. */
  lemma ImagesKept(imgs: seq<Img>, ogImage: Option<string>, u: seq<string>)
    requires u == Dedupe(Candidates(imgs, ogImage), (x: string) => x)
    ensures var r := Take(u, MaxImages);
      && |r| <= MaxImages
      && DistinctKeys(r, (x: string) => x)
      && (ogImage.GetOr([]) != [] ==> |r| > 0 && r[0] == ogImage.value)
      && (forall k :: 0 <= k < |r| && (k > 0 || ogImage.GetOr([]) == []) ==> r[k] != [] && !Blocked(r[k]))
      && (forall x :: x in r ==> x in PostImages(imgs) || Some(x) == ogImage)
  {
    var r := Take(u, MaxImages);
    TakeKeepsDistinct(u, MaxImages, (x: string) => x);
    forall k | 0 <= k < |r| && (k > 0 || ogImage.GetOr([]) == []) ensures r[k] != [] && !Blocked(r[k]) {
      if ogImage.GetOr([]) != [] {
        assert r[0] == ogImage.value && r[k] != r[0];
        assert r[k] in u;
      }
    }
  }

  /** With few enough distinct sources, every kept post image is returned. */
  lemma ImagesComplete(imgs: seq<Img>, ogImage: Option<string>, x: string)
    requires |PostImages(imgs)| + 1 <= MaxImages
    requires x in PostImages(imgs)
    ensures x in ExtractImages(imgs, ogImage)
  {
    var all := Candidates(imgs, ogImage);
    assert x in all;
    var u := DedupeFrom(all, (y: string) => y, {});
    assert |u| <= |all|;
  }

  // ----- download links ---------------------------------------------------

  /** A link with its `href` and stripped text. */
  datatype Anchor = Anchor(href: string, text: string)

  /** A tag sibling following a heading: its tag name, its text (joined with
      newlines and stripped) and the links in it. */
  datatype Sibling = Sibling(name: string, text: string, anchors: seq<Anchor>)

  /** A heading (`h1`-`h4`, `b`, `strong`) with its stripped text and the tag
      siblings that follow it. */
  datatype Heading = Heading(text: string, siblings: seq<Sibling>)

  /** An entry of the download list; `caption` is the source's `label` key. */
  datatype Download = Download(host: string, url: string, caption: string)

  const DownloadKeywords: seq<string> := ["download", "mirror", "links", "get the game"]
  const SectionHeads: seq<string> := ["h1", "h2", "h3", "h4"]

  predicate IsDownloadHeading(h: Heading) {
    ContainsAny(Lower(h.text), DownloadKeywords)
  }

  /** The entry a link gives when its host is known: labelled with its text,
      or with the host's name when the text is empty. */
  function LinkEntry(a: Anchor): (r: Option<Download>)
    ensures r.Some? <==> IdentifyHost(a.href).Some?
    ensures r.Some? ==> (r.value.url == a.href && r.value.host == IdentifyHost(a.href).value
      && r.value.caption == (if a.text == [] then r.value.host else a.text))
  {
    match IdentifyHost(a.href)
    case Some(h) => Some(Download(h, a.href, if a.text == [] then h else a.text))
    case None => None
  }

  /** The entries of `links`, those with a known host. */
  function Entries(links: seq<Anchor>): (r: seq<Download>)
    ensures forall d :: d in r ==> exists a :: a in links && LinkEntry(a) == Some(d)
    ensures forall a :: a in links && LinkEntry(a).Some? ==> LinkEntry(a).value in r
  {
    Choose(links, LinkEntry)
  }

  /** The links of the siblings before the next `h1`-`h4`. */
  function SectionAnchors(sibs: seq<Sibling>): (r: seq<Anchor>)
    ensures forall a :: a in r ==> exists k :: (0 <= k < |sibs| && a in sibs[k].anchors
      && forall k2 :: 0 <= k2 <= k ==> sibs[k2].name !in SectionHeads)
  {
    if sibs == [] || sibs[0].name in SectionHeads then []
    else
      var t := SectionAnchors(sibs[1..]);
      var r := sibs[0].anchors + t;
      forall a | a in r ensures exists k :: (0 <= k < |sibs| && a in sibs[k].anchors
        && forall k2 :: 0 <= k2 <= k ==> sibs[k2].name !in SectionHeads)
      {
        if a !in sibs[0].anchors {
          var k :| 0 <= k < |sibs[1..]| && a in sibs[1..][k].anchors
            && forall k2 :: 0 <= k2 <= k ==> sibs[1..][k2].name !in SectionHeads;
          assert a in sibs[k + 1].anchors;
          forall k2 | 0 <= k2 <= k + 1 ensures sibs[k2].name !in SectionHeads {
            if k2 > 0 { assert sibs[k2] == sibs[1..][k2 - 1]; }
          }
        }
      }
      r
  }

  /** First pass: the sections after download headings. */
  function FirstPass(headings: seq<Heading>): (r: seq<Download>)
    ensures forall d :: d in r ==> exists a :: LinkEntry(a) == Some(d)
  {
    if headings == [] then []
    else
      (if IsDownloadHeading(headings[0]) then Entries(SectionAnchors(headings[0].siblings)) else [])
      + FirstPass(headings[1..])
  }

  /** A link the second pass takes: a known domain occurs in its lower-cased URL. */
  predicate HasKnownHost(a: Anchor) {
    ContainsAny(Lower(a.href), KnownHosts)
  }

  /** Second pass: every link of the page with a known domain. */
  function SecondPass(anchors: seq<Anchor>): (r: seq<Download>)
    ensures forall d :: d in r ==> d.host != "Dropbox" && exists a :: a in anchors && HasKnownHost(a) && LinkEntry(a) == Some(d)
    ensures forall a :: a in anchors && HasKnownHost(a) ==> LinkEntry(a).Some? && LinkEntry(a).value in r
  {
    if anchors == [] then []
    else
      var t := SecondPass(anchors[1..]);
      assert forall a :: a in anchors ==> a == anchors[0] || a in anchors[1..];
      if HasKnownHost(anchors[0]) then
        KnownHostNotDropbox(anchors[0].href);
        [LinkEntry(anchors[0]).value] + t
      else t
  }

  /** `extract_download_links`: both passes, de-duplicated by URL. */
  function ExtractDownloadLinks(headings: seq<Heading>, anchors: seq<Anchor>): (r: seq<Download>)
    ensures DistinctKeys(r, (d: Download) => d.url)
    ensures forall d :: d in r ==> (IsHostName(d.host) && IdentifyHost(d.url) == Some(d.host)
      && d.caption != [])
    ensures forall a :: a in anchors && HasKnownHost(a) ==> exists d :: d in r && d.url == a.href
  {
    var all := FirstPass(headings) + SecondPass(anchors);
    var r := Dedupe(all, (d: Download) => d.url);
    EntriesValid(all, r);
    SecondPassKept(anchors, all, r);
    r
  }

  lemma EntriesValid(all: seq<Download>, r: seq<Download>)
    requires forall d :: d in all ==> exists a :: LinkEntry(a) == Some(d)
    requires forall d :: d in r ==> d in all
    ensures forall d :: d in r ==> (IsHostName(d.host) && IdentifyHost(d.url) == Some(d.host)
      && d.caption != [])
  {
    forall d | d in r ensures IsHostName(d.host) && IdentifyHost(d.url) == Some(d.host) && d.caption != [] {
      var a :| LinkEntry(a) == Some(d);
      EntryValid(a);
    }
  }

  /** A link's entry names a host of the table and has a non-empty caption. */
  lemma EntryValid(a: Anchor)
    requires LinkEntry(a).Some?
    ensures var d := LinkEntry(a).value;
      IsHostName(d.host) && IdentifyHost(d.url) == Some(d.host) && d.caption != []
  {
    HostIsNamed(a.href);
    HostNamesNonEmpty();
  }

  lemma HostNamesNonEmpty()
    ensures forall k :: 0 <= k < |Hosts| ==> Hosts[k].1 != []
  {
  }

  lemma SecondPassKept(anchors: seq<Anchor>, all: seq<Download>, r: seq<Download>)
    requires forall a :: a in anchors && HasKnownHost(a) ==> LinkEntry(a).Some? && LinkEntry(a).value in all
    requires forall x :: x in all ==> exists y :: y in r && y.url == x.url
    ensures forall a :: a in anchors && HasKnownHost(a) ==> exists d :: d in r && d.url == a.href
  {
    forall a | a in anchors && HasKnownHost(a) ensures exists d :: d in r && d.url == a.href {
      var x := LinkEntry(a).value;
      assert x in all;
      var y :| y in r && y.url == x.url;
    }
  }

  /** Everything the first pass keeps comes before everything the second pass
      adds, and what it adds has URLs the first pass did not have. */
  lemma FirstPassFirst(headings: seq<Heading>, anchors: seq<Anchor>)
    ensures var key := (d: Download) => d.url;
      ExtractDownloadLinks(headings, anchors)
        == Dedupe(FirstPass(headings), key)
          + DedupeFrom(SecondPass(anchors), key, KeysOf(FirstPass(headings), key))
  {
    var key := (d: Download) => d.url;
    DedupeAppend(FirstPass(headings), SecondPass(anchors), key, {});
    assert {} + KeysOf(FirstPass(headings), key) == KeysOf(FirstPass(headings), key);
  }
}
