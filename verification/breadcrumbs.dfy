/** The breadcrumb trail of a page (`ul.p-breadcrumbs`): its texts, the
    category taken from it, and the forum id in its forum links. */
module Breadcrumbs {
  import opened Wrappers
  import opened Text
  import opened Config
  import opened Lists

  /** An item of the trail: the stripped text of its `span[itemprop=name]`
      and of its first link, for those it has. */
  datatype Crumb = Crumb(nameSpan: Option<string>, link: Option<string>)

  /** The trail: its items, and the `href`s of its links whose `href`
      contains `/forums/`, in document order. */
  datatype Trail = Trail(items: seq<Crumb>, forumHrefs: seq<string>)

  /** The text an item contributes: the name span's when the item has one,
      the link's otherwise, and nothing when that text is empty. */
  function CrumbText(c: Crumb): (r: Option<string>)
    ensures r.Some? ==> r.value != []
    ensures c.nameSpan.Some? ==> (r.Some? <==> c.nameSpan.value != [])
    ensures c.nameSpan.Some? && r.Some? ==> r.value == c.nameSpan.value
    ensures c.nameSpan.None? ==> (r.Some? <==> c.link.Some? && c.link.value != [])
    ensures c.nameSpan.None? && r.Some? ==> r.value == c.link.value
  {
    match c.nameSpan
    case Some(t) => if t != [] then Some(t) else None
    case None =>
      match c.link
      case Some(t) => if t != [] then Some(t) else None
      case None => None
  }

  function Texts(items: seq<Crumb>): (r: seq<string>)
    ensures |r| <= |items|
    ensures forall t :: t in r ==> t != []
    ensures forall t :: t in r <==> exists c :: c in items && CrumbText(c) == Some(t)
  {
    if items == [] then []
    else
      var t := Texts(items[1..]);
      assert forall c :: c in items <==> c == items[0] || c in items[1..];
      match CrumbText(items[0])
      case Some(x) => [x] + t
      case None => t
  }

  /** The trail's texts keep the order of its items: the texts of a
      concatenation are the concatenation of the texts. */
  lemma {:induction false} TextsAppend(a: seq<Crumb>, b: seq<Crumb>)
    ensures Texts(a + b) == Texts(a) + Texts(b)
    decreases |a|
  {
    if a == [] {
      assert a + b == b;
    } else {
      assert (a + b)[0] == a[0];
      assert (a + b)[1..] == a[1..] + b;
      TextsAppend(a[1..], b);
    }
  }

  /** When every item has a text, the trail has one text per item, in order. */
  lemma {:induction false} TextsWhenAllNamed(items: seq<Crumb>)
    requires forall k :: 0 <= k < |items| ==> CrumbText(items[k]).Some?
    ensures |Texts(items)| == |items|
    ensures forall k :: 0 <= k < |items| ==> Texts(items)[k] == CrumbText(items[k]).value
  {
    if items != [] {
      TextsWhenAllNamed(items[1..]);
    }
  }

  /** `parse_breadcrumbs`: no trail gives no texts. */
  function ParseBreadcrumbs(trail: Option<Trail>): (r: seq<string>)
    ensures trail.None? ==> r == []
    ensures trail.Some? ==> r == Texts(trail.value.items)
  {
    match trail
    case None => []
    case Some(t) => Texts(t.items)
  }

  /** `get_category`: the last item is the thread itself, so the category is
      the item before it; a trail of one item is its own category. */
  function GetCategory(crumbs: seq<string>): (r: string)
    ensures crumbs == [] ==> r == Unknown
    ensures |crumbs| == 1 ==> r == crumbs[0]
    ensures |crumbs| >= 2 ==> r == crumbs[|crumbs| - 2]
  {
    if crumbs == [] then Unknown
    else if |crumbs| >= 2 then crumbs[|crumbs| - 2]
    else crumbs[0]
  }

  /** Appending the thread's own item to a trail makes the trail's last
      entry the category. */
  lemma CategoryOfThread(trail: seq<string>, thread: string)
    requires trail != []
    ensures GetCategory(trail + [thread]) == trail[|trail| - 1]
    ensures GetCategory(trail + [thread]) in trail
  {
  }

  /** The part of a forum link after `/forums/`, with trailing slashes removed. */
  function ForumPart(href: string): (r: string)
    requires Contains(href, "/forums/")
  {
    RStripChar(SecondPiece(href, "/forums/"), '/')
  }

  /** `forum_part.split('.')[1]`, for the first forum link whose part has a dot. */
  function ForumIdFrom(hrefs: seq<string>): (r: Option<string>)
    ensures r.Some? <==> exists k :: 0 <= k < |hrefs| && HasForumId(hrefs[k])
    ensures r.Some? ==> exists k :: FirstForumIdAt(hrefs, k, r.value)
    ensures r.Some? ==> '.' !in r.value
  {
    if hrefs == [] then None
    else if HasForumId(hrefs[0]) then
      var id := SecondPiece(ForumPart(hrefs[0]), ".");
      NoSeparatorLeft(After(ForumPart(hrefs[0]), "."), ".");
      assert FirstForumIdAt(hrefs, 0, id);
      Some(id)
    else
      var r := ForumIdFrom(hrefs[1..]);
      AnyShift(hrefs, HasForumId);
      if r.Some? then
        var k :| FirstForumIdAt(hrefs[1..], k, r.value);
        FirstForumIdShift(hrefs, k, r.value);
        r
      else
        r
  }

  /** Link `k` is the first with a forum id, and `v` is that id. */
  predicate FirstForumIdAt(hrefs: seq<string>, k: int, v: string) {
    0 <= k < |hrefs| && HasForumId(hrefs[k]) && v == SecondPiece(ForumPart(hrefs[k]), ".")
    && forall k2 :: 0 <= k2 < k ==> !HasForumId(hrefs[k2])
  }

  /** Behind a first link without a forum id, the first link with one moves
      one place on. */
  lemma FirstForumIdShift(hrefs: seq<string>, k: int, v: string)
    requires hrefs != [] && !HasForumId(hrefs[0]) && FirstForumIdAt(hrefs[1..], k, v)
    ensures FirstForumIdAt(hrefs, k + 1, v)
  {
    FirstShift(hrefs, HasForumId, k);
  }

  /** A link carries a forum id: it contains `/forums/` and the part after it
      has a dot. */
  predicate HasForumId(href: string) {
    Contains(href, "/forums/") && Contains(ForumPart(href), ".")
  }

  /** The text before the first one-character separator does not contain it. */
  lemma NoSeparatorLeft(s: string, sep: string)
    requires |sep| == 1
    ensures sep[0] !in Before(s, sep)
  {
    var b := Before(s, sep);
    forall j | 0 <= j < |b| ensures b[j] != sep[0] {
      assert !OccursAt(s, sep, j);
      assert s[j] == b[j];
      assert s[j..j + 1] == [s[j]];
    }
  }

  /** `get_forum_id`: no trail gives no id. */
  function GetForumId(trail: Option<Trail>): Option<string>
  {
    match trail
    case None => None
    case Some(t) => ForumIdFrom(t.forumHrefs)
  }

  /** The forums the catalog accepts when no list is given. */
  const DefaultAllowedForums: seq<string> := ["6", "119", "110"]

  /** `is_allowed_forum`. */
  function IsAllowedForum(forumId: string, allowed: Option<seq<string>>): (r: bool)
    ensures allowed.Some? ==> (r <==> forumId in allowed.value)
    ensures allowed.None? ==> (r <==> forumId == "6" || forumId == "119" || forumId == "110")
  {
    forumId in allowed.GetOr(DefaultAllowedForums)
  }

  /** `/forums/<name>.<id>/` gives `<id>` when neither part has a dot or a slash. */
  lemma ForumLinkId(name: string, id: string)
    requires '.' !in name && '/' !in name && '.' !in id && '/' !in id && id != []
    ensures ForumIdFrom(["/forums/" + name + "." + id + "/"]) == Some(id)
  {
    var h := "/forums/" + name + "." + id + "/";
    var part := name + "." + id;
    ForumPartOf(name, id);
    assert HasForumId(h) by {
      DotInPart(name, id);
    }
    DotInPart(name, id);
    assert After(part, ".") == id;
    NoDot(id);
    assert SecondPiece(part, ".") == id;
  }

  lemma ForumPartOf(name: string, id: string)
    requires '/' !in name && '/' !in id
    ensures Contains("/forums/" + name + "." + id + "/", "/forums/")
    ensures ForumPart("/forums/" + name + "." + id + "/") == name + "." + id
  {
    var h := "/forums/" + name + "." + id + "/";
    var rest := name + "." + id + "/";
    assert h[..8] == "/forums/";
    CutAt(h, "/forums/", 0);
    assert h[8..] == rest;
    SlashOnlyLast(name, id);
    NoForumsBeforeLast(rest);
    assert rest == (name + "." + id) + "/";
    assert RStripChar(rest, '/') == RStripChar(name + "." + id, '/');
  }

  /** A forum part written out with its closing `/` has no other `/`. */
  lemma SlashOnlyLast(name: string, id: string)
    requires '/' !in name && '/' !in id
    ensures var rest := name + "." + id + "/"; forall j :: 0 <= j < |rest| - 1 ==> rest[j] != '/'
  {
    var rest := name + "." + id + "/";
    forall j | 0 <= j < |rest| - 1 ensures rest[j] != '/' {
      if j < |name| {
        assert rest[j] == name[j];
      } else if j > |name| {
        assert rest[j] == id[j - |name| - 1];
      }
    }
  }

  /** Text whose only `/` can be its last character holds no `/forums/`. */
  lemma NoForumsBeforeLast(s: string)
    requires forall j :: 0 <= j < |s| - 1 ==> s[j] != '/'
    ensures !Contains(s, "/forums/")
  {
    forall j: int ensures !OccursAt(s, "/forums/", j) {
      if 0 <= j && j + 8 <= |s| {
        assert s[j..j + 8][0] == s[j];
      }
    }
  }

  lemma DotInPart(name: string, id: string)
    requires '.' !in name
    ensures Contains(name + "." + id, ".")
    ensures After(name + "." + id, ".") == id
  {
    var part := name + "." + id;
    forall j | 0 <= j < |name| ensures !OccursAt(part, ".", j) {
      OccursChar(part, '.', j);
      assert part[j] == name[j];
    }
    OccursChar(part, '.', |name|);
    CutAt(part, ".", |name|);
    assert part[|name| + 1..] == id;
  }

  lemma NoDot(s: string)
    requires '.' !in s
    ensures Before(s, ".") == s
  {
    forall j | 0 <= j < |s| ensures !OccursAt(s, ".", j) {
      OccursChar(s, '.', j);
    }
    assert !Contains(s, ".");
  }
}
