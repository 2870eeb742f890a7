/** Site constants and the engine and status label tables. */
module Config {
  import opened Wrappers

  /** The value every text field falls back to when nothing was found. */
  const Unknown: string := "Unknown"

  const BaseUrl: string := "https://lewdcorner.com"
  const BookmarksUrl: string := BaseUrl + "/account/bookmarks"

  /** The three forums the catalog is built from. */
  const ForumGames6: string := BaseUrl + "/forums/games.6/"
  const ForumGames119: string := BaseUrl + "/forums/games.119/"
  const ForumPorts110: string := BaseUrl + "/forums/ports.110/"
  const AllowedForumUrls: seq<string> := [ForumGames6, ForumGames119, ForumPorts110]

  /** Attempts per thread page and the base delay between them, in seconds. */
  const MaxRetries: nat := 3
  const RetryDelay: nat := 2

  /** Engine label classes and the engine each one names, in table order. */
  const EngineLabels: seq<(string, string)> := [
    ("label--renpy", "Ren'Py"),
    ("label--unity", "Unity"),
    ("label--rpgm", "RPG Maker"),
    ("label--html", "HTML"),
    ("label--unreal", "Unreal Engine"),
    ("label--flash", "Flash"),
    ("label--java", "Java"),
    ("label--others", "Others"),
    ("label--qsp", "QSP"),
    ("label--rags", "RAGS"),
    ("label--tads", "TADS"),
    ("label--adrift", "Adrift"),
    ("label--twine", "Twine"),
    ("label--wolf", "Wolf RPG")
  ]

  /** The status labels; each one maps to itself. */
  const StatusLabels: seq<string> := ["Completed", "Ongoing", "On Hold", "Abandoned"]

  predicate IsEngineClass(cls: string) {
    exists k :: 0 <= k < |EngineLabels| && EngineLabels[k].0 == cls
  }

  /** Dictionary lookup of a class in the engine table. */
  function EngineOf(cls: string): (r: Option<string>)
    ensures r.Some? <==> IsEngineClass(cls)
    ensures r.Some? ==> (cls, r.value) in EngineLabels
    ensures r.Some? ==> r.value != Unknown
  {
    EngineFrom(cls, 0)
  }

  function EngineFrom(cls: string, k: nat): (r: Option<string>)
    requires k <= |EngineLabels|
    ensures r.Some? <==> exists j :: k <= j < |EngineLabels| && EngineLabels[j].0 == cls
    ensures r.Some? ==> (cls, r.value) in EngineLabels && r.value != Unknown
    decreases |EngineLabels| - k
  {
    if k == |EngineLabels| then None
    else if EngineLabels[k].0 == cls then Some(EngineLabels[k].1)
    else EngineFrom(cls, k + 1)
  }
}
