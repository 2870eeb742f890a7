/** The Python values that scraped records, game objects and catalog rows
    hold, and the dictionaries that carry them. */
module Values {
  import opened Wrappers

  /** A parsed `datetime`, known by its ISO text. */
  datatype DateTime = DateTime(iso: string)

  datatype Value =
    | VNone
    | VBool(b: bool)
    | VInt(i: int)
    | VReal(x: real)
    | VStr(s: string)
    | VList(items: seq<string>)
    | VDate(d: DateTime)
      /** A value no column can hold, such as the list of download-link
          dictionaries; only whether it is empty matters. */
    | VOther(nonEmpty: bool)

  /** Python's truth value. */
  predicate Truthy(v: Value) {
    match v
    case VNone => false
    case VBool(b) => b
    case VInt(i) => i != 0
    case VReal(x) => x != 0.0
    case VStr(s) => s != []
    case VList(xs) => xs != []
    case VDate(_) => true
    case VOther(n) => n
  }

  /** `isinstance(v, int)`, which holds for booleans too. */
  predicate IsInt(v: Value) {
    v.VBool? || v.VInt?
  }

  /** The dictionary keys the program uses, one constructor per key:
      `KThreadId` is `'thread_id'`, `KIsBookmarked` is `'is_bookmarked'`, and
      so on. The keys up to `KCollections` name attributes of a game;
      `KImages` and `KDownloadLinks` are extracted but never stored; the rest
      name attributes of a notification. */
  datatype Key =
    | KId | KTitle | KUrl | KThreadId | KVersion | KStatus | KEngine | KDeveloper
    | KReleaseDate | KLastUpdate | KCoverImage | KHeaderImage | KRating
    | KDescription | KChangelog | KLocalPath | KInstallSize
    | KIsFavorite | KIsHidden | KIsArchived | KIsBookmarked
    | KCompletedStatus | KCompletionPercentage | KUserRating | KUserNotes
    | KPlayTime | KPlayCount | KLastPlayed
    | KAddedDate | KUpdatedDate | KScrapedDate | KLastChecked
    | KCategory | KForumId | KTags | KLabels | KCollections
    | KImages | KDownloadLinks
    | KType | KMessage | KGameId | KIsRead | KPriority | KCreatedAt | KReadAt | KData

  /** A dictionary. */
  type Record = map<Key, Value>

  /** `d.get(k)`. */
  function Get(d: Record, k: Key): Value {
    if k in d then d[k] else VNone
  }

  /** A string that may be `None`. */
  function OptStr(s: Option<string>): (v: Value)
    ensures s.None? ==> v == VNone
    ensures s.Some? ==> v == VStr(s.value)
  {
    if s.Some? then VStr(s.value) else VNone
  }

  /** A Python `a or b` between an attribute that may be missing and a
      fallback: the attribute when it is present and non-empty. */
  function OrElse(a: Option<string>, b: string): (r: string)
    ensures a.Some? && a.value != [] ==> r == a.value
    ensures a.None? || a.value == [] ==> r == b
  {
    if a.Some? && a.value != [] then a.value else b
  }
}
