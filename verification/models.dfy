/** The game and notification models: their fields and defaults, and the
    dictionaries they are written to and read from. */
module Models {
  import opened Wrappers
  import opened Config
  import opened Values

  // ----- game -------------------------------------------------------------

  /** The attributes of a game: every key but the two extracted-only ones
      and those that belong to notifications alone. */
  predicate IsGameField(k: Key) {
    !(k.KImages? || k.KDownloadLinks? || k.KType? || k.KMessage? || k.KGameId?
      || k.KIsRead? || k.KPriority? || k.KCreatedAt? || k.KReadAt? || k.KData?)
  }

  /** The four flags stored as 0 or 1. */
  predicate IsFlag(k: Key) {
    k == KIsFavorite || k == KIsHidden || k == KIsArchived || k == KIsBookmarked
  }

  /** The six attributes read back from ISO text. */
  predicate IsDate(k: Key) {
    k == KLastUpdate || k == KLastPlayed || k == KAddedDate || k == KUpdatedDate
    || k == KScrapedDate || k == KLastChecked
  }

  /** The declared default of each attribute. */
  function GameDefault(k: Key): Value {
    match k
    case KStatus | KEngine => VStr(Unknown)
    case KCompletedStatus => VStr("Not Started")
    case KRating | KUserRating => VReal(0.0)
    case KInstallSize | KCompletionPercentage | KPlayTime | KPlayCount => VInt(0)
    case KIsFavorite | KIsHidden | KIsArchived | KIsBookmarked => VBool(false)
    case KTags | KLabels | KCollections => VList([])
    case KId | KLastUpdate | KLastPlayed | KAddedDate | KUpdatedDate | KScrapedDate | KLastChecked => VNone
    case _ => VStr([])
  }

  /** A game: one value per attribute. */
  datatype Game = Game(attrs: Record)

  predicate WellFormed(g: Game) {
    forall k :: k in g.attrs <==> IsGameField(k)
  }

  /** The flags hold booleans and the dates hold no text, as a game built
      by the program does. */
  predicate WellTyped(g: Game) {
    WellFormed(g)
    && (forall k :: k in g.attrs && IsFlag(k) ==> g.attrs[k].VBool?)
    && (forall k :: k in g.attrs && IsDate(k) ==> !g.attrs[k].VStr?)
  }

  /** How `from_dict` reads one entry: an integer flag becomes a boolean, a
      date given as text is parsed, and text that does not parse becomes
      `None`. `parseIso` stands for `datetime.fromisoformat`. */
  function ReadEntry(k: Key, v: Value, parseIso: string -> Option<DateTime>): (r: Value)
    ensures IsFlag(k) && IsInt(v) ==> r == VBool(Truthy(v))
    ensures IsDate(k) && v.VStr? && parseIso(v.s).Some? ==> r == VDate(parseIso(v.s).value)
    ensures IsDate(k) && v.VStr? && parseIso(v.s).None? ==> r == VNone
    ensures !(IsFlag(k) && IsInt(v)) && !(IsDate(k) && v.VStr?) ==> r == v
  {
    if IsFlag(k) && IsInt(v) then VBool(Truthy(v))
    else if IsDate(k) && v.VStr? then
      match parseIso(v.s)
      case Some(d) => VDate(d)
      case None => VNone
    else v
  }

  /** `Game.from_dict`: every attribute from the dictionary when it has it,
      read as above, and from the defaults otherwise; keys that are not
      attributes are dropped. */
  function FromDict(data: Record, parseIso: string -> Option<DateTime>): (g: Game)
    ensures WellFormed(g)
    ensures forall k :: k in g.attrs && k !in data ==> g.attrs[k] == GameDefault(k)
    ensures forall k :: k in g.attrs && k in data ==> g.attrs[k] == ReadEntry(k, data[k], parseIso)
  {
    Game(map k: Key | IsGameField(k) :: if k in data then ReadEntry(k, data[k], parseIso) else GameDefault(k))
  }

  /** The images and download links a thread page gives are never kept. */
  lemma FromDictDropsExtracted(data: Record, parseIso: string -> Option<DateTime>)
    ensures KImages !in FromDict(data, parseIso).attrs
    ensures KDownloadLinks !in FromDict(data, parseIso).attrs
  {
  }

  /** The dictionary `from_dict` was given, as it leaves it: the flags and
      dates are converted in place, so every entry now holds what
      `ReadEntry` reads from it; the keys are the same. */
  function Converted(data: Record, parseIso: string -> Option<DateTime>): (r: Record)
    ensures r.Keys == data.Keys
    ensures forall k :: k in r && !IsFlag(k) && !IsDate(k) ==> r[k] == data[k]
  {
    map k | k in data :: ReadEntry(k, data[k], parseIso)
  }

  /** The converted dictionary is settled: converting it again changes
      nothing, it reads as the same game, and on every attribute it has it
      holds what that game holds. */
  lemma ConvertedSettled(data: Record, parseIso: string -> Option<DateTime>)
    ensures Converted(Converted(data, parseIso), parseIso) == Converted(data, parseIso)
    ensures FromDict(Converted(data, parseIso), parseIso) == FromDict(data, parseIso)
    ensures forall k :: k in data && IsGameField(k) ==>
      Converted(data, parseIso)[k] == FromDict(data, parseIso).attrs[k]
  {
    ConvertTwice(data, parseIso);
    SameGame(data, parseIso);
  }

  lemma ConvertTwice(data: Record, parseIso: string -> Option<DateTime>)
    ensures Converted(Converted(data, parseIso), parseIso) == Converted(data, parseIso)
  {
    var c := Converted(data, parseIso);
    var cc := Converted(c, parseIso);
    forall k | k in data ensures cc[k] == c[k] {
      ReadTwice(k, data[k], parseIso);
    }
    assert cc == c;
  }

  lemma SameGame(data: Record, parseIso: string -> Option<DateTime>)
    ensures FromDict(Converted(data, parseIso), parseIso) == FromDict(data, parseIso)
  {
    var c := Converted(data, parseIso);
    var g, h := FromDict(c, parseIso), FromDict(data, parseIso);
    forall k | IsGameField(k) ensures g.attrs[k] == h.attrs[k] {
      if k in data {
        ReadTwice(k, data[k], parseIso);
      }
    }
    assert g.attrs == h.attrs;
  }

  /** Reading an entry that was already read changes nothing. */
  lemma ReadTwice(k: Key, v: Value, parseIso: string -> Option<DateTime>)
    ensures ReadEntry(k, ReadEntry(k, v, parseIso), parseIso) == ReadEntry(k, v, parseIso)
  {
  }

  /** `Game.to_dict`: the attributes, with each flag written as 1 or 0. */
  function ToDict(g: Game): (d: Record)
    ensures d.Keys == g.attrs.Keys
    ensures forall k :: k in d && IsFlag(k) ==> d[k] == VInt(if Truthy(g.attrs[k]) then 1 else 0)
    ensures forall k :: k in d && !IsFlag(k) ==> d[k] == g.attrs[k]
  {
    map k | k in g.attrs :: if IsFlag(k) then VInt(if Truthy(g.attrs[k]) then 1 else 0) else g.attrs[k]
  }

  /** Writing a game out and reading it back gives the same game. */
  lemma RoundTrip(g: Game, parseIso: string -> Option<DateTime>)
    requires WellTyped(g)
    ensures FromDict(ToDict(g), parseIso) == g
  {
    var h := FromDict(ToDict(g), parseIso);
    assert h.attrs.Keys == g.attrs.Keys;
    forall k | k in h.attrs ensures h.attrs[k] == g.attrs[k] {
      RoundTripAt(g, parseIso, k);
    }
    assert h.attrs == g.attrs;
  }

  lemma RoundTripAt(g: Game, parseIso: string -> Option<DateTime>, k: Key)
    requires WellTyped(g) && IsGameField(k)
    ensures k in g.attrs && FromDict(ToDict(g), parseIso).attrs[k] == g.attrs[k]
  {
    var v := g.attrs[k];
    var d := ToDict(g);
    assert k in d;
    var w := d[k];
    assert FromDict(d, parseIso).attrs[k] == ReadEntry(k, w, parseIso);
    if IsFlag(k) {
      assert v.VBool? && w == VInt(if Truthy(v) then 1 else 0);
      assert ReadEntry(k, w, parseIso) == VBool(Truthy(w));
    } else {
      assert w == v;
      if IsDate(k) {
        assert !v.VStr?;
      }
    }
  }

  /** The defaults make a well-typed game with unknown status and engine,
      nothing completed, and the flags cleared. */
  lemma DefaultGame(parseIso: string -> Option<DateTime>)
    ensures WellTyped(FromDict(map[], parseIso))
    ensures Get(FromDict(map[], parseIso).attrs, KStatus) == VStr(Unknown)
    ensures Get(FromDict(map[], parseIso).attrs, KEngine) == VStr(Unknown)
    ensures Get(FromDict(map[], parseIso).attrs, KCompletedStatus) == VStr("Not Started")
    ensures forall k :: IsFlag(k) ==> Get(FromDict(map[], parseIso).attrs, k) == VBool(false)
  {
    FromDictWellTyped(map[], parseIso);
    var g := FromDict(map[], parseIso);
    forall k | IsFlag(k) ensures Get(g.attrs, k) == VBool(false) {
      FlagIsField(k);
    }
  }

  lemma FlagIsField(k: Key)
    requires IsFlag(k)
    ensures IsGameField(k) && GameDefault(k) == VBool(false)
  {
  }

  /** A dictionary whose flags are integers or booleans (or absent) gives a
      well-typed game: the dates are always read, never kept as text. */
  lemma FromDictWellTyped(data: Record, parseIso: string -> Option<DateTime>)
    requires forall k :: k in data && IsFlag(k) ==> IsInt(data[k])
    ensures WellTyped(FromDict(data, parseIso))
  {
    var g := FromDict(data, parseIso);
    forall k | k in g.attrs && IsFlag(k) ensures g.attrs[k].VBool? {
      if k !in data { FlagIsField(k); }
    }
    forall k | k in g.attrs && IsDate(k) ensures !g.attrs[k].VStr? {
      if k !in data { DateDefault(k); }
    }
  }

  lemma DateDefault(k: Key)
    requires IsDate(k)
    ensures GameDefault(k) == VNone
  {
  }

  // ----- notification -----------------------------------------------------

  predicate IsNotificationField(k: Key) {
    k.KId? || k.KType? || k.KTitle? || k.KMessage? || k.KGameId? || k.KIsRead?
    || k.KPriority? || k.KCreatedAt? || k.KReadAt? || k.KData?
  }

  function NotificationDefault(k: Key): Value {
    match k
    case KType => VStr("info")
    case KIsRead => VBool(false)
    case KPriority => VInt(0)
    case KId | KGameId | KCreatedAt | KReadAt => VNone
    case _ => VStr([])
  }

  datatype Notification = Notification(attrs: Record)

  predicate NotificationWellFormed(n: Notification) {
    forall k :: k in n.attrs <==> IsNotificationField(k)
  }

  /** `Notification.from_dict`: an integer `is_read` becomes a boolean; keys
      that are not attributes are dropped. */
  function NotificationFromDict(data: Record): (n: Notification)
    ensures NotificationWellFormed(n)
    ensures forall k :: k in n.attrs && k !in data ==> n.attrs[k] == NotificationDefault(k)
    ensures KIsRead in data && IsInt(data[KIsRead]) ==> Get(n.attrs, KIsRead) == VBool(Truthy(data[KIsRead]))
    ensures forall k :: k in n.attrs && k in data && !(k == KIsRead && IsInt(data[k])) ==>
      n.attrs[k] == data[k]
  {
    Notification(map k: Key | IsNotificationField(k) ::
      if k !in data then NotificationDefault(k)
      else if k == KIsRead && IsInt(data[k]) then VBool(Truthy(data[k]))
      else data[k])
  }

  /** `Notification.to_dict`: `is_read` written as 1 or 0. */
  function NotificationToDict(n: Notification): (d: Record)
    requires NotificationWellFormed(n)
    ensures forall k :: k in d <==> IsNotificationField(k)
    ensures d[KIsRead] == VInt(if Truthy(n.attrs[KIsRead]) then 1 else 0)
    ensures forall k :: k in d && k != KIsRead ==> d[k] == n.attrs[k]
  {
    n.attrs[KIsRead := VInt(if Truthy(n.attrs[KIsRead]) then 1 else 0)]
  }

  /** A notification whose `is_read` is a boolean survives the round trip. */
  lemma NotificationRoundTrip(n: Notification)
    requires NotificationWellFormed(n) && n.attrs[KIsRead].VBool?
    ensures NotificationFromDict(NotificationToDict(n)) == n
  {
    var m := NotificationFromDict(NotificationToDict(n));
    var d := NotificationToDict(n);
    forall k | k in m.attrs ensures k in n.attrs && m.attrs[k] == n.attrs[k] {
      assert k in d;
    }
    forall k | k in n.attrs ensures k in m.attrs {
    }
    assert m.attrs == n.attrs;
  }
}
