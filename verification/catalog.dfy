/** The catalog store: the games table with its UNIQUE keys, column defaults
    and full-text index, the tags and the game-tag pairs, and the tables
    whose rows go when their game does. Every table is a map from row id to
    row; the store is a value and each operation returns the next one. */
module Catalog {
  import opened Wrappers
  import opened Text
  import opened Config
  import opened Values
  import opened Models
  import opened Ordering

  // ----- tables -----------------------------------------------------------

  /** The columns of the games table: the attributes of a game but its id,
      which is the row's key, and its tags, labels and collections, which
      live in tables of their own. */
  predicate IsColumn(k: Key) {
    IsGameField(k) && !(k.KId? || k.KTags? || k.KLabels? || k.KCollections?)
  }

  /** The declared default of each column; `stamp` is `CURRENT_TIMESTAMP`.
      A column without a default is NULL. */
  function ColumnDefault(k: Key, stamp: string): Value {
    match k
    case KStatus | KEngine => VStr(Unknown)
    case KIsFavorite | KIsHidden | KIsArchived | KIsBookmarked => VInt(0)
    case KCompletedStatus => VStr("Not Started")
    case KCompletionPercentage | KPlayTime | KPlayCount => VInt(0)
    case KAddedDate | KUpdatedDate => VStr(stamp)
    case _ => VNone
  }

  /** A row of the games table: its title is not NULL. */
  predicate RowShape(row: Record) {
    Get(row, KTitle) != VNone
  }

  /** What the full-text index keeps of a row. */
  datatype FtsEntry = FtsEntry(
    title: Value, description: Value, developer: Value, engine: Value,
    tags: Value, changelog: Value)

  /** The entry the triggers write for a row; its tags are always empty. */
  function Indexed(row: Record): FtsEntry {
    FtsEntry(Get(row, KTitle), Get(row, KDescription), Get(row, KDeveloper),
      Get(row, KEngine), VStr([]), Get(row, KChangelog))
  }

  /** The database: the games table and the ids it has handed out, the
      full-text index, the tags table, the game-tag, game-label and
      collection-game pairs, and the notifications table. */
  datatype Store = Store(
    games: map<nat, Record>,
    nextId: nat,
    fts: map<nat, FtsEntry>,
    tags: map<string, nat>,
    nextTagId: nat,
    gameTags: set<(nat, nat)>,
    gameLabels: set<(nat, nat)>,
    collectionGames: set<(nat, nat)>,
    notifications: map<nat, Record>,
    nextNotificationId: nat)

  /** No two rows share a non-NULL value of column `k`. */
  predicate Unique(games: map<nat, Record>, k: Key) {
    forall i, j :: i in games && j in games && i != j && Get(games[i], k) != VNone ==>
      Get(games[i], k) != Get(games[j], k)
  }

  /** The games table keeps its shape and UNIQUE keys, its ids are below the
      next one handed out, and the index holds exactly the entry of every row. */
  predicate GamesValid(s: Store) {
    s.nextId >= 1
    && (forall id :: id in s.games ==> 1 <= id < s.nextId && RowShape(s.games[id]))
    && Unique(s.games, KUrl) && Unique(s.games, KThreadId)
    && s.fts.Keys == s.games.Keys
    && (forall id :: id in s.fts ==> s.fts[id] == Indexed(s.games[id]))
  }

  /** Tag ids are distinct and below the next one handed out. */
  predicate TagsValid(s: Store) {
    s.nextTagId >= 1
    && (forall n :: n in s.tags ==> 1 <= s.tags[n] < s.nextTagId)
    && (forall a, b :: a in s.tags && b in s.tags && a != b ==> s.tags[a] != s.tags[b])
  }

  /** Every pair refers to a game that exists, and a game-tag pair to a tag. */
  predicate LinksValid(s: Store) {
    (forall p :: p in s.gameTags ==> p.0 in s.games && p.1 in s.tags.Values)
    && (forall p :: p in s.gameLabels ==> p.0 in s.games)
    && (forall p :: p in s.collectionGames ==> p.1 in s.games)
  }

  /** A reference to a game: NULL, or the id of a row. */
  predicate GameRef(games: map<nat, Record>, v: Value) {
    v == VNone || (v.VInt? && v.i >= 0 && v.i as nat in games)
  }

  /** The columns of the notifications table. */
  predicate IsNoticeColumn(k: Key) {
    IsNotificationField(k) && !k.KId?
  }

  /** A notification row holds every column, its type and title are not
      NULL, and its game is NULL or a game that exists. */
  predicate NoticeShape(games: map<nat, Record>, row: Record) {
    (forall k :: k in row <==> IsNoticeColumn(k))
    && row[KType] != VNone && row[KTitle] != VNone
    && GameRef(games, row[KGameId])
  }

  predicate NotificationsValid(s: Store) {
    s.nextNotificationId >= 1
    && forall n :: n in s.notifications ==>
      1 <= n < s.nextNotificationId && NoticeShape(s.games, s.notifications[n])
  }

  /** What the schema's constraints and triggers keep true of the database. */
  predicate Valid(s: Store) {
    GamesValid(s) && TagsValid(s) && LinksValid(s) && NotificationsValid(s)
  }

  /** A fresh database. */
  const Empty: Store := Store(map[], 1, map[], map[], 1, {}, {}, {}, map[], 1)

  lemma EmptyValid()
    ensures Valid(Empty)
  {
  }

  /** The errors a statement raises. */
  datatype DbError =
    | MissingId
    | NotNull(column: Key)
    | NotUnique(column: Key)
    | ForeignKey

  // ----- tags -------------------------------------------------------------

  /** `add_tag`: the id of the named tag, which is created when missing. */
  function AddTag(s: Store, name: string): (r: (Store, nat))
    ensures r.0 == s.(tags := r.0.tags, nextTagId := r.0.nextTagId)
    ensures r.0.tags.Keys == s.tags.Keys + {name}
    ensures name in r.0.tags && r.0.tags[name] == r.1
    ensures forall n :: n in s.tags ==> r.0.tags[n] == s.tags[n]
    ensures name !in s.tags ==> r.1 == s.nextTagId && r.0.nextTagId == s.nextTagId + 1
    ensures name in s.tags ==> r.0 == s
  {
    if name in s.tags then (s, s.tags[name])
    else (s.(tags := s.tags[name := s.nextTagId], nextTagId := s.nextTagId + 1), s.nextTagId)
  }

  lemma AddTagValid(s: Store, name: string)
    requires Valid(s)
    ensures Valid(AddTag(s, name).0)
  {
    var r := AddTag(s, name).0;
    forall p | p in r.gameTags ensures p.1 in r.tags.Values {
      var n :| n in s.tags && s.tags[n] == p.1;
      assert r.tags[n] == p.1;
    }
  }

  /** The names a tag list contributes: stripped, without the blank ones. */
  function Stripped(names: seq<string>): set<string> {
    set n | n in names && Strip(n) != [] :: Strip(n)
  }

  lemma StrippedCons(names: seq<string>)
    requires names != []
    ensures Stripped(names) == (if Strip(names[0]) != [] then {Strip(names[0])} else {}) + Stripped(names[1..])
  {
    assert forall n :: n in names <==> n == names[0] || n in names[1..];
  }

  /** `add_tags_to_game`: each stripped, non-blank name becomes a tag if it is
      not one already and is paired with the game; pairs are a set, so none
      is made twice. */
  function AddTagsToGame(s: Store, gameId: nat, names: seq<string>): (r: Store)
    ensures r == s.(tags := r.tags, nextTagId := r.nextTagId, gameTags := r.gameTags)
    ensures r.tags.Keys == s.tags.Keys + Stripped(names)
    ensures forall n :: n in s.tags ==> r.tags[n] == s.tags[n]
    ensures r.gameTags == s.gameTags + set n | n in Stripped(names) :: (gameId, r.tags[n])
    decreases |names|
  {
    if names == [] then s
    else
      StrippedCons(names);
      var name := Strip(names[0]);
      if name == [] then AddTagsToGame(s, gameId, names[1..])
      else
        var (s1, tagId) := AddTag(s, name);
        var r := AddTagsToGame(s1.(gameTags := s1.gameTags + {(gameId, tagId)}), gameId, names[1..]);
        assert r.tags[name] == tagId;
        TagPairsCons(r.tags, gameId, name, Stripped(names[1..]));
        r
  }

  lemma TagPairsCons(tags: map<string, nat>, gameId: nat, name: string, rest: set<string>)
    requires name in tags && rest <= tags.Keys
    ensures (set n | n in {name} + rest :: (gameId, tags[n]))
      == {(gameId, tags[name])} + set n | n in rest :: (gameId, tags[n])
  {
  }

  /** Tags made by `add_tags_to_game` get ids not used before, so tag ids
      stay distinct. */
  lemma {:induction false} AddTagsToGameIds(s: Store, gameId: nat, names: seq<string>)
    requires TagsValid(s)
    ensures TagsValid(AddTagsToGame(s, gameId, names))
    ensures AddTagsToGame(s, gameId, names).nextTagId >= s.nextTagId
    ensures forall n :: n in AddTagsToGame(s, gameId, names).tags && n !in s.tags ==>
      AddTagsToGame(s, gameId, names).tags[n] >= s.nextTagId
    decreases |names|
  {
    if names != [] {
      var name := Strip(names[0]);
      if name == [] {
        AddTagsToGameIds(s, gameId, names[1..]);
      } else {
        var (s1, tagId) := AddTag(s, name);
        var s2 := s1.(gameTags := s1.gameTags + {(gameId, tagId)});
        assert AddTagsToGame(s, gameId, names) == AddTagsToGame(s2, gameId, names[1..]);
        AddTagKeepsIds(s, name);
        assert TagsValid(s2);
        AddTagsToGameIds(s2, gameId, names[1..]);
      }
    }
  }

  /** `add_tag` keeps tag ids distinct and gives a new name an id not used
      before. */
  lemma AddTagKeepsIds(s: Store, name: string)
    requires TagsValid(s)
    ensures TagsValid(AddTag(s, name).0)
    ensures AddTag(s, name).0.nextTagId >= s.nextTagId
    ensures forall n :: n in AddTag(s, name).0.tags && n !in s.tags ==> AddTag(s, name).0.tags[n] >= s.nextTagId
  {
  }

  /** The names of the tags a game has. */
  function TagsOf(s: Store, gameId: nat): (r: set<string>)
    ensures forall n :: n in r <==> n in s.tags && (gameId, s.tags[n]) in s.gameTags
  {
    set n | n in s.tags && (gameId, s.tags[n]) in s.gameTags
  }

  /** Adding tags gives the game exactly the new names besides those it had,
      and leaves every other game's tags as they were. */
  lemma AddTagsToGameTags(s: Store, gameId: nat, names: seq<string>)
    requires Valid(s)
    ensures TagsOf(AddTagsToGame(s, gameId, names), gameId) == TagsOf(s, gameId) + Stripped(names)
    ensures forall g :: g != gameId ==> TagsOf(AddTagsToGame(s, gameId, names), g) == TagsOf(s, g)
  {
    AddTagsToGameIds(s, gameId, names);
    TagsOfGameAfterAdd(s, gameId, names, gameId);
    forall g | g != gameId ensures TagsOf(AddTagsToGame(s, gameId, names), g) == TagsOf(s, g) {
      TagsOfGameAfterAdd(s, gameId, names, g);
    }
  }

  lemma TagsOfGameAfterAdd(s: Store, gameId: nat, names: seq<string>, g: nat)
    requires Valid(s)
    requires TagsValid(AddTagsToGame(s, gameId, names))
    ensures TagsOf(AddTagsToGame(s, gameId, names), g) == TagsOf(s, g) + (if g == gameId then Stripped(names) else {})
  {
    forall n ensures n in TagsOf(AddTagsToGame(s, gameId, names), g) <==>
      n in TagsOf(s, g) || (g == gameId && n in Stripped(names))
    {
      TagsOfAfterAdd(s, gameId, names, g, n);
    }
  }

  lemma TagsOfAfterAdd(s: Store, gameId: nat, names: seq<string>, g: nat, n: string)
    requires Valid(s)
    requires TagsValid(AddTagsToGame(s, gameId, names))
    ensures n in TagsOf(AddTagsToGame(s, gameId, names), g) <==>
      n in TagsOf(s, g) || (g == gameId && n in Stripped(names))
  {
    var r := AddTagsToGame(s, gameId, names);
    if n in r.tags && (g, r.tags[n]) in r.gameTags {
      if (g, r.tags[n]) in s.gameTags {
        var m :| m in s.tags && s.tags[m] == r.tags[n];
        assert r.tags[m] == r.tags[n];
      } else {
        var m :| m in Stripped(names) && (g, r.tags[n]) == (gameId, r.tags[m]);
      }
    }
  }

  lemma AddTagsToGameValid(s: Store, gameId: nat, names: seq<string>)
    requires Valid(s) && gameId in s.games
    ensures Valid(AddTagsToGame(s, gameId, names))
  {
    var r := AddTagsToGame(s, gameId, names);
    AddTagsToGameIds(s, gameId, names);
    forall p | p in r.gameTags ensures p.0 in r.games && p.1 in r.tags.Values {
      if p in s.gameTags {
        var m :| m in s.tags && s.tags[m] == p.1;
        assert r.tags[m] == p.1;
      } else {
        var n :| n in Stripped(names) && p == (gameId, r.tags[n]);
      }
    }
  }

  /** `set_game_tags`: the game's pairs are removed and the names added. */
  function SetGameTags(s: Store, gameId: nat, names: seq<string>): (r: Store)
    ensures r == s.(tags := r.tags, nextTagId := r.nextTagId, gameTags := r.gameTags)
    ensures forall p :: p in r.gameTags && p.0 != gameId ==> p in s.gameTags
    ensures forall p :: p in s.gameTags && p.0 != gameId ==> p in r.gameTags
    ensures r.tags.Keys == s.tags.Keys + Stripped(names)
  {
    AddTagsToGame(s.(gameTags := set p | p in s.gameTags && p.0 != gameId), gameId, names)
  }

  /** After `set_game_tags` the game has exactly the given names: the old ones
      are replaced, not merged. */
  lemma SetGameTagsReplaces(s: Store, gameId: nat, names: seq<string>)
    requires Valid(s)
    ensures TagsOf(SetGameTags(s, gameId, names), gameId) == Stripped(names)
    ensures forall g :: g != gameId ==> TagsOf(SetGameTags(s, gameId, names), g) == TagsOf(s, g)
  {
    var s0 := s.(gameTags := set p | p in s.gameTags && p.0 != gameId);
    assert Valid(s0);
    AddTagsToGameTags(s0, gameId, names);
    assert TagsOf(s0, gameId) == {};
  }

  lemma SetGameTagsValid(s: Store, gameId: nat, names: seq<string>)
    requires Valid(s) && gameId in s.games
    ensures Valid(SetGameTags(s, gameId, names))
  {
    var s0 := s.(gameTags := set p | p in s.gameTags && p.0 != gameId);
    assert Valid(s0);
    AddTagsToGameValid(s0, gameId, names);
  }

  // ----- games ------------------------------------------------------------

  /** The columns a statement writes for a game: the values of `to_dict`
      that belong to columns and are not None. */
  function Written(g: Game): (w: Record)
    ensures forall k :: k in w ==> IsColumn(k) && w[k] != VNone
    ensures forall k :: k in w <==> IsColumn(k) && k in g.attrs && ToDict(g)[k] != VNone
    ensures forall k :: k in w ==> w[k] == ToDict(g)[k]
  {
    var d := ToDict(g);
    map k | k in d && IsColumn(k) && d[k] != VNone :: d[k]
  }

  /** The row an insert creates: the written columns, and the declared
      defaults for the others. */
  function NewRow(g: Game, stamp: string): (row: Record)
    ensures forall k :: k in row <==> IsColumn(k)
  {
    var w := Written(g);
    map k: Key | IsColumn(k) :: if k in w then w[k] else ColumnDefault(k, stamp)
  }

  /** A column of a new row holds the game's value when the game has one
      that is not None, and the column's default otherwise. */
  lemma NewRowAt(g: Game, stamp: string, k: Key)
    requires IsColumn(k)
    ensures k in Written(g) ==> NewRow(g, stamp)[k] == ToDict(g)[k]
    ensures k !in Written(g) ==> NewRow(g, stamp)[k] == ColumnDefault(k, stamp)
  {
  }

  /** Some row other than `self` holds the non-NULL value `v` in column `k`. */
  predicate Taken(games: map<nat, Record>, self: int, k: Key, v: Value) {
    v != VNone && exists j :: j in games && j != self && Get(games[j], k) == v
  }

  /** The tag names a game carries; only a list has any. */
  function TagList(v: Value): seq<string> {
    if v.VList? then v.items else []
  }

  /** `add_game`: the row gets the next id, the insert trigger indexes it,
      and its tags are added once it exists. A NULL title or a url or thread
      id another row has makes the insert fail and changes nothing. */
  function AddGame(s: Store, g: Game, stamp: string): (r: Result<(Store, nat), DbError>)
    ensures r.Ok? <==> Insertable(s.games, NewRow(g, stamp))
    ensures r.Ok? ==> r.value.1 == s.nextId && r.value.0.nextId == s.nextId + 1
    ensures r.Ok? ==> r.value.0.games == s.games[s.nextId := NewRow(g, stamp)]
    ensures r.Ok? ==> r.value.0.fts == s.fts[s.nextId := Indexed(NewRow(g, stamp))]
    ensures r.Ok? ==> r.value.0.notifications == s.notifications
  {
    var row := NewRow(g, stamp);
    match InsertError(s.games, row)
    case Some(e) => Err(e)
    case None => Ok((GiveTags(Inserted(s, row), s.nextId, Get(g.attrs, KTags)), s.nextId))
  }

  /** The title is not NULL, and no row holds the url or the thread id. */
  predicate Insertable(games: map<nat, Record>, row: Record) {
    Get(row, KTitle) != VNone && !Taken(games, -1, KUrl, Get(row, KUrl))
    && !Taken(games, -1, KThreadId, Get(row, KThreadId))
  }

  /** The constraint a new row breaks, if any: NOT NULL, then each UNIQUE. */
  function InsertError(games: map<nat, Record>, row: Record): (e: Option<DbError>)
    ensures e.None? <==> Insertable(games, row)
  {
    if Get(row, KTitle) == VNone then Some(NotNull(KTitle))
    else if Taken(games, -1, KUrl, Get(row, KUrl)) then Some(NotUnique(KUrl))
    else if Taken(games, -1, KThreadId, Get(row, KThreadId)) then Some(NotUnique(KThreadId))
    else None
  }

  /** The store after the insert statement and its trigger. */
  function Inserted(s: Store, row: Record): Store {
    s.(games := s.games[s.nextId := row], fts := s.fts[s.nextId := Indexed(row)], nextId := s.nextId + 1)
  }

  /** `if game.tags: add_tags_to_game(...)`. */
  function GiveTags(s: Store, gameId: nat, tags: Value): (r: Store)
    ensures r.games == s.games && r.fts == s.fts && r.nextId == s.nextId
    ensures r.notifications == s.notifications && r.nextNotificationId == s.nextNotificationId
    ensures r.gameLabels == s.gameLabels && r.collectionGames == s.collectionGames
  {
    if Truthy(tags) then AddTagsToGame(s, gameId, TagList(tags)) else s
  }

  /** Growing the games table keeps every notification's game reference good. */
  /** A store whose games table only gained rows, and whose other tables are
      untouched, stays valid once its games table is. */
  lemma GamesGrown(s: Store, s1: Store)
    requires Valid(s) && GamesValid(s1) && s.games.Keys <= s1.games.Keys
    requires s1 == s.(games := s1.games, nextId := s1.nextId, fts := s1.fts)
    ensures Valid(s1)
  {
    assert TagsValid(s1);
    assert LinksValid(s1);
    forall n | n in s1.notifications ensures NoticeShape(s1.games, s1.notifications[n]) {
      assert NoticeShape(s.games, s.notifications[n]);
    }
  }

  /** A successful insert keeps the store valid, and the new game has
      exactly the tags it was given. */
  lemma AddGameValid(s: Store, g: Game, stamp: string)
    requires Valid(s)
    requires AddGame(s, g, stamp).Ok?
    ensures Valid(AddGame(s, g, stamp).value.0)
    ensures AddGame(s, g, stamp).value.1 in AddGame(s, g, stamp).value.0.games
    ensures TagsOf(AddGame(s, g, stamp).value.0, AddGame(s, g, stamp).value.1)
      == (if Truthy(Get(g.attrs, KTags)) then Stripped(TagList(Get(g.attrs, KTags))) else {})
  {
    var row := NewRow(g, stamp);
    var s1 := Inserted(s, row);
    var tags := Get(g.attrs, KTags);
    assert AddGame(s, g, stamp).value == (GiveTags(s1, s.nextId, tags), s.nextId);
    InsertedValid(s, row);
    GiveTagsValid(s1, s.nextId, tags);
  }

  /** Giving a new game its tags keeps the store valid, and the game then
      has exactly those tags. */
  lemma GiveTagsValid(s1: Store, id: nat, tags: Value)
    requires Valid(s1) && id in s1.games && forall p :: p in s1.gameTags ==> p.0 != id
    ensures Valid(GiveTags(s1, id, tags)) && id in GiveTags(s1, id, tags).games
    ensures TagsOf(GiveTags(s1, id, tags), id) == (if Truthy(tags) then Stripped(TagList(tags)) else {})
  {
    assert TagsOf(s1, id) == {};
    if Truthy(tags) {
      AddTagsToGameValid(s1, id, TagList(tags));
      AddTagsToGameTags(s1, id, TagList(tags));
    }
  }

  lemma InsertedValid(s: Store, row: Record)
    requires Valid(s) && RowShape(row) && Insertable(s.games, row)
    ensures Valid(Inserted(s, row)) && s.nextId in Inserted(s, row).games
    ensures forall p :: p in s.gameTags ==> p.0 != s.nextId
  {
    var s1 := Inserted(s, row);
    InsertedGamesValid(s, row);
    GamesGrown(s, s1);
  }

  lemma InsertedGamesValid(s: Store, row: Record)
    requires GamesValid(s) && RowShape(row) && Insertable(s.games, row)
    ensures GamesValid(Inserted(s, row))
  {
    var id := s.nextId;
    var s1 := Inserted(s, row);
    assert id !in s.games;
    PutKeepsUnique(s.games, id, row, KUrl);
    PutKeepsUnique(s.games, id, row, KThreadId);
    assert s1.fts.Keys == s1.games.Keys;
    forall i | i in s1.fts ensures s1.fts[i] == Indexed(s1.games[i]) {
      if i != id { assert s1.fts[i] == s.fts[i] && s1.games[i] == s.games[i]; }
    }
  }

  /** Putting a row whose value in `k` no other row holds keeps `k` unique. */
  lemma PutKeepsUnique(games: map<nat, Record>, id: nat, row: Record, k: Key)
    requires Unique(games, k)
    requires !Taken(games, id, k, Get(row, k))
    ensures Unique(games[id := row], k)
  {
    var m := games[id := row];
    forall i, j | i in m && j in m && i != j && Get(m[i], k) != VNone
      ensures Get(m[i], k) != Get(m[j], k)
    {
      if i == id {
        assert j in games && j != id;
      } else if j == id {
        assert i in games && i != id && m[i] == games[i];
      } else {
        assert i in games && j in games;
      }
    }
  }

  // ----- update -----------------------------------------------------------

  /** The row id a value selects in `WHERE id = ?`: an integer, or a
      boolean as 1 or 0; any other value selects nothing. */
  function RowIdOf(v: Value): (r: Option<int>)
    ensures v.VInt? ==> r == Some(v.i)
    ensures v.VBool? ==> r == Some(if v.b then 1 else 0)
    ensures !IsInt(v) ==> r.None?
  {
    match v
    case VInt(i) => Some(i)
    case VBool(b) => Some(if b then 1 else 0)
    case _ => None
  }

  /** The existing row an id value selects, if any. */
  function Target(s: Store, v: Value): (r: Option<nat>)
    ensures r.Some? ==> r.value in s.games && RowIdOf(v) == Some(r.value as int)
    ensures r.None? ==> forall id :: id in s.games ==> RowIdOf(v) != Some(id as int)
  {
    match RowIdOf(v)
    case Some(i) => if i >= 0 && i as nat in s.games then Some(i as nat) else None
    case None => None
  }

  /** A row after `UPDATE games SET ...`: every written column replaced and
      `updated_date` stamped, the other columns kept. */
  function Updated(row: Record, g: Game, now: string): (r: Record)
    ensures r.Keys == row.Keys + Written(g).Keys + {KUpdatedDate}
    ensures r[KUpdatedDate] == VStr(now)
    ensures forall k :: k in Written(g) && k != KUpdatedDate ==> r[k] == ToDict(g)[k]
    ensures forall k :: k in row && k !in Written(g) && k != KUpdatedDate ==> r[k] == row[k]
  {
    row + Written(g)[KUpdatedDate := VStr(now)]
  }

  /** An updated row may not take a url or thread id another row holds. */
  predicate Updatable(games: map<nat, Record>, id: nat, row: Record) {
    !Taken(games, id, KUrl, Get(row, KUrl)) && !Taken(games, id, KThreadId, Get(row, KThreadId))
  }

  function UpdateError(games: map<nat, Record>, id: nat, row: Record): (e: Option<DbError>)
    ensures e.None? <==> Updatable(games, id, row)
  {
    if Taken(games, id, KUrl, Get(row, KUrl)) then Some(NotUnique(KUrl))
    else if Taken(games, id, KThreadId, Get(row, KThreadId)) then Some(NotUnique(KThreadId))
    else None
  }

  /** The store after the update statement and its trigger. */
  function Rewritten(s: Store, id: nat, row: Record): Store {
    s.(games := s.games[id := row], fts := s.fts[id := Indexed(row)])
  }

  /** `if game.tags: set_game_tags(...)`. */
  function ReplaceTags(s: Store, gameId: nat, tags: Value): (r: Store)
    ensures r.games == s.games && r.fts == s.fts && r.nextId == s.nextId
    ensures r.notifications == s.notifications && r.nextNotificationId == s.nextNotificationId
    ensures r.gameLabels == s.gameLabels && r.collectionGames == s.collectionGames
  {
    if Truthy(tags) then SetGameTags(s, gameId, TagList(tags)) else s
  }

  /** `update_game`: without an id it raises. An id that selects a row has
      every written column replaced (a merge would keep the old values of
      columns the game leaves at their defaults; this does not), and the
      update trigger re-indexes the row. An id that selects nothing changes
      no row, and fails only when there are tags to attach to it. */
  function UpdateGame(s: Store, g: Game, now: string): (r: Result<Store, DbError>)
    ensures !Truthy(Get(g.attrs, KId)) ==> r == Err(MissingId)
    ensures Truthy(Get(g.attrs, KId)) && Target(s, Get(g.attrs, KId)).None? ==>
      (r.Ok? <==> !(Truthy(Get(g.attrs, KTags)) && Stripped(TagList(Get(g.attrs, KTags))) != {}))
      && (r.Ok? ==> r.value == s)
    ensures Truthy(Get(g.attrs, KId)) && Target(s, Get(g.attrs, KId)).Some? ==>
      var id := Target(s, Get(g.attrs, KId)).value;
      var row := Updated(s.games[id], g, now);
      (r.Ok? <==> Updatable(s.games, id, row))
      && (r.Ok? ==> (r.value.games == s.games[id := row] && r.value.fts == s.fts[id := Indexed(row)]
        && r.value.nextId == s.nextId && r.value.notifications == s.notifications))
  {
    var idv := Get(g.attrs, KId);
    var tags := Get(g.attrs, KTags);
    if !Truthy(idv) then Err(MissingId)
    else
      match Target(s, idv)
      case None =>
        if Truthy(tags) && Stripped(TagList(tags)) != {} then Err(ForeignKey) else Ok(s)
      case Some(id) =>
        var row := Updated(s.games[id], g, now);
        match UpdateError(s.games, id, row)
        case Some(e) => Err(e)
        case None => Ok(ReplaceTags(Rewritten(s, id, row), id, tags))
  }

  /** The first name of a tag list that `add_tags_to_game` keeps, stripped. */
  function FirstTag(names: seq<string>): (r: Option<string>)
    ensures r.Some? <==> Stripped(names) != {}
    ensures r.Some? ==> r.value in Stripped(names)
    ensures names != [] && Strip(names[0]) != [] ==> r == Some(Strip(names[0]))
    decreases |names|
  {
    if names == [] then None
    else
      StrippedCons(names);
      if Strip(names[0]) != [] then Some(Strip(names[0])) else FirstTag(names[1..])
  }

  /** What a failing `update_game` leaves committed. The UPDATE raising on
      a unique column commits nothing. An id that selects no row passes the
      UPDATE and its commit; then `add_tag` commits the first tag before
      pairing it with the missing game raises on the foreign key, so that
      tag stays, and nothing else. */
  function UpdateLeaves(s: Store, g: Game, now: string): (r: Store)
    requires UpdateGame(s, g, now).Err?
    ensures r.games == s.games && r.fts == s.fts && r.gameTags == s.gameTags
    ensures r.notifications == s.notifications && r.nextId == s.nextId
    ensures UpdateGame(s, g, now).error != ForeignKey ==> r == s
    ensures UpdateGame(s, g, now).error == ForeignKey ==>
      var first := FirstTag(TagList(Get(g.attrs, KTags)));
      first.Some? && r.tags.Keys == s.tags.Keys + {first.value} && forall n :: n in s.tags ==> r.tags[n] == s.tags[n]
  {
    var tags := Get(g.attrs, KTags);
    if UpdateGame(s, g, now).error == ForeignKey then AddTag(s, FirstTag(TagList(tags)).value).0 else s
  }

  /** A successful update keeps the store valid; a game given tags has
      exactly those afterwards. */
  lemma UpdateGameValid(s: Store, g: Game, now: string)
    requires Valid(s)
    requires UpdateGame(s, g, now).Ok?
    ensures Valid(UpdateGame(s, g, now).value)
    ensures UpdateGame(s, g, now).value.games.Keys == s.games.Keys
    ensures var id := Target(s, Get(g.attrs, KId));
      id.Some? && Truthy(Get(g.attrs, KTags)) ==>
        TagsOf(UpdateGame(s, g, now).value, id.value) == Stripped(TagList(Get(g.attrs, KTags)))
  {
    match Target(s, Get(g.attrs, KId))
    case None =>
    case Some(id) =>
      var row := Updated(s.games[id], g, now);
      assert UpdateGame(s, g, now).value == ReplaceTags(Rewritten(s, id, row), id, Get(g.attrs, KTags));
      UpdateRowValid(s, id, row, Get(g.attrs, KTags));
  }

  lemma UpdateRowValid(s: Store, id: nat, row: Record, tags: Value)
    requires Valid(s) && id in s.games && RowShape(row) && Updatable(s.games, id, row)
    ensures Valid(ReplaceTags(Rewritten(s, id, row), id, tags))
    ensures ReplaceTags(Rewritten(s, id, row), id, tags).games.Keys == s.games.Keys
    ensures Truthy(tags) ==> TagsOf(ReplaceTags(Rewritten(s, id, row), id, tags), id) == Stripped(TagList(tags))
  {
    RewrittenValid(s, id, row);
    if Truthy(tags) {
      SetGameTagsValid(Rewritten(s, id, row), id, TagList(tags));
      SetGameTagsReplaces(Rewritten(s, id, row), id, TagList(tags));
    }
  }

  lemma RewrittenValid(s: Store, id: nat, row: Record)
    requires Valid(s) && id in s.games && RowShape(row) && Updatable(s.games, id, row)
    ensures Valid(Rewritten(s, id, row))
  {
    var s1 := Rewritten(s, id, row);
    RewrittenGamesValid(s, id, row);
    GamesGrown(s, s1);
  }

  lemma RewrittenGamesValid(s: Store, id: nat, row: Record)
    requires GamesValid(s) && id in s.games && RowShape(row) && Updatable(s.games, id, row)
    ensures GamesValid(Rewritten(s, id, row))
  {
    PutKeepsUnique(s.games, id, row, KUrl);
    PutKeepsUnique(s.games, id, row, KThreadId);
    var s1 := Rewritten(s, id, row);
    PutShaped(s.games, s1.games, s.nextId, id, row);
    PutIndexed(s.games, s.fts, s1.games, s1.fts, id, row);
  }

  /** Putting a well-shaped row under an id in range keeps every row well
      shaped and every id in range. */
  lemma PutShaped(games: map<nat, Record>, games': map<nat, Record>, nextId: nat, id: nat, row: Record)
    requires forall i :: i in games ==> 1 <= i < nextId && RowShape(games[i])
    requires 1 <= id < nextId && RowShape(row) && games' == games[id := row]
    ensures forall i :: i in games' ==> 1 <= i < nextId && RowShape(games'[i])
  {
  }

  /** Putting a row and its index entry under the same id keeps the index
      in step with the rows. */
  lemma PutIndexed(games: map<nat, Record>, fts: map<nat, FtsEntry>, games': map<nat, Record>,
                   fts': map<nat, FtsEntry>, id: nat, row: Record)
    requires fts.Keys == games.Keys && forall i :: i in fts ==> fts[i] == Indexed(games[i])
    requires games' == games[id := row] && fts' == fts[id := Indexed(row)]
    ensures fts'.Keys == games'.Keys && forall i :: i in fts' ==> fts'[i] == Indexed(games'[i])
  {
    forall i | i in fts' ensures fts'[i] == Indexed(games'[i]) {
      if i != id { assert fts'[i] == fts[i]; }
    }
  }

  // ----- upsert -----------------------------------------------------------

  /** The first id from `i` up to `bound` whose row holds `v` in column `k`. */
  function FindRowFrom(games: map<nat, Record>, k: Key, v: Value, i: nat, bound: nat): (r: Option<nat>)
    ensures r.Some? ==> i <= r.value < bound && r.value in games && Get(games[r.value], k) == v
    ensures r.None? ==> forall j :: i <= j < bound && j in games ==> Get(games[j], k) != v
    decreases bound - i
  {
    if i >= bound then None
    else if i in games && Get(games[i], k) == v then Some(i)
    else FindRowFrom(games, k, v, i + 1, bound)
  }

  /** `SELECT id FROM games WHERE <k> = ?`, first row only. */
  function FindRow(s: Store, k: Key, v: Value): Option<nat> {
    FindRowFrom(s.games, k, v, 0, s.nextId)
  }

  /** In a valid store a non-NULL url or thread id selects the one row that
      holds it, and nothing when no row does. */
  lemma FindRowExact(s: Store, k: Key, v: Value)
    requires GamesValid(s) && (k == KUrl || k == KThreadId) && v != VNone
    ensures forall j :: j in s.games && Get(s.games[j], k) == v ==> FindRow(s, k, v) == Some(j)
    ensures FindRow(s, k, v).None? <==> forall j :: j in s.games ==> Get(s.games[j], k) != v
  {
  }

  /** The row `upsert_game` resolves a record to: by thread id when the
      record has a truthy one (its url is then not consulted), else by url
      when that is truthy, else none. */
  function Lookup(s: Store, data: Record): (r: Option<nat>)
    ensures Truthy(Get(data, KThreadId)) ==> r == FindRow(s, KThreadId, Get(data, KThreadId))
    ensures !Truthy(Get(data, KThreadId)) && Truthy(Get(data, KUrl)) ==> r == FindRow(s, KUrl, Get(data, KUrl))
    ensures !Truthy(Get(data, KThreadId)) && !Truthy(Get(data, KUrl)) ==> r.None?
  {
    if Truthy(Get(data, KThreadId)) then FindRow(s, KThreadId, Get(data, KThreadId))
    else if Truthy(Get(data, KUrl)) then FindRow(s, KUrl, Get(data, KUrl))
    else None
  }

  /** `upsert_game`: a record that resolves to a row updates it, with its id
      set, and returns that id; any other record is inserted. `parseIso`
      reads dates, `stamp` is the insert's `CURRENT_TIMESTAMP` and `now` the
      update's clock reading. */
  function Upsert(s: Store, data: Record, parseIso: string -> Option<DateTime>, stamp: string, now: string)
    : (r: Result<(Store, nat), DbError>)
    ensures r.Ok? && Lookup(s, data).Some? && Lookup(s, data).value != 0 ==> r.value.1 == Lookup(s, data).value
    ensures Lookup(s, data).None? ==> r == AddGame(s, FromDict(data, parseIso), stamp)
  {
    match Lookup(s, data)
    case Some(id) =>
      if id != 0 then
        match UpdateGame(s, FromDict(data[KId := VInt(id)], parseIso), now)
        case Ok(s1) => Ok((s1, id))
        case Err(e) => Err(e)
      else AddGame(s, FromDict(data, parseIso), stamp)
    case None => AddGame(s, FromDict(data, parseIso), stamp)
  }
}
