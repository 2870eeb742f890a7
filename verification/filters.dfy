/** The `WHERE` clause of `filter_games` and what it promises of a game
    read back from a row it lets through. */
module FilterRows {
  import opened Wrappers
  import opened Values
  import opened Models

  /** The filters dictionary: each entry `None` when it is absent. */
  datatype Filter = Filter(
    favorite: Value, completedStatus: Value, engine: Value, status: Value, includeHidden: Value)

  /** The query's `WHERE` clause: a truthy favourite filter asks for
      `is_favorite = 1`; a truthy completed status, engine or status asks
      for that column to equal it; and hidden rows are left out unless
      `include_hidden` is truthy. */
  predicate Matches(row: Record, f: Filter) {
    (Truthy(f.favorite) ==> Get(row, KIsFavorite) == VInt(1))
    && (Truthy(f.completedStatus) ==> Get(row, KCompletedStatus) == f.completedStatus)
    && (Truthy(f.engine) ==> Get(row, KEngine) == f.engine)
    && (Truthy(f.status) ==> Get(row, KStatus) == f.status)
    && (!Truthy(f.includeHidden) ==> Get(row, KIsHidden) == VInt(0))
  }

  /** A game read back honours the filters: a favourite filter gives a
      favourite, a hidden game only when asked for, and the completed
      status, engine and status asked for. */
  predicate Honours(g: Game, f: Filter) {
    (Truthy(f.favorite) ==> Get(g.attrs, KIsFavorite) == VBool(true))
    && (!Truthy(f.includeHidden) ==> Get(g.attrs, KIsHidden) == VBool(false))
    && (Truthy(f.completedStatus) ==> Get(g.attrs, KCompletedStatus) == f.completedStatus)
    && (Truthy(f.engine) ==> Get(g.attrs, KEngine) == f.engine)
    && (Truthy(f.status) ==> Get(g.attrs, KStatus) == f.status)
  }

  /** A game read back from a row the clause lets through honours the
      filters. */
  lemma ReadBackHonoured(row: Record, f: Filter, parseIso: string -> Option<DateTime>, id: nat)
    requires Matches(row, f)
    ensures Honours(FromDict(row[KId := VInt(id)], parseIso), f)
  {
    FavoriteReadBack(row, f, parseIso, id);
    HiddenReadBack(row, f, parseIso, id);
    TextReadBack(row, f.completedStatus, parseIso, id, KCompletedStatus);
    TextReadBack(row, f.engine, parseIso, id, KEngine);
    TextReadBack(row, f.status, parseIso, id, KStatus);
    HonoursFromColumns(FromDict(row[KId := VInt(id)], parseIso), f);
  }

  /** A favourite filter is honoured once the row is read back. */
  lemma FavoriteReadBack(row: Record, f: Filter, parseIso: string -> Option<DateTime>, id: nat)
    requires Matches(row, f)
    ensures Truthy(f.favorite) ==> Get(FromDict(row[KId := VInt(id)], parseIso).attrs, KIsFavorite) == VBool(true)
  {
    ReadBackColumn(row, parseIso, id, KIsFavorite);
    FavoriteRead(row, f, FromDict(row[KId := VInt(id)], parseIso), parseIso);
  }

  /** A hidden row is read back as hidden only when asked for. */
  lemma HiddenReadBack(row: Record, f: Filter, parseIso: string -> Option<DateTime>, id: nat)
    requires Matches(row, f)
    ensures !Truthy(f.includeHidden) ==> Get(FromDict(row[KId := VInt(id)], parseIso).attrs, KIsHidden) == VBool(false)
  {
    ReadBackColumn(row, parseIso, id, KIsHidden);
    HiddenRead(row, f, FromDict(row[KId := VInt(id)], parseIso), parseIso);
  }

  /** A text column asked for is read back with the value asked for. */
  lemma TextReadBack(row: Record, v: Value, parseIso: string -> Option<DateTime>, id: nat, k: Key)
    requires IsGameField(k) && k != KId && !IsFlag(k) && !IsDate(k)
    requires Truthy(v) ==> Get(row, k) == v
    ensures Truthy(v) ==> Get(FromDict(row[KId := VInt(id)], parseIso).attrs, k) == v
  {
    ReadBackColumn(row, parseIso, id, k);
    TextRead(row, v, FromDict(row[KId := VInt(id)], parseIso), k, parseIso);
  }

  /** Column `k` of `g` is read from the row, when the row has it. */
  predicate ReadFrom(row: Record, g: Game, k: Key, parseIso: string -> Option<DateTime>) {
    Get(row, k) != VNone ==> Get(g.attrs, k) == ReadEntry(k, Get(row, k), parseIso)
  }

  /** A favourite filter is honoured by a game read from a matching row. */
  lemma FavoriteRead(row: Record, f: Filter, g: Game, parseIso: string -> Option<DateTime>)
    requires Matches(row, f) && ReadFrom(row, g, KIsFavorite, parseIso)
    ensures Truthy(f.favorite) ==> Get(g.attrs, KIsFavorite) == VBool(true)
  {
    if Truthy(f.favorite) {
      assert Get(g.attrs, KIsFavorite) == ReadEntry(KIsFavorite, VInt(1), parseIso);
    }
  }

  /** A hidden game is read from a matching row only when asked for. */
  lemma HiddenRead(row: Record, f: Filter, g: Game, parseIso: string -> Option<DateTime>)
    requires Matches(row, f) && ReadFrom(row, g, KIsHidden, parseIso)
    ensures !Truthy(f.includeHidden) ==> Get(g.attrs, KIsHidden) == VBool(false)
  {
    if !Truthy(f.includeHidden) {
      assert Get(g.attrs, KIsHidden) == ReadEntry(KIsHidden, VInt(0), parseIso);
    }
  }

  /** A text column asked for is read back unchanged from a matching row. */
  lemma TextRead(row: Record, v: Value, g: Game, k: Key, parseIso: string -> Option<DateTime>)
    requires !IsFlag(k) && !IsDate(k) && ReadFrom(row, g, k, parseIso)
    requires Truthy(v) ==> Get(row, k) == v
    ensures Truthy(v) ==> Get(g.attrs, k) == v
  {
    if Truthy(v) {
      assert Get(g.attrs, k) == ReadEntry(k, v, parseIso);
    }
  }

  /** The filters are honoured column by column. */
  lemma HonoursFromColumns(g: Game, f: Filter)
    requires Truthy(f.favorite) ==> Get(g.attrs, KIsFavorite) == VBool(true)
    requires !Truthy(f.includeHidden) ==> Get(g.attrs, KIsHidden) == VBool(false)
    requires Truthy(f.completedStatus) ==> Get(g.attrs, KCompletedStatus) == f.completedStatus
    requires Truthy(f.engine) ==> Get(g.attrs, KEngine) == f.engine
    requires Truthy(f.status) ==> Get(g.attrs, KStatus) == f.status
    ensures Honours(g, f)
  {
  }

  /** A column the row has, other than the id, is read back from the row. */
  lemma ReadBackColumn(row: Record, parseIso: string -> Option<DateTime>, id: nat, k: Key)
    requires IsGameField(k) && k != KId
    ensures ReadFrom(row, FromDict(row[KId := VInt(id)], parseIso), k, parseIso)
  {
    if Get(row, k) != VNone {
      ReadBackAt(row[KId := VInt(id)], parseIso, k);
    }
  }

  /** A column present in the row is read back as `from_dict` reads it. */
  lemma ReadBackAt(d: Record, parseIso: string -> Option<DateTime>, k: Key)
    requires k in d && IsGameField(k)
    ensures Get(FromDict(d, parseIso).attrs, k) == ReadEntry(k, d[k], parseIso)
  {
  }
}

/** `filter_games`: the rows that match every filter given, in order of
    title, read back into games. A filter that is absent or falsy does not
    constrain its column, and hidden rows are left out unless the filter
    asks for them. Every matching row is returned exactly once and no other
    row is, and each game read back honours the filters it was selected by,
    so that the query's `WHERE` clause and its `ORDER BY` are both kept. */
module Filters {
  import opened Wrappers
  import opened Values
  import opened Models
  import opened Ordering
  import opened Lists
  import opened Catalog
  import opened FilterRows

  /** The text a row is ordered by. */
  function TitleOf(games: map<nat, Record>, id: nat): string {
    if id in games && Get(games[id], KTitle).VStr? then Get(games[id], KTitle).s else []
  }

  /** The ids from `i` up to `bound` of the rows that match, ascending; each
      matching id occurs once and no other id occurs. */
  function MatchingFrom(games: map<nat, Record>, f: Filter, i: nat, bound: nat): (r: seq<nat>)
    ensures forall x :: multiset(r)[x] == if i <= x < bound && x in games && Matches(games[x], f) then 1 else 0
    decreases bound - i
  {
    if i >= bound then []
    else
      var rest := MatchingFrom(games, f, i + 1, bound);
      if i in games && Matches(games[i], f) then [i] + rest else rest
  }

  /** The ids `filter_games` returns rows for, ordered by title. */
  function FilteredIds(s: Store, f: Filter): (r: seq<nat>)
    requires GamesValid(s)
    ensures forall x :: multiset(r)[x] == if x in s.games && Matches(s.games[x], f) then 1 else 0
    ensures forall a, b :: 0 <= a < b < |r| ==> Below(TitleOf(s.games, r[a]), TitleOf(s.games, r[b]))
  {
    var games := s.games;
    var r := SortBy(MatchingFrom(games, f, 0, s.nextId), (id: nat) => TitleOf(games, id));
    assert SortedBy(r, (id: nat) => TitleOf(games, id));
    r
  }

  /** `filter_games`: each returned row read back with `Game.from_dict`,
      its id included. */
  function FilterGames(s: Store, f: Filter, parseIso: string -> Option<DateTime>): (r: seq<Game>)
    requires GamesValid(s)
    ensures |r| == |FilteredIds(s, f)|
    ensures forall k :: 0 <= k < |r| ==>
      var id := FilteredIds(s, f)[k];
      id in s.games && r[k] == FromDict(s.games[id][KId := VInt(id)], parseIso)
  {
    var ids := FilteredIds(s, f);
    seq(|ids|, k requires 0 <= k < |ids| =>
      assert ids[k] in multiset(ids);
      FromDict(s.games[ids[k]][KId := VInt(ids[k])], parseIso))
  }

  /** Every row that matches is returned exactly once, and nothing else is. */
  lemma FilteredExactly(s: Store, f: Filter, id: nat)
    requires GamesValid(s)
    ensures id in FilteredIds(s, f) <==> id in s.games && Matches(s.games[id], f)
    ensures forall a, b :: 0 <= a < b < |FilteredIds(s, f)| ==> FilteredIds(s, f)[a] != FilteredIds(s, f)[b]
  {
    var r := FilteredIds(s, f);
    assert id in r <==> multiset(r)[id] > 0;
    forall a, b | 0 <= a < b < |r| ensures r[a] != r[b] {
      if r[a] == r[b] {
        TwiceCounted(r, a, b);
        assert false;
      }
    }
  }

  /** Every game `filter_games` returns honours the filters. */
  lemma FilterGamesHonoured(s: Store, f: Filter, parseIso: string -> Option<DateTime>, k: nat)
    requires GamesValid(s) && k < |FilterGames(s, f, parseIso)|
    ensures Honours(FilterGames(s, f, parseIso)[k], f)
  {
    FilteredMatches(s, f, k);
    var id := FilteredIds(s, f)[k];
    ReadBackHonoured(s.games[id], f, parseIso, id);
  }

  lemma FilteredMatches(s: Store, f: Filter, k: nat)
    requires GamesValid(s) && k < |FilteredIds(s, f)|
    ensures FilteredIds(s, f)[k] in s.games && Matches(s.games[FilteredIds(s, f)[k]], f)
  {
    var r := FilteredIds(s, f);
    assert r[k] in multiset(r);
  }
}
