/** What `upsert_game` and `update_game` promise about the catalog store.
    An upsert looks its record up by thread id, or by url when the record
    has no thread id; a record that resolves to an existing row updates that
    row, and any other record is inserted. Either way the store stays valid,
    the row then holds every column written for the record, a column the
    record omits is reset to its default, and upserting the same record
    again succeeds on the same row without adding one. */
module UpsertLaws {
  import opened Wrappers
  import opened Text
  import opened Config
  import opened Values
  import opened Models
  import opened Ordering
  import opened Catalog

  /** The columns written for a record do not depend on its id. */
  lemma WrittenIgnoresId(data: Record, parseIso: string -> Option<DateTime>, v: Value)
    ensures Written(FromDict(data[KId := v], parseIso)) == Written(FromDict(data, parseIso))
  {
    var g1 := FromDict(data[KId := v], parseIso);
    var g0 := FromDict(data, parseIso);
    forall k | IsColumn(k) ensures g1.attrs[k] == g0.attrs[k] {
      assert k != KId;
    }
    WrittenSame(g1, g0);
  }

  /** Games that agree on every column have the same columns written. */
  lemma WrittenSame(g1: Game, g2: Game)
    requires WellFormed(g1) && WellFormed(g2)
    requires forall k :: IsColumn(k) ==> g1.attrs[k] == g2.attrs[k]
    ensures Written(g1) == Written(g2)
  {
    var w1, w2 := Written(g1), Written(g2);
    forall k | IsColumn(k) ensures (k in w1 <==> k in w2) && (k in w1 ==> w1[k] == w2[k]) {
      WrittenAt(g1, g2, k);
    }
    assert w1.Keys == w2.Keys;
  }

  lemma WrittenAt(g1: Game, g2: Game, k: Key)
    requires IsColumn(k) && k in g1.attrs && k in g2.attrs && g1.attrs[k] == g2.attrs[k]
    ensures (k in Written(g1) <==> k in Written(g2)) && (k in Written(g1) ==> Written(g1)[k] == Written(g2)[k])
  {
    var d1, d2 := ToDict(g1), ToDict(g2);
    assert k in d1 && k in d2;
    if IsFlag(k) {
      assert d1[k] == VInt(if Truthy(g1.attrs[k]) then 1 else 0);
      assert d2[k] == VInt(if Truthy(g2.attrs[k]) then 1 else 0);
    } else {
      assert d1[k] == g1.attrs[k] && d2[k] == g2.attrs[k];
    }
  }

  /** A record's url or thread id, when not None, is written unchanged. */
  lemma WrittenKey(data: Record, parseIso: string -> Option<DateTime>, k: Key)
    requires (k == KUrl || k == KThreadId) && Get(data, k) != VNone
    ensures k in Written(FromDict(data, parseIso)) && Written(FromDict(data, parseIso))[k] == data[k]
  {
    var g := FromDict(data, parseIso);
    assert IsColumn(k) && !IsFlag(k) && !IsDate(k) && k in data;
    assert g.attrs[k] == data[k];
    assert ToDict(g)[k] == data[k];
  }

  /** A successful upsert keeps the store valid and returns the id of a row. */
  lemma UpsertValid(s: Store, data: Record, parseIso: string -> Option<DateTime>, stamp: string, now: string)
    requires Valid(s)
    requires Upsert(s, data, parseIso, stamp, now).Ok?
    ensures Valid(Upsert(s, data, parseIso, stamp, now).value.0)
    ensures Upsert(s, data, parseIso, stamp, now).value.1 in Upsert(s, data, parseIso, stamp, now).value.0.games
  {
    match Lookup(s, data)
    case Some(id) =>
      if id != 0 {
        UpdateGameValid(s, FromDict(data[KId := VInt(id)], parseIso), now);
      } else {
        AddGameValid(s, FromDict(data, parseIso), stamp);
      }
    case None =>
      AddGameValid(s, FromDict(data, parseIso), stamp);
  }

  /** After a successful upsert the returned row holds every value written
      for the record: the old values of those columns are replaced. */
  lemma UpsertWrites(s: Store, data: Record, parseIso: string -> Option<DateTime>, stamp: string, now: string)
    requires Valid(s)
    requires Upsert(s, data, parseIso, stamp, now).Ok?
    ensures var (s1, id) := Upsert(s, data, parseIso, stamp, now).value;
      var w := Written(FromDict(data, parseIso));
      id in s1.games
      && forall k :: k in w && k != KUpdatedDate ==> k in s1.games[id] && s1.games[id][k] == w[k]
  {
    var found := Lookup(s, data);
    if found.Some? && found.value != 0 {
      var id := found.value;
      var g := FromDict(data[KId := VInt(id)], parseIso);
      var u := UpdateGame(s, g, now);
      assert Upsert(s, data, parseIso, stamp, now) == Ok((u.value, id));
      FromDictId(data, parseIso, id);
      WrittenIgnoresId(data, parseIso, VInt(id));
      UpdateWrites(s, g, now, id);
    } else {
      AddGameWrites(s, FromDict(data, parseIso), stamp);
    }
  }


  /** The update replaces rather than merges: a column the record leaves
      out is written with the game's declared default, so a re-scraped
      favourite stops being one and its play time and notes are cleared. */
  lemma UpsertResetsOmitted(s: Store, data: Record, parseIso: string -> Option<DateTime>, stamp: string, now: string,
                            c: Key)
    requires Valid(s) && Upsert(s, data, parseIso, stamp, now).Ok?
    requires IsColumn(c) && c != KUpdatedDate && c !in data && GameDefault(c) != VNone
    ensures var (s1, id) := Upsert(s, data, parseIso, stamp, now).value;
      c in s1.games[id] && s1.games[id][c] == (if IsFlag(c) then VInt(0) else GameDefault(c))
  {
    UpsertWrites(s, data, parseIso, stamp, now);
    FlagDefaultWritten(FromDict(data, parseIso), c);
  }

  lemma FlagDefaultWritten(g: Game, c: Key)
    requires WellFormed(g) && IsColumn(c) && g.attrs[c] == GameDefault(c) && GameDefault(c) != VNone
    ensures c in Written(g) && Written(g)[c] == (if IsFlag(c) then VInt(0) else GameDefault(c))
  {
    if IsFlag(c) {
      FlagIsField(c);
    }
  }

  lemma AddGameWrites(s: Store, g: Game, stamp: string)
    requires AddGame(s, g, stamp).Ok?
    ensures var (s1, id) := AddGame(s, g, stamp).value;
      id in s1.games && forall k :: k in Written(g) ==> k in s1.games[id] && s1.games[id][k] == Written(g)[k]
  {
    forall k | k in Written(g) ensures NewRow(g, stamp)[k] == Written(g)[k] {
      NewRowAt(g, stamp, k);
    }
  }

  lemma UpdateWrites(s: Store, g: Game, now: string, id: nat)
    requires Truthy(Get(g.attrs, KId)) && Target(s, Get(g.attrs, KId)) == Some(id)
    requires UpdateGame(s, g, now).Ok?
    ensures var s1 := UpdateGame(s, g, now).value;
      id in s1.games
      && forall k :: k in Written(g) && k != KUpdatedDate ==> k in s1.games[id] && s1.games[id][k] == Written(g)[k]
  {
  }

  /** The column `upsert_game` resolves a record by, when it has one. */
  predicate ResolvesBy(data: Record, k: Key) {
    (k == KThreadId && Truthy(Get(data, KThreadId)))
    || (k == KUrl && !Truthy(Get(data, KThreadId)) && Truthy(Get(data, KUrl)))
  }

  /** A record whose resolving value a row holds updates that row: the id
      returned is the row's and no row is added. */
  lemma UpsertMatches(s: Store, data: Record, parseIso: string -> Option<DateTime>, stamp: string, now: string,
                      k: Key, j: nat)
    requires GamesValid(s) && ResolvesBy(data, k)
    requires j in s.games && Get(s.games[j], k) == Get(data, k)
    requires Upsert(s, data, parseIso, stamp, now).Ok?
    ensures Upsert(s, data, parseIso, stamp, now).value.1 == j
    ensures Upsert(s, data, parseIso, stamp, now).value.0.games.Keys == s.games.Keys
  {
    FoundAgain(s, data, k, j);
    assert j != 0;
    var u := UpdateGame(s, FromDict(data[KId := VInt(j)], parseIso), now);
    assert u.Ok?;
    UpsertOnFound(s, data, parseIso, stamp, now, j);
  }

  /** A record whose resolving value no row holds, or that has none, is
      inserted under the next id. */
  lemma UpsertInserts(s: Store, data: Record, parseIso: string -> Option<DateTime>, stamp: string, now: string)
    requires Valid(s)
    requires forall k, j :: ResolvesBy(data, k) && j in s.games ==> Get(s.games[j], k) != Get(data, k)
    requires Upsert(s, data, parseIso, stamp, now).Ok?
    ensures Upsert(s, data, parseIso, stamp, now).value.1 == s.nextId
    ensures Upsert(s, data, parseIso, stamp, now).value.0.games.Keys == s.games.Keys + {s.nextId}
  {
    if Truthy(Get(data, KThreadId)) {
      assert ResolvesBy(data, KThreadId);
      FindRowExact(s, KThreadId, Get(data, KThreadId));
    } else if Truthy(Get(data, KUrl)) {
      assert ResolvesBy(data, KUrl);
      FindRowExact(s, KUrl, Get(data, KUrl));
    }
  }

  /** With a truthy thread id the url is not consulted: a new thread id
      whose url another row already has is inserted, and the url's UNIQUE
      key makes the insert fail. */
  lemma UpsertUrlNotConsulted(s: Store, data: Record, parseIso: string -> Option<DateTime>, stamp: string, now: string,
                              j: nat)
    requires GamesValid(s) && Truthy(Get(data, KThreadId))
    requires forall i :: i in s.games ==> Get(s.games[i], KThreadId) != Get(data, KThreadId)
    requires j in s.games && Get(data, KUrl) != VNone && Get(s.games[j], KUrl) == Get(data, KUrl)
    ensures Upsert(s, data, parseIso, stamp, now).Err?
  {
    FindRowExact(s, KThreadId, Get(data, KThreadId));
    assert Lookup(s, data).None?;
    var g := FromDict(data, parseIso);
    WrittenKey(data, parseIso, KUrl);
    NewRowAt(g, stamp, KUrl);
    assert Taken(s.games, -1, KUrl, Get(NewRow(g, stamp), KUrl));
    assert AddGame(s, g, stamp).Err?;
  }

  /** The value an update leaves in a column the record writes as it is already. */
  lemma UpdatedKeeps(row: Record, g: Game, now: string, c: Key)
    requires c != KUpdatedDate
    requires c in Written(g) ==> c in row && row[c] == Written(g)[c]
    ensures Get(Updated(row, g, now), c) == Get(row, c)
  {
  }

  lemma NotTakenByItself(games: map<nat, Record>, id: nat, c: Key)
    requires Unique(games, c) && id in games
    ensures !Taken(games, id, c, Get(games[id], c))
  {
  }

  /** Upserting the same record again, with a truthy thread id or url,
      succeeds, returns the same id and adds no row. */
  lemma UpsertIdempotent(s: Store, data: Record, parseIso: string -> Option<DateTime>,
                         stamp: string, now: string, stamp2: string, now2: string)
    requires Valid(s) && (Truthy(Get(data, KThreadId)) || Truthy(Get(data, KUrl)))
    requires Upsert(s, data, parseIso, stamp, now).Ok?
    ensures var (s1, id) := Upsert(s, data, parseIso, stamp, now).value;
      var again := Upsert(s1, data, parseIso, stamp2, now2);
      again.Ok? && again.value.1 == id && again.value.0.games.Keys == s1.games.Keys
  {
    var (s1, id) := Upsert(s, data, parseIso, stamp, now).value;
    UpsertValid(s, data, parseIso, stamp, now);
    UpsertWrites(s, data, parseIso, stamp, now);
    var k := if Truthy(Get(data, KThreadId)) then KThreadId else KUrl;
    WrittenKey(data, parseIso, k);
    UpsertAgain(s1, data, parseIso, stamp2, now2, k, id);
  }

  /** The row holds every value written for the record, `updated_date`
      aside. */
  predicate HoldsWritten(row: Record, w: Record) {
    forall c :: c in w && c != KUpdatedDate ==> c in row && row[c] == w[c]
  }

  /** A row that already holds everything written for a record, found by
      the record's resolving value, takes the record's upsert without error. */
  lemma UpsertAgain(s1: Store, data: Record, parseIso: string -> Option<DateTime>, stamp: string, now: string,
                    k: Key, id: nat)
    requires GamesValid(s1) && ResolvesBy(data, k) && id in s1.games
    requires HoldsWritten(s1.games[id], Written(FromDict(data, parseIso)))
    requires k in Written(FromDict(data, parseIso)) && Written(FromDict(data, parseIso))[k] == data[k]
    ensures var again := Upsert(s1, data, parseIso, stamp, now);
      again.Ok? && again.value.1 == id && again.value.0.games.Keys == s1.games.Keys
  {
    assert Get(s1.games[id], k) == Get(data, k);
    FoundAgain(s1, data, k, id);
    UpdateAgainOk(s1, data, parseIso, now, id);
    UpsertOnFound(s1, data, parseIso, stamp, now, id);
  }

  lemma FoundAgain(s: Store, data: Record, k: Key, id: nat)
    requires GamesValid(s) && ResolvesBy(data, k) && id in s.games
    requires Get(s.games[id], k) == Get(data, k)
    ensures Lookup(s, data) == Some(id)
  {
    FindRowExact(s, k, Get(data, k));
  }

  lemma UpdateAgainOk(s: Store, data: Record, parseIso: string -> Option<DateTime>, now: string, id: nat)
    requires GamesValid(s) && id in s.games
    requires HoldsWritten(s.games[id], Written(FromDict(data, parseIso)))
    ensures UpdateGame(s, FromDict(data[KId := VInt(id)], parseIso), now).Ok?
  {
    var g := FromDict(data[KId := VInt(id)], parseIso);
    WrittenIgnoresId(data, parseIso, VInt(id));
    FromDictId(data, parseIso, id);
    RewriteSameOk(s, g, now, id);
  }

  /** A record that resolves to a row takes the update's outcome. */
  lemma UpsertOnFound(s: Store, data: Record, parseIso: string -> Option<DateTime>, stamp: string, now: string,
                      id: nat)
    requires Lookup(s, data) == Some(id) && id in s.games
    requires UpdateGame(s, FromDict(data[KId := VInt(id)], parseIso), now).Ok?
    ensures var r := Upsert(s, data, parseIso, stamp, now);
      r.Ok? && r.value.1 == id && r.value.0.games.Keys == s.games.Keys
  {
    var g := FromDict(data[KId := VInt(id)], parseIso);
    FromDictId(data, parseIso, id);
    UpdateKeepsKeys(s, g, now, id);
    UpsertByUpdate(s, data, parseIso, stamp, now, id);
  }

  /** An update of an existing row, when it succeeds, adds no row; its id
      is not 0, which is not truthy. */
  lemma UpdateKeepsKeys(s: Store, g: Game, now: string, id: nat)
    requires id in s.games && Get(g.attrs, KId) == VInt(id) && UpdateGame(s, g, now).Ok?
    ensures id != 0 && UpdateGame(s, g, now).value.games.Keys == s.games.Keys
  {
    assert Target(s, VInt(id)) == Some(id);
  }

  lemma UpsertByUpdate(s: Store, data: Record, parseIso: string -> Option<DateTime>, stamp: string, now: string,
                       id: nat)
    requires Lookup(s, data) == Some(id) && id != 0
    requires UpdateGame(s, FromDict(data[KId := VInt(id)], parseIso), now).Ok?
    ensures Upsert(s, data, parseIso, stamp, now)
      == Ok((UpdateGame(s, FromDict(data[KId := VInt(id)], parseIso), now).value, id))
  {
  }

  /** The record given its id reads back with that id. */
  lemma FromDictId(data: Record, parseIso: string -> Option<DateTime>, id: nat)
    ensures Get(FromDict(data[KId := VInt(id)], parseIso).attrs, KId) == VInt(id)
  {
    assert IsGameField(KId);
  }

  lemma RewriteSameOk(s: Store, g: Game, now: string, id: nat)
    requires GamesValid(s) && id in s.games
    requires Get(g.attrs, KId) == VInt(id)
    requires HoldsWritten(s.games[id], Written(g))
    ensures UpdateGame(s, g, now).Ok?
  {
    var row := Updated(s.games[id], g, now);
    assert Target(s, Get(g.attrs, KId)) == Some(id);
    UpdatedKeeps(s.games[id], g, now, KUrl);
    UpdatedKeeps(s.games[id], g, now, KThreadId);
    NotTakenByItself(s.games, id, KUrl);
    NotTakenByItself(s.games, id, KThreadId);
    assert Updatable(s.games, id, row);
  }
}
