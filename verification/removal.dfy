/** `delete_game` and what the schema's cascading foreign keys and delete
    trigger do with it: the game's row and its full-text entry go, and so
    does every game-tag, game-label and collection-game pair and every
    notification that refers to the game. Every other row stays as it was,
    the store stays valid, and deleting an id that no row has changes
    nothing; ids are never handed out again. */
module Removal {
  import opened Values
  import opened Catalog

  /** A notification row that refers to game `id`. */
  predicate RefersTo(row: Record, id: nat) {
    Get(row, KGameId) == VInt(id)
  }

  /** `delete_game`: the row goes, the delete trigger drops its index entry,
      and every game-tag, game-label, collection-game pair and notification
      that refers to it goes with it. No row has a negative id, and deleting
      an id no row has changes nothing. Ids are never handed out again. */
  function DeleteGame(s: Store, id: int): (r: Store)
    ensures id < 0 || id !in s.games ==> r == s
    ensures r.nextId == s.nextId && r.tags == s.tags && r.nextTagId == s.nextTagId
    ensures r.nextNotificationId == s.nextNotificationId
  {
    if id < 0 || id !in s.games then s
    else
      var n := id as nat;
      s.(games := (map i | i in s.games && i != n :: s.games[i]),
         fts := (map i | i in s.fts && i != n :: s.fts[i]),
         gameTags := (set p | p in s.gameTags && p.0 != n),
         gameLabels := (set p | p in s.gameLabels && p.0 != n),
         collectionGames := (set p | p in s.collectionGames && p.1 != n),
         notifications := (map i | i in s.notifications && !RefersTo(s.notifications[i], n) :: s.notifications[i]))
  }

  /** Deleting a game removes exactly that row and its index entry, and
      leaves every other row and entry as it was. */
  lemma DeleteRemovesRow(s: Store, id: nat)
    requires GamesValid(s) && id in s.games
    ensures var r := DeleteGame(s, id);
      r.games.Keys == s.games.Keys - {id} && r.fts.Keys == r.games.Keys
      && (forall i :: i in r.games ==> r.games[i] == s.games[i] && r.fts[i] == Indexed(r.games[i]))
  {
  }

  /** After a delete nothing refers to the game any more, and everything
      that referred to another game is kept. */
  lemma DeleteCascades(s: Store, id: nat)
    requires id in s.games
    ensures var r := DeleteGame(s, id);
      (forall p :: p in r.gameTags <==> p in s.gameTags && p.0 != id)
      && (forall p :: p in r.gameLabels <==> p in s.gameLabels && p.0 != id)
      && (forall p :: p in r.collectionGames <==> p in s.collectionGames && p.1 != id)
      && (forall n :: n in r.notifications <==> n in s.notifications && !RefersTo(s.notifications[n], id))
      && (forall n :: n in r.notifications ==> r.notifications[n] == s.notifications[n])
  {
  }

  /** Deleting a game keeps the store valid: the foreign keys that would
      dangle are exactly those the cascade removes. */
  lemma DeleteValid(s: Store, id: int)
    requires Valid(s)
    ensures Valid(DeleteGame(s, id))
  {
    if id >= 0 && id in s.games {
      var r := DeleteGame(s, id);
      var n := id as nat;
      assert Unique(r.games, KUrl) && Unique(r.games, KThreadId) by {
        SubmapUnique(s.games, r.games, KUrl);
        SubmapUnique(s.games, r.games, KThreadId);
      }
      forall p | p in r.gameTags ensures p.0 in r.games && p.1 in r.tags.Values {
        assert p in s.gameTags;
      }
      forall p | p in r.collectionGames ensures p.1 in r.games {
        assert p in s.collectionGames;
      }
      forall m | m in r.notifications ensures NoticeShape(r.games, r.notifications[m]) {
        NoticeSurvives(s, n, m);
      }
    }
  }

  /** A notification the cascade keeps still refers to a game that exists. */
  lemma NoticeSurvives(s: Store, id: nat, m: nat)
    requires NotificationsValid(s) && id in s.games
    requires m in s.notifications && !RefersTo(s.notifications[m], id)
    ensures NoticeShape(DeleteGame(s, id).games, s.notifications[m])
  {
    var row := s.notifications[m];
    assert NoticeShape(s.games, row);
    assert Get(row, KGameId) == row[KGameId];
  }

  lemma SubmapUnique(games: map<nat, Record>, sub: map<nat, Record>, k: Key)
    requires Unique(games, k)
    requires forall i :: i in sub ==> i in games && sub[i] == games[i]
    ensures Unique(sub, k)
  {
  }
}
