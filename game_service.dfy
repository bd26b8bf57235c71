/** The session-lifecycle service: creates, joins and leaves games and answers
    the lobby queries, reading and writing the two repositories. Ids the
    persistence layer or `UUID.randomUUID()` would generate, the clock and the
    random draws are parameters. */
module Service {
  import opened Wrappers
  import opened GameEntity
  import opened PlayerEntity
  import opened Repositories
  import opened GameCode
  import opened Lifecycle

  /** The three ways a call fails: `IllegalArgumentException("Game not
      found")`, `RuntimeException("Game is not available to join")`, and an
      exception from the persistence layer after which the transaction is
      rolled back. */
  datatype Error = NotFound | NotJoinable | StorageError

  class GameService {
    const gameRepository: GameRepository
    const playerRepository: PlayerRepository

    ghost predicate Valid()
      reads this, gameRepository, playerRepository
    {
      && gameRepository.Valid()
      && playerRepository.Valid()
      && StoreInvariant(gameRepository.rows, playerRepository.rows)
    }

    constructor (gameRepository: GameRepository, playerRepository: PlayerRepository)
      requires gameRepository.Valid() && playerRepository.Valid()
      requires StoreInvariant(gameRepository.rows, playerRepository.rows)
      ensures Valid()
      ensures this.gameRepository == gameRepository && this.playerRepository == playerRepository
    {
      this.gameRepository := gameRepository;
      this.playerRepository := playerRepository;
    }

    /** `getGame`: the game with this join code, or not-found. Codes are
        unique, so the game found is the only one with that code. */
    function GetGame(code: string): (r: Result<GameRow, Error>)
      reads gameRepository
      requires gameRepository.Valid()
      ensures r.Ok? ==> r.value in gameRepository.rows.Values && r.value.gameCode == Some(code)
      ensures r.Err? ==> r.error == NotFound
      ensures r.Err? <==> forall id :: id in gameRepository.rows ==> gameRepository.rows[id].gameCode != Some(code)
      ensures forall id :: id in gameRepository.rows && gameRepository.rows[id].gameCode == Some(code) ==>
        r == Ok(gameRepository.rows[id])
    {
      match gameRepository.FindByGameCode(code)
      case Some(g) => Ok(g)
      case None => Err(NotFound)
    }

    /** `getAvailableGames`: exactly the stored games still waiting for a
        second player, each once. */
    function GetAvailableGames(): (r: seq<GameRow>)
      reads gameRepository
      requires gameRepository.Valid()
      ensures forall g :: g in r <==> g in gameRepository.rows.Values && g.status == WaitingForPlayer
      ensures DistinctIds(r)
    {
      Waiting(gameRepository.FindAll())
    }

    /** `getAllGames`: every stored game, each once. */
    function GetAllGames(): (r: seq<GameRow>)
      reads gameRepository
      requires gameRepository.Valid()
      ensures forall g :: g in r <==> g in gameRepository.rows.Values
      ensures DistinctIds(r)
    {
      gameRepository.FindAll()
    }

    /** `createPlayer`: a ready player whose back-reference is `gameId`,
        saved under the generated id. */
    method CreatePlayer(name: Option<string>, gameId: string, generatedId: string)
      returns (player: Player, saved: bool)
      requires playerRepository.Valid()
      requires generatedId !in playerRepository.rows
      modifies playerRepository
      ensures playerRepository.Valid()
      ensures fresh(player)
      ensures saved <==> name.Some?
      ensures saved ==> player.id == Some(generatedId)
      ensures saved ==> (playerRepository.rows ==
        old(playerRepository.rows)[generatedId := PlayerRow(generatedId, name.value, Some(gameId), true)])
      ensures !saved ==> unchanged(playerRepository)
    {
      player := new Player();
      player.name := name;
      player.gameId := Some(gameId);
      player.isReady := true;
      saved := playerRepository.Save(player, generatedId);
    }

    /** `createGame`: a waiting game under a fresh id, with its first player
        and a drawn code. The code is not checked against the codes in use:
        when it collides the save fails and the whole call is undone. */
    method CreateGame(name: Option<string>, newGameId: string, now: Timestamp, draws: seq<int>, newPlayerId: string)
      returns (r: Result<Game, Error>)
      requires Valid()
      requires newGameId !in gameRepository.rows
      requires newPlayerId !in playerRepository.rows
      requires ValidDraws(draws)
      modifies gameRepository, playerRepository
      ensures Valid()
      ensures r.Ok? <==> name.Some? && CodeFree(old(gameRepository.rows), newGameId, Some(CodeFor(draws)))
      ensures r.Err? ==>
        && r.error == StorageError
        && gameRepository.rows == old(gameRepository.rows) && gameRepository.order == old(gameRepository.order)
        && playerRepository.rows == old(playerRepository.rows)
      ensures r.Ok? ==> fresh(r.value)
      ensures r.Ok? ==>
        var g := r.value.Row();
        && g.gameId == newGameId && g.status == WaitingForPlayer && g.createdAt == now
        && g.player1Id == Some(newPlayerId)
        && g.player2Id.None? && g.currentTurn.None? && g.winnerId.None?
        && g.gameCode == Some(CodeFor(draws))
        && gameRepository.rows == old(gameRepository.rows)[newGameId := g]
        && gameRepository.order == old(gameRepository.order) + [newGameId]
        && playerRepository.rows ==
             old(playerRepository.rows)[newPlayerId := PlayerRow(newPlayerId, name.value, Some(newGameId), true)]
        && GetGame(CodeFor(draws)) == Ok(g)
      ensures StatusesAdvance(old(gameRepository.rows), gameRepository.rows)
      ensures PlayersKept(old(playerRepository.rows), playerRepository.rows)
    {
      var game := new Game(newGameId, WaitingForPlayer, now);
      var playersAtStart := playerRepository.rows;
      var player1, created := CreatePlayer(name, game.gameId, newPlayerId);
      if !created {
        return Err(StorageError);
      }
      game.player1Id := player1.id;
      var code := GenerateGameCode(draws);
      game.gameCode := Some(code);
      ghost var row := game.Row();
      var saved := gameRepository.Save(game);
      if !saved {
        playerRepository.Restore(playersAtStart);
        return Err(StorageError);
      }
      assert Consistent(row);
      CreateKeepsStore(old(gameRepository.rows), old(playerRepository.rows), row, name.value);
      assert gameRepository.rows[newGameId] == row && row.gameCode == Some(CodeFor(draws));
      r := Ok(game);
    }

    /** `joinGame`, whose first argument is the join code: looks the game up
        by code, attaches a new player 2 whose back-reference is that code,
        starts the game and gives player 1 the first turn. */
    method JoinGame(code: string, name: Option<string>, newPlayerId: string)
      returns (r: Result<Game, Error>)
      requires Valid()
      requires newPlayerId !in playerRepository.rows
      modifies gameRepository, playerRepository
      ensures Valid()
      ensures match old(GetGame(code))
        case Err(_) =>
          r == Err(NotFound) && unchanged(gameRepository, playerRepository)
        case Ok(before) =>
          if before.status != WaitingForPlayer then
            r == Err(NotJoinable) && unchanged(gameRepository, playerRepository)
          else if name.None? then
            r == Err(StorageError) && unchanged(gameRepository, playerRepository)
          else
            && r.Ok? && fresh(r.value)
            && r.value.Row() == Joined(before, newPlayerId)
            && gameRepository.rows == old(gameRepository.rows)[before.gameId := r.value.Row()]
            && gameRepository.order == old(gameRepository.order)
            && playerRepository.rows ==
                 old(playerRepository.rows)[newPlayerId := PlayerRow(newPlayerId, name.value, Some(code), true)]
            && GetGame(code) == Ok(r.value.Row())
      ensures StatusesAdvance(old(gameRepository.rows), gameRepository.rows)
      ensures PlayersKept(old(playerRepository.rows), playerRepository.rows)
    {
      var found := GetGame(code);
      if found.Err? {
        return Err(NotFound);
      }
      var game := new Game.Load(found.value);
      if game.status != WaitingForPlayer {
        return Err(NotJoinable);
      }
      var player2, created := CreatePlayer(name, code, newPlayerId);
      if !created {
        return Err(StorageError);
      }
      game.player2Id := player2.id;
      game.status := InProgress;
      game.currentTurn := game.player1Id;
      ghost var id := found.value.gameId;
      assert game.Row() == Joined(found.value, newPlayerId);
      assert id in gameRepository.rows && gameRepository.rows[id] == found.value;
      // Same key and same code as the stored row, so the save cannot fail.
      OwnCodeIsFree(gameRepository.rows, id);
      var saved := gameRepository.Save(game);
      JoinKeepsStore(old(gameRepository.rows), old(playerRepository.rows), found.value, code, newPlayerId, name.value);
      assert gameRepository.rows[id].gameCode == Some(code);
      r := Ok(game);
    }

    /** `leaveGame`, by internal id: a waiting game is deleted and returned
        as it was; in a game in progress the other player wins and the game
        is completed; a completed game is saved unchanged. */
    method LeaveGame(gameId: string, playerId: string) returns (r: Result<Game, Error>)
      requires Valid()
      modifies gameRepository
      ensures Valid()
      ensures gameId !in old(gameRepository.rows) ==> r == Err(NotFound) && unchanged(gameRepository)
      ensures gameId in old(gameRepository.rows) ==> r.Ok? && fresh(r.value)
      ensures gameId in old(gameRepository.rows) && old(gameRepository.rows[gameId]).status == WaitingForPlayer ==>
        var before := old(gameRepository.rows[gameId]);
        && r.Ok? && r.value.Row() == before
        && gameRepository.rows == old(gameRepository.rows) - {gameId}
        && gameRepository.order == Erase(old(gameRepository.order), gameId)
        && gameRepository.FindById(gameId).None?
        && GetGame(before.gameCode.value).Err?
      ensures gameId in old(gameRepository.rows) && old(gameRepository.rows[gameId]).status == InProgress ==>
        var before := old(gameRepository.rows[gameId]);
        && r.Ok? && r.value.Row() == Abandoned(before, playerId)
        && gameRepository.rows == old(gameRepository.rows)[gameId := r.value.Row()]
        && gameRepository.order == old(gameRepository.order)
      ensures gameId in old(gameRepository.rows) && old(gameRepository.rows[gameId]).status == Completed ==>
        && r.Ok? && r.value.Row() == old(gameRepository.rows[gameId])
        && gameRepository.rows == old(gameRepository.rows) && gameRepository.order == old(gameRepository.order)
      ensures StatusesAdvance(old(gameRepository.rows), gameRepository.rows)
    {
      var found := gameRepository.FindById(gameId);
      if found.None? {
        return Err(NotFound);
      }
      var game := new Game.Load(found.value);
      ghost var before := found.value;
      assert gameId in gameRepository.rows && gameRepository.rows[gameId] == before;
      if game.status == WaitingForPlayer {
        gameRepository.Delete(game);
        RemoveKeepsStore(old(gameRepository.rows), playerRepository.rows, gameId);
        return Ok(game);
      }
      if game.status == InProgress {
        // Both ids are set in a game in progress, so neither comparison
        // dereferences null.
        if game.player1Id.value == playerId {
          game.winnerId := game.player2Id;
        } else if game.player2Id.value == playerId {
          game.winnerId := game.player1Id;
        }
        game.status := Completed;
        assert game.Row() == Abandoned(before, playerId);
      }
      OwnCodeIsFree(gameRepository.rows, gameId);
      var saved := gameRepository.Save(game);
      LeaveKeepsStore(old(gameRepository.rows), playerRepository.rows, before, playerId, game.Row());
      r := Ok(game);
    }
  }

  /** The stream filter of `getAvailableGames`: the waiting games of a
      listing, in listing order. */
  function Waiting(s: seq<GameRow>): (r: seq<GameRow>)
    ensures forall g :: g in r <==> g in s && g.status == WaitingForPlayer
    ensures DistinctIds(s) ==> DistinctIds(r)
  {
    if s == [] then []
    else
      var rest := Waiting(s[1..]);
      assert DistinctIds(s) ==> DistinctIds(s[1..]) && forall g :: g in s[1..] ==> g.gameId != s[0].gameId;
      if s[0].status == WaitingForPlayer then [s[0]] + rest else rest
  }

  /** Filtering a concatenation filters each part: the filter keeps the
      listing's order. */
  lemma {:induction false} WaitingDistributes(s: seq<GameRow>, t: seq<GameRow>)
    ensures Waiting(s + t) == Waiting(s) + Waiting(t)
  {
    if s == [] {
      assert s + t == t;
    } else {
      assert (s + t)[1..] == s[1..] + t;
      WaitingDistributes(s[1..], t);
    }
  }

  /** For an id not yet stored, creating a game with `code` gets past the
      unique constraint exactly when looking that code up finds nothing. */
  lemma CodeFreeMeansNotFound(service: GameService, newGameId: string, code: string)
    requires service.gameRepository.Valid()
    requires newGameId !in service.gameRepository.rows
    ensures CodeFree(service.gameRepository.rows, newGameId, Some(code)) <==> service.GetGame(code).Err?
  {
  }

  /** A game is listed as available exactly when joining with its code gets
      past both checks: the code is found and the game is waiting. */
  lemma AvailableMeansJoinable(service: GameService, code: string)
    requires service.gameRepository.Valid()
    ensures (exists g :: g in service.GetAvailableGames() && g.gameCode == Some(code)) <==>
      service.GetGame(code).Ok? && service.GetGame(code).value.status == WaitingForPlayer
  {
    var rows := service.gameRepository.rows;
    if g :| g in service.GetAvailableGames() && g.gameCode == Some(code) {
      var id :| id in rows && rows[id] == g;
      assert service.GetGame(code) == Ok(g);
    }
    if service.GetGame(code).Ok? && service.GetGame(code).value.status == WaitingForPlayer {
      assert service.GetGame(code).value in service.GetAvailableGames();
    }
  }
}
