/** Clients of the service, checked through the operations' contracts alone. */
module Scenario {
  import opened Wrappers
  import opened GameEntity
  import opened Repositories
  import opened GameCode
  import opened Service

  /** Alice creates a game and Bob joins it with its code: the game starts
      with Bob as player 2 and Alice on turn. */
  method CreateThenJoin() {
    var games := new GameRepository();
    var players := new PlayerRepository();
    var service := new GameService(games, players);
    var created := service.CreateGame(Some("Alice"), "game-1", 100, [0, 1, 29, 25], "alice");
    assert created.Ok?;
    var code := created.value.gameCode.value;
    assert "bob" !in players.rows;
    var joined := service.JoinGame(code, Some("Bob"), "bob");
    assert joined.Ok?;
    var started := joined.value.Row();
    assert started.gameId == "game-1" && started.status == InProgress;
    assert started.player1Id == Some("alice") && started.player2Id == Some("bob");
    assert started.currentTurn == Some("alice");
  }

  /** Alice creates a game and leaves before anyone joins: the game is gone,
      so its code is no longer found. */
  method CreateThenLeave() {
    var games := new GameRepository();
    var players := new PlayerRepository();
    var service := new GameService(games, players);
    var created := service.CreateGame(Some("Alice"), "game-1", 100, [0, 1, 29, 25], "alice");
    assert created.Ok?;
    var code := created.value.gameCode.value;
    var left := service.LeaveGame("game-1", "alice");
    assert left.Ok? && left.value.Row().status == WaitingForPlayer;
    assert service.GetGame(code).Err?;
  }
}
