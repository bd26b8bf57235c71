# Battleship lobby: game-session lifecycle

This project models the session-lifecycle service of a two-player battleship
backend and proves properties of it in Dafny. A game is created waiting for
a second player and gets a 4-symbol join code. A second player joins it with
that code, which starts the game and gives player 1 the first turn. When a
player leaves, a waiting game is deleted, and a game in progress is completed
with the other player as winner.

Layout, one module per source file or component:

- `wrappers.dfy` (`Wrappers`): `Option` for nullable values, `Result` for calls that throw.
- `game.dfy` (`GameEntity`): `GameStatus`, the stored `GameRow`, and the mutable `Game` entity.
- `player.dfy` (`PlayerEntity`): the stored `PlayerRow` and the mutable `Player` entity.
- `repositories.dfy` (`Repositories`): map-backed stand-ins for the two repository interfaces.
  The games table is keyed by `gameId` and also keeps its scan order, so `findAll` is a list.
  Each table enforces its own column constraints: primary key, NOT NULL `player1Id` and `name`, unique `gameCode`.
- `game_code.dfy` (`GameCode`): the alphabet, `generateGameCode`, and an inverse of it.
- `lifecycle.dfy` (`Lifecycle`): the store invariant (which columns each status implies, player
  back-references) and the forward-only status order.
- `game_response.dfy` (`GameResponseDto`): the projection of a game to the response body.
- `game_service.dfy` (`Service`): the `GameService` class, its queries, and lemmas relating them.
- `scenario.dfy` (`Scenario`): two client methods that walk through a lobby using only the contracts.

How the source's behaviour is represented:

- The service updates `Game` and `Player` objects field by field, as the source does with its setters.
  A repository `Save` stores a copy of the object's `Row()`.
  Loading a game builds a fresh entity from the stored row (`Game.Load`).
- Ids from `UUID.randomUUID()` and from the player id generator are parameters, and the caller must pass unused ones.
  The clock (`now`) is a parameter.
  The four results of `Random.nextInt(36)` are a parameter `draws`.
- `createGame` does not check the drawn code against the codes in use and does not retry.
  When the code collides, the games table's unique constraint makes the save fail.
  The call then returns `StorageError` and, because the method is transactional, the player insert is rolled back.
- The first argument of `joinGame` is the join code. So player 2's `gameId` back-reference is the code,
  while player 1's is the internal id. `Lifecycle.Referenced` states exactly that.
- `leaveGame` rejects nobody. A waiting game is deleted whoever leaves. Leaving a game in progress with
  an id that is neither player completes the game with no winner. Leaving a completed game saves it unchanged.
- `getGame` and the private helpers `createPlayer` and `generateGameCode` are members of their own.
- The player name may be null (`Option`). A null name violates the NOT NULL column, so the call fails
  with `StorageError` and nothing changes.

## Model

| member | source | states |
|---|---|---|
| `GameEntity.Game.constructor` | backend/src/main/java/com/battleship/game/service/GameService.java:26-29 | a new entity has its id, status and creation time set and every other column null |
| `GameEntity.Game.Load` | backend/src/main/java/com/battleship/game/model/entity/Game.java:15-38 | a loaded entity carries exactly the stored row's columns |
| `PlayerEntity.Player.constructor` | backend/src/main/java/com/battleship/game/model/entity/Player.java:26 | a new player has no id and null columns, and `isReady` is false |
| `Repositories.FirstWithCode` | backend/src/main/java/com/battleship/game/repository/GameRepository.java:11 | a search by code returns a listed game with that code, or nothing when no listed game has it |
| `Repositories.FirstWithUniqueCode` | backend/src/main/java/com/battleship/game/repository/GameRepository.java:11 | in a listing of exactly the stored games, a search for a code in use returns the one stored game that holds it |
| `Repositories.GameRepository.FindAll` | backend/src/main/java/com/battleship/game/service/GameService.java:84 | the listing holds exactly the stored games, none twice |
| `Repositories.GameRepository.FindById` | backend/src/main/java/com/battleship/game/service/GameService.java:91-92 | a game is found by id exactly when a row is stored under that id, and it is that row |
| `Repositories.GameRepository.FindByGameCode` | backend/src/main/java/com/battleship/game/repository/GameRepository.java:11 | with codes unique, the result is the one stored game with that code, or none when no game has it |
| `Repositories.PutKeepsCodesUnique` | backend/src/main/java/com/battleship/game/service/GameService.java:38 | writing a game whose code no other game holds keeps codes unique across the table |
| `Repositories.GameRepository.Save` | backend/src/main/java/com/battleship/game/model/entity/Game.java:16-38 | upsert by primary key; it fails and changes nothing when `player1Id` is null or another game holds the same code; the table's constraints are kept |
| `Repositories.GameRepository.Delete` | backend/src/main/java/com/battleship/game/service/GameService.java:96 | the row with the entity's id is gone and every other row is kept |
| `Repositories.PlayerRepository.Save` | backend/src/main/java/com/battleship/game/model/entity/Player.java:15-26 | a player without an id gets the unused generated id and its row is written; a null name is refused and nothing is written |
| `Repositories.PlayerRepository.Restore` | backend/src/main/java/com/battleship/game/service/GameService.java:23 | a rolled-back transaction leaves the players table as it was when the transaction began |
| `GameCode.CodeFor` | backend/src/main/java/com/battleship/game/service/GameService.java:74-79 | the code selected by four draws has length 4 and only alphabet symbols |
| `GameCode.GenerateGameCode` | backend/src/main/java/com/battleship/game/service/GameService.java:73-81 | the loop builds exactly the code the draws select, a well-formed 4-symbol code |
| `GameCode.EveryCodeCanBeDrawn` | backend/src/main/java/com/battleship/game/service/GameService.java:77-78 | every well-formed code is produced by some draws, so the whole code space is reachable |
| `GameCode.CodeForIsInjective` | backend/src/main/java/com/battleship/game/service/GameService.java:74-78 | different draws give different codes |
| `GameCode.AlphabetDistinct` | backend/src/main/java/com/battleship/game/service/GameService.java:74 | the 36 symbols are pairwise different |
| `Lifecycle.StepIsForwardOnly` | backend/src/main/java/com/battleship/game/model/entity/Game.java:25-26 | status never moves back; in progress is entered only from waiting, completed only from in progress, and nothing re-enters waiting |
| `Lifecycle.ReferencedGrows` | backend/src/main/java/com/battleship/game/service/GameService.java:65-71 | since player records are only ever added, the games' references to them stay valid |
| `Lifecycle.Opponent` | backend/src/main/java/com/battleship/game/service/GameService.java:103-107 | the winner chosen is always one of the game's two players, and nobody when the leaver is neither |
| `Lifecycle.Joined` | backend/src/main/java/com/battleship/game/service/GameService.java:51-53 | the joined game has the new player 2, is in progress with player 1 on turn, and keeps id, code, player 1, winner and creation time |
| `Lifecycle.Abandoned` | backend/src/main/java/com/battleship/game/service/GameService.java:103-108 | the abandoned game is completed with the opponent as winner and keeps every other column |
| `Lifecycle.CreateKeepsStore` | backend/src/main/java/com/battleship/game/service/GameService.java:24-38 | writing a new consistent waiting game together with its newly saved player 1 keeps the store invariant, is an allowed status step and keeps every existing player |
| `Lifecycle.JoinKeepsStore` | backend/src/main/java/com/battleship/game/service/GameService.java:42-57 | writing the started game together with the new player 2, whose back-reference is the join code, keeps the store invariant, is an allowed status step and keeps every existing player |
| `Lifecycle.RemoveKeepsStore` | backend/src/main/java/com/battleship/game/service/GameService.java:95-97 | deleting a stored game keeps the store invariant for the remaining games and leaves no game holding its code |
| `Lifecycle.LeaveKeepsStore` | backend/src/main/java/com/battleship/game/service/GameService.java:100-111 | writing back a game in progress as abandoned, or a completed game unchanged, keeps the store invariant and is an allowed status step; the completed case leaves the store as it was |
| `Lifecycle.OpponentIsTheOtherPlayer` | backend/src/main/java/com/battleship/game/service/GameService.java:103-107 | the winner by abandonment is player 2 when player 1 leaves, player 1 when player 2 leaves, nobody for any other id, and never the leaver |
| `Lifecycle.JoinKeepsConsistent` | backend/src/main/java/com/battleship/game/service/GameService.java:51-53 | joining a consistent waiting game gives a consistent started game with player 1 on turn |
| `Lifecycle.AbandonKeepsConsistent` | backend/src/main/java/com/battleship/game/service/GameService.java:101-109 | abandoning a consistent started game gives a consistent completed game |
| `GameResponseDto.StatusNameRoundTrip` | backend/src/main/java/com/battleship/game/model/DTO/GameResponse.java:23 | each status's name string parses back to that status |
| `GameResponseDto.StatusName` | backend/src/main/java/com/battleship/game/model/DTO/GameResponse.java:23 | the status string is one of the three enum constant names |
| `GameResponseDto.From` | backend/src/main/java/com/battleship/game/model/DTO/GameResponse.java:19-27 | the response has the game's id, code and player ids, a status string naming its status, and no error |
| `GameResponseDto.FromShowsExactlyTheSessionColumns` | backend/src/main/java/com/battleship/game/model/DTO/GameResponse.java:12-17 | two games get equal responses exactly when they agree on id, code, status and both player ids, so turn, winner and creation time are never exposed |
| `Service.GameService.constructor` | backend/src/main/java/com/battleship/game/service/GameService.java:18-21 | the service works over the two given repositories |
| `Service.GameService.GetGame` | backend/src/main/java/com/battleship/game/service/GameService.java:60-63 | a known code yields the one stored game with that code; an unknown code yields not-found |
| `Service.GameService.GetAvailableGames` | backend/src/main/java/com/battleship/game/service/GameService.java:83-87 | the result holds exactly the stored games whose status is waiting, none twice |
| `Service.GameService.GetAllGames` | backend/src/main/java/com/battleship/game/service/GameService.java:114-116 | the result holds exactly the stored games, none twice |
| `Service.GameService.CreatePlayer` | backend/src/main/java/com/battleship/game/service/GameService.java:65-71 | saves a ready player with the given name and back-reference under the generated id, or fails on a null name and writes nothing |
| `Service.GameService.CreateGame` | backend/src/main/java/com/battleship/game/service/GameService.java:24-38 | stores a waiting game under the fresh id with player 1 set, player 2, turn and winner null, and the drawn code. Its player 1 is saved with the game's id as back-reference. It is then found by its code. It fails with a storage error, changing nothing, when the name is null or the code is already in use. Invariant kept; statuses only advance; players kept |
| `Service.GameService.JoinGame` | backend/src/main/java/com/battleship/game/service/GameService.java:42-57 | an unknown code gives not-found and a game not waiting gives not-joinable, each changing nothing. On success player 2 is the new player, status is in progress and player 1 has the turn. Id, code, player 1 and creation time are unchanged. The new player's back-reference is the code. Invariant kept; statuses only advance |
| `Service.GameService.LeaveGame` | backend/src/main/java/com/battleship/game/service/GameService.java:90-111 | an unknown id gives not-found. A waiting game is deleted and returned as it was, and later lookups by id and code miss. A game in progress is completed with the other player (or nobody) as winner. A completed game is saved unchanged. Invariant kept; statuses only advance |
| `Service.Waiting` | backend/src/main/java/com/battleship/game/service/GameService.java:85 | the filter keeps exactly the waiting games of a listing and adds no duplicates |
| `Service.WaitingDistributes` | backend/src/main/java/com/battleship/game/service/GameService.java:84-86 | filtering a concatenation filters each part, so the listing's order is kept |
| `Service.CodeFreeMeansNotFound` | backend/src/main/java/com/battleship/game/service/GameService.java:36-38 | for an id not yet stored, a code passes the unique constraint exactly when looking it up by code gives not-found |
| `Service.AvailableMeansJoinable` | backend/src/main/java/com/battleship/game/service/GameService.java:83-87 | a code belongs to a listed available game exactly when a join with it finds a waiting game |

## Left out

- HTTP routing, CORS and the controller's mapping of errors to responses are not modelled. The controller handles errors per endpoint. `joinGame` maps `IllegalArgumentException` (here `NotFound`) to 404 and any other exception to 400 with the message in `error`. `getGame` and `leaveGame` catch only `IllegalArgumentException`, which becomes 404. `createGame` maps every exception to 400.
- Concurrency and transaction isolation are not modelled; the operations run one after another. Of `@Transactional`, only the rollback of a failed `createGame` is modelled.
- Randomness, UUID generation and the clock are parameters with preconditions, not modelled.
- JPA entity identity and dirty checking are not modelled. The tables hold copies, and every change the service makes is followed by a save, so the stored state is the same.
- The order of `findAll` is taken to be insertion order; a real database leaves it unspecified.
- Null arguments other than the player name (code, game id, player id) are not modelled; those values are always present in the model.
- The game's `gameId`, `status` and `createdAt` are typed non-null here, because the service always sets them before the first save.
