/** The `games` table: the row that is stored and the mutable entity the
    service edits before saving it. */
module GameEntity {
  import opened Wrappers

  /** The lifecycle status, stored by constant name. */
  datatype GameStatus = WaitingForPlayer | InProgress | Completed

  /** A `LocalDateTime`, treated as an opaque instant supplied by the caller. */
  type Timestamp = int

  /** One stored game. `gameId` is the primary key; the `Option` columns are
      the ones the table lets be null. */
  datatype GameRow = GameRow(
    gameId: string,
    player1Id: Option<string>,
    player2Id: Option<string>,
    status: GameStatus,
    currentTurn: Option<string>,
    winnerId: Option<string>,
    createdAt: Timestamp,
    gameCode: Option<string>)

  /** The entity object. The service sets its fields one at a time and then
      hands it to the repository, which stores a copy of `Row()`. */
  class Game {
    var gameId: string
    var player1Id: Option<string>
    var player2Id: Option<string>
    var status: GameStatus
    var currentTurn: Option<string>
    var winnerId: Option<string>
    var createdAt: Timestamp
    var gameCode: Option<string>

    /** The entity's current field values as a row. */
    function Row(): GameRow
      reads this
    {
      GameRow(gameId, player1Id, player2Id, status, currentTurn, winnerId, createdAt, gameCode)
    }

    /** A new entity with its id, status and creation time set and every
        other column still null. */
    constructor (gameId: string, status: GameStatus, createdAt: Timestamp)
      ensures Row() == GameRow(gameId, None, None, status, None, None, createdAt, None)
    {
      this.gameId := gameId;
      this.status := status;
      this.createdAt := createdAt;
      player1Id, player2Id, currentTurn, winnerId, gameCode := None, None, None, None, None;
    }

    /** The entity the persistence layer builds when it loads a stored row. */
    constructor Load(row: GameRow)
      ensures Row() == row
    {
      gameId, player1Id, player2Id, status := row.gameId, row.player1Id, row.player2Id, row.status;
      currentTurn, winnerId, createdAt, gameCode := row.currentTurn, row.winnerId, row.createdAt, row.gameCode;
    }
  }
}
