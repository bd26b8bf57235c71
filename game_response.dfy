/** The response body the presentation layer receives for a game. */
module GameResponseDto {
  import opened Wrappers
  import opened GameEntity

  /** Six nullable string fields; nothing about turn, winner or creation time. */
  datatype GameResponse = GameResponse(
    gameId: Option<string>,
    gameCode: Option<string>,
    status: Option<string>,
    player1Id: Option<string>,
    player2Id: Option<string>,
    error: Option<string>)

  /** The name of an enum constant, which is what its `toString` gives. */
  function StatusName(s: GameStatus): (r: string)
    ensures r in ["WAITING_FOR_PLAYER", "IN_PROGRESS", "COMPLETED"]
    ensures |r| > 0
  {
    match s
    case WaitingForPlayer => "WAITING_FOR_PLAYER"
    case InProgress => "IN_PROGRESS"
    case Completed => "COMPLETED"
  }

  /** The constant with a given name, if there is one (`valueOf`). */
  function ParseStatus(name: string): Option<GameStatus> {
    if name == "WAITING_FOR_PLAYER" then Some(WaitingForPlayer)
    else if name == "IN_PROGRESS" then Some(InProgress)
    else if name == "COMPLETED" then Some(Completed)
    else None
  }

  /** Status names parse back to their constant, so distinct statuses have
      distinct names. */
  lemma StatusNameRoundTrip(s: GameStatus)
    ensures ParseStatus(StatusName(s)) == Some(s)
  {
  }

  /** `from`: the projection of a game to the response shape. */
  function From(g: GameRow): (r: GameResponse)
    ensures r.gameId == Some(g.gameId) && r.gameCode == g.gameCode
    ensures r.player1Id == g.player1Id && r.player2Id == g.player2Id
    ensures r.status.Some? && ParseStatus(r.status.value) == Some(g.status)
    ensures r.error.None?
  {
    StatusNameRoundTrip(g.status);
    GameResponse(Some(g.gameId), g.gameCode, Some(StatusName(g.status)), g.player1Id, g.player2Id, None)
  }

  /** Two games get the same response exactly when they agree on id, code,
      status and both player ids: turn, winner and creation time are not
      shown, and everything else is. */
  lemma {:induction false} FromShowsExactlyTheSessionColumns(g1: GameRow, g2: GameRow)
    ensures From(g1) == From(g2) <==>
      && g1.gameId == g2.gameId && g1.gameCode == g2.gameCode && g1.status == g2.status
      && g1.player1Id == g2.player1Id && g1.player2Id == g2.player2Id
  {
    if From(g1) == From(g2) {
      assert ParseStatus(From(g1).status.value) == ParseStatus(From(g2).status.value);
    }
  }
}
