/** The session lifecycle: which columns each status implies, which player
    records a stored game refers to, and which status changes are allowed.
    The service keeps these for every stored game. */
module Lifecycle {
  import opened Wrappers
  import opened GameEntity
  import opened PlayerEntity
  import opened GameCode
  import opened Repositories

  /** Allowed status changes, counting "no change": the lifecycle only moves
      forward. */
  predicate Step(from: GameStatus, to: GameStatus) {
    || from == to
    || (from == WaitingForPlayer && to == InProgress)
    || (from == InProgress && to == Completed)
  }

  /** Position of a status in the lifecycle. */
  function Rank(s: GameStatus): nat {
    match s
    case WaitingForPlayer => 0
    case InProgress => 1
    case Completed => 2
  }

  /** A step never lowers the rank, a step both ways is no step at all, and a
      status is entered only from its predecessor. */
  lemma StepIsForwardOnly(a: GameStatus, b: GameStatus)
    ensures Step(a, b) ==> Rank(a) <= Rank(b)
    ensures Step(a, b) && Step(b, a) ==> a == b
    ensures Step(a, b) && a != b && b == InProgress ==> a == WaitingForPlayer
    ensures Step(a, b) && a != b && b == Completed ==> a == InProgress
    ensures !Step(a, WaitingForPlayer) <==> a != WaitingForPlayer
  {
  }

  /** Every game present both before and after an operation has taken an
      allowed step. */
  ghost predicate StatusesAdvance(before: map<string, GameRow>, after: map<string, GameRow>) {
    forall id :: id in before && id in after ==> Step(before[id].status, after[id].status)
  }

  /** Player records are never deleted or changed. */
  ghost predicate PlayersKept(before: map<string, PlayerRow>, after: map<string, PlayerRow>) {
    forall id :: id in before ==> id in after && after[id] == before[id]
  }

  /** The columns each status implies. A waiting game has no second player,
      no turn and no winner; a started game has a second player, player 1 on
      turn and no winner; a completed game keeps those and has either no
      winner or one of its two players. */
  predicate Consistent(g: GameRow) {
    && g.player1Id.Some?
    && g.gameCode.Some? && IsGameCode(g.gameCode.value)
    && g.player2Id != g.player1Id
    && match g.status
       case WaitingForPlayer =>
         g.player2Id.None? && g.currentTurn.None? && g.winnerId.None?
       case InProgress =>
         g.player2Id.Some? && g.currentTurn == g.player1Id && g.winnerId.None?
       case Completed =>
         && g.player2Id.Some? && g.currentTurn == g.player1Id
         && (g.winnerId.None? || g.winnerId == g.player1Id || g.winnerId == g.player2Id)
  }

  /** The game's players are stored. Player 1's back-reference is the
      game's internal id, player 2's is the join code it joined with. */
  predicate Referenced(g: GameRow, players: map<string, PlayerRow>) {
    && g.player1Id.Some?
    && g.player1Id.value in players
    && players[g.player1Id.value].gameId == Some(g.gameId)
    && (g.player2Id.Some? ==>
          g.player2Id.value in players && players[g.player2Id.value].gameId == g.gameCode)
  }

  /** The invariant the service keeps over the whole store. */
  ghost predicate StoreInvariant(games: map<string, GameRow>, players: map<string, PlayerRow>) {
    forall id :: id in games ==> Consistent(games[id]) && Referenced(games[id], players)
  }

  /** Adding players keeps every game's references valid. */
  lemma {:induction false} ReferencedGrows(games: map<string, GameRow>, before: map<string, PlayerRow>, after: map<string, PlayerRow>)
    requires StoreInvariant(games, before)
    requires PlayersKept(before, after)
    ensures StoreInvariant(games, after)
  {
    forall id | id in games
      ensures Referenced(games[id], after)
    {
      assert Referenced(games[id], before);
    }
  }

  /** Writing one consistent, referenced game keeps the store invariant. */
  lemma PutKeepsInvariant(games: map<string, GameRow>, players: map<string, PlayerRow>, g: GameRow)
    requires StoreInvariant(games, players)
    requires Consistent(g) && Referenced(g, players)
    ensures StoreInvariant(games[g.gameId := g], players)
  {
  }

  /** Deleting a stored game keeps the store invariant, is an allowed step
      for the games that remain, and leaves no game with its code. */
  lemma {:induction false} RemoveKeepsStore(games: map<string, GameRow>, players: map<string, PlayerRow>, id: string)
    requires StoreInvariant(games, players) && CodesUnique(games) && id in games
    ensures StoreInvariant(games - {id}, players)
    ensures StatusesAdvance(games, games - {id})
    ensures forall k :: k in games - {id} ==> (games - {id})[k].gameCode != games[id].gameCode
  {
    assert Consistent(games[id]);
  }

  /** Writing a game whose status took an allowed step, and leaving the
      others alone, is an allowed step for the whole store. */
  lemma PutAdvances(games: map<string, GameRow>, g: GameRow)
    requires g.gameId in games ==> Step(games[g.gameId].status, g.status)
    ensures StatusesAdvance(games, games[g.gameId := g])
  {
  }

  /** The winner when `leaver` abandons a game in progress: the other
      player, or nobody when `leaver` is neither. */
  function Opponent(g: GameRow, leaver: string): (r: Option<string>)
    ensures r.Some? ==> r == g.player1Id || r == g.player2Id
    ensures g.player1Id != Some(leaver) && g.player2Id != Some(leaver) ==> r.None?
  {
    if g.player1Id == Some(leaver) then g.player2Id
    else if g.player2Id == Some(leaver) then g.player1Id
    else None
  }

  /** On a consistent started game the winner by abandonment is exactly the
      player who did not leave, never the leaver, and none for a stranger. */
  lemma {:induction false} OpponentIsTheOtherPlayer(g: GameRow, leaver: string)
    requires Consistent(g) && g.status == InProgress
    ensures Some(leaver) == g.player1Id ==> Opponent(g, leaver) == g.player2Id
    ensures Some(leaver) == g.player2Id ==> Opponent(g, leaver) == g.player1Id
    ensures Some(leaver) != g.player1Id && Some(leaver) != g.player2Id ==> Opponent(g, leaver).None?
    ensures Opponent(g, leaver) != Some(leaver)
    ensures Opponent(g, leaver).Some? <==> Some(leaver) == g.player1Id || Some(leaver) == g.player2Id
  {
  }

  /** Joining a consistent waiting game with a new, different player id
      gives a consistent started game and is an allowed step. */
  lemma JoinKeepsConsistent(g: GameRow, player2Id: string)
    requires Consistent(g) && g.status == WaitingForPlayer
    requires Some(player2Id) != g.player1Id
    ensures Consistent(g.(player2Id := Some(player2Id), status := InProgress, currentTurn := g.player1Id))
    ensures Step(g.status, InProgress)
  {
  }

  /** The stored game after a second player joins: that player is set, the
      game starts and player 1 has the first turn. */
  function Joined(g: GameRow, player2Id: string): (r: GameRow)
    ensures r.player2Id == Some(player2Id) && r.status == InProgress && r.currentTurn == g.player1Id
    ensures r.gameId == g.gameId && r.gameCode == g.gameCode && r.player1Id == g.player1Id
    ensures r.winnerId == g.winnerId && r.createdAt == g.createdAt
  {
    g.(player2Id := Some(player2Id), status := InProgress, currentTurn := g.player1Id)
  }

  /** The stored game after `leaver` abandons it while it is in progress. */
  function Abandoned(g: GameRow, leaver: string): (r: GameRow)
    ensures r.status == Completed && r.winnerId == Opponent(g, leaver)
    ensures r.gameId == g.gameId && r.gameCode == g.gameCode && r.createdAt == g.createdAt
    ensures r.player1Id == g.player1Id && r.player2Id == g.player2Id && r.currentTurn == g.currentTurn
  {
    g.(winnerId := Opponent(g, leaver), status := Completed)
  }

  /** A join on the whole store: writing the started game and adding the new
      player, whose back-reference is the join code, keeps the store
      invariant, is an allowed step and keeps every existing player. */
  lemma {:induction false} JoinKeepsStore(games: map<string, GameRow>, players: map<string, PlayerRow>,
                                           g: GameRow, code: string, player2Id: string, name: string)
    requires StoreInvariant(games, players)
    requires g.gameId in games && games[g.gameId] == g
    requires g.status == WaitingForPlayer && g.gameCode == Some(code)
    requires player2Id !in players
    ensures var players' := players[player2Id := PlayerRow(player2Id, name, Some(code), true)];
      && StoreInvariant(games[g.gameId := Joined(g, player2Id)], players')
      && StatusesAdvance(games, games[g.gameId := Joined(g, player2Id)])
      && PlayersKept(players, players')
  {
    var players' := players[player2Id := PlayerRow(player2Id, name, Some(code), true)];
    assert Consistent(g) && Referenced(g, players);
    JoinKeepsConsistent(g, player2Id);
    ReferencedGrows(games, players, players');
    assert Referenced(Joined(g, player2Id), players');
    PutKeepsInvariant(games, players', Joined(g, player2Id));
    PutAdvances(games, Joined(g, player2Id));
  }

  /** A creation on the whole store: writing a new waiting game whose first
      player is the newly added player, with the game's id as back-reference,
      keeps the store invariant, is an allowed step and keeps every existing
      player. */
  lemma {:induction false} CreateKeepsStore(games: map<string, GameRow>, players: map<string, PlayerRow>,
                                             g: GameRow, name: string)
    requires StoreInvariant(games, players)
    requires g.gameId !in games
    requires Consistent(g) && g.status == WaitingForPlayer && g.player1Id.value !in players
    ensures var players' := players[g.player1Id.value := PlayerRow(g.player1Id.value, name, Some(g.gameId), true)];
      && StoreInvariant(games[g.gameId := g], players')
      && StatusesAdvance(games, games[g.gameId := g])
      && PlayersKept(players, players')
  {
    var players' := players[g.player1Id.value := PlayerRow(g.player1Id.value, name, Some(g.gameId), true)];
    ReferencedGrows(games, players, players');
    assert Referenced(g, players');
    PutKeepsInvariant(games, players', g);
    PutAdvances(games, g);
  }

  /** Leaving a started or completed game on the whole store: writing it back
      abandoned, or unchanged once completed, keeps the store invariant and
      is an allowed step; a completed game leaves the store as it was. */
  lemma {:induction false} LeaveKeepsStore(games: map<string, GameRow>, players: map<string, PlayerRow>,
                                            g: GameRow, leaver: string, after: GameRow)
    requires StoreInvariant(games, players)
    requires g.gameId in games && games[g.gameId] == g && g.status != WaitingForPlayer
    requires after == if g.status == InProgress then Abandoned(g, leaver) else g
    ensures StoreInvariant(games[g.gameId := after], players)
    ensures StatusesAdvance(games, games[g.gameId := after])
    ensures g.status == Completed ==> games[g.gameId := after] == games
  {
    assert Consistent(g) && Referenced(g, players);
    if g.status == InProgress {
      AbandonKeepsConsistent(g, leaver);
    }
    PutKeepsInvariant(games, players, after);
    PutAdvances(games, after);
  }

  /** Abandoning a consistent started game gives a consistent completed game
      and is an allowed step. */
  lemma AbandonKeepsConsistent(g: GameRow, leaver: string)
    requires Consistent(g) && g.status == InProgress
    ensures Consistent(g.(winnerId := Opponent(g, leaver), status := Completed))
    ensures Step(g.status, Completed)
  {
  }
}
