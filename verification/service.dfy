/**
 * The game service (`SudokuServiceImpl`): matchmaking, turns and per-player
 * update queues. It keeps three maps — game id to match, player id to game id,
 * player id to a FIFO queue of updates — and a counter for player ids. Every
 * operation runs as one atomic step. Game ids stand for the source's random
 * UUIDs: fresh numbers handed out in increasing order. The service walks its
 * games in creation order, kept in `gameOrder`.
 */
module Service {
  import opened Wrappers
  import opened Board
  import opened Text
  import opened Updates
  import opened Game

  const GameStart := "GAME_START"
  const MoveMade := "MOVE_MADE"
  const PlayerDisconnected := "PLAYER_DISCONNECTED"
  const NoUpdate := "NO_UPDATE"
  const GameOverPrefix := "GAME_OVER:"

  /** Matches created by matchmaking are 9x9. */
  const NewGameSize := 9

  const NotInGame := "No est\U{e1}s en ning\U{fa}n juego"
  const NoSuchGame := "El juego no existe"
  const WaitingForPlayer := "Esperando a otro jugador..."
  const YourTurn := "Es tu turno"
  const OtherPlayersTurn := "\U{1F4C4}\U{1F522} Esperando al otro jugador..."
  const NoBoardError := "Error al obtener tablero"

  predicate StartsWith(s: string, prefix: string) {
    |prefix| <= |s| && s[..|prefix|] == prefix
  }

  /** The event type announcing that `playerId` completed the board. */
  function GameOverType(playerId: int): (t: string)
    ensures StartsWith(t, GameOverPrefix)
  {
    GameOverPrefix + IntToString(playerId)
  }

  /** The player a game-over message names: the text after the prefix, read as a number. */
  function Winner(message: string): Option<int> {
    if StartsWith(message, GameOverPrefix) then ParseInt(message[|GameOverPrefix|..]) else None
  }

  /** A game-over message names the player who made the last move. */
  lemma GameOverNamesWinner(playerId: int)
    ensures Winner(GameOverType(playerId)) == Some(playerId)
  {
    var t := GameOverType(playerId);
    assert t[|GameOverPrefix|..] == IntToString(playerId);
    ParseIntRoundTrip(playerId);
  }

  /**
   * The update `notifyAllPlayers` builds: a game-over event carries its own
   * type as the message, every other event carries the board.
   */
  function UpdateFor(kind: string, board: array2<int>): (u: GameUpdate)
    ensures u.kind == kind
  {
    if StartsWith(kind, GameOverPrefix) then CreateMessageUpdate(kind, kind) else CreateBoardUpdate(kind, board)
  }

  /** The start, move and disconnect events carry the board; a game-over event carries the winner. */
  lemma EventUpdates(board: array2<int>, playerId: int)
    ensures UpdateFor(GameStart, board) == CreateBoardUpdate(GameStart, board)
    ensures UpdateFor(MoveMade, board) == CreateBoardUpdate(MoveMade, board)
    ensures UpdateFor(PlayerDisconnected, board) == CreateBoardUpdate(PlayerDisconnected, board)
    ensures UpdateFor(GameOverType(playerId), board) == CreateMessageUpdate(GameOverType(playerId), GameOverType(playerId))
    ensures Winner(UpdateFor(GameOverType(playerId), board).message.value) == Some(playerId)
  {
    assert GameStart[5] != GameOverPrefix[5];
    assert |MoveMade| < |GameOverPrefix|;
    assert PlayerDisconnected[0] != GameOverPrefix[0];
    GameOverNamesWinner(playerId);
  }

  /**
   * Offering `u` to the queue of every recipient: each recipient's queue gets
   * `u` once, at its tail; every other queue stays as it was.
   */
  function Delivered(queues: map<int, seq<GameUpdate>>, recipients: set<int>, u: GameUpdate): (r: map<int, seq<GameUpdate>>)
    ensures r.Keys == queues.Keys
    ensures forall p :: p in r && p in recipients ==>
      |r[p]| == |queues[p]| + 1 && r[p][..|queues[p]|] == queues[p] && r[p][|queues[p]|] == u
    ensures forall p :: p in r && p !in recipients ==> r[p] == queues[p]
  {
    map p | p in queues :: if p in recipients then queues[p] + [u] else queues[p]
  }

  /** Offering to one more recipient extends the delivery by that recipient's queue alone. */
  lemma DeliveredStep(queues: map<int, seq<GameUpdate>>, done: set<int>, p: int, u: GameUpdate)
    requires p !in done
    ensures p in queues ==> Delivered(queues, done + {p}, u) == Delivered(queues, done, u)[p := queues[p] + [u]]
    ensures p !in queues ==> Delivered(queues, done + {p}, u) == Delivered(queues, done, u)
  {
    var before := Delivered(queues, done, u);
    var after := Delivered(queues, done + {p}, u);
    if p in queues {
      assert forall q :: q in after ==> after[q] == before[p := queues[p] + [u]][q];
    } else {
      assert forall q :: q in after ==> after[q] == before[q];
    }
  }

  /**
   * The queues after an accepted move: MOVE_MADE with the board to every
   * recipient, then, when the board is complete, GAME_OVER naming the mover.
   */
  function AfterMove(queues: map<int, seq<GameUpdate>>, recipients: set<int>, board: array2<int>, playerId: int, complete: bool)
    : (r: map<int, seq<GameUpdate>>)
    ensures r.Keys == queues.Keys
  {
    var moved := Delivered(queues, recipients, UpdateFor(MoveMade, board));
    if complete then Delivered(moved, recipients, UpdateFor(GameOverType(playerId), board)) else moved
  }

  /**
   * Each recipient's queue grows by the MOVE_MADE board update and, after a
   * completing move, by a GAME_OVER message naming the mover; no other queue
   * changes.
   */
  lemma MoveNotices(queues: map<int, seq<GameUpdate>>, recipients: set<int>, board: array2<int>, playerId: int, complete: bool)
    ensures forall p :: p in queues && p !in recipients ==> AfterMove(queues, recipients, board, playerId, complete)[p] == queues[p]
    ensures forall p :: p in queues && p in recipients && !complete ==>
      AfterMove(queues, recipients, board, playerId, complete)[p] == queues[p] + [CreateBoardUpdate(MoveMade, board)]
    ensures forall p :: p in queues && p in recipients && complete ==>
      AfterMove(queues, recipients, board, playerId, complete)[p] ==
      queues[p] + [CreateBoardUpdate(MoveMade, board), CreateMessageUpdate(GameOverType(playerId), GameOverType(playerId))]
    ensures Winner(CreateMessageUpdate(GameOverType(playerId), GameOverType(playerId)).message.value) == Some(playerId)
  {
    EventUpdates(board, playerId);
    var r := AfterMove(queues, recipients, board, playerId, complete);
    forall p | p in queues && p in recipients
      ensures r[p] == queues[p] + [CreateBoardUpdate(MoveMade, board)] +
        (if complete then [CreateMessageUpdate(GameOverType(playerId), GameOverType(playerId))] else [])
    {
      var moved := Delivered(queues, recipients, UpdateFor(MoveMade, board));
      assert moved[p] == queues[p] + [CreateBoardUpdate(MoveMade, board)];
    }
  }

  /** Each element is below the one after it. */
  ghost predicate Increasing(s: seq<nat>) {
    |s| < 2 || (s[0] < s[1] && Increasing(s[1..]))
  }

  /** In an increasing sequence the head is below everything after it. */
  lemma {:induction false} HeadBelowRest(s: seq<nat>)
    requires Increasing(s) && |s| > 0
    ensures forall y :: y in s[1..] ==> s[0] < y
  {
    if |s| >= 2 {
      HeadBelowRest(s[1..]);
      assert s[1..] == [s[1]] + s[1..][1..];
    }
  }

  /** Appending an element above all others keeps a sequence increasing. */
  lemma {:induction false} AppendAbove(s: seq<nat>, n: nat)
    requires Increasing(s) && forall y :: y in s ==> y < n
    ensures Increasing(s + [n])
  {
    if |s| >= 1 {
      var longer := s + [n];
      assert s[0] in s && longer[0] == s[0];
      forall y | y in s[1..]
        ensures y < n
      {
        var i :| 0 <= i < |s[1..]| && s[1..][i] == y;
        assert s[i + 1] in s;
      }
      AppendAbove(s[1..], n);
      assert longer[1..] == s[1..] + [n];
    }
  }

  /** The position of the first element of `order` in `chosen`, or `|order|` when there is none. */
  function FirstIndexIn(order: seq<nat>, chosen: set<nat>): (k: nat)
    ensures k <= |order|
    ensures k < |order| ==> order[k] in chosen
    ensures forall j :: 0 <= j < k ==> order[j] !in chosen
  {
    if order == [] then 0
    else if order[0] in chosen then 0
    else 1 + FirstIndexIn(order[1..], chosen)
  }

  /** `order` without `x`, the rest in the same order. */
  function Without(order: seq<nat>, x: nat): (r: seq<nat>)
    ensures forall y :: y in r <==> y in order && y != x
    ensures Increasing(order) ==> Increasing(r)
  {
    if order == [] then []
    else if order[0] == x then Without(order[1..], x)
    else
      var rest := Without(order[1..], x);
      assert Increasing(order) ==> Increasing([order[0]] + rest) by {
        if Increasing(order) && rest != [] {
          HeadBelowRest(order);
          assert rest[0] in rest;
          assert ([order[0]] + rest)[1..] == rest;
        }
      }
      [order[0]] + rest
  }

  /** A set that is not empty has a member. */
  lemma SomeMember(s: set<int>) returns (x: int)
    requires s != {}
    ensures x in s
  {
    if forall y :: y !in s {
      assert false;
    }
    x :| x in s;
  }

  /** A match's players are stored under their session ids, the decimal form of their ids. */
  ghost predicate SessionsAreIds(players: map<int, string>) {
    forall p :: p in players ==> players[p] == IntToString(p)
  }

  /** Removing a player's session removes that player and nobody else. */
  lemma RemoveOwnSession(players: map<int, string>, playerId: int)
    requires SessionsAreIds(players)
    ensures WithoutSession(players, IntToString(playerId)) == players - {playerId}
  {
    forall p | p in players
      ensures players[p] == IntToString(playerId) <==> p == playerId
    {
      IntToStringInjective(p, playerId);
    }
  }

  /**
   * The loop of `notifyAllPlayers`: for each player of the match, read the
   * player id back from the session id and offer `update` to that player's
   * queue, if there is one.
   */
  method OfferToAll(queues: map<int, seq<GameUpdate>>, players: map<int, string>, update: GameUpdate)
    returns (offered: map<int, seq<GameUpdate>>)
    requires SessionsAreIds(players)
    ensures offered == Delivered(queues, players.Keys, update)
  {
    offered := queues;
    var pending := players.Keys;
    ghost var done: set<int> := {};
    while pending != {}
      invariant pending <= players.Keys && done == players.Keys - pending
      invariant offered == Delivered(queues, done, update)
      decreases pending
    {
      ghost var someone := SomeMember(pending);
      var p :| p in pending;
      var target := ParseInt(players[p]);
      ParseIntRoundTrip(p);
      DeliveredStep(queues, done, p, update);
      if target.Some? && target.value in offered {
        offered := offered[target.value := offered[target.value] + [update]];
      }
      pending := pending - {p};
      done := done + {p};
    }
  }

  /**
   * What the service keeps true of the player map of every match: players
   * sit under their own session ids, hold ids already handed out, and there
   * are at most two of them.
   */
  ghost predicate Seats(players: map<int, string>, lastPlayerId: int) {
    SessionsAreIds(players) && |players| <= 2 && forall p :: p in players ==> 1 <= p <= lastPlayerId
  }

  /** Seating a player who is not in a match with room keeps `Seats`, and the match has one player more. */
  lemma SeatNewPlayer(players: map<int, string>, lastPlayerId: int, playerId: int)
    requires Seats(players, lastPlayerId) && |players| < 2 && playerId !in players && 1 <= playerId <= lastPlayerId
    ensures Seats(players[playerId := IntToString(playerId)], lastPlayerId)
    ensures |players[playerId := IntToString(playerId)]| == |players| + 1
  {
  }

  /** Removing a player's session keeps `Seats` and removes exactly that player. */
  lemma UnseatPlayer(players: map<int, string>, lastPlayerId: int, playerId: int)
    requires Seats(players, lastPlayerId)
    ensures WithoutSession(players, IntToString(playerId)) == players - {playerId}
    ensures Seats(players - {playerId}, lastPlayerId)
  {
    RemoveOwnSession(players, playerId);
    var rest := players - {playerId};
    assert rest.Keys <= players.Keys;
    SubsetCardinality(rest.Keys, players.Keys);
  }

  lemma SubsetCardinality(a: set<int>, b: set<int>)
    requires a <= b
    ensures |a| <= |b|
  {
    assert b == a + (b - a);
  }

  /** `gameOrder` lists each game once, oldest first, and every id is below the next fresh one. */
  ghost predicate InCreationOrder(ids: set<nat>, order: seq<nat>, nextId: nat) {
    (forall id :: id in ids <==> id in order) && Increasing(order) && forall id :: id in ids ==> id < nextId
  }

  /** Appending the next fresh id keeps the order, and the id after it becomes the next fresh one. */
  lemma AppendFreshId<T>(games: map<nat, T>, order: seq<nat>, nextId: nat, game: T)
    requires InCreationOrder(games.Keys, order, nextId)
    ensures nextId !in games && InCreationOrder(games[nextId := game].Keys, order + [nextId], nextId + 1)
  {
    AppendAbove(order, nextId);
  }

  /** Dropping an id keeps the order. */
  lemma DropId(ids: set<nat>, order: seq<nat>, nextId: nat, x: nat)
    requires InCreationOrder(ids, order, nextId)
    ensures InCreationOrder(ids - {x}, Without(order, x), nextId)
  {
  }

  /**
   * Popping the head of a queue and then delivering gives the same as
   * delivering and then popping: the update delivered goes behind everything
   * already queued, so queues are first in, first out.
   */
  lemma DeliveryIsFifo(queues: map<int, seq<GameUpdate>>, recipients: set<int>, u: GameUpdate, p: int)
    requires p in queues && queues[p] != []
    ensures Delivered(queues, recipients, u)[p][0] == queues[p][0]
    ensures Delivered(queues, recipients, u)[p][1..] == Delivered(queues[p := queues[p][1..]], recipients, u)[p]
  {
  }

  /**
   * The matches of the service and the objects they own: each match and its
   * board are in `repr`, no two matches share either, each board has its
   * match's size, and each player map obeys `Seats`.
   */
  ghost predicate GamesOwned(games: map<nat, GameState>, repr: set<object>, lastPlayerId: int)
    reads repr
  {
    (forall id :: id in games ==>
      games[id] in repr && games[id].board in repr && games[id].Valid() && Seats(games[id].players, lastPlayerId)) &&
    (forall id1, id2 :: id1 in games && id2 in games && id1 != id2 ==>
      games[id1] != games[id2] && games[id1].board != games[id2].board)
  }

  /** Taking one match out leaves the others owned by what remains. */
  lemma ReleaseGame(games: map<nat, GameState>, repr: set<object>, lastPlayerId: int, id: nat)
    requires GamesOwned(games, repr, lastPlayerId) && id in games
    ensures GamesOwned(games - {id}, repr - {games[id], games[id].board}, lastPlayerId)
  {
    var rest := games - {id};
    forall other | other in rest
      ensures rest[other] != games[id] && rest[other].board != games[id].board
    {
      assert rest[other] == games[other];
    }
  }

  /** A match whose objects are not yet owned can join the owned ones. */
  lemma AdoptGame(games: map<nat, GameState>, repr: set<object>, lastPlayerId: int, id: nat, game: GameState)
    requires GamesOwned(games, repr, lastPlayerId)
    requires game !in repr && game.board !in repr && game.Valid() && Seats(game.players, lastPlayerId)
    ensures GamesOwned(games[id := game], repr + {game, game.board}, lastPlayerId)
  {
  }

  /** Handing out a further player id keeps every match owned. */
  lemma OwnedLater(games: map<nat, GameState>, repr: set<object>, lastPlayerId: int)
    requires GamesOwned(games, repr, lastPlayerId)
    ensures GamesOwned(games, repr, lastPlayerId + 1)
  {
  }

  class SudokuService {
    var games: map<nat, GameState>
    var gameOrder: seq<nat>
    var nextGameId: nat
    var playerToGame: map<int, nat>
    var playerUpdates: map<int, seq<GameUpdate>>
    var lastPlayerId: int
    ghost var Repr: set<object>

    /** The matches and their objects belong to the service, not the service itself. */
    ghost predicate Owned()
      reads this`games, this`Repr, this`lastPlayerId, Repr
    {
      this !in Repr && lastPlayerId >= 0 && GamesOwned(games, Repr, lastPlayerId)
    }

    ghost predicate Ordered()
      reads this`games, this`gameOrder, this`nextGameId
    {
      InCreationOrder(games.Keys, gameOrder, nextGameId)
    }

    /** Routes and queues exist only for player ids already handed out. */
    ghost predicate Routed()
      reads this`playerToGame, this`lastPlayerId
    {
      forall p :: p in playerToGame ==> 1 <= p <= lastPlayerId
    }

    ghost predicate Queued()
      reads this`playerUpdates, this`lastPlayerId
    {
      forall p :: p in playerUpdates ==> 1 <= p <= lastPlayerId
    }

    ghost predicate Valid()
      reads this, Repr
    {
      Owned() && Ordered() && Routed() && Queued()
    }

    /** The matches with room for one more player. */
    ghost function OpenGames(): set<nat>
      reads this`games, games.Values
    {
      set id | id in games && !games[id].IsFull()
    }

    /** The matches that have started. */
    ghost function StartedGames(): set<nat>
      reads this`games, games.Values
    {
      set id | id in games && games[id].IsGameStarted()
    }

    constructor ()
      ensures Valid() && fresh(Repr)
      ensures games == map[] && gameOrder == [] && playerToGame == map[] && playerUpdates == map[] && lastPlayerId == 0
    {
      games := map[];
      gameOrder := [];
      nextGameId := 0;
      playerToGame := map[];
      playerUpdates := map[];
      lastPlayerId := 0;
      Repr := {};
    }

    /**
     * `generateBoard4x4`, `generateBoard9x9`, `generateBoard16x16`: the board
     * of a throw-away match, generated once more after construction.
     */
    method GenerateBoard(size: int) returns (board: array2<int>)
      requires ValidSize(size)
      ensures fresh(board) && Generated(board, size)
    {
      var game := new GameState(size);
      game.InitializeBoard();
      board := game.board;
    }

    /**
     * `notifyAllPlayers`: offer the update for `kind` to the queue of every
     * player of the match. A missing match notifies nobody.
     */
    method NotifyAllPlayers(gameId: nat, kind: string)
      requires gameId in games ==> SessionsAreIds(games[gameId].players)
      modifies this`playerUpdates
      ensures gameId !in games ==> playerUpdates == old(playerUpdates)
      ensures gameId in games ==>
        playerUpdates == Delivered(old(playerUpdates), games[gameId].players.Keys, UpdateFor(kind, games[gameId].board))
      ensures old(Valid()) ==> Valid()
    {
      if gameId !in games {
        return;
      }
      var game := games[gameId];
      var update := UpdateFor(kind, game.board);
      playerUpdates := OfferToAll(playerUpdates, game.players, update);
      if old(Valid()) {
        QueuesChanged();
      }
    }

    /**
     * The match `findOrCreateGame` picks: the first in creation order with
     * room for a player, or else the next fresh id.
     */
    ghost function ChosenGame(): nat
      reads this`games, this`gameOrder, this`nextGameId, games.Values
    {
      var k := FirstIndexIn(gameOrder, OpenGames());
      if k < |gameOrder| then gameOrder[k] else nextGameId
    }

    /** A match's players; nobody for an id without a match. */
    ghost function PlayersOf(id: nat): map<int, string>
      reads this`games, games.Values
    {
      if id in games then games[id].players else map[]
    }

    /** A match's turn; -1, the turn of a new match, for an id without a match. */
    ghost function TurnOf(id: nat): int
      reads this`games, games.Values
    {
      if id in games then games[id].currentPlayerId else -1
    }

    /**
     * The match is full and started on a generated board, and its players
     * were sent GAME_START behind what `queues` held.
     */
    ghost predicate Started(id: nat, queues: map<int, seq<GameUpdate>>)
      requires id in games
      reads this, games[id], games[id].board
    {
      var game := games[id];
      game.IsGameStarted() && game.Valid() && Generated(game.board, game.size) &&
      playerUpdates == Delivered(queues, game.players.Keys, UpdateFor(GameStart, game.board))
    }

    /**
     * The player sits in the match next to `before`, the players it had; the
     * turn is the player's when the match was empty and stays `turn`, the one
     * it had, otherwise; a match that is now full has started, otherwise the
     * player has the turn and no queue changed.
     */
    ghost predicate Seated(id: nat, playerId: int, before: map<int, string>, turn: int, queues: map<int, seq<GameUpdate>>)
      requires id in games
      reads this, games[id], games[id].board
    {
      var game := games[id];
      game.players == before[playerId := IntToString(playerId)] &&
      game.currentPlayerId == (if before == map[] then playerId else turn) &&
      if game.IsFull() then Started(id, queues) else game.currentPlayerId == playerId && playerUpdates == queues
    }

    /**
     * `findOrCreateGame`: the first match in creation order with room for a
     * player, or else a new empty 9x9 match under a fresh id.
     */
    method FindOrCreateGame() returns (gameId: nat)
      requires Valid()
      modifies this`games, this`gameOrder, this`nextGameId, this`Repr
      ensures Valid() && gameId == old(ChosenGame()) && gameId in games && !games[gameId].IsFull()
      ensures PlayersOf(gameId) == old(PlayersOf(gameId))
      ensures TurnOf(gameId) == old(TurnOf(gameId)) && fresh(Repr - old(Repr))
      ensures gameId in old(games) ==>
        games == old(games) && gameOrder == old(gameOrder) && nextGameId == old(nextGameId) && Repr == old(Repr)
      ensures gameId !in old(games) ==>
        nextGameId == gameId + 1 && gameOrder == old(gameOrder) + [gameId] && games == old(games)[gameId := games[gameId]] &&
        fresh(games[gameId]) && fresh(games[gameId].board) && Repr == old(Repr) + {games[gameId], games[gameId].board} &&
        games[gameId].size == NewGameSize && games[gameId].players == map[] &&
        games[gameId].currentPlayerId == -1 && !games[gameId].gameStarted
    {
      for i := 0 to |gameOrder|
        invariant forall j :: 0 <= j < i ==> gameOrder[j] !in OpenGames()
      {
        if !games[gameOrder[i]].IsFull() {
          return gameOrder[i];
        }
      }
      gameId := AddGame();
    }

    /** The creation half of `findOrCreateGame`: a new empty 9x9 match under the next id, appended to the order. */
    method AddGame() returns (gameId: nat)
      requires Valid()
      modifies this`games, this`gameOrder, this`nextGameId, this`Repr
      ensures Valid()
      ensures gameId == old(nextGameId) && gameId !in old(games) && nextGameId == gameId + 1
      ensures gameOrder == old(gameOrder) + [gameId] && games == old(games)[gameId := games[gameId]]
      ensures fresh(games[gameId]) && fresh(games[gameId].board) && Repr == old(Repr) + {games[gameId], games[gameId].board}
      ensures games[gameId].size == NewGameSize && games[gameId].players == map[]
      ensures games[gameId].currentPlayerId == -1 && !games[gameId].gameStarted
    {
      gameId := nextGameId;
      var game := new GameState(NewGameSize);
      nextGameId := nextGameId + 1;
      games := games[gameId := game];
      gameOrder := gameOrder + [gameId];
      Repr := Repr + {game, game.board};
      GameAdded(game);
    }

    /** Adding a new empty match under the next id, last in the order, keeps the service valid. */
    twostate lemma GameAdded(new game: GameState)
      requires old(Valid()) && fresh(game) && fresh(game.board) && unchanged(old(Repr))
      requires game.Valid() && game.players == map[]
      requires games == old(games)[old(nextGameId) := game] && gameOrder == old(gameOrder) + [old(nextGameId)]
      requires nextGameId == old(nextGameId) + 1 && Repr == old(Repr) + {game, game.board}
      requires playerToGame == old(playerToGame) && playerUpdates == old(playerUpdates) && lastPlayerId == old(lastPlayerId)
      ensures Valid()
    {
      AppendFreshId(old(games), old(gameOrder), old(nextGameId), game);
      AdoptGame(old(games), old(Repr), lastPlayerId, old(nextGameId), game);
    }

    /**
     * One match changed (its fields, the cells of its board, or its board for
     * a fresh one) and nothing else the service owns: the service is still
     * valid once the new board is counted in.
     */
    twostate lemma GameChanged(id: nat)
      requires old(Valid()) && id in old(games) && games == old(games)
      requires gameOrder == old(gameOrder) && nextGameId == old(nextGameId) && lastPlayerId == old(lastPlayerId)
      requires Repr == old(Repr) + {games[id].board}
      requires unchanged(old(Repr) - {games[id], old(games[id].board)})
      requires games[id].board == old(games[id].board) || fresh(games[id].board)
      requires games[id].Valid() && Seats(games[id].players, lastPlayerId)
      requires Routed() && Queued()
      ensures Valid()
    {
    }

    /** Updates offered to existing queues, and nothing else changed: the service is still valid. */
    twostate lemma QueuesChanged()
      requires old(Valid()) && unchanged(old(Repr))
      requires games == old(games) && gameOrder == old(gameOrder) && nextGameId == old(nextGameId)
      requires playerToGame == old(playerToGame) && lastPlayerId == old(lastPlayerId) && Repr == old(Repr)
      requires playerUpdates.Keys == old(playerUpdates).Keys
      ensures Valid()
    {
    }

    /** Dropping routes or queues, and nothing else, keeps the service valid. */
    twostate lemma EntriesDropped()
      requires old(Valid()) && unchanged(old(Repr))
      requires games == old(games) && gameOrder == old(gameOrder) && nextGameId == old(nextGameId)
      requires lastPlayerId == old(lastPlayerId) && Repr == old(Repr)
      requires playerToGame.Keys <= old(playerToGame).Keys && playerUpdates.Keys <= old(playerUpdates).Keys
      ensures Valid()
    {
    }

    /** Handing out the next player id with an empty queue keeps the service valid. */
    twostate lemma PlayerNumbered()
      requires old(Valid()) && unchanged(old(Repr))
      requires lastPlayerId == old(lastPlayerId) + 1 && playerUpdates == old(playerUpdates)[lastPlayerId := []]
      requires games == old(games) && gameOrder == old(gameOrder) && nextGameId == old(nextGameId)
      requires playerToGame == old(playerToGame) && Repr == old(Repr)
      ensures Valid() && ChosenGame() == old(ChosenGame())
    {
      OwnedLater(games, Repr, old(lastPlayerId));
    }

    /** The first half of seating: add the player to the chosen match and route the player there. */
    method Seat(gameId: nat, playerId: int)
      requires Valid() && gameId in games && !games[gameId].IsFull()
      requires 1 <= playerId <= lastPlayerId && playerId !in games[gameId].players
      modifies this`playerToGame, games[gameId]
      ensures Valid()
      ensures playerToGame == old(playerToGame)[playerId := gameId]
      ensures var game := games[gameId];
        game.players == old(game.players)[playerId := IntToString(playerId)] &&
        |game.players| == |old(game.players)| + 1 && game.board == old(game.board) &&
        game.currentPlayerId == (if old(game.players) == map[] then playerId else old(game.currentPlayerId)) &&
        game.gameStarted == (old(game.gameStarted) || game.IsFull())
    {
      var game := games[gameId];
      SeatNewPlayer(game.players, lastPlayerId, playerId);
      game.AddPlayer(IntToString(playerId), playerId);
      playerToGame := playerToGame[playerId := gameId];
      GameChanged(gameId);
    }

    /**
     * The last step of `joinGame` for a match the join filled: generate its
     * board anew, mark it started and send GAME_START to its players.
     */
    method StartMatch(gameId: nat)
      requires Valid() && gameId in games
      modifies this`Repr, this`playerUpdates, games[gameId]
      ensures Valid()
      ensures Repr == old(Repr) + {games[gameId].board} && fresh(games[gameId].board)
      ensures games[gameId].players == old(games[gameId].players) && games[gameId].currentPlayerId == old(games[gameId].currentPlayerId)
      ensures games[gameId].IsFull() ==> Started(gameId, old(playerUpdates))
      ensures games[gameId].gameStarted && playerUpdates == Delivered(old(playerUpdates), games[gameId].players.Keys, UpdateFor(GameStart, games[gameId].board))
    {
      Restart(gameId);
      NotifyAllPlayers(gameId, GameStart);
    }

    /** The board and flag half of starting a match: a new board, and the started flag set. */
    method Restart(gameId: nat)
      requires Valid() && gameId in games
      modifies this`Repr, games[gameId]
      ensures Valid()
      ensures Repr == old(Repr) + {games[gameId].board}
      ensures var game := games[gameId];
        game.players == old(game.players) && game.currentPlayerId == old(game.currentPlayerId) && game.gameStarted &&
        fresh(game.board) && Generated(game.board, game.size)
    {
      var game := games[gameId];
      game.InitializeBoard();
      game.SetGameStarted(true);
      Repr := Repr + {game.board};
      GameChanged(gameId);
    }

    /**
     * `joinGame` once the match is chosen: seat the player in it and route
     * the player there; if that fills the match, start it.
     */
    method SeatPlayer(gameId: nat, playerId: int)
      requires Valid() && gameId in games && !games[gameId].IsFull()
      requires 1 <= playerId <= lastPlayerId && playerId !in games[gameId].players
      modifies this`playerToGame, this`Repr, this`playerUpdates, games[gameId]
      ensures Valid()
      ensures playerToGame == old(playerToGame)[playerId := gameId] && Repr == old(Repr) + {games[gameId].board}
      ensures Seated(gameId, playerId, old(PlayersOf(gameId)), old(TurnOf(gameId)), old(playerUpdates))
      ensures if games[gameId].IsFull() then fresh(games[gameId].board) else games[gameId].board == old(games[gameId].board)
      ensures fresh(Repr - old(Repr))
    {
      Seat(gameId, playerId);
      if games[gameId].IsFull() {
        StartMatch(gameId);
      }
    }

    /**
     * `joinGame` once the id is handed out: seat the player in the match
     * `findOrCreateGame` picks.
     */
    method PlacePlayer(playerId: int) returns (gameId: nat)
      requires Valid() && 1 <= playerId <= lastPlayerId
      requires forall id :: id in games ==> playerId !in games[id].players
      modifies this, Repr
      ensures Valid() && lastPlayerId == old(lastPlayerId)
      ensures gameId == old(ChosenGame()) && gameId in games && playerToGame == old(playerToGame)[playerId := gameId]
      ensures gameId in old(games) ==> games == old(games) && gameOrder == old(gameOrder)
      ensures gameId !in old(games) ==>
        games == old(games)[gameId := games[gameId]] && gameOrder == old(gameOrder) + [gameId] && games[gameId].size == NewGameSize
      ensures Seated(gameId, playerId, old(PlayersOf(gameId)), old(TurnOf(gameId)), old(playerUpdates))
      ensures games[gameId].IsFull() ==> fresh(games[gameId].board)
      ensures fresh(Repr - old(Repr))
    {
      gameId := FindOrCreateGame();
      SeatPlayer(gameId, playerId);
    }

    /**
     * `joinGame`: hand out the next player id with an empty queue, seat the
     * player in the first match with room (or a new one) and route the player
     * there; a match the join fills gets a new board, starts, and its players
     * are sent GAME_START.
     */
    method JoinGame() returns (playerId: int)
      requires Valid()
      modifies this, Repr
      ensures Valid()
      ensures playerId == old(lastPlayerId) + 1 && lastPlayerId == playerId
      ensures playerId !in old(playerToGame) && playerId !in old(playerUpdates)
      ensures playerId in playerToGame && playerToGame == old(playerToGame)[playerId := old(ChosenGame())]
      ensures var gameId := playerToGame[playerId];
        gameId in games && Seated(gameId, playerId, old(PlayersOf(gameId)), old(TurnOf(gameId)), old(playerUpdates)[playerId := []])
      ensures var gameId := playerToGame[playerId];
        if gameId in old(games) then games == old(games) && gameOrder == old(gameOrder)
        else games == old(games)[gameId := games[gameId]] && gameOrder == old(gameOrder) + [gameId] && games[gameId].size == NewGameSize
      ensures games[playerToGame[playerId]].IsFull() ==> fresh(games[playerToGame[playerId]].board)
      ensures fresh(Repr - old(Repr))
    {
      playerId := lastPlayerId + 1;
      lastPlayerId := playerId;
      playerUpdates := playerUpdates[playerId := []];
      PlayerNumbered();
      var gameId := PlacePlayer(playerId);
    }

    /** `makeMove` lets a move through to the board when the player is routed to a started match and holds the turn. */
    ghost predicate HasTurn(playerId: int)
      reads this`playerToGame, this`games, games.Values
    {
      playerId in playerToGame && playerToGame[playerId] in games &&
      games[playerToGame[playerId]].IsGameStarted() && games[playerToGame[playerId]].currentPlayerId == playerId
    }

    /**
     * After an accepted move by `playerId`: the cell holds the value, the turn
     * passed on, and the match's players were sent MOVE_MADE and, on a full
     * board, GAME_OVER, behind what `queues` held.
     */
    ghost predicate Moved(id: nat, playerId: int, row: int, col: int, value: int, queues: map<int, seq<GameUpdate>>)
      requires id in games
      reads this, games[id], games[id].board
    {
      var game := games[id];
      0 <= row < game.board.Length0 && 0 <= col < game.board.Length1 && game.board[row, col] == value &&
      game.currentPlayerId == NextTurn(playerId) &&
      playerUpdates == AfterMove(queues, game.players.Keys, game.board, playerId, Full(game.board))
    }

    /**
     * `makeMove`: refuse the move unless the player is routed to a started
     * match and holds the turn; otherwise the move succeeds exactly when the
     * board accepts it. A refused move changes nothing. An accepted one writes
     * that one cell, keeps a board that followed the rules following them,
     * passes the turn, sends MOVE_MADE to the match's players and, when the
     * board is now full, GAME_OVER naming the mover.
     */
    method MakeMove(playerId: int, row: int, col: int, value: int) returns (ok: bool)
      requires Valid()
      modifies this`playerUpdates, Repr
      ensures Valid()
      ensures !old(HasTurn(playerId)) ==> !ok
      ensures !ok ==> playerUpdates == old(playerUpdates) && unchanged(Repr)
      ensures old(HasTurn(playerId)) ==> var gameId := playerToGame[playerId]; var game := games[gameId];
        (ok <==> old(MoveAllowed(game.board, game.size, row, col, value))) &&
        (ok ==> Moved(gameId, playerId, row, col, value, old(playerUpdates)) && unchanged(Repr - {game, game.board})) &&
        (ok ==> game.board == old(game.board) && game.players == old(game.players) && game.gameStarted == old(game.gameStarted)) &&
        (ok ==> forall i, j :: 0 <= i < game.size && 0 <= j < game.size && (i != row || j != col) ==>
          game.board[i, j] == old(game.board[i, j])) &&
        (old(game.FollowsRules()) ==> game.FollowsRules())
    {
      if playerId !in playerToGame {
        return false;
      }
      var gameId := playerToGame[playerId];
      if gameId !in games {
        return false;
      }
      var game := games[gameId];
      if !game.IsGameStarted() {
        return false;
      }
      if game.currentPlayerId != playerId {
        return false;
      }
      ok := PlayMove(gameId, playerId, row, col, value);
    }

    /** The gated half of `makeMove`: play the move of the player holding the turn in a started match. */
    method PlayMove(gameId: nat, playerId: int, row: int, col: int, value: int) returns (ok: bool)
      requires Valid() && gameId in games && games[gameId].currentPlayerId == playerId
      modifies this`playerUpdates, games[gameId], games[gameId].board
      ensures Valid()
      ensures ok <==> old(MoveAllowed(games[gameId].board, games[gameId].size, row, col, value))
      ensures !ok ==> playerUpdates == old(playerUpdates) && unchanged(games[gameId], games[gameId].board)
      ensures ok ==> Moved(gameId, playerId, row, col, value, old(playerUpdates))
      ensures var game := games[gameId];
        game.board == old(game.board) && game.players == old(game.players) && game.gameStarted == old(game.gameStarted)
      ensures ok ==> forall i, j :: 0 <= i < games[gameId].size && 0 <= j < games[gameId].size && (i != row || j != col) ==>
        games[gameId].board[i, j] == old(games[gameId].board[i, j])
      ensures old(games[gameId].FollowsRules()) ==> games[gameId].FollowsRules()
    {
      ok := Advance(gameId, playerId, row, col, value);
      if ok {
        Announce(gameId, playerId);
      }
    }

    /** The board half of a move: write the cell and, when the board accepted it, pass the turn. */
    method Advance(gameId: nat, playerId: int, row: int, col: int, value: int) returns (ok: bool)
      requires Valid() && gameId in games && games[gameId].currentPlayerId == playerId
      modifies games[gameId], games[gameId].board
      ensures Valid()
      ensures ok <==> old(MoveAllowed(games[gameId].board, games[gameId].size, row, col, value))
      ensures !ok ==> unchanged(games[gameId], games[gameId].board)
      ensures var game := games[gameId];
        game.board == old(game.board) && game.players == old(game.players) && game.gameStarted == old(game.gameStarted)
      ensures ok ==> var game := games[gameId];
        0 <= row < game.size && 0 <= col < game.size && game.board[row, col] == value && game.currentPlayerId == NextTurn(playerId)
      ensures ok ==> forall i, j :: 0 <= i < games[gameId].size && 0 <= j < games[gameId].size && (i != row || j != col) ==>
        games[gameId].board[i, j] == old(games[gameId].board[i, j])
      ensures old(games[gameId].FollowsRules()) ==> games[gameId].FollowsRules()
    {
      var game := games[gameId];
      ok := game.MakeMove(row, col, value);
      if ok {
        game.SwitchTurn();
      }
      GameChanged(gameId);
    }

    /** The notification half of an accepted move: MOVE_MADE, then GAME_OVER when the board is full. */
    method Announce(gameId: nat, playerId: int)
      requires Valid() && gameId in games
      modifies this`playerUpdates
      ensures Valid()
      ensures playerUpdates ==
        AfterMove(old(playerUpdates), games[gameId].players.Keys, games[gameId].board, playerId, Full(games[gameId].board))
    {
      var game := games[gameId];
      NotifyAllPlayers(gameId, MoveMade);
      var complete := game.IsComplete();
      if complete {
        NotifyAllPlayers(gameId, GameOverType(playerId));
      }
    }

    /** The match `getCurrentPlayerId` and `getCurrentBoard` report: the first started one in creation order. */
    ghost function FirstStarted(): Option<nat>
      reads this`games, this`gameOrder, games.Values
    {
      var k := FirstIndexIn(gameOrder, StartedGames());
      if k < |gameOrder| then Some(gameOrder[k]) else None
    }

    /** There is a first started match exactly when some match has started, and it is one of them. */
    lemma FirstStartedExists()
      requires Valid()
      ensures FirstStarted().Some? <==> StartedGames() != {}
      ensures FirstStarted().Some? ==> FirstStarted().value in StartedGames()
    {
      if StartedGames() != {} {
        var id :| id in StartedGames();
        assert id in gameOrder;
        var j :| 0 <= j < |gameOrder| && gameOrder[j] == id;
        assert FirstIndexIn(gameOrder, StartedGames()) <= j;
      }
    }

    /** `isGameReady`: some match is started (and full). */
    method IsGameReady() returns (ready: bool)
      requires Valid()
      ensures ready <==> StartedGames() != {}
    {
      for i := 0 to |gameOrder|
        invariant forall j :: 0 <= j < i ==> gameOrder[j] !in StartedGames()
      {
        var game := games[gameOrder[i]];
        if game.IsGameStarted() && game.IsFull() {
          return true;
        }
      }
      FirstStartedExists();
      return false;
    }

    /** `getCurrentPlayerId`: whose turn it is in the first started match, or -1 when no match has started. */
    method GetCurrentPlayerId() returns (id: int)
      requires Valid()
      ensures StartedGames() == {} ==> id == -1
      ensures StartedGames() != {} ==> FirstStarted().Some? && id == games[FirstStarted().value].currentPlayerId
    {
      for i := 0 to |gameOrder|
        invariant forall j :: 0 <= j < i ==> gameOrder[j] !in StartedGames()
      {
        var game := games[gameOrder[i]];
        if game.IsGameStarted() {
          FirstStartedExists();
          return game.currentPlayerId;
        }
      }
      FirstStartedExists();
      return -1;
    }

    /** `getCurrentBoard`: the board of the first started match, or an error when no match has started. */
    method GetCurrentBoard() returns (board: Result<array2<int>>)
      requires Valid()
      ensures StartedGames() == {} ==> board == Err(NoBoardError)
      ensures StartedGames() != {} ==> FirstStarted().Some? && board == Ok(games[FirstStarted().value].board)
    {
      for i := 0 to |gameOrder|
        invariant forall j :: 0 <= j < i ==> gameOrder[j] !in StartedGames()
      {
        var game := games[gameOrder[i]];
        if game.IsGameStarted() {
          FirstStartedExists();
          return Ok(game.board);
        }
      }
      FirstStartedExists();
      return Err(NoBoardError);
    }

    /**
     * `getGameStatus`: not in a game, the game is gone, waiting for a second
     * player, your turn, or the other player's turn, checked in that order.
     * "Your turn" is reported exactly when `makeMove` would let the player's
     * move through to the board.
     */
    method GetGameStatus(playerId: int) returns (status: string)
      ensures playerId !in playerToGame ==> status == NotInGame
      ensures playerId in playerToGame && playerToGame[playerId] !in games ==> status == NoSuchGame
      ensures playerId in playerToGame && playerToGame[playerId] in games ==>
        var game := games[playerToGame[playerId]];
        (!game.IsGameStarted() ==> status == WaitingForPlayer) &&
        (game.IsGameStarted() && game.currentPlayerId != playerId ==> status == OtherPlayersTurn)
      ensures status == YourTurn <==> HasTurn(playerId)
    {
      if playerId !in playerToGame {
        return NotInGame;
      }
      var gameId := playerToGame[playerId];
      if gameId !in games {
        return NoSuchGame;
      }
      var game := games[gameId];
      if !game.IsGameStarted() {
        return WaitingForPlayer;
      }
      status := if game.currentPlayerId == playerId then YourTurn else OtherPlayersTurn;
    }

    /**
     * `leaveGame`: drop the player's route; if the match it led to still
     * exists, take the player out of it, send PLAYER_DISCONNECTED to the
     * players who remain, and remove the match once nobody is left; finally
     * drop the player's queue. Leaving a second time changes nothing.
     */
    method LeaveGame(playerId: int)
      requires Valid()
      modifies this, Repr
      ensures Valid() && lastPlayerId == old(lastPlayerId) && nextGameId == old(nextGameId) && Repr <= old(Repr)
      ensures playerToGame == old(playerToGame) - {playerId} && playerId !in playerUpdates
      ensures old(playerId !in playerToGame && playerId !in playerUpdates) ==>
        playerToGame == old(playerToGame) && playerUpdates == old(playerUpdates)
      ensures !old(playerId in playerToGame && playerToGame[playerId] in games) ==>
        games == old(games) && gameOrder == old(gameOrder) && Repr == old(Repr) && unchanged(Repr) &&
        playerUpdates == old(playerUpdates) - {playerId}
      ensures old(playerId in playerToGame && playerToGame[playerId] in games) ==>
        var gameId := old(playerToGame[playerId]); var game := old(games[gameId]);
        game.players == old(game.players) - {playerId} &&
        playerUpdates == Delivered(old(playerUpdates), game.players.Keys, UpdateFor(PlayerDisconnected, game.board)) - {playerId} &&
        if game.players == map[] then
          games == old(games) - {gameId} && gameOrder == Without(old(gameOrder), gameId)
        else
          games == old(games) && gameOrder == old(gameOrder) && unchanged(game.board) &&
          game.currentPlayerId == old(game.currentPlayerId) && game.gameStarted == old(game.gameStarted)
    {
      if playerId in playerToGame {
        var gameId := playerToGame[playerId];
        label Unrouting:
        playerToGame := playerToGame - {playerId};
        EntriesDropped@Unrouting();
        if gameId in games {
          Depart(gameId, playerId);
        }
      }
      label Dequeuing:
      playerUpdates := playerUpdates - {playerId};
      EntriesDropped@Dequeuing();
    }

    /**
     * The part of `leaveGame` inside a match that exists: take the player out,
     * notify the players who remain, and remove the match if it is now empty.
     */
    method Depart(gameId: nat, playerId: int)
      requires Valid() && gameId in games
      modifies this`games, this`gameOrder, this`Repr, this`playerUpdates, games[gameId]
      ensures Valid()
      ensures var game := old(games[gameId]);
        game.players == old(game.players) - {playerId} && game.board == old(game.board) &&
        playerUpdates == Delivered(old(playerUpdates), game.players.Keys, UpdateFor(PlayerDisconnected, game.board))
      ensures var game := old(games[gameId]);
        if game.players == map[] then
          games == old(games) - {gameId} && gameOrder == Without(old(gameOrder), gameId) && Repr == old(Repr) - {game, game.board}
        else
          games == old(games) && gameOrder == old(gameOrder) && Repr == old(Repr) &&
          game.currentPlayerId == old(game.currentPlayerId) && game.gameStarted == old(game.gameStarted)
    {
      Withdraw(gameId, playerId);
      if games[gameId].players == map[] {
        DropGame(gameId);
      }
    }

    /** Take the player out of the match and send PLAYER_DISCONNECTED to the players who remain. */
    method Withdraw(gameId: nat, playerId: int)
      requires Valid() && gameId in games
      modifies this`playerUpdates, games[gameId]
      ensures Valid()
      ensures var game := games[gameId];
        game.players == old(game.players) - {playerId} && game.board == old(game.board) &&
        playerUpdates == Delivered(old(playerUpdates), game.players.Keys, UpdateFor(PlayerDisconnected, game.board))
      ensures var game := games[gameId];
        if game.players == map[] then game.currentPlayerId == -1 && !game.gameStarted
        else game.currentPlayerId == old(game.currentPlayerId) && game.gameStarted == old(game.gameStarted)
    {
      Unseat(gameId, playerId);
      NotifyAllPlayers(gameId, PlayerDisconnected);
    }

    /**
     * `removePlayer` with the player's session id: exactly that player leaves
     * the match; the turn and the started flag are reset once it is empty.
     */
    method Unseat(gameId: nat, playerId: int)
      requires Valid() && gameId in games
      modifies games[gameId]
      ensures Valid()
      ensures var game := games[gameId]; game.players == old(game.players) - {playerId} && game.board == old(game.board)
      ensures var game := games[gameId];
        if game.players == map[] then game.currentPlayerId == -1 && !game.gameStarted
        else game.currentPlayerId == old(game.currentPlayerId) && game.gameStarted == old(game.gameStarted)
    {
      var game := games[gameId];
      UnseatPlayer(game.players, lastPlayerId, playerId);
      game.RemovePlayer(IntToString(playerId));
      GameChanged(gameId);
    }

    /** `activeGames.remove`: the match leaves the service, and so do its objects. */
    method DropGame(gameId: nat)
      requires Valid() && gameId in games
      modifies this`games, this`gameOrder, this`Repr
      ensures Valid()
      ensures games == old(games) - {gameId} && gameOrder == Without(old(gameOrder), gameId)
      ensures Repr == old(Repr) - {old(games[gameId]), old(games[gameId].board)}
    {
      var game := games[gameId];
      Repr := Repr - {game, game.board};
      games := games - {gameId};
      gameOrder := Without(gameOrder, gameId);
      GameRemoved(gameId);
    }

    /** Removing a match together with its objects, and nothing else, keeps the service valid. */
    twostate lemma GameRemoved(id: nat)
      requires old(Valid()) && id in old(games) && unchanged(old(Repr))
      requires games == old(games) - {id} && gameOrder == Without(old(gameOrder), id) && nextGameId == old(nextGameId)
      requires Repr == old(Repr) - {old(games[id]), old(games[id].board)}
      requires playerToGame == old(playerToGame) && playerUpdates == old(playerUpdates) && lastPlayerId == old(lastPlayerId)
      ensures Valid()
    {
      ReleaseGame(old(games), old(Repr), lastPlayerId, id);
      DropId(old(games).Keys, old(gameOrder), nextGameId, id);
      assert games.Keys == old(games).Keys - {id};
    }

    /**
     * `getUpdate`: take the oldest update off the player's queue; with no
     * queue or an empty one, a NO_UPDATE update with neither board nor message.
     */
    method GetUpdate(playerId: int) returns (update: GameUpdate)
      requires Valid()
      modifies this`playerUpdates
      ensures Valid()
      ensures playerId in old(playerUpdates) && old(playerUpdates)[playerId] != [] ==>
        update == old(playerUpdates)[playerId][0] &&
        playerUpdates == old(playerUpdates)[playerId := old(playerUpdates)[playerId][1..]]
      ensures !(playerId in old(playerUpdates) && old(playerUpdates)[playerId] != []) ==>
        update == CreateEmptyUpdate(NoUpdate) && playerUpdates == old(playerUpdates)
    {
      if playerId in playerUpdates && playerUpdates[playerId] != [] {
        update := playerUpdates[playerId][0];
        playerUpdates := playerUpdates[playerId := playerUpdates[playerId][1..]];
      } else {
        update := CreateEmptyUpdate(NoUpdate);
      }
      QueuesChanged();
    }
  }
}
