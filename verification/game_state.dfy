/**
 * One match (`GameState`): the board, the players who joined it (player id to
 * session id), whose turn it is, and whether the match has started. The board
 * is a mutable array that moves write in place; the other fields are updated
 * by the join, leave and turn operations.
 */
module Game {
  import opened Board
  import Generator

  /** `removePlayer`: drop every entry whose session id is `sessionId`, keep the rest as they are. */
  function WithoutSession(players: map<int, string>, sessionId: string): (r: map<int, string>)
    ensures forall id :: id in r <==> id in players && players[id] != sessionId
    ensures forall id :: id in r ==> r[id] == players[id]
  {
    map id | id in players && players[id] != sessionId :: players[id]
  }

  /** Removing a session twice is the same as removing it once, and no entry for it is left. */
  lemma WithoutSessionIdempotent(players: map<int, string>, sessionId: string)
    ensures WithoutSession(WithoutSession(players, sessionId), sessionId) == WithoutSession(players, sessionId)
    ensures forall id :: id in WithoutSession(players, sessionId) ==> WithoutSession(players, sessionId)[id] != sessionId
  {
  }

  /**
   * `switchTurn`: the turn is wired to the ids 1 and 2, so the successor of 1
   * is 2 and the successor of every other id is 1.
   */
  function NextTurn(id: int): (next: int)
    ensures next == 1 || next == 2
    ensures next == 2 <==> id == 1
  {
    if id == 1 then 2 else 1
  }

  /** Between the players 1 and 2 the turn alternates. */
  lemma TurnAlternates(id: int)
    requires id == 1 || id == 2
    ensures NextTurn(id) != id && NextTurn(NextTurn(id)) == id
  {
  }

  /** In a match between two players with ids above 2, the turn passes to neither of them. */
  lemma TurnLeavesLaterMatch(first: int, second: int)
    requires first > 2 && second > 2
    ensures NextTurn(first) !in {first, second} && NextTurn(second) !in {first, second}
  {
  }

  class GameState {
    var board: array2<int>
    const size: int
    var currentPlayerId: int
    var players: map<int, string>
    var gameStarted: bool

    /** The board is a square of the match's size, and the size is one the rules allow. */
    ghost predicate Valid()
      reads this, board
    {
      ValidSize(size) && HasSize(board, size)
    }

    /** Every cell holds 0 or a value in 1..size, and no value repeats in a row, a column or a box. */
    ghost predicate FollowsRules()
      reads this, board
    {
      Valid() && CellsInRange(board, size) && NoDuplicates(board, BoxSize(size))
    }

    /** `GameState(size)`: no players, nobody's turn (-1), not started, and a freshly generated board. */
    constructor (size: int)
      requires ValidSize(size)
      ensures this.size == size && players == map[] && currentPlayerId == -1 && !gameStarted
      ensures fresh(board) && Generated(board, size) && FollowsRules()
    {
      this.size := size;
      board := new int[size, size]((i, j) => 0);
      players := map[];
      currentPlayerId := -1;
      gameStarted := false;
      new;
      InitializeBoard();
    }

    /** `initializeBoard`: replace the board by a newly generated one; nothing else changes. */
    method InitializeBoard()
      requires ValidSize(size)
      modifies this
      ensures fresh(board) && Generated(board, size) && FollowsRules()
      ensures players == old(players) && currentPlayerId == old(currentPlayerId) && gameStarted == old(gameStarted)
    {
      board := Generator.Generate(size);
    }

    /**
     * `addPlayer`: record the player under its session id. The first player
     * in the map gets the turn, and the match starts once two are in.
     */
    method AddPlayer(sessionId: string, playerId: int)
      requires Valid()
      modifies this
      ensures players == old(players)[playerId := sessionId]
      ensures currentPlayerId == if |players| == 1 then playerId else old(currentPlayerId)
      ensures gameStarted == (old(gameStarted) || |players| == 2)
      ensures old(players) == map[] ==> currentPlayerId == playerId && !IsFull()
      ensures |old(players)| == 1 && playerId !in old(players) ==> IsFull() && IsGameStarted()
      ensures board == old(board) && Valid()
    {
      players := players[playerId := sessionId];
      if |players| == 1 {
        currentPlayerId := playerId;
      }
      if |players| == 2 {
        gameStarted := true;
      }
    }

    /**
     * `removePlayer`: drop every entry of the session. Only when nobody is
     * left are the turn reset to -1 and the started flag cleared.
     */
    method RemovePlayer(sessionId: string)
      requires Valid()
      modifies this
      ensures players == WithoutSession(old(players), sessionId)
      ensures players == map[] ==> currentPlayerId == -1 && !gameStarted
      ensures players != map[] ==> currentPlayerId == old(currentPlayerId) && gameStarted == old(gameStarted)
      ensures board == old(board) && Valid()
    {
      players := WithoutSession(players, sessionId);
      if |players| == 0 {
        currentPlayerId := -1;
        gameStarted := false;
      }
    }

    /** `isFull`: two players or more. */
    predicate IsFull()
      reads this
    {
      |players| >= 2
    }

    /** `isGameStarted`: the started flag is set and the match is full. */
    predicate IsGameStarted()
      reads this
    {
      gameStarted && IsFull()
    }

    /**
     * `makeMove`: write `value` into (row, col) exactly when `isValidMove`
     * accepts it; a refused move changes nothing. A board that followed the
     * Sudoku rules still follows them.
     */
    method MakeMove(row: int, col: int, value: int) returns (ok: bool)
      requires Valid()
      modifies board
      ensures ok <==> old(MoveAllowed(board, size, row, col, value))
      ensures ok ==> board[row, col] == value
      ensures !ok ==> unchanged(board)
      ensures forall i, j :: 0 <= i < size && 0 <= j < size && (!ok || i != row || j != col) ==> board[i, j] == old(board[i, j])
      ensures Valid() && (old(FollowsRules()) ==> FollowsRules())
    {
      var valid := IsValidMove(row, col, value);
      if !valid {
        return false;
      }
      ghost var ruled := FollowsRules();
      board[row, col] := value;
      if ruled {
        PlacementKeepsRules(Placement(board, row, col, value));
      }
      return true;
    }

    /**
     * `isValidMove`: the coordinates and the value are in range, the cell is
     * empty, and the value is in neither the row, the column nor the box.
     */
    method IsValidMove(row: int, col: int, value: int) returns (valid: bool)
      requires Valid()
      ensures valid <==> MoveAllowed(board, size, row, col, value)
      ensures !(0 <= row < size && 0 <= col < size && 1 <= value <= size) ==> !valid
      ensures 0 <= row < size && 0 <= col < size && board[row, col] != 0 ==> !valid
    {
      if row < 0 || row >= size || col < 0 || col >= size || value < 1 || value > size {
        return false;
      }
      if board[row, col] != 0 {
        return false;
      }
      valid := IsValidInRow(row, value);
      if valid {
        valid := IsValidInColumn(col, value);
      }
      if valid {
        valid := IsValidInBox(row, col, value);
      }
    }

    /** `isValidInRow`: `value` does not occur in the row. */
    method IsValidInRow(row: int, value: int) returns (valid: bool)
      requires Valid() && 0 <= row < size
      ensures valid <==> !InRow(board, row, value)
    {
      for col := 0 to size
        invariant forall j :: 0 <= j < col ==> board[row, j] != value
      {
        if board[row, col] == value {
          return false;
        }
      }
      return true;
    }

    /** `isValidInColumn`: `value` does not occur in the column. */
    method IsValidInColumn(col: int, value: int) returns (valid: bool)
      requires Valid() && 0 <= col < size
      ensures valid <==> !InCol(board, col, value)
    {
      for row := 0 to size
        invariant forall i :: 0 <= i < row ==> board[i, col] != value
      {
        if board[row, col] == value {
          return false;
        }
      }
      return true;
    }

    /** `isValidInBox`: `value` does not occur in the box that holds (row, col). */
    method IsValidInBox(row: int, col: int, value: int) returns (valid: bool)
      requires Valid() && 0 <= row < size && 0 <= col < size
      ensures valid <==> !InBox(board, BoxStart(row, BoxSize(size)), BoxStart(col, BoxSize(size)), BoxSize(size), value)
    {
      var boxSize := BoxSize(size);
      BoxStartBounds(row, size);
      BoxStartBounds(col, size);
      var boxRow := row - row % boxSize;
      var boxCol := col - col % boxSize;
      for i := boxRow to boxRow + boxSize
        invariant forall p, q :: boxRow <= p < i && boxCol <= q < boxCol + boxSize ==> board[p, q] != value
      {
        for j := boxCol to boxCol + boxSize
          invariant forall p, q :: boxRow <= p < i && boxCol <= q < boxCol + boxSize ==> board[p, q] != value
          invariant forall q :: boxCol <= q < j ==> board[i, q] != value
        {
          if board[i, j] == value {
            return false;
          }
        }
      }
      return true;
    }

    /** `isComplete`: no cell is empty. */
    method IsComplete() returns (complete: bool)
      requires Valid()
      ensures complete <==> Full(board)
    {
      for i := 0 to size
        invariant forall p, q :: 0 <= p < i && 0 <= q < size ==> board[p, q] != 0
      {
        for j := 0 to size
          invariant forall p, q :: 0 <= p < i && 0 <= q < size ==> board[p, q] != 0
          invariant forall q :: 0 <= q < j ==> board[i, q] != 0
        {
          if board[i, j] == 0 {
            return false;
          }
        }
      }
      return true;
    }

    /** `setCurrentPlayer`: hand the turn to `id`. */
    method SetCurrentPlayer(id: int)
      requires Valid()
      modifies this
      ensures currentPlayerId == id
      ensures board == old(board) && players == old(players) && gameStarted == old(gameStarted) && Valid()
    {
      currentPlayerId := id;
    }

    /** `setGameStarted`: set the started flag. */
    method SetGameStarted(started: bool)
      requires Valid()
      modifies this
      ensures gameStarted == started
      ensures board == old(board) && players == old(players) && currentPlayerId == old(currentPlayerId) && Valid()
    {
      gameStarted := started;
    }

    /** `switchTurn`: pass the turn as `NextTurn` says. */
    method SwitchTurn()
      requires Valid()
      modifies this
      ensures currentPlayerId == NextTurn(old(currentPlayerId))
      ensures board == old(board) && players == old(players) && gameStarted == old(gameStarted) && Valid()
    {
      currentPlayerId := NextTurn(currentPlayerId);
    }
  }

  /**
   * A started match whose turn holder leaves and whose seat is then taken
   * again: `removePlayer` keeps the turn of the player who left, and
   * `addPlayer` gives the turn only to the first player of an empty match,
   * so the refilled match is started while the turn belongs to nobody in it.
   */
  method LeaverKeepsTurn(g: GameState)
    requires g.Valid() && g.players == map[1 := "1", 2 := "2"] && g.currentPlayerId == 1 && g.gameStarted
    modifies g
    ensures g.players == map[2 := "2", 3 := "3"] && g.IsGameStarted()
    ensures g.currentPlayerId == 1 && g.currentPlayerId !in g.players
  {
    g.RemovePlayer("1");
    assert g.players == map[2 := "2"];
    g.AddPlayer("3", 3);
  }
}
