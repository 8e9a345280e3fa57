/**
 * The event record the service queues for each player (`GameUpdate`): a type
 * tag, an optional board and an optional message, where "absent" stands for
 * Java's `null`. The board is a reference to the match's live board, as in
 * the source; the three fields themselves are final, so an update is a value.
 */
module Updates {
  import opened Wrappers

  /** `new GameUpdate(type, board, message)` stores the three fields as given. */
  datatype GameUpdate = GameUpdate(kind: string, board: Option<array2<int>>, message: Option<string>)

  /** `createBoardUpdate(type, board)`: carries the board and no message. */
  function CreateBoardUpdate(kind: string, board: array2<int>): (u: GameUpdate)
    ensures u.kind == kind && u.board == Some(board) && u.message.None?
  {
    GameUpdate(kind, Some(board), None)
  }

  /** `createMessageUpdate(type, message)`: carries the message and no board. */
  function CreateMessageUpdate(kind: string, message: string): (u: GameUpdate)
    ensures u.kind == kind && u.board.None? && u.message == Some(message)
  {
    GameUpdate(kind, None, Some(message))
  }

  /** `createEmptyUpdate(type)`: carries neither a board nor a message. */
  function CreateEmptyUpdate(kind: string): (u: GameUpdate)
    ensures u.kind == kind && u.board.None? && u.message.None?
  {
    GameUpdate(kind, None, None)
  }

  /** The three factories never produce the same update, whatever they are given. */
  lemma FactoriesAreDistinguishable(kind: string, board: array2<int>, message: string)
    ensures CreateBoardUpdate(kind, board) != CreateMessageUpdate(kind, message)
    ensures CreateBoardUpdate(kind, board) != CreateEmptyUpdate(kind)
    ensures CreateMessageUpdate(kind, message) != CreateEmptyUpdate(kind)
  {
  }
}
