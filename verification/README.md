# Sudoku RMI core, modelled in Dafny

The backend of `sudoku-rmi` serves two-player Sudoku matches:
- **Generator.** `SudokuGenerator` builds puzzle boards in three steps. It seeds the diagonal boxes, completes the board by backtracking, and then punches holes.
- **Match.** `GameState` is one match: a mutable `int` grid, the players who joined it, whose turn it is, and a started flag.
- **Service.** `SudokuServiceImpl` pairs joining players into matches, gates moves on routing, start and turn, and queues a `GameUpdate` event for each player.

This project models that core in Dafny 4.11 and proves properties of the model. The files are:

| file | module | models |
|---|---|---|
| `wrappers.dfy` | `Wrappers` | `Option` stands for Java's `null`; `Result` stands for a thrown error |
| `text.dfy` | `Text` | `String.valueOf(int)` and `Integer.parseInt`, which the service uses for session ids and for `GAME_OVER:` messages |
| `board.dfy` | `Board` | the Sudoku rules over `array2<int>`: sizes 4, 9 and 16, boxes, the no-duplicates invariant, the legality of a move, and the counting lemmas behind the generator |
| `generator.dfy` | `Generator` | `SudokuGenerator`, as methods that work in place on the array |
| `game_state.dfy` | `Game` | `GameState`, as a class whose fields the methods update |
| `game_update.dfy` | `Updates` | `GameUpdate`, an immutable record, as a datatype |
| `service.dfy` | `Service` | `SudokuServiceImpl`, as a class over maps, with its invariant `Valid` |

The service state has the following parts:
- `games` maps a game id to its match.
- `playerToGame` maps a player to a game id.
- `playerUpdates` maps a player to that player's FIFO queue of updates.
- `lastPlayerId` is the counter for player ids.
- `gameOrder` lists the game ids. The source walks its concurrent hash map in whatever order the map gives; the model fixes that order to creation order.
- Game ids are fresh numbers handed out in increasing order (`nextGameId`), in place of random UUIDs.

The service invariant `Valid` states the following:
- Every match owns its board.
- No two matches share a match object or a board.
- Every board is square and of an allowed size.
- Each player map holds at most two players, each stored under the decimal form of its own id.
- `gameOrder` lists the live game ids once each, in increasing order.
- Routes and queues exist only for ids already handed out.

Every method keeps `Valid`.

`isFull` and `isGameStarted` are the predicates `GameState.IsFull` (two players or more) and `GameState.IsGameStarted` (the flag is set and the match is full).

Some behaviours of the code are surprising; the model keeps them as written:
- **Generator failure.** When the backtracking solve fails, `generate` returns the diagonal-seeded board with no holes and reports no error. `Board.Generated` allows exactly that.
- **Turns.** `switchTurn` is wired to the ids 1 and 2, not to the two players of the match. `Game.NextTurn` keeps this. `Game.TurnLeavesLaterMatch` shows that in a match between two players whose ids are above 2, for example 3 and 4, the turn passes to neither of them.
- **Game over.** A game-over event is a message update whose text is `GAME_OVER:<id>`. There is no separate winner field.
- **Global queries.** `getCurrentPlayerId` and `getCurrentBoard` report on the first started match of the whole service, not on the caller's match.
- **Stale turn.** `removePlayer` resets the turn only when the match becomes empty, and `addPlayer` hands the turn only to the first player of an empty match. So when the turn holder of a started match leaves and a new player takes the seat, the match is started again while the turn belongs to the player who left, and nobody in it can move. `Game.LeaverKeepsTurn` shows this, and the contracts of `LeaveGame` and `JoinGame` carry both halves at service level.

## Model

| member | source | states |
|---|---|---|
| Text.ParseIntRoundTrip | backend/src/main/java/com/sudoku/service/SudokuServiceImpl.java:203-206 | `Integer.parseInt` reads back the exact id that `String.valueOf` printed, so the notify loop finds each player's queue from the player's session id |
| Text.IntToStringInjective | backend/src/main/java/com/sudoku/model/GameState.java:43-44 | two ids have the same decimal form only when they are equal, so removing a player by session id removes only that player |
| Board.BoxSize | backend/src/main/java/com/sudoku/model/GameState.java:94 | for the sizes 4, 9 and 16, `(int) Math.sqrt(size)` is a side b of at least 2 with b * b == size |
| Board.HolesToPunch | backend/src/main/java/com/sudoku/model/SudokuGenerator.java:50 | the number of cells to empty (40 for size 9, otherwise size * size / 2) is positive and below the number of cells |
| Board.BoxStartBounds | backend/src/main/java/com/sudoku/model/GameState.java:94-96 | the box start `x - x % b` of an in-range row is aligned, lies at or before the row, and its box ends inside the board |
| Board.SameBoxIff | backend/src/main/java/com/sudoku/model/SudokuGenerator.java:18-23 | a row belongs to the box that starts at an aligned row s exactly when it lies in [s, s + b) |
| Board.NextBoxStart | backend/src/main/java/com/sudoku/model/SudokuGenerator.java:20 | stepping `box += sqrt` from a diagonal start below size reaches the next start, and the walk stops at size |
| Board.PlacementKeepsRules | backend/src/main/java/com/sudoku/model/GameState.java:56-77 | writing a value into an empty cell, when the value is absent from the cell's row, column and box, keeps the cells in range and free of repeated values |
| Board.ZeroingKeepsRules | backend/src/main/java/com/sudoku/model/SudokuGenerator.java:49-59 | emptying cells never creates a repeated value |
| Board.SingleWriteCells | backend/src/main/java/com/sudoku/model/SudokuGenerator.java:54-56 | a single write that empties a filled cell adds exactly that cell to the empty ones; one that fills an empty cell removes it from them |
| Board.DiagonalBoxesAreIndependent | backend/src/main/java/com/sudoku/model/SudokuGenerator.java:18-23 | when only the diagonal boxes are filled and each box has distinct values, no row or column repeats a value |
| Board.FullBoardCount | backend/src/main/java/com/sudoku/model/SudokuGenerator.java:12-13 | a solved n-by-n board has n * n filled cells and no empty one, so `removeNumbers` can always find cells to empty |
| Board.FreeValueExists | backend/src/main/java/com/sudoku/model/SudokuGenerator.java:29-32 | while fewer than size values are in the box, some value in 1..size is still unused, so the redraw loop of `fillBox` can succeed |
| Board.CellsCount | backend/src/main/java/com/sudoku/model/SudokuGenerator.java:50 | a k-by-m block has k * m cells |
| Board.ValuesCount | backend/src/main/java/com/sudoku/model/SudokuGenerator.java:31 | `nextInt(size) + 1` draws from exactly size values, 1..size |
| Generator.Generate | backend/src/main/java/com/sudoku/model/SudokuGenerator.java:9-16 | the result is a fresh size-by-size board with no repeated value. It has either exactly `HolesToPunch(size)` empty cells, or, after a failed solve, exactly the diagonal boxes filled |
| Generator.FillDiagonal | backend/src/main/java/com/sudoku/model/SudokuGenerator.java:18-23 | on an empty board: exactly the cells of the diagonal boxes are filled, all values are in range, and no value repeats in a row, column or box |
| Generator.SeedDiagonalBox | backend/src/main/java/com/sudoku/model/SudokuGenerator.java:20-21 | one more diagonal box is filled, and the board stays seeded up to the end of that box with distinct box values |
| Generator.DiagonalBoxAdded | backend/src/main/java/com/sudoku/model/SudokuGenerator.java:18-23 | a box filled with distinct values at the next diagonal start extends the seeded region by exactly that box |
| Generator.FillBox | backend/src/main/java/com/sudoku/model/SudokuGenerator.java:25-36 | every cell of the box gets a value in 1..size, no two cells of the box share a value, and every cell outside the box is unchanged |
| Generator.FillBoxRow | backend/src/main/java/com/sudoku/model/SudokuGenerator.java:28-34 | one row of the box is filled left to right with values not yet in the box; only that row changes |
| Generator.IsValidInBox | backend/src/main/java/com/sudoku/model/SudokuGenerator.java:38-47 | true exactly when the number is absent from the sqrt-by-sqrt box, the condition `FillBoxRow` states for its draw |
| Generator.RemoveNumbers | backend/src/main/java/com/sudoku/model/SudokuGenerator.java:49-59 | exactly `HolesToPunch(size)` filled cells become 0; no other cell changes, and the board keeps the rules |
| Generator.SolveSudoku | backend/src/main/java/com/sudoku/model/SudokuGenerator.java:61-87 | keeps the rules and never changes a cell that was filled on entry. A board with no empty cell returns true at once. On true no cell is empty; on false the board equals its input |
| Generator.TryValues | backend/src/main/java/com/sudoku/model/SudokuGenerator.java:79-86 | at an empty cell: keeps the rules and the cells filled on entry. On true no cell is empty; on false every placement was undone. It terminates because each recursive solve sees one empty cell fewer |
| Generator.FindFirstEmpty | backend/src/main/java/com/sudoku/model/SudokuGenerator.java:62-77 | returns the first empty cell in row-major order, or (-1, -1) and false when the board is full |
| Generator.IsSafe | backend/src/main/java/com/sudoku/model/SudokuGenerator.java:89-94 | true exactly when the number is absent from the row, the column and the box at `(row - row % b, col - col % b)` |
| Generator.UsedInRow | backend/src/main/java/com/sudoku/model/SudokuGenerator.java:96-101 | true exactly when the number occurs in the row |
| Generator.UsedInCol | backend/src/main/java/com/sudoku/model/SudokuGenerator.java:103-108 | true exactly when the number occurs in the column |
| Generator.UsedInBox | backend/src/main/java/com/sudoku/model/SudokuGenerator.java:110-118 | true exactly when the number occurs in the box |
| Game.WithoutSession | backend/src/main/java/com/sudoku/model/GameState.java:43-44 | an entry survives exactly when its session id differs from the one removed, and it keeps its session id |
| Game.WithoutSessionIdempotent | backend/src/main/java/com/sudoku/model/GameState.java:43-44 | removing a session twice equals removing it once, and no entry of that session remains |
| Game.NextTurn | backend/src/main/java/com/sudoku/model/GameState.java:142-144 | the next turn is 1 or 2, and it is 2 exactly when the current one is 1 |
| Game.TurnAlternates | backend/src/main/java/com/sudoku/model/GameState.java:142-144 | between the ids 1 and 2 the turn alternates and returns after two switches |
| Game.TurnLeavesLaterMatch | backend/src/main/java/com/sudoku/model/GameState.java:142-144 | in a match between two ids above 2, a switch hands the turn to neither player |
| Game.LeaverKeepsTurn | backend/src/main/java/com/sudoku/model/GameState.java:33-49 | when player 1 holds the turn of a started match with player 2 and leaves, and player 3 joins, the match is started again with the turn still on player 1, who is no longer in it |
| Game.GameState.constructor | backend/src/main/java/com/sudoku/model/GameState.java:15-22 | a new match has the given size, no players, turn -1, is not started, and has a freshly generated board that follows the rules |
| Game.GameState.InitializeBoard | backend/src/main/java/com/sudoku/model/GameState.java:24-26 | the board is replaced by a fresh generated one; players, turn and flag are unchanged |
| Game.GameState.AddPlayer | backend/src/main/java/com/sudoku/model/GameState.java:33-42 | the player is stored under its session id. The first player gets the turn, and the match starts at two players. A second player who is new fills and starts the match |
| Game.GameState.RemovePlayer | backend/src/main/java/com/sudoku/model/GameState.java:43-49 | the players become `WithoutSession`. The turn and the flag are reset only when nobody is left, and otherwise stay as they were |
| Game.GameState.MakeMove | backend/src/main/java/com/sudoku/model/GameState.java:56-62 | succeeds exactly when the move was allowed before the call. Only the target cell changes, and a refused move changes nothing. A board that followed the rules still follows them |
| Game.GameState.IsValidMove | backend/src/main/java/com/sudoku/model/GameState.java:64-77 | true exactly when `MoveAllowed` holds: false out of range, false on a filled cell, and otherwise true when the value is absent from the row, column and box |
| Game.GameState.IsValidInRow | backend/src/main/java/com/sudoku/model/GameState.java:79-84 | true exactly when the value is absent from the row |
| Game.GameState.IsValidInColumn | backend/src/main/java/com/sudoku/model/GameState.java:86-91 | true exactly when the value is absent from the column |
| Game.GameState.IsValidInBox | backend/src/main/java/com/sudoku/model/GameState.java:93-106 | true exactly when the value is absent from the box at `(row - row % b, col - col % b)` |
| Game.GameState.IsComplete | backend/src/main/java/com/sudoku/model/GameState.java:108-115 | true exactly when no cell holds 0 |
| Game.GameState.SetCurrentPlayer | backend/src/main/java/com/sudoku/model/GameState.java:130-132 | the turn becomes the given id; nothing else changes |
| Game.GameState.SetGameStarted | backend/src/main/java/com/sudoku/model/GameState.java:138-140 | the flag becomes the given value; nothing else changes |
| Game.GameState.SwitchTurn | backend/src/main/java/com/sudoku/model/GameState.java:142-144 | the turn becomes `NextTurn` of the old turn; nothing else changes |
| Updates.CreateBoardUpdate | backend/src/main/java/com/sudoku/service/GameUpdate.java:20-22 | the update has the given type and board and no message |
| Updates.CreateMessageUpdate | backend/src/main/java/com/sudoku/service/GameUpdate.java:24-26 | the update has the given type and message and no board |
| Updates.CreateEmptyUpdate | backend/src/main/java/com/sudoku/service/GameUpdate.java:28-30 | the update has the given type and neither a board nor a message |
| Updates.FactoriesAreDistinguishable | backend/src/main/java/com/sudoku/service/GameUpdate.java:13-30 | the three factories never produce the same update |
| Service.GameOverType | backend/src/main/java/com/sudoku/service/SudokuServiceImpl.java:86 | the game-over event type starts with `GAME_OVER:` |
| Service.GameOverNamesWinner | backend/src/main/java/com/sudoku/service/SudokuServiceImpl.java:86 | the text after `GAME_OVER:` parses back to the mover's id |
| Service.UpdateFor | backend/src/main/java/com/sudoku/service/SudokuServiceImpl.java:196-201 | the update built for an event has that event's type |
| Service.EventUpdates | backend/src/main/java/com/sudoku/service/SudokuServiceImpl.java:196-201 | the GAME_START, MOVE_MADE and PLAYER_DISCONNECTED updates carry the board. A game-over update carries its own type as the message, and that message names the mover |
| Service.Delivered | backend/src/main/java/com/sudoku/service/SudokuServiceImpl.java:203-208 | each recipient with a queue gets the update once, at the tail; every other queue is unchanged and no queue is added |
| Service.DeliveredStep | backend/src/main/java/com/sudoku/service/SudokuServiceImpl.java:203-208 | offering to one more recipient extends the delivery by that recipient's queue alone |
| Service.AfterMove | backend/src/main/java/com/sudoku/service/SudokuServiceImpl.java:83-87 | the notifications of an accepted move add no queue and remove none |
| Service.MoveNotices | backend/src/main/java/com/sudoku/service/SudokuServiceImpl.java:81-88 | each player's queue grows by exactly MOVE_MADE with the board, then GAME_OVER naming the mover after a completing move; no other queue changes |
| Service.FirstIndexIn | backend/src/main/java/com/sudoku/service/SudokuServiceImpl.java:212-216 | the position of the first game id in the order with the property, or the length of the order when there is none |
| Service.Without | backend/src/main/java/com/sudoku/service/SudokuServiceImpl.java:167 | removing a game id from the order keeps every other id, and keeps them in order |
| Service.HeadBelowRest | backend/src/main/java/com/sudoku/service/SudokuServiceImpl.java:217-218 | in creation order, the oldest id is below every later one |
| Service.AppendAbove | backend/src/main/java/com/sudoku/service/SudokuServiceImpl.java:217-218 | appending a fresh id above all existing ones keeps the order increasing |
| Service.RemoveOwnSession | backend/src/main/java/com/sudoku/service/SudokuServiceImpl.java:164 | removing a player's own session id removes that player and nobody else |
| Service.OfferToAll | backend/src/main/java/com/sudoku/service/SudokuServiceImpl.java:203-208 | the notify loop, which reads each id back from its session id, gives exactly `Delivered` to the match's players |
| Service.SeatNewPlayer | backend/src/main/java/com/sudoku/service/SudokuServiceImpl.java:55 | seating a new player in a match with room keeps at most two players, each under its own session id, and adds one player |
| Service.UnseatPlayer | backend/src/main/java/com/sudoku/service/SudokuServiceImpl.java:164 | removing a player by session id removes exactly that player and keeps the match's player invariant |
| Service.AppendFreshId | backend/src/main/java/com/sudoku/service/SudokuServiceImpl.java:217-218 | a new game under the next fresh id, appended to the order, keeps the order complete and increasing |
| Service.DropId | backend/src/main/java/com/sudoku/service/SudokuServiceImpl.java:167 | removing a game id from the map and the order keeps them in agreement |
| Service.DeliveryIsFifo | backend/src/main/java/com/sudoku/service/SudokuServiceImpl.java:181-206 | popping the head and delivering commute: the head polled is unchanged by later deliveries, so queues are first in, first out |
| Service.ReleaseGame | backend/src/main/java/com/sudoku/service/SudokuServiceImpl.java:167 | taking a match and its board out leaves the remaining matches owned and disjoint |
| Service.AdoptGame | backend/src/main/java/com/sudoku/service/SudokuServiceImpl.java:218 | a new match whose objects are fresh joins the owned matches |
| Service.OwnedLater | backend/src/main/java/com/sudoku/service/SudokuServiceImpl.java:50 | handing out a further player id keeps every match's invariant |
| Service.SudokuService.constructor | backend/src/main/java/com/sudoku/service/SudokuServiceImpl.java:17-24 | a new service is valid, has no games, routes or queues, and has counter 0 |
| Service.SudokuService.GenerateBoard | backend/src/main/java/com/sudoku/service/SudokuServiceImpl.java:26-45 | `generateBoard4x4/9x9/16x16`: a fresh board of the size, generated as the generator promises |
| Service.SudokuService.NotifyAllPlayers | backend/src/main/java/com/sudoku/service/SudokuServiceImpl.java:192-209 | a missing match notifies nobody. Otherwise the update for the type is `Delivered` to the match's players, and the service stays valid |
| Service.SudokuService.FindOrCreateGame | backend/src/main/java/com/sudoku/service/SudokuServiceImpl.java:211-220 | returns the first match in creation order that is not full, changing nothing. Otherwise it creates an empty, unstarted 9x9 match under the next fresh id, appended to the order |
| Service.SudokuService.AddGame | backend/src/main/java/com/sudoku/service/SudokuServiceImpl.java:217-219 | a fresh empty 9x9 match with turn -1, under the next id, appended to the order, and owned by the service |
| Service.SudokuService.GameAdded | backend/src/main/java/com/sudoku/service/SudokuServiceImpl.java:217-219 | adding a fresh empty match under the next id, last in the order, keeps the service valid |
| Service.SudokuService.GameChanged | backend/src/main/java/com/sudoku/service/SudokuServiceImpl.java:55-60 | a change confined to one match and its board (possibly a fresh board) keeps the service valid |
| Service.SudokuService.QueuesChanged | backend/src/main/java/com/sudoku/service/SudokuServiceImpl.java:206 | offering to existing queues keeps the service valid |
| Service.SudokuService.EntriesDropped | backend/src/main/java/com/sudoku/service/SudokuServiceImpl.java:160-171 | dropping routes or queues keeps the service valid |
| Service.SudokuService.PlayerNumbered | backend/src/main/java/com/sudoku/service/SudokuServiceImpl.java:50-51 | the next player id with an empty queue keeps the service valid and does not change which match will be chosen |
| Service.SudokuService.Seat | backend/src/main/java/com/sudoku/service/SudokuServiceImpl.java:54-56 | the player joins the chosen match under its decimal session id, and the match has one player more. The first player takes the turn. The player is routed to the match |
| Service.SudokuService.StartMatch | backend/src/main/java/com/sudoku/service/SudokuServiceImpl.java:58-62 | a match that a join filled gets a fresh generated board and the started flag, and each of its players gets GAME_START with the new board behind the updates already queued |
| Service.SudokuService.Restart | backend/src/main/java/com/sudoku/service/SudokuServiceImpl.java:59-60 | the board is replaced by a fresh generated one and the flag is set; players and turn are unchanged |
| Service.SudokuService.SeatPlayer | backend/src/main/java/com/sudoku/service/SudokuServiceImpl.java:54-62 | the player is seated and routed. The player takes the turn when the match was empty; otherwise the turn stays with whoever held it. A match that is now full has started with a fresh board and GAME_START sent; otherwise no queue changed. The service gains only fresh objects |
| Service.SudokuService.PlacePlayer | backend/src/main/java/com/sudoku/service/SudokuServiceImpl.java:53-62 | the player is seated in the match `findOrCreateGame` chooses: the first with room, or a new 9x9 one appended to the order. The turn goes to the player only in an empty match and otherwise stays with whoever held it. The service gains only fresh objects |
| Service.SudokuService.JoinGame | backend/src/main/java/com/sudoku/service/SudokuServiceImpl.java:47-68 | returns the next id, old counter + 1, which had no route and no queue and now has an empty queue. The player is routed to and seated in the chosen match, which is a new 9x9 match when none had room. The turn goes to the player only in an empty match and otherwise stays with whoever held it. A match the join fills starts with a fresh board and sends GAME_START once to each of its players. The service gains only fresh objects, so further operations can follow. No match exceeds two players (`Valid`) |
| Service.SudokuService.MakeMove | backend/src/main/java/com/sudoku/service/SudokuServiceImpl.java:70-94 | false, with no board, turn or queue changed, when the player has no route or match, the match is not started, the player is out of turn, or the board refuses the move. Otherwise only the one cell changes, the turn passes, the match's players get MOVE_MADE, then GAME_OVER naming the mover when the board is full, and the rules are kept |
| Service.SudokuService.PlayMove | backend/src/main/java/com/sudoku/service/SudokuServiceImpl.java:81-89 | the move of the player holding the turn succeeds exactly when the board allows it. Only then do the turn and the queues change |
| Service.SudokuService.Advance | backend/src/main/java/com/sudoku/service/SudokuServiceImpl.java:81-82 | the cell is written and the turn passed exactly when the move was allowed; other cells, players and flag are unchanged |
| Service.SudokuService.Announce | backend/src/main/java/com/sudoku/service/SudokuServiceImpl.java:83-87 | the queues become `AfterMove`: MOVE_MADE, then GAME_OVER when the board is full |
| Service.SudokuService.FirstStartedExists | backend/src/main/java/com/sudoku/service/SudokuServiceImpl.java:110-136 | a first started match in creation order exists exactly when some match has started, and it is one of the started ones |
| Service.SudokuService.IsGameReady | backend/src/main/java/com/sudoku/service/SudokuServiceImpl.java:96-108 | true exactly when some match is started and full |
| Service.SudokuService.GetCurrentPlayerId | backend/src/main/java/com/sudoku/service/SudokuServiceImpl.java:110-122 | -1 when no match has started; otherwise the turn of the first started match in creation order |
| Service.SudokuService.GetCurrentBoard | backend/src/main/java/com/sudoku/service/SudokuServiceImpl.java:124-136 | an error when no match has started; otherwise the board of the first started match |
| Service.SudokuService.GetGameStatus | backend/src/main/java/com/sudoku/service/SudokuServiceImpl.java:138-155 | "not in a game" for an unrouted player, then "game does not exist", "waiting", "your turn" or "other player's turn", in the source's order. "Your turn" is given exactly when `makeMove` would pass its gates |
| Service.SudokuService.LeaveGame | backend/src/main/java/com/sudoku/service/SudokuServiceImpl.java:157-175 | the route and queue are gone. If the match exists, exactly the leaver is removed, PLAYER_DISCONNECTED goes to the players who remain, and an empty match is removed from the games and the order. A match that keeps players keeps its board cells, its turn (even the leaver's) and its started flag. The service's objects only shrink and the game counter is unchanged. A second leave changes no field and no object |
| Service.SudokuService.Depart | backend/src/main/java/com/sudoku/service/SudokuServiceImpl.java:161-169 | inside an existing match: the leaver is removed and the others notified; the match and its objects go once it is empty, and otherwise the match keeps its turn and started flag |
| Service.SudokuService.Withdraw | backend/src/main/java/com/sudoku/service/SudokuServiceImpl.java:164-165 | exactly the leaver leaves the match, and the players who remain get PLAYER_DISCONNECTED. The turn and the flag are reset when the match is empty and unchanged otherwise |
| Service.SudokuService.Unseat | backend/src/main/java/com/sudoku/service/SudokuServiceImpl.java:164 | exactly the leaver leaves. An empty match resets its turn to -1 and clears its flag; otherwise both are unchanged |
| Service.SudokuService.DropGame | backend/src/main/java/com/sudoku/service/SudokuServiceImpl.java:166-167 | the match leaves the games, the order and the service's objects, and the service stays valid |
| Service.SudokuService.GameRemoved | backend/src/main/java/com/sudoku/service/SudokuServiceImpl.java:167 | removing a match with its objects, and nothing else, keeps the service valid |
| Service.SudokuService.GetUpdate | backend/src/main/java/com/sudoku/service/SudokuServiceImpl.java:176-190 | pops and returns the oldest update of a non-empty queue. With a missing or empty queue it returns NO_UPDATE with neither board nor message and changes nothing |

## Left out
- Concurrency: `synchronized`, the concurrent maps and the blocking queues are not modelled. Every operation is one atomic step, including the unsynchronized `getGameStatus`, `leaveGame` and `getUpdate`.
- `getUpdate`'s timed poll becomes "pop if non-empty, otherwise NO_UPDATE". The `InterruptedException` path that returns an ERROR update is not modelled, because it depends on threads.
- The `RemoteException` wrapping of every service operation is not modelled, and neither is logging (`System.out.println` in `addPlayer`). `getCurrentBoard`'s failure is the `Err` result carrying the message the caller sees.
- Game ids are fresh increasing numbers, not random UUIDs. The iteration order of the concurrent map is modelled as creation order.
- Service.SudokuService.JoinGame: the player counter is an unbounded integer, so the wrap-around of Java's 32-bit `++lastPlayerId` after 2^31 - 1 joins is not modelled.
- Service.SudokuService.JoinGame: the contract does not say that matches other than the chosen one are left untouched. Only the `modifies` frame bounds them, because stating it made the proof too expensive.
- Service.SudokuService.PlacePlayer: the contract does not say that matches other than the chosen one are left untouched. Only the `modifies` frame bounds them, because stating it made the proof too expensive.
- Service.SudokuService.LeaveGame: the contract does not say that matches other than the leaver's are left untouched. Only the `modifies` frame bounds them, because stating it made the proof too expensive.
- Game.GameState.constructor: requires a size of 4, 9 or 16. For other sizes, `Math.sqrt` truncates and the generator's behaviour is not modelled.
- `java.util.Random` becomes a nondeterministic choice. `fillBox` chooses directly a value the redraw loop would accept, and `removeNumbers` chooses directly a filled cell. The number of random retries is not modelled.
- Generator.RemoveNumbers: requires at least `HolesToPunch(size)` filled cells, since otherwise the source loops forever. `generate` calls it only on a solved board, which has enough.
- `Valid` tracks the shape of every live board and the player maps, not the Sudoku rules of live boards. Moves keep the rules of a board that followed them (Service.SudokuService.MakeMove). `Valid` does not state that a routed player sits in the match it is routed to.
- Text.ParseInt: reads ASCII digits only, so the non-ASCII Unicode digits that `Integer.parseInt` also accepts are not modelled. It reads numbers of any length, so the 32-bit range check of `Integer.parseInt` is not modelled. The service only parses the decimal forms of its own ids.
- The getters and setters `getBoard`, `getPlayers`, `getSize` and `setBoard` are plain field reads and writes. The model reads the fields directly, and `setBoard` is not called by the core.
- The RMI client, the WebSocket server, the server bootstrap, the RMI interface, `Player` and the whole frontend are not part of this model.
