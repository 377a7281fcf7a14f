# Two-player tic-tac-toe: board and turn logic

`index.js` is a browser tic-tac-toe game for two people at one screen. Under
its DOM calls sits a small state machine: a nine-cell grid `gameGrid` whose
cells are `""`, `"X"` or `"O"`, the player to move `currentPlayer`, the message
shown in the game-info box, and a lock that disables every box once a line is
won. This project models that state machine and proves what it does.

- `board.dfy`, module `Board`: players, cells, the eight `winningPositions`
  in their declared order, the line test of `checkGameOver`, the value its
  `answer` ends with after the `forEach` scan (`LastMatch`, `Answer`), the
  fill count (`Filled`) and the counting of marks (`Count`, `Balanced`).
- `game.dfy`, module `Game`: the three messages (`Status`, with `Render`
  giving their exact texts), the status the game-over check leaves
  (`CheckedStatus`), the invariant of every reachable state (`Consistent`),
  and the class `Game` whose fields are the grid (`array<Cell>` of length 9),
  the player to move, the status and the `accepting` lock, with methods
  `Init`, `SwapTurn`, `CheckGameOver`, `HandleClick` and `Click`.

Details of the code that the model keeps:

- `checkGameOver`'s scan has no early exit: every matching line overwrites
  `answer`, so it ends as the mark of the last matching line in declared
  order (`Board.LastMatch`; `Board.LaterLineOverwrites` shows it on a grid no game reaches). On every reachable
  state all matching lines carry the mark of the player who moved last, so
  the order does not change the winner (`Game.WinnerIsLastMover`).
- The tie message is written after the winner message: when the ninth mark
  completes a line, the message is "Game Tied !" although `answer` holds the
  winner (`Game.CheckedStatusCases`, `Game.TieHidesWin`).
- `handleClick` swaps the turn before checking for game over, so the status
  written by `swapTurn` names the next player and is then overwritten only by
  a win or a tie.
- A winning line sets the lock (every box's pointer events off); `initGame`
  lifts it. `Game.Click` is a click as the page delivers it: ignored while
  locked, otherwise `handleClick`. `Game.HandleClick` is `handleClick` itself:
  an occupied box, or an index off the grid (where `gameGrid[index]` is
  `undefined`, not `""`), changes nothing.
- `initGame` assigns a new array to `gameGrid`; `Game.Init` allocates a fresh
  one.

The code does not return the first winning line, does not treat a full grid
with a winner as a win, and has no error result for an occupied or
out-of-range box; the model follows the code on all three.

## Model

| member | source | states |
|---|---|---|
| `Board.Other` | index.js:45-51 | the swapped player differs from the one before |
| `Board.OtherTwice` | index.js:45-51 | swapping twice gives back the original player |
| `Board.LineMatchesIffSameMark` | index.js:62-64 | a line passes the test (one cell non-empty, all three equal) exactly when its three cells hold one and the same mark |
| `Board.LineWinner` | index.js:66-70 | the mark recorded for a matching line is the mark in all three of its cells |
| `Board.LastMatch` | index.js:58-84 | after visiting the first k lines, `answer` is empty exactly when none of them matched, and otherwise is the mark of a matching line after which no visited line matches |
| `Board.AnswerSpec` | index.js:57-84 | after the full scan, `answer` is non-empty exactly when some winning line matches, and is the mark of the last matching line |
| `Board.LaterLineOverwrites` | index.js:60-84 | with a row of X and a later row of O both matching, the scan ends with O |
| `Board.Filled` | index.js:95-99 | the fill count is at most the number of cells and equals it exactly when no cell is empty |
| `Board.FilledIsMarkCount` | index.js:95-99 | the fill count is the number of X marks plus the number of O marks |
| `Board.CountUpdate` | index.js:111 | writing one cell changes the count of a value by what was overwritten and what was written |
| `Board.CountAbsent` | index.js:25 | a value no cell holds is counted zero times |
| `Board.EmptyGridBalanced` | index.js:24-25 | a new game has no marks and is balanced with X to move |
| `Board.PlaceKeepsBalance` | index.js:109-115 | placing the mover's mark on an empty cell and swapping the turn keeps "X count equals O count with X to move, or exceeds it by one with O to move" |
| `Board.FullGridMarks` | index.js:95-105 | a full balanced grid holds five X and four O, with O to move |
| `Board.PlaceMatches` | index.js:109-111 | a write to an empty cell keeps every matching line and its mark, and every line it newly makes match passes through that cell and carries the written mark |
| `Game.Render` | index.js:39-103 | the three messages read "Current Player - ", "Winner Player - " followed by the mark of the named player as the last character, and "Game Tied !" |
| `Game.RenderInjective` | index.js:39-103 | different statuses show different texts |
| `Game.CheckedStatusCases` | index.js:86-105 | after a move the message is the tie exactly when every cell is filled, even if a line matches; a winner exactly when a line matches and a cell is empty, naming the scan's answer; otherwise the player to move |
| `Game.InitialConsistent` | index.js:23-39 | the state `initGame` creates satisfies the reachable-state invariant |
| `Game.MoveKeepsConsistent` | index.js:108-119 | an accepted move on an empty cell keeps the invariant: balanced marks, the message the check leaves, lock on exactly when a line matches, all matching lines owned by the last mover |
| `Game.WinnerIsLastMover` | index.js:57-105 | on a reachable state the scan's answer is empty or the last mover's mark, the lock is on exactly when it is that mark, a winner message names the last mover, and a tie is shown only with O to move |
| `Game.TieHidesWin` | index.js:86-105 | on the grid where X's ninth mark completes the diagonal 0-4-8 after no earlier win, the answer is X and the message is the tie |
| `Game.Game.constructor` | index.js:42 | loading the page starts a game: fresh empty grid, X to move, "Current Player - X", input accepted, state reachable |
| `Game.Game.Init` | index.js:23-40 | a fresh empty grid, X to move, "Current Player - X", the lock lifted, and a reachable state |
| `Game.Game.SwapTurn` | index.js:45-54 | the player becomes the other one (and swapping back restores it), and the message names the new player |
| `Game.Game.CheckGameOver` | index.js:57-106 | input stays accepted exactly when it was accepted and no line matches; the message becomes the winner for a found answer, then the tie for a full grid, and otherwise stays as it was; grid and player untouched |
| `Game.Game.HandleClick` | index.js:108-120 | on an empty box in range: that cell gets the pre-call player's mark, every other cell keeps its value, the turn swaps, and status and lock are what the game-over check leaves; otherwise grid, player, status and lock are unchanged |
| `Game.Game.Click` | index.js:123-127 | a click while locked changes nothing; otherwise it acts as `handleClick`; every reachable state stays reachable |

## Left out

- DOM access: querying the boxes, the game-info box and the new-game button, `innerText`/`innerHTML`, the `classList` resets, the "win" highlighting of the matching boxes and the new-game button's "active" class. Only the message (as `Status`) and the lock are kept.
- The per-box `pointerEvents = "none"` on the clicked box: a filled box is already refused by the empty-cell test in `handleClick`.
- Event listener wiring: clicks are calls to `Game.Click` (or `Game.HandleClick`), a new game is a call to `Game.Init`.
- There is no computer opponent, minimax search, difficulty level or thinking delay in `index.js`, so none is modelled.
- Game.TieHidesWin: the scenario is stated on the concrete grids before and after X's ninth mark, not as a sequence of nine calls to `Game.Click`; the general rule is `Game.CheckedStatusCases`.
