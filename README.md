# Tic-tac-toe rule core in Dafny

This project models the game logic of a React tic-tac-toe page (`src/index.tsx`). It leaves out the rendering.

- **Board** (`board.dfy`) models the board and the win rule. A square is `Empty`, `X` or `O`; `Empty` stands for the source's `null`. `calculateWinner` scans eight fixed lines in order: three rows, three columns, two diagonals. It returns the mark of the first line whose three squares hold the same mark. The model has two parts:
  - `WinnerFrom`/`Winner`, a recursive specification of that scan;
  - `CalculateWinner`, the source's loop with its early return, proved equal to the specification.

  The lemmas characterise the result:
  - it is `Empty` exactly when no line is complete;
  - a reported mark fills a complete line;
  - of several complete lines, the first listed one decides;
  - a winner holds at least three squares.
- **TicTacToe** (`game.dfy`) models the `Game` component as a class with the component's three state fields: `history` (the boards so far), `stepNumber` (the board shown) and `xIsNext`.
  - `HandleClick` is the click on a square. It discards the boards after the shown one and copies the shown board into a fresh array. It does nothing when the board is already won or the square is taken. Otherwise it writes the mover's mark, appends the new board, advances the cursor and flips the turn.
  - `JumpTo` moves the cursor and recomputes the turn from its parity.
  - `CurrentStatus` derives the status line: the winner or the next player.

The class invariant `Valid()` is kept by every transition. It says:
- the cursor lies inside the history;
- `xIsNext` is the parity of the cursor;
- the history is one that legal play produces (`ValidHistory`).

`ValidHistory` in turn says:
- the history starts from the empty board;
- each board is the previous one plus one mark of the player whose turn it was;
- no board but the last has a winner;
- board `k` holds `(k + 1) / 2` X marks and `k / 2` O marks;
- every complete line on a board carries the winner's mark.

From this invariant the model proves several game facts:
- a reported winner is always the player who made the last move;
- nobody can win before the fifth move;
- X is to move exactly when X and O have the same number of marks.

## Model

| member | source | states |
|---|---|---|
| `Board.Lines` | src/index.tsx:18-27 | the eight index triples in the source's order: three rows, three columns, two diagonals |
| `Board.EmptyBoard` | src/index.tsx:74 | the start board `Array(9).fill(null)`: nine squares, all `Empty` |
| `Board.WinnerFrom` | src/index.tsx:28-34 | the scan from line `k` as a recursive function: the first complete line's mark, or `Empty` once the table is exhausted. It has no contract of its own; `WinnerFromSound`, `WinnerFromEmpty` and `WinnerFromFirst` characterise it |
| `Board.Winner` | src/index.tsx:17-35 | `calculateWinner` as the scan from line 0. It has no contract of its own; `NoWinnerIffNoLine`, `WinnerFillsLine` and `WinnerIsFirstLine` characterise it |
| `Board.CalculateWinner` | src/index.tsx:17-35 | the loop over the eight lines with its early return yields exactly `Winner(squares)`, the mark of the first complete line or `Empty` |
| `Board.WinnerFromSound` | src/index.tsx:28-32 | any mark the scan reports from line `k` on is the mark held by all three cells of a complete line at index `k` or later |
| `Board.WinnerFromEmpty` | src/index.tsx:28-34 | the scan from line `k` reports no winner if and only if no line from `k` on is complete |
| `Board.WinnerFromFirst` | src/index.tsx:28-32 | when line `j` is the first complete line from `k` on, the scan reports line `j`'s mark |
| `Board.NoWinnerIffNoLine` | src/index.tsx:18-34 | `calculateWinner` returns `null` if and only if none of the eight lines holds three equal non-null marks |
| `Board.WinnerFillsLine` | src/index.tsx:28-32 | a non-null result is `X` or `O` and is the mark filling one of the eight lines |
| `Board.WinnerIsFirstLine` | src/index.tsx:28-32 | if several lines are complete, the result is the mark of the first one in the listed order |
| `Board.EmptyBoardHasNoWinner` | src/index.tsx:74 | the all-null start board has no winner |
| `Board.LineAloneWins` | src/index.tsx:18-31 | for each of the eight lines, a board with one mark on that line and nothing else is won by that mark |
| `Board.DrawnBoardHasNoWinner` | src/index.tsx:28-34 | every full board with no complete line (a draw) reports no winner |
| `Board.DrawExample` | src/index.tsx:28-34 | the drawn board X O X / X O O / O X X reports no winner |
| `Board.WinnerHasThreeMarks` | src/index.tsx:28-32 | a winner holds at least three squares, so a board with fewer than three of each mark has no winner |
| `Board.MoveWinsOnlyForMover` | src/index.tsx:82-85 | writing a mark into an empty square of an unwon board can only complete lines of that mark: afterwards every complete line is the mover's and the winner is the mover or nobody |
| `Board.CountAfterMove` | src/index.tsx:85 | writing a mark into an empty square adds exactly one of that mark and leaves the other mark's count unchanged |
| `TicTacToe.Player` | src/index.tsx:85 | the mark written for `xIsNext ? 'X' : 'O'` is never empty |
| `TicTacToe.InitialHistoryValid` | src/index.tsx:70-76 | the start history, a single all-null board, satisfies the history invariant |
| `TicTacToe.PrefixValid` | src/index.tsx:79 | truncating a valid history to its first `n >= 1` boards leaves a valid history |
| `TicTacToe.MoveKeepsBoardAt` | src/index.tsx:82-85 | a legal move from the board at step `n` gives a board fit for step `n + 1` (mark counts and single winner), reached by one move of the right player |
| `TicTacToe.AppendValid` | src/index.tsx:88-94 | appending a board that legally follows the last one keeps the history valid |
| `TicTacToe.MoveExtendsValid` | src/index.tsx:78-95 | appending the last board with the mover's mark in an empty square, when that board is unwon, keeps the history valid |
| `TicTacToe.OnlyLastBoardWon` | src/index.tsx:82-84 | in a valid history only the last board can have a winner: play stops at the first win |
| `TicTacToe.WinnerMadeLastMove` | src/index.tsx:82-94 | a board of a valid history that has a winner is the last one, is not the start board, and its winner is the player who made the move before it |
| `TicTacToe.NoWinBeforeFifthMove` | src/index.tsx:82 | the boards at steps 0 to 4 of a valid history have no winner |
| `TicTacToe.TurnMatchesBoard` | src/index.tsx:86-87 | on the board at step `k`, X is to move (`k` even) exactly when X and O have the same number of marks |
| `TicTacToe.Game.constructor` | src/index.tsx:70-76 | a new game holds one empty board, shows step 0 with X to move, and satisfies the invariant |
| `TicTacToe.Game.HandleClick` | src/index.tsx:78-95 | if the shown board is won or square `i` is taken, nothing changes. Otherwise the history becomes its first `stepNumber + 1` boards plus the shown board with the mover's mark at `i`, `stepNumber` grows by one to the new last index, and `xIsNext` flips; the invariant is kept |
| `TicTacToe.Game.JumpTo` | src/index.tsx:97-100 | the history is unchanged, `stepNumber` becomes `step` and `xIsNext` becomes `step % 2 == 0`; the invariant is kept |
| `TicTacToe.Game.CurrentStatus` | src/index.tsx:102-119 | `Won(w)` exactly when the shown board has a winner `w`, which is the player not to move. Otherwise `Next(p)`, where `p` is `X` when `xIsNext` and `X` exactly when X and O have equally many marks |
| `TicTacToe.TopRowWin` | src/index.tsx:78-95 | X at 0, O at 4, X at 1, O at 7 and X at 2 gives the status "X wins"; a further click at 3 leaves the history at five moves |
| `TicTacToe.RewindDiscardsRedo` | src/index.tsx:78-100 | three moves, a jump back to step 1, then a move leaves three boards with the cursor on the last, and X to move |

## Left out

- Rendering is not modelled: the `Square` and `Board` components, the move list and the status text (src/index.tsx:37-67, 105-112, 121-131). The status is the datatype `Won(mark) | Next(mark)` rather than a display string.
- Page bootstrap is not modelled: the React and stylesheet imports and `ReactDOM.render` (src/index.tsx:1-3, 136).
- React's `useState` setters and their batching are not modelled. Each of `HandleClick` and `JumpTo` is one atomic update of the three fields.
- Out-of-range arguments are excluded by `requires`. The square index is the type `Cell` (0 to 8), and `JumpTo` requires `step < |history|`. The source never checks either; the page only offers valid squares and steps. Defensive bounds checks would be a design change, not the source's behaviour.
- Draws are not a status, because the source has none. A full board with no winner keeps reporting the next player, and every further click is refused because each square is taken.
- The source stores each history entry as a record `{ squares }`; the model stores the board itself. The board is a value (`seq`), so history entries cannot be aliased or mutated. This matches the `slice()` copy the source makes before writing.
