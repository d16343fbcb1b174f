# Tic-tac-toe rule engine and minimax search, in Dafny

This project models `tictactoe/tictactoe.py`. That file is a tic-tac-toe player made of two parts:

- **The rule engine.** It covers the starting board, whose turn it is, the legal moves, the board after a move, the winner, the end of the game and the numeric outcome.
- **An exhaustive minimax search.** `max_value` and `min_value` call each other to value a position. `minimax` uses them to pick the move for the player whose turn it is.

Every operation is a pure function or method over immutable values, and each carries a contract. Lemmas relate the operations to independent descriptions of what they compute.

Modules:

- `Wrappers` (`wrappers.dfy`): `Option`, and `Outcome` for an operation that can fail.
- `Board` (`board.dfy`):
  - the cell type, a board as three rows of three cells, and moves;
  - counting the marks;
  - `initial_state` and `player`.
- `Rules` (`rules.dfy`):
  - `actions`, enumerated in row-major order;
  - `result`, which fails with `IllegalMove` on a move that is not legal;
  - `winner`, with an independent eight-line reference scan;
  - `terminal` and `utility`.
- `Search` (`search.dfy`):
  - `max_value` and `min_value`, as folds over the replies to the legal moves;
  - the selection loop of `minimax`;
  - the optimality of the move it returns.
- `Scenarios` (`scenarios.dfy`): concrete positions that pin the general contracts down to definite answers.

Modelling choices:

- **The board is a value.** `copy.deepcopy` in `result` therefore becomes plain value semantics: a successor board never shares state with its predecessor.
- **Moves have unbounded integer coordinates.** This lets a move off the board reach the `IllegalMove` error path, as a tuple outside the action set does in the source.
- **The move set is a fixed sequence.** The source iterates `actions(board)` as an unordered set. The model enumerates it as a sequence in row-major order and proves two facts about it: its elements are exactly the legal moves, and it has no duplicates.
- **Ties go to the first move.** `minimax` keeps a move only when its value is strictly better. Among equally good moves it therefore returns the first in row-major order, and the contract says so.
- **The infinite sentinels are integers.** The loops in the source start from `float('-inf')` and `float('inf')`. Here they start from the integers -2 and 2 (`Search.NegInf`, `Search.PosInf`), which lie below and above every utility.
- **`utility` is total.** It is defined on every board, not only on finished ones, and the model keeps that.
- **`winner` has a fixed line order.** It tests columns, then rows, then the main diagonal, then the anti-diagonal. `Rules.WinnerFollowsLineOrder` proves that the model keeps this order.

## Model

| member | source | states |
|---|---|---|
| Board.InitialState | tictactoe/tictactoe.py:12-18 | every one of the nine cells is empty; neither mark appears |
| Board.InitialStateIsBalanced | tictactoe/tictactoe.py:21-27 | the starting board is balanced and X moves first on it |
| Board.CountCells | tictactoe/tictactoe.py:32-37 | the count of a mark in one row is at most the row length; it is zero exactly when the mark is absent and full exactly when every cell holds it |
| Board.CountCellsIsMultiplicity | tictactoe/tictactoe.py:32-37 | the count of a mark in one row equals the mark's multiplicity in the row's multiset of cells |
| Board.CountRows | tictactoe/tictactoe.py:32-37 | the count over rows i..2 is at most three per row and zero exactly when no cell of those rows holds the mark |
| Board.Count | tictactoe/tictactoe.py:30-37 | the board count of a mark is at most nine and zero exactly when no cell holds it |
| Board.CountCellsUpdate | tictactoe/tictactoe.py:68 | overwriting one cell of a row changes a mark's count by the cell's loss and gain only |
| Board.CountRowsUpdate | tictactoe/tictactoe.py:68 | overwriting one cell changes the count of the rows that contain it by that cell's loss and gain, and leaves the other rows' count alone |
| Board.CountUpdate | tictactoe/tictactoe.py:68 | overwriting one cell changes a board count by the cell's loss and gain only |
| Board.Player | tictactoe/tictactoe.py:21-42 | O moves exactly when X has more marks than O; X moves otherwise, including on ties. The special case for the starting board agrees with this rule |
| Board.BalancedTurn | tictactoe/tictactoe.py:39-42 | on a balanced board X moves exactly when the counts tie, and O exactly when X has one mark more |
| Rules.RowActions | tictactoe/tictactoe.py:52-54 | the moves collected from one row, from column j on, are exactly that row's empty cells from j on; every one is legal and their number is the row's empty count |
| Rules.RowActionsOrdered | tictactoe/tictactoe.py:52-54 | one row's moves come out left to right |
| Rules.ActionsFrom | tictactoe/tictactoe.py:51-54 | the moves from rows i..2 are exactly the legal moves in those rows; their number is those rows' empty count |
| Rules.ActionsFromOrdered | tictactoe/tictactoe.py:51-54 | rows i..2 are enumerated in strictly increasing row-major order |
| Rules.Actions | tictactoe/tictactoe.py:45-56 | a move is listed exactly when it is on the board and its cell is empty; the list is as long as the number of empty cells, so it is empty exactly when the board is full |
| Rules.ActionsInRowMajorOrder | tictactoe/tictactoe.py:51-54 | the moves are listed in strictly increasing row-major order, so no move appears twice |
| Rules.PrependOrdered | tictactoe/tictactoe.py:52-54 | a move that precedes every move of an ordered list keeps the list ordered when put in front, as each row's scan adds its leftmost free cell before the rest |
| Rules.JoinMoves | tictactoe/tictactoe.py:51-54 | one row's free cells followed by the legal moves of the rows below are exactly the legal moves from that row on |
| Rules.JoinRows | tictactoe/tictactoe.py:51-52 | appending the moves of later rows after one row's moves keeps the list in row-major order |
| Rules.Apply | tictactoe/tictactoe.py:67-69 | the chosen cell of the successor holds the mark of the player to move |
| Rules.ApplyLeavesOtherCells | tictactoe/tictactoe.py:67-68 | every other cell of the successor equals the same cell of the original board |
| Rules.ApplyFillsOneCell | tictactoe/tictactoe.py:67-68 | a move lowers the number of empty cells by exactly one |
| Rules.ApplyCounts | tictactoe/tictactoe.py:68 | the mover gains exactly one mark and the opponent's count is unchanged |
| Rules.ApplyKeepsBalance | tictactoe/tictactoe.py:21-42 | a legal move on a balanced board gives a balanced board on which the other player moves |
| Rules.Result | tictactoe/tictactoe.py:59-69 | fails with IllegalMove exactly when the move is off the board or its cell is taken; otherwise returns the successor board |
| Rules.FullBoardRefusesEveryMove | tictactoe/tictactoe.py:63-65 | on a full board every move is refused |
| Rules.ColumnWinner | tictactoe/tictactoe.py:76-84 | the column test reports only a mark that fills a column from i on, and reports nothing exactly when no such column is complete |
| Rules.RowWinner | tictactoe/tictactoe.py:86-94 | the row test reports only a mark that fills a row from i on, and reports nothing exactly when no such row is complete |
| Rules.Winner | tictactoe/tictactoe.py:72-113 | a reported winner is X or O, never the empty cell |
| Rules.WinnerOwnsALine | tictactoe/tictactoe.py:72-113 | the winner owns a complete row, column or diagonal; there is no winner exactly when neither mark owns one; if only one mark owns a line, that mark is the winner |
| Rules.ScanLines | tictactoe/tictactoe.py:76-111 | the reference scan over the eight lines finds a mark exactly when one of the remaining lines is complete |
| Rules.ColumnsScan | tictactoe/tictactoe.py:76-84 | scanning the column lines agrees with the column test and falls through to the rows when no column is complete |
| Rules.RowsScan | tictactoe/tictactoe.py:86-94 | scanning the row lines agrees with the row test and falls through to the diagonals when no row is complete |
| Rules.WinnerBeforeDiagonals | tictactoe/tictactoe.py:72-113 | when no column and no row is complete, `winner` gives what the scan of the two diagonal lines gives; otherwise it gives the first complete column, or else the first complete row |
| Rules.DiagonalsScan | tictactoe/tictactoe.py:96-113 | the last two lines of the scan are the main and anti-diagonal tests, in that order |
| Rules.WinnerFollowsLineOrder | tictactoe/tictactoe.py:72-113 | the winner is the mark of the first complete line when lines are taken as columns left to right, rows top to bottom, the main diagonal, then the anti-diagonal |
| Rules.Terminal | tictactoe/tictactoe.py:116-130 | a board is terminal exactly when some mark has won or no cell is empty |
| Rules.TerminalIffNoMoves | tictactoe/tictactoe.py:116-130 | a board is terminal exactly when there is a winner or no legal move remains, i.e. no cell is empty |
| Rules.Utility | tictactoe/tictactoe.py:133-145 | the utility is 1 exactly when X has won, -1 exactly when O has won, and 0 exactly when there is no winner |
| Search.FoldMax | tictactoe/tictactoe.py:179-182 | the max-loop result is at least its start and every reply, and it is either the start or one of the replies |
| Search.FoldMin | tictactoe/tictactoe.py:190-193 | the min-loop result is at most its start and every reply, and it is either the start or one of the replies |
| Search.MaxValue | tictactoe/tictactoe.py:174-183 | the value lies in {-1, 0, 1}; the mutual recursion terminates because every move fills an empty cell |
| Search.MinValue | tictactoe/tictactoe.py:185-194 | the value lies in {-1, 0, 1}; the mutual recursion terminates because every move fills an empty cell |
| Search.MinAfter | tictactoe/tictactoe.py:182 | the value of a legal move for X, when O answers optimally, lies in {-1, 0, 1} |
| Search.MaxAfter | tictactoe/tictactoe.py:193 | the value of a legal move for O, when X answers optimally, lies in {-1, 0, 1} |
| Search.MinReplies | tictactoe/tictactoe.py:159-160 | one value per move, in the moves' order, each in {-1, 0, 1} |
| Search.MaxReplies | tictactoe/tictactoe.py:167-168 | one value per move, in the moves' order, each in {-1, 0, 1} |
| Search.TerminalValues | tictactoe/tictactoe.py:176-177 | on a terminal board both searches return the utility |
| Search.MaxValueUnfolds | tictactoe/tictactoe.py:179-183 | off a terminal board there is at least one legal move; the second clause is the unfolding step that rewrites `max_value` as the max-fold of the replies from minus infinity |
| Search.MinValueUnfolds | tictactoe/tictactoe.py:190-194 | off a terminal board there is at least one legal move; the second clause is the unfolding step that rewrites `min_value` as the min-fold of the replies from plus infinity |
| Search.MaxValueBoundsReplies | tictactoe/tictactoe.py:179-183 | no legal move's reply value exceeds max_value |
| Search.MinValueBoundsReplies | tictactoe/tictactoe.py:190-194 | no legal move's reply value is below min_value |
| Search.MaxValueAttained | tictactoe/tictactoe.py:179-183 | some legal move's reply value equals max_value, so the minus-infinity start is never returned |
| Search.MinValueAttained | tictactoe/tictactoe.py:190-194 | some legal move's reply value equals min_value, so the plus-infinity start is never returned |
| Search.IndexOfMove | tictactoe/tictactoe.py:45-56 | every legal move has a position in the move list |
| Search.MaxValueIsBestReply | tictactoe/tictactoe.py:174-183 | max_value is the maximum of min_value over all legal successors, independent of enumeration order: no legal move does better and some legal move attains it |
| Search.MinValueIsBestReply | tictactoe/tictactoe.py:185-194 | min_value is the minimum of max_value over all legal successors, independent of enumeration order: no legal move does better and some legal move attains it |
| Search.FirstMax | tictactoe/tictactoe.py:158-163 | the loop picks the first position holding the largest value; since every value exceeds the minus-infinity start, a position is always picked |
| Search.FirstMin | tictactoe/tictactoe.py:166-171 | the loop picks the first position holding the smallest value; since every value is below the plus-infinity start, a position is always picked |
| Search.EarlierInRowMajor | tictactoe/tictactoe.py:159 | in the row-major move list, a move before the chosen one sits at an earlier position |
| Search.TopReplyIsMaxValue | tictactoe/tictactoe.py:157-163 | the largest reply value X finds is max_value of the board |
| Search.BottomReplyIsMinValue | tictactoe/tictactoe.py:165-171 | the smallest reply value O finds is min_value of the board |
| Search.EarlierRepliesBelow | tictactoe/tictactoe.py:161-163 | every legal move before X's choice has a strictly lower value |
| Search.EarlierRepliesAbove | tictactoe/tictactoe.py:169-171 | every legal move before O's choice has a strictly higher value |
| Search.BestMoveForX | tictactoe/tictactoe.py:157-163 | X's choice is legal and attains max_value, and every legal move before it in row-major order is strictly worse |
| Search.BestMoveForO | tictactoe/tictactoe.py:165-171 | O's choice is legal and attains min_value, and every legal move before it in row-major order is strictly worse |
| Search.Minimax | tictactoe/tictactoe.py:148-172 | no move exactly on terminal boards. Otherwise the move is legal and min_value (for X) or max_value (for O) of its successor equals the mover's optimal value; ties go to the first such move in row-major order |
| Search.ImmediateWinForX | tictactoe/tictactoe.py:174-183 | if a legal move completes a line for X, max_value is 1 |
| Search.ImmediateWinForO | tictactoe/tictactoe.py:185-194 | if a legal move completes a line for O, min_value is -1 |
| Scenarios.DrawnIsFinal | tictactoe/tictactoe.py:116-145 | the full board X O X / X O O / O X X has no winner, is terminal, has no moves, and has utility and max_value 0 |
| Scenarios.TopRowOpenRows | tictactoe/tictactoe.py:51-54 | the free cells of X X _ / O O _ / _ _ _, row by row |
| Scenarios.TopRowOpenMoves | tictactoe/tictactoe.py:45-56 | the moves there are exactly (0,2), (1,2), (2,0), (2,1), (2,2), in that order |
| Scenarios.TopRowOpenTurn | tictactoe/tictactoe.py:21-42 | with two marks each, X moves there |
| Scenarios.TopRowOpenInPlay | tictactoe/tictactoe.py:116-130 | that board is not terminal |
| Scenarios.TopRowWonByX | tictactoe/tictactoe.py:86-94 | after X takes (0,2), the top row wins for X |
| Scenarios.TopRowOpenCompleted | tictactoe/tictactoe.py:59-69 | X's move at (0,2) is legal and gives the board with a full top row |
| Scenarios.TopRowOpenWinsAtOnce | tictactoe/tictactoe.py:174-183 | the move (0,2) is worth 1 to X, and so is the board |
| Scenarios.TopRowOpenFirstFreeCell | tictactoe/tictactoe.py:51-54 | every other free cell comes after (0,2) in row-major order |
| Scenarios.TopRowOpenChoice | tictactoe/tictactoe.py:148-172 | minimax returns the winning move (0,2) there |
| Scenarios.IllegalMovesRefused | tictactoe/tictactoe.py:63-65 | result refuses (3,0) and (0,-1) on the empty board and an occupied cell, and accepts a free cell |

## Left out

- Floating-point infinities: the loop sentinels `float('-inf')` and `float('inf')` are the integers -2 and 2. Every utility lies strictly between them, which is all the comparisons use.
- Set iteration order: Python's order over the action set is not modelled. A row-major enumeration stands in for it. The tie-break among equally good moves is therefore the first in row-major order, and the source does not fix this choice.
- `copy.deepcopy`: boards are values, so aliasing cannot arise.
- Malformed boards: a board of the wrong shape or with foreign cell values cannot be expressed. The board type fixes three rows of three cells, and the cell type has exactly the values X, O and empty.
- The unreachable `else: return None` branches inside `winner`: a complete line of non-empty cells always holds X or O, so these branches fold away.
- The perfect-play draw from the starting board: this needs an evaluation of the whole game tree and is not stated.
- The exception of `result` is modelled as the `Failure(IllegalMove)` value of an `Outcome`, not as control flow.
