/**
 The board state model: the three cell values, the 3x3 grid, the empty
 starting position, mark counting and the turn rule.
 */
module Board {

  /** One cell of the grid: a mark of either player, or empty. */
  datatype Cell = X | O | Empty

  /** A position: three rows of three cells; row 0 is the top row and
      column 0 the leftmost column. Boards are values, so a successor
      position never shares state with its predecessor. */
  type Board = b: seq<seq<Cell>> | |b| == 3 && |b[0]| == 3 && |b[1]| == 3 && |b[2]| == 3
    witness [[Empty, Empty, Empty], [Empty, Empty, Empty], [Empty, Empty, Empty]]

  /** A move: the coordinates (row, column) of the cell to fill. Coordinates
      are unbounded integers so that out-of-range moves can be expressed. */
  datatype Action = Action(row: int, col: int)

  predicate InBounds(a: Action) {
    0 <= a.row < 3 && 0 <= a.col < 3
  }

  /** The cell an in-range action refers to. */
  function At(b: Board, a: Action): Cell
    requires InBounds(a)
  {
    b[a.row][a.col]
  }

  /** The number of cells of `s` holding `c`. */
  function CountCells(s: seq<Cell>, c: Cell): (n: nat)
    ensures n <= |s|
    ensures n == 0 <==> c !in s
    ensures n == |s| <==> forall k | 0 <= k < |s| :: s[k] == c
  {
    if |s| == 0 then 0
    else (if s[0] == c then 1 else 0) + CountCells(s[1..], c)
  }

  /** The number of cells of rows `i` to 2 holding `c`. */
  function CountRows(b: Board, i: nat, c: Cell): (n: nat)
    requires i <= 3
    ensures n <= 3 * (3 - i)
    ensures n == 0 <==> forall r, j | i <= r < 3 && 0 <= j < 3 :: b[r][j] != c
    decreases 3 - i
  {
    if i == 3 then 0
    else CountCells(b[i], c) + CountRows(b, i + 1, c)
  }

  /** The number of cells of the board holding `c`, counted row by row. */
  function Count(b: Board, c: Cell): (n: nat)
    ensures n <= 9
    ensures n == 0 <==> forall i, j | 0 <= i < 3 && 0 <= j < 3 :: b[i][j] != c
  {
    CountRows(b, 0, c)
  }

  /** The number of cells still free. */
  function EmptyCount(b: Board): nat {
    Count(b, Empty)
  }

  /** The row count agrees with the multiplicity of `c` in the row. */
  lemma {:induction false} CountCellsIsMultiplicity(s: seq<Cell>, c: Cell)
    ensures CountCells(s, c) == multiset(s)[c]
    decreases |s|
  {
    if |s| > 0 {
      CountCellsIsMultiplicity(s[1..], c);
      assert s == [s[0]] + s[1..];
    }
  }

  /** Overwriting one cell changes the count of `c` by the cell's loss and gain. */
  lemma {:induction false} CountCellsUpdate(s: seq<Cell>, j: nat, v: Cell, c: Cell)
    requires j < |s|
    ensures CountCells(s[j := v], c)
            == CountCells(s, c) - (if s[j] == c then 1 else 0) + (if v == c then 1 else 0)
    decreases j
  {
    if j > 0 {
      assert s[j := v][1..] == s[1..][j - 1 := v];
      CountCellsUpdate(s[1..], j - 1, v, c);
    }
  }

  /** Setting cell `a` to `v` changes the count of rows `i` to 2 by the cell's
      loss and gain when the cell lies in those rows, and not at all otherwise. */
  lemma {:induction false} CountRowsUpdate(b: Board, i: nat, a: Action, v: Cell, c: Cell)
    requires InBounds(a) && i <= 3
    ensures var b' := b[a.row := b[a.row][a.col := v]];
            CountRows(b', i, c)
            == CountRows(b, i, c)
               - (if i <= a.row && At(b, a) == c then 1 else 0)
               + (if i <= a.row && v == c then 1 else 0)
    decreases 3 - i
  {
    if i < 3 {
      CountRowsUpdate(b, i + 1, a, v, c);
      if i == a.row {
        CountCellsUpdate(b[i], a.col, v, c);
      }
    }
  }

  /** Setting cell `a` to `v` changes every board count the same way. */
  lemma CountUpdate(b: Board, a: Action, v: Cell, c: Cell)
    requires InBounds(a)
    ensures var b' := b[a.row := b[a.row][a.col := v]];
            Count(b', c) == Count(b, c) - (if At(b, a) == c then 1 else 0) + (if v == c then 1 else 0)
  {
    CountRowsUpdate(b, 0, a, v, c);
  }

  /** The starting position. */
  function InitialState(): (b: Board)
    ensures forall i, j | 0 <= i < 3 && 0 <= j < 3 :: b[i][j] == Empty
    ensures EmptyCount(b) == 9 && Count(b, X) == 0 && Count(b, O) == 0
  {
    [[Empty, Empty, Empty], [Empty, Empty, Empty], [Empty, Empty, Empty]]
  }

  /** The mark that moves next. The starting position is special-cased
      first, as in the source; the count rule alone already gives X there. */
  function Player(b: Board): (p: Cell)
    ensures p == O <==> Count(b, X) > Count(b, O)
    ensures p == X <==> Count(b, X) <= Count(b, O)
  {
    if b == InitialState() then X
    else if Count(b, X) > Count(b, O) then O
    else X
  }

  /** The mark that does not move next. */
  function Opponent(p: Cell): Cell {
    match p
    case X => O
    case O => X
    case Empty => Empty
  }

  /** The shape every position reached by legal play from the start has:
      X has as many marks as O, or exactly one more. */
  predicate Balanced(b: Board) {
    Count(b, X) == Count(b, O) || Count(b, X) == Count(b, O) + 1
  }

  lemma InitialStateIsBalanced()
    ensures Balanced(InitialState())
    ensures Player(InitialState()) == X
  {
  }

  /** On a balanced position X moves exactly when the counts tie. */
  lemma BalancedTurn(b: Board)
    requires Balanced(b)
    ensures Player(b) == X <==> Count(b, X) == Count(b, O)
    ensures Player(b) == O <==> Count(b, X) == Count(b, O) + 1
  {
  }
}
