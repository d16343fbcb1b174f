/**
 The rule engine: legal moves, the successor position, the winner,
 terminality and the numeric utility of a position.
 */
module Rules {
  import opened Wrappers
  import opened Board

  /** The single failure `result` can raise. */
  datatype Error = IllegalMove

  /** A move is legal when it names a cell of the grid that is still empty. */
  predicate Legal(b: Board, a: Action) {
    InBounds(a) && At(b, a) == Empty
  }

  /** `a` comes strictly before `a2` in row-major order. */
  predicate Precedes(a: Action, a2: Action) {
    a.row < a2.row || (a.row == a2.row && a.col < a2.col)
  }

  /** The sequence lists actions in strictly increasing row-major order,
      so in particular it holds no action twice. */
  predicate RowMajor(acts: seq<Action>) {
    forall k, l | 0 <= k < l < |acts| :: Precedes(acts[k], acts[l])
  }

  /** The empty cells of row `i` from column `j` on, left to right. */
  function RowActions(b: Board, i: nat, j: nat): (r: seq<Action>)
    requires i < 3 && j <= 3
    ensures |r| == CountCells(b[i][j..], Empty)
    ensures forall a {:trigger a in r} :: a in r <==> a.row == i && j <= a.col < 3 && b[i][a.col] == Empty
    ensures forall n | 0 <= n < |r| :: Legal(b, r[n]) && r[n].row == i && j <= r[n].col
    decreases 3 - j
  {
    if j == 3 then []
    else
      assert b[i][j..][1..] == b[i][j + 1..];
      (if b[i][j] == Empty then [Action(i, j)] else []) + RowActions(b, i, j + 1)
  }

  /** A row's moves are listed left to right. */
  lemma {:induction false} RowActionsOrdered(b: Board, i: nat, j: nat)
    requires i < 3 && j <= 3
    ensures RowMajor(RowActions(b, i, j))
    decreases 3 - j
  {
    if j < 3 {
      RowActionsOrdered(b, i, j + 1);
      var rest := RowActions(b, i, j + 1);
      if b[i][j] == Empty {
        PrependOrdered(Action(i, j), rest);
      }
    }
  }

  /** A move that precedes every move of an ordered list can be put in front of it. */
  lemma PrependOrdered(x: Action, rest: seq<Action>)
    requires RowMajor(rest)
    requires forall n | 0 <= n < |rest| :: Precedes(x, rest[n])
    ensures RowMajor([x] + rest)
  {
    var r := [x] + rest;
    forall k, l | 0 <= k < l < |r|
      ensures Precedes(r[k], r[l])
    {
      assert r[l] == rest[l - 1];
      if k > 0 {
        assert r[k] == rest[k - 1];
      }
    }
  }

  /** The empty cells of rows `i` to 2, in row-major order. */
  function ActionsFrom(b: Board, i: nat): (r: seq<Action>)
    requires i <= 3
    ensures forall a {:trigger a in r} :: a in r <==> Legal(b, a) && i <= a.row
    ensures forall n | 0 <= n < |r| :: Legal(b, r[n])
    ensures |r| == CountRows(b, i, Empty)
    decreases 3 - i
  {
    if i == 3 then []
    else
      var row, rest := RowActions(b, i, 0), ActionsFrom(b, i + 1);
      assert b[i][0..] == b[i];
      JoinMoves(b, i, row, rest);
      row + rest
  }

  /** Row `i`'s moves followed by the moves of the rows below are exactly
      the legal moves from row `i` on. */
  lemma JoinMoves(b: Board, i: nat, row: seq<Action>, rest: seq<Action>)
    requires i < 3
    requires forall a {:trigger a in row} :: a in row <==> a.row == i && 0 <= a.col < 3 && b[i][a.col] == Empty
    requires forall a {:trigger a in rest} :: a in rest <==> Legal(b, a) && i + 1 <= a.row
    requires forall n | 0 <= n < |row| :: Legal(b, row[n])
    requires forall n | 0 <= n < |rest| :: Legal(b, rest[n])
    ensures forall a {:trigger a in row + rest} :: a in row + rest <==> Legal(b, a) && i <= a.row
    ensures forall n | 0 <= n < |row + rest| :: Legal(b, (row + rest)[n])
  {
    forall n | 0 <= n < |row + rest|
      ensures Legal(b, (row + rest)[n])
    {
      if n < |row| {
        assert (row + rest)[n] == row[n];
      } else {
        assert (row + rest)[n] == rest[n - |row|];
      }
    }
  }

  /** The moves of rows `i` to 2 are listed in row-major order. */
  lemma {:induction false} ActionsFromOrdered(b: Board, i: nat)
    requires i <= 3
    ensures RowMajor(ActionsFrom(b, i))
    decreases 3 - i
  {
    if i < 3 {
      RowActionsOrdered(b, i, 0);
      ActionsFromOrdered(b, i + 1);
      JoinRows(RowActions(b, i, 0), ActionsFrom(b, i + 1), i);
    }
  }

  /** The legal moves, enumerated in row-major order. The source builds an
      unordered set; this sequence holds exactly that set's elements. */
  function Actions(b: Board): (r: seq<Action>)
    ensures forall a {:trigger a in r} :: a in r <==> Legal(b, a)
    ensures forall n | 0 <= n < |r| :: Legal(b, r[n])
    ensures |r| == EmptyCount(b)
  {
    ActionsFrom(b, 0)
  }

  /** The legal moves are listed in strictly increasing row-major order,
      so no move is listed twice. */
  lemma ActionsInRowMajorOrder(b: Board)
    ensures RowMajor(Actions(b))
  {
    ActionsFromOrdered(b, 0);
  }

  /** Putting one row's moves before the moves of the rows below keeps
      row-major order. */
  lemma JoinRows(row: seq<Action>, rest: seq<Action>, i: int)
    requires RowMajor(row) && RowMajor(rest)
    requires forall a | a in row :: a.row == i
    requires forall a | a in rest :: a.row > i
    ensures RowMajor(row + rest)
  {
    var s := row + rest;
    forall k, l | 0 <= k < l < |s|
      ensures Precedes(s[k], s[l])
    {
      if l < |row| {
        assert s[k] == row[k] && s[l] == row[l];
      } else if k >= |row| {
        assert s[k] == rest[k - |row|] && s[l] == rest[l - |row|];
        assert Precedes(rest[k - |row|], rest[l - |row|]);
      } else {
        assert s[k] in row && s[l] in rest;
      }
    }
  }

  /** The position after the player to move fills the legal cell `a`. */
  function Apply(b: Board, a: Action): (r: Board)
    requires Legal(b, a)
    ensures At(r, a) == Player(b)
  {
    b[a.row := b[a.row][a.col := Player(b)]]
  }

  /** A move fills exactly one empty cell, so the search below terminates. */
  lemma ApplyFillsOneCell(b: Board, a: Action)
    requires Legal(b, a)
    ensures EmptyCount(Apply(b, a)) == EmptyCount(b) - 1
  {
    CountUpdate(b, a, Player(b), Empty);
  }

  /** A move changes its own cell and no other. */
  lemma ApplyLeavesOtherCells(b: Board, a: Action)
    requires Legal(b, a)
    ensures forall i, j | 0 <= i < 3 && 0 <= j < 3 && (i != a.row || j != a.col) :: Apply(b, a)[i][j] == b[i][j]
  {
  }

  /** `result` of the source: an illegal move is refused, a legal one
      produces the successor position. */
  function Result(b: Board, a: Action): (r: Outcome<Board, Error>)
    ensures r.Failure? <==> !Legal(b, a)
    ensures r.Success? ==> r.value == Apply(b, a)
  {
    if a !in Actions(b) then Failure(IllegalMove)
    else Success(Apply(b, a))
  }

  /** A legal move adds one mark of the mover and leaves the other count alone. */
  lemma ApplyCounts(b: Board, a: Action)
    requires Legal(b, a)
    ensures Count(Apply(b, a), Player(b)) == Count(b, Player(b)) + 1
    ensures Count(Apply(b, a), Opponent(Player(b))) == Count(b, Opponent(Player(b)))
  {
    CountUpdate(b, a, Player(b), Player(b));
    CountUpdate(b, a, Player(b), Opponent(Player(b)));
  }

  /** Legal play keeps a position balanced: the turn rule alternates the marks. */
  lemma ApplyKeepsBalance(b: Board, a: Action)
    requires Balanced(b) && Legal(b, a)
    ensures Balanced(Apply(b, a))
    ensures Player(Apply(b, a)) == Opponent(Player(b))
  {
    ApplyCounts(b, a);
  }

  /** A full board refuses every move. */
  lemma FullBoardRefusesEveryMove(b: Board, a: Action)
    requires EmptyCount(b) == 0
    ensures Result(b, a) == Failure(IllegalMove)
  {
  }

  /** The outcome of one line test of the source: the three cells are equal
      and not empty, and then their common mark wins. */
  function Three(p: Cell, q: Cell, s: Cell): Option<Cell> {
    if p == q && q == s && s != Empty then Some(p) else None
  }

  /** The column test of the source, columns `i` to 2 from left to right. */
  function ColumnWinner(b: Board, i: nat): (w: Option<Cell>)
    requires i <= 3
    ensures w.Some? ==> w.value != Empty
    ensures w.Some? ==> exists j | i <= j < 3 :: b[0][j] == w.value && b[1][j] == w.value && b[2][j] == w.value
    ensures w.None? <==> forall j | i <= j < 3 :: Three(b[0][j], b[1][j], b[2][j]).None?
    decreases 3 - i
  {
    if i == 3 then None
    else
      var w := Three(b[0][i], b[1][i], b[2][i]);
      if w.Some? then w else ColumnWinner(b, i + 1)
  }

  /** The row test of the source, rows `i` to 2 from top to bottom. */
  function RowWinner(b: Board, i: nat): (w: Option<Cell>)
    requires i <= 3
    ensures w.Some? ==> w.value != Empty
    ensures w.Some? ==> exists r | i <= r < 3 :: b[r][0] == w.value && b[r][1] == w.value && b[r][2] == w.value
    ensures w.None? <==> forall r | i <= r < 3 :: Three(b[r][0], b[r][1], b[r][2]).None?
    decreases 3 - i
  {
    if i == 3 then None
    else
      var w := Three(b[i][0], b[i][1], b[i][2]);
      if w.Some? then w else RowWinner(b, i + 1)
  }

  /** The winning mark, if any: columns are checked first, then rows, then
      the main diagonal, then the anti-diagonal; the first complete line wins. */
  function Winner(b: Board): (w: Option<Cell>)
    ensures w.Some? ==> w.value != Empty
  {
    var col := ColumnWinner(b, 0);
    if col.Some? then col
    else
      var row := RowWinner(b, 0);
      if row.Some? then row
      else
        var diag := Three(b[0][0], b[1][1], b[2][2]);
        if diag.Some? then diag
        else Three(b[2][0], b[1][1], b[0][2])
  }

  /** Mark `m` fills some row, some column or one of the two diagonals. */
  predicate HasThree(b: Board, m: Cell) {
    && m != Empty
    && ( (exists i | 0 <= i < 3 :: b[i][0] == m && b[i][1] == m && b[i][2] == m)
      || (exists j | 0 <= j < 3 :: b[0][j] == m && b[1][j] == m && b[2][j] == m)
      || (b[0][0] == m && b[1][1] == m && b[2][2] == m)
      || (b[0][2] == m && b[1][1] == m && b[2][0] == m))
  }

  /** The winner owns a complete line, and there is no winner exactly when
      neither mark owns one. */
  lemma WinnerOwnsALine(b: Board)
    ensures Winner(b).Some? ==> HasThree(b, Winner(b).value)
    ensures Winner(b).None? <==> !HasThree(b, X) && !HasThree(b, O)
    ensures HasThree(b, X) && !HasThree(b, O) ==> Winner(b) == Some(X)
    ensures HasThree(b, O) && !HasThree(b, X) ==> Winner(b) == Some(O)
  {
  }

  /** A cell of the grid. */
  type Square = a: Action | InBounds(a) witness Action(0, 0)

  /** Three cells forming a row, a column or a diagonal. */
  datatype Line = Line(p: Square, q: Square, s: Square)

  /** The eight lines in the order the source tests them: the columns left
      to right, the rows top to bottom, the main diagonal, the anti-diagonal. */
  const Lines: seq<Line> := [
    Line(Action(0, 0), Action(1, 0), Action(2, 0)),
    Line(Action(0, 1), Action(1, 1), Action(2, 1)),
    Line(Action(0, 2), Action(1, 2), Action(2, 2)),
    Line(Action(0, 0), Action(0, 1), Action(0, 2)),
    Line(Action(1, 0), Action(1, 1), Action(1, 2)),
    Line(Action(2, 0), Action(2, 1), Action(2, 2)),
    Line(Action(0, 0), Action(1, 1), Action(2, 2)),
    Line(Action(2, 0), Action(1, 1), Action(0, 2))
  ]

  /** All three cells of the line hold the same mark. */
  predicate Completed(b: Board, l: Line) {
    At(b, l.p) != Empty && At(b, l.p) == At(b, l.q) && At(b, l.q) == At(b, l.s)
  }

  /** Reference scan: the mark of the first completed line of `Lines` from index `k` on. */
  function ScanLines(b: Board, k: nat): (w: Option<Cell>)
    requires k <= |Lines|
    ensures w.Some? <==> exists n | k <= n < |Lines| :: Completed(b, Lines[n])
    decreases |Lines| - k
  {
    if k == |Lines| then None
    else if Completed(b, Lines[k]) then Some(At(b, Lines[k].p))
    else ScanLines(b, k + 1)
  }

  /** The winner is the mark of the first completed line in the source's test order. */
  lemma WinnerFollowsLineOrder(b: Board)
    ensures Winner(b) == ScanLines(b, 0)
  {
    WinnerBeforeDiagonals(b);
    RowsScan(b, 0);
    ColumnsScan(b, 0);
  }

  /** Once neither a column nor a row is complete, `winner` answers what the
      scan of the two diagonal lines answers. */
  lemma WinnerBeforeDiagonals(b: Board)
    ensures Winner(b) == if ColumnWinner(b, 0).Some? then ColumnWinner(b, 0)
      else if RowWinner(b, 0).Some? then RowWinner(b, 0) else ScanLines(b, 6)
  {
    DiagonalsScan(b);
  }

  /** The last two lines of the scan are the source's two diagonal tests. */
  lemma DiagonalsScan(b: Board)
    ensures ScanLines(b, 6) == if Three(b[0][0], b[1][1], b[2][2]).Some?
      then Three(b[0][0], b[1][1], b[2][2]) else Three(b[2][0], b[1][1], b[0][2])
  {
    assert ScanLines(b, 8) == None;
  }

  /** Scanning the column lines from column `i` on agrees with the source's
      column test, and falls through to the row lines when no column is complete. */
  lemma {:induction false} ColumnsScan(b: Board, i: nat)
    requires i <= 3
    ensures ScanLines(b, i) == if ColumnWinner(b, i).Some? then ColumnWinner(b, i) else ScanLines(b, 3)
    decreases 3 - i
  {
    if i < 3 {
      ColumnsScan(b, i + 1);
      assert Lines[i] == Line(Action(0, i), Action(1, i), Action(2, i));
    }
  }

  /** Scanning the row lines from row `i` on agrees with the source's row
      test, and falls through to the diagonals when no row is complete. */
  lemma {:induction false} RowsScan(b: Board, i: nat)
    requires i <= 3
    ensures ScanLines(b, 3 + i) == if RowWinner(b, i).Some? then RowWinner(b, i) else ScanLines(b, 6)
    decreases 3 - i
  {
    if i < 3 {
      RowsScan(b, i + 1);
      assert Lines[3 + i] == Line(Action(i, 0), Action(i, 1), Action(i, 2));
    }
  }

  /** `terminal` of the source: someone has won, or no cell is empty. */
  function Terminal(b: Board): (r: bool)
    ensures r <==> Winner(b).Some? || EmptyCount(b) == 0
  {
    Winner(b).Some? || !(Empty in b[0] || Empty in b[1] || Empty in b[2])
  }

  /** A position is terminal exactly when someone has won or no legal move remains. */
  lemma TerminalIffNoMoves(b: Board)
    ensures Terminal(b) <==> Winner(b).Some? || Actions(b) == []
    ensures Terminal(b) <==> Winner(b).Some? || EmptyCount(b) == 0
  {
  }

  /** `utility` of the source: 1 when X has won, -1 when O has won, 0 otherwise. */
  function Utility(b: Board): (v: int)
    ensures v == 1 <==> Winner(b) == Some(X)
    ensures v == -1 <==> Winner(b) == Some(O)
    ensures v == 0 <==> Winner(b) == None
  {
    if Winner(b) == Some(X) then 1
    else if Winner(b) == Some(O) then -1
    else 0
  }
}
