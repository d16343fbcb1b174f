/**
 Concrete positions that pin the general contracts down to definite
 answers: a drawn final position, a position where X can win at once, and
 the moves `result` refuses.
 */
module Scenarios {
  import opened Wrappers
  import opened Board
  import opened Rules
  import opened Search

  /** A full board on which no line is complete. */
  const Drawn: Board := [[X, O, X], [X, O, O], [O, X, X]]

  /** X to move, with two marks in the top row and its right end free. */
  const TopRowOpen: Board := [[X, X, Empty], [O, O, Empty], [Empty, Empty, Empty]]

  lemma DrawnIsFinal()
    ensures Winner(Drawn) == None
    ensures Terminal(Drawn) && Actions(Drawn) == []
    ensures Utility(Drawn) == 0 && MaxValue(Drawn) == 0
  {
    TerminalIffNoMoves(Drawn);
    TerminalValues(Drawn);
  }

  /** The free cells of each row of `TopRowOpen`, left to right. */
  lemma TopRowOpenRows()
    ensures RowActions(TopRowOpen, 0, 0) == [Action(0, 2)]
    ensures RowActions(TopRowOpen, 1, 0) == [Action(1, 2)]
    ensures RowActions(TopRowOpen, 2, 0) == [Action(2, 0), Action(2, 1), Action(2, 2)]
  {
    var b := TopRowOpen;
    assert RowActions(b, 0, 2) == [Action(0, 2)];
    assert RowActions(b, 1, 2) == [Action(1, 2)];
    assert RowActions(b, 2, 1) == [Action(2, 1), Action(2, 2)] by {
      assert RowActions(b, 2, 2) == [Action(2, 2)];
    }
  }

  /** The free cells are listed row by row, left to right. */
  lemma TopRowOpenMoves()
    ensures Actions(TopRowOpen) == [Action(0, 2), Action(1, 2), Action(2, 0), Action(2, 1), Action(2, 2)]
  {
    TopRowOpenRows();
    assert ActionsFrom(TopRowOpen, 2) == [Action(2, 0), Action(2, 1), Action(2, 2)];
    assert ActionsFrom(TopRowOpen, 1) == [Action(1, 2), Action(2, 0), Action(2, 1), Action(2, 2)];
  }

  /** Both players have two marks on `TopRowOpen`, so X moves. */
  lemma TopRowOpenTurn()
    ensures Player(TopRowOpen) == X
  {
    assert Count(TopRowOpen, X) == 2 && Count(TopRowOpen, O) == 2;
  }

  /** Nobody has won on `TopRowOpen` and cells are free, so the game goes on. */
  lemma TopRowOpenInPlay()
    ensures !Terminal(TopRowOpen)
  {
    assert Winner(TopRowOpen) == None && TopRowOpen[0][2] == Empty;
  }

  /** `TopRowOpen` once X has filled (0, 2). */
  const TopRowWon: Board := [[X, X, X], [O, O, Empty], [Empty, Empty, Empty]]

  lemma TopRowWonByX()
    ensures Winner(TopRowWon) == Some(X)
  {
  }

  /** X fills (0, 2) on `TopRowOpen` and completes the top row. */
  lemma TopRowOpenCompleted()
    ensures Legal(TopRowOpen, Action(0, 2))
    ensures Apply(TopRowOpen, Action(0, 2)) == TopRowWon
  {
    TopRowOpenTurn();
    assert TopRowOpen[0][2 := X] == TopRowWon[0];
  }

  /** Completing the top row is a win, so X's value on `TopRowOpen` is a win. */
  lemma TopRowOpenWinsAtOnce()
    ensures MinAfter(TopRowOpen, Action(0, 2)) == 1 && MaxValue(TopRowOpen) == 1
  {
    TopRowOpenInPlay();
    TopRowOpenCompleted();
    TopRowWonByX();
    ImmediateWinForX(TopRowOpen, Action(0, 2));
  }

  /** Every other free cell of `TopRowOpen` comes after (0, 2). */
  lemma TopRowOpenFirstFreeCell()
    ensures forall a | Legal(TopRowOpen, a) && a != Action(0, 2) :: Precedes(Action(0, 2), a)
  {
  }

  /** Minimax chooses the winning cell (0, 2): it is the first free cell in
      row-major order, and no move does better than a win. */
  method TopRowOpenChoice() returns (move: Option<Action>)
    ensures move == Some(Action(0, 2))
  {
    TopRowOpenTurn();
    TopRowOpenInPlay();
    TopRowOpenCompleted();
    TopRowOpenWinsAtOnce();
    TopRowOpenFirstFreeCell();
    move := Minimax(TopRowOpen);
    assert !Precedes(Action(0, 2), move.value);
  }

  /** `result` refuses cells off the board and cells already taken. */
  lemma IllegalMovesRefused()
    ensures Result(InitialState(), Action(3, 0)) == Failure(IllegalMove)
    ensures Result(InitialState(), Action(0, -1)) == Failure(IllegalMove)
    ensures Result(TopRowOpen, Action(0, 0)) == Failure(IllegalMove)
    ensures Result(TopRowOpen, Action(2, 2)).Success?
  {
  }
}
