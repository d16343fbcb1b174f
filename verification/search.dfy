/**
 The search engine: exhaustive minimax over the game tree. X maximises
 the utility and O minimises it.
 */
module Search {
  import opened Wrappers
  import opened Board
  import opened Rules

  /** Integer stand-ins for the source's `float('-inf')` and `float('inf')`
      starting values: below and above every utility. */
  const NegInf: int := -2
  const PosInf: int := 2

  /** The loop body `value = max(value, reply)` run over `replies`, starting
      from `value`. */
  function FoldMax(replies: seq<int>, value: int): (v: int)
    ensures v >= value
    ensures forall n | 0 <= n < |replies| :: replies[n] <= v
    ensures v == value || exists n | 0 <= n < |replies| :: v == replies[n]
  {
    if replies == [] then value
    else
      var rest := FoldMax(replies[1..], if replies[0] > value then replies[0] else value);
      assert forall n | 1 <= n < |replies| :: replies[1..][n - 1] == replies[n];
      rest
  }

  /** The loop body `value = min(value, reply)` run over `replies`, starting
      from `value`. */
  function FoldMin(replies: seq<int>, value: int): (v: int)
    ensures v <= value
    ensures forall n | 0 <= n < |replies| :: replies[n] >= v
    ensures v == value || exists n | 0 <= n < |replies| :: v == replies[n]
  {
    if replies == [] then value
    else
      var rest := FoldMin(replies[1..], if replies[0] < value then replies[0] else value);
      assert forall n | 1 <= n < |replies| :: replies[1..][n - 1] == replies[n];
      rest
  }

  /** `max_value` of the source: the utility of a terminal position, else
      the largest of O's best answers to the legal moves, folded from minus
      infinity. The recursion ends because every move fills an empty cell. */
  function MaxValue(b: Board): (v: int)
    ensures -1 <= v <= 1
    decreases EmptyCount(b), 2
  {
    if Terminal(b) then Utility(b)
    else
      TerminalIffNoMoves(b);
      var replies := MinReplies(b, Actions(b));
      assert NegInf < -1 <= replies[0];
      FoldMax(replies, NegInf)
  }

  /** `min_value` of the source: the utility of a terminal position, else
      the smallest of X's best answers to the legal moves, folded from plus
      infinity. */
  function MinValue(b: Board): (v: int)
    ensures -1 <= v <= 1
    decreases EmptyCount(b), 2
  {
    if Terminal(b) then Utility(b)
    else
      TerminalIffNoMoves(b);
      var replies := MaxReplies(b, Actions(b));
      assert replies[0] <= 1 < PosInf;
      FoldMin(replies, PosInf)
  }

  /** The value, counted in X's favour, of the position after the player to
      move plays the legal move `a`, searched with the minimizing side to
      answer: `min_value(result(board, action))` in the source. */
  function MinAfter(b: Board, a: Action): (v: int)
    requires Legal(b, a)
    ensures -1 <= v <= 1
    decreases EmptyCount(b), 0
  {
    ApplyFillsOneCell(b, a);
    MinValue(Apply(b, a))
  }

  /** The value, counted in X's favour, of the position after the player to
      move plays the legal move `a`, searched with the maximizing side to
      answer: `max_value(result(board, action))` in the source. */
  function MaxAfter(b: Board, a: Action): (v: int)
    requires Legal(b, a)
    ensures -1 <= v <= 1
    decreases EmptyCount(b), 0
  {
    ApplyFillsOneCell(b, a);
    MaxValue(Apply(b, a))
  }

  /** X's values of the moves `acts`, in order: the `min_value(result(board,
      action))` that both `max_value` and `minimax` compute per move. */
  function MinReplies(b: Board, acts: seq<Action>): (r: seq<int>)
    requires forall n | 0 <= n < |acts| :: Legal(b, acts[n])
    ensures |r| == |acts|
    ensures forall n | 0 <= n < |acts| :: r[n] == MinAfter(b, acts[n]) && -1 <= r[n] <= 1
    decreases EmptyCount(b), 1
  {
    seq(|acts|, n requires 0 <= n < |acts| => MinAfter(b, acts[n]))
  }

  /** O's values of the moves `acts`, in order: the `max_value(result(board,
      action))` that both `min_value` and `minimax` compute per move. */
  function MaxReplies(b: Board, acts: seq<Action>): (r: seq<int>)
    requires forall n | 0 <= n < |acts| :: Legal(b, acts[n])
    ensures |r| == |acts|
    ensures forall n | 0 <= n < |acts| :: r[n] == MaxAfter(b, acts[n]) && -1 <= r[n] <= 1
    decreases EmptyCount(b), 1
  {
    seq(|acts|, n requires 0 <= n < |acts| => MaxAfter(b, acts[n]))
  }

  /** On a terminal position both searches return the utility. */
  lemma TerminalValues(b: Board)
    requires Terminal(b)
    ensures MaxValue(b) == Utility(b) && MinValue(b) == Utility(b)
  {
  }

  /** Off a terminal position `max_value` folds over a nonempty list of moves. */
  lemma MaxValueUnfolds(b: Board)
    requires !Terminal(b)
    ensures |Actions(b)| > 0
    ensures MaxValue(b) == FoldMax(MinReplies(b, Actions(b)), NegInf)
  {
    TerminalIffNoMoves(b);
  }

  /** Off a terminal position `min_value` folds over a nonempty list of moves. */
  lemma MinValueUnfolds(b: Board)
    requires !Terminal(b)
    ensures |Actions(b)| > 0
    ensures MinValue(b) == FoldMin(MaxReplies(b, Actions(b)), PosInf)
  {
    TerminalIffNoMoves(b);
  }

  /** Off a terminal position, no reply value of X's legal moves exceeds
      `MaxValue`. */
  lemma MaxValueBoundsReplies(b: Board)
    requires !Terminal(b)
    ensures forall n | 0 <= n < |Actions(b)| :: MinReplies(b, Actions(b))[n] <= MaxValue(b)
  {
    MaxValueUnfolds(b);
  }

  /** Off a terminal position, no reply value of O's legal moves is below
      `MinValue`. */
  lemma MinValueBoundsReplies(b: Board)
    requires !Terminal(b)
    ensures forall n | 0 <= n < |Actions(b)| :: MaxReplies(b, Actions(b))[n] >= MinValue(b)
  {
    MinValueUnfolds(b);
  }

  /** Off a terminal position, some legal move's reply value is `MaxValue`:
      the fold never returns its minus-infinity start. */
  lemma MaxValueAttained(b: Board) returns (n: nat)
    requires !Terminal(b)
    ensures n < |Actions(b)| && MinReplies(b, Actions(b))[n] == MaxValue(b)
  {
    MaxValueUnfolds(b);
    var replies := MinReplies(b, Actions(b));
    assert MaxValue(b) != NegInf;
    n :| 0 <= n < |replies| && replies[n] == MaxValue(b);
  }

  /** Off a terminal position, some legal move's reply value is `MinValue`:
      the fold never returns its plus-infinity start. */
  lemma MinValueAttained(b: Board) returns (n: nat)
    requires !Terminal(b)
    ensures n < |Actions(b)| && MaxReplies(b, Actions(b))[n] == MinValue(b)
  {
    MinValueUnfolds(b);
    var replies := MaxReplies(b, Actions(b));
    assert MinValue(b) != PosInf;
    n :| 0 <= n < |replies| && replies[n] == MinValue(b);
  }

  /** The position of a legal move in `Actions(b)`. */
  lemma IndexOfMove(b: Board, a: Action) returns (k: nat)
    requires Legal(b, a)
    ensures k < |Actions(b)| && Actions(b)[k] == a
  {
    var acts := Actions(b);
    assert a in acts;
    k :| 0 <= k < |acts| && acts[k] == a;
  }

  /** Off a terminal position, `MaxValue` is the largest reply value among
      the legal moves, whatever order the moves are tried in. */
  lemma MaxValueIsBestReply(b: Board)
    requires !Terminal(b)
    ensures forall a | Legal(b, a) :: MinAfter(b, a) <= MaxValue(b)
    ensures exists a | Legal(b, a) :: MinAfter(b, a) == MaxValue(b)
  {
    MaxValueBoundsReplies(b);
    var acts := Actions(b);
    var n := MaxValueAttained(b);
    assert Legal(b, acts[n]) && MinAfter(b, acts[n]) == MaxValue(b);
    forall a | Legal(b, a)
      ensures MinAfter(b, a) <= MaxValue(b)
    {
      var k := IndexOfMove(b, a);
      assert MinReplies(b, acts)[k] == MinAfter(b, a);
    }
  }

  /** Off a terminal position, `MinValue` is the smallest reply value among
      the legal moves. */
  lemma MinValueIsBestReply(b: Board)
    requires !Terminal(b)
    ensures forall a | Legal(b, a) :: MaxAfter(b, a) >= MinValue(b)
    ensures exists a | Legal(b, a) :: MaxAfter(b, a) == MinValue(b)
  {
    MinValueBoundsReplies(b);
    var acts := Actions(b);
    var n := MinValueAttained(b);
    assert Legal(b, acts[n]) && MaxAfter(b, acts[n]) == MinValue(b);
    forall a | Legal(b, a)
      ensures MaxAfter(b, a) >= MinValue(b)
    {
      var k := IndexOfMove(b, a);
      assert MaxReplies(b, acts)[k] == MaxAfter(b, a);
    }
  }

  /** The selection loop of `minimax` for X: starting from minus infinity,
      a value replaces the best so far only when strictly larger, so the
      result is the first position holding the maximum. */
  method FirstMax(values: seq<int>) returns (best: nat)
    requires |values| > 0
    requires forall n | 0 <= n < |values| :: NegInf < values[n]
    ensures best < |values|
    ensures forall n | 0 <= n < |values| :: values[n] <= values[best]
    ensures forall n | 0 <= n < best :: values[n] < values[best]
  {
    best := 0;
    var value := NegInf;
    for k := 0 to |values|
      invariant best <= k && (k == 0 ==> value == NegInf)
      invariant k > 0 ==> best < k && values[best] == value
      invariant forall n | 0 <= n < k :: values[n] <= value
      invariant forall n | 0 <= n < best :: values[n] < value
    {
      if values[k] > value {
        value := values[k];
        best := k;
      }
    }
  }

  /** The selection loop of `minimax` for O: starting from plus infinity,
      a value replaces the best so far only when strictly smaller, so the
      result is the first position holding the minimum. */
  method FirstMin(values: seq<int>) returns (best: nat)
    requires |values| > 0
    requires forall n | 0 <= n < |values| :: values[n] < PosInf
    ensures best < |values|
    ensures forall n | 0 <= n < |values| :: values[n] >= values[best]
    ensures forall n | 0 <= n < best :: values[n] > values[best]
  {
    best := 0;
    var value := PosInf;
    for k := 0 to |values|
      invariant best <= k && (k == 0 ==> value == PosInf)
      invariant k > 0 ==> best < k && values[best] == value
      invariant forall n | 0 <= n < k :: values[n] >= value
      invariant forall n | 0 <= n < best :: values[n] > value
    {
      if values[k] < value {
        value := values[k];
        best := k;
      }
    }
  }

  /** In a row-major sequence, an element that precedes the one at index
      `best` sits at an index below `best`. */
  lemma EarlierInRowMajor(acts: seq<Action>, best: nat, a: Action)
    requires RowMajor(acts) && best < |acts|
    requires a in acts && Precedes(a, acts[best])
    ensures exists n | 0 <= n < best :: acts[n] == a
  {
    var n :| 0 <= n < |acts| && acts[n] == a;
    assert n < best;
  }

  /** The largest of X's reply values is `MaxValue(b)`. */
  lemma TopReplyIsMaxValue(b: Board, acts: seq<Action>, replies: seq<int>, best: nat)
    requires !Terminal(b) && acts == Actions(b) && replies == MinReplies(b, acts)
    requires best < |acts| && forall n | 0 <= n < |acts| :: replies[n] <= replies[best]
    ensures replies[best] == MaxValue(b)
  {
    MaxValueBoundsReplies(b);
    var n := MaxValueAttained(b);
  }

  /** The smallest of O's reply values is `MinValue(b)`. */
  lemma BottomReplyIsMinValue(b: Board, acts: seq<Action>, replies: seq<int>, best: nat)
    requires !Terminal(b) && acts == Actions(b) && replies == MaxReplies(b, acts)
    requires best < |acts| && forall n | 0 <= n < |acts| :: replies[n] >= replies[best]
    ensures replies[best] == MinValue(b)
  {
    MinValueBoundsReplies(b);
    var n := MinValueAttained(b);
  }

  /** When every reply before index `best` is strictly below the reply at
      `best`, every legal move preceding `acts[best]` in row-major order is. */
  lemma EarlierRepliesBelow(b: Board, acts: seq<Action>, replies: seq<int>, best: nat)
    requires acts == Actions(b) && replies == MinReplies(b, acts) && best < |acts|
    requires forall n | 0 <= n < best :: replies[n] < replies[best]
    ensures forall a | Legal(b, a) && Precedes(a, acts[best]) :: MinAfter(b, a) < replies[best]
  {
    ActionsInRowMajorOrder(b);
    forall a | Legal(b, a) && Precedes(a, acts[best])
      ensures MinAfter(b, a) < replies[best]
    {
      assert a in acts;
      EarlierInRowMajor(acts, best, a);
    }
  }

  /** When every reply before index `best` is strictly above the reply at
      `best`, every legal move preceding `acts[best]` in row-major order is. */
  lemma EarlierRepliesAbove(b: Board, acts: seq<Action>, replies: seq<int>, best: nat)
    requires acts == Actions(b) && replies == MaxReplies(b, acts) && best < |acts|
    requires forall n | 0 <= n < best :: replies[n] > replies[best]
    ensures forall a | Legal(b, a) && Precedes(a, acts[best]) :: MaxAfter(b, a) > replies[best]
  {
    ActionsInRowMajorOrder(b);
    forall a | Legal(b, a) && Precedes(a, acts[best])
      ensures MaxAfter(b, a) > replies[best]
    {
      assert a in acts;
      EarlierInRowMajor(acts, best, a);
    }
  }

  /** The X branch of `minimax`: the first legal move, in row-major order,
      whose reply value equals `MaxValue(b)`. */
  method BestMoveForX(b: Board) returns (move: Action)
    requires !Terminal(b)
    ensures Legal(b, move)
    ensures MinAfter(b, move) == MaxValue(b)
    ensures forall a | Legal(b, a) && Precedes(a, move) :: MinAfter(b, a) < MaxValue(b)
  {
    var acts := Actions(b);
    TerminalIffNoMoves(b);
    var replies := MinReplies(b, acts);
    var best := FirstMax(replies);
    TopReplyIsMaxValue(b, acts, replies, best);
    EarlierRepliesBelow(b, acts, replies, best);
    move := acts[best];
  }

  /** The O branch of `minimax`: the first legal move, in row-major order,
      whose reply value equals `MinValue(b)`. */
  method BestMoveForO(b: Board) returns (move: Action)
    requires !Terminal(b)
    ensures Legal(b, move)
    ensures MaxAfter(b, move) == MinValue(b)
    ensures forall a | Legal(b, a) && Precedes(a, move) :: MaxAfter(b, a) > MinValue(b)
  {
    var acts := Actions(b);
    TerminalIffNoMoves(b);
    var replies := MaxReplies(b, acts);
    var best := FirstMin(replies);
    BottomReplyIsMinValue(b, acts, replies, best);
    EarlierRepliesAbove(b, acts, replies, best);
    move := acts[best];
  }

  /** `minimax` of the source: no move on a terminal position; otherwise a
      legal move for the player to move that achieves that player's optimal
      value. Among equally good moves the first in row-major order is taken. */
  method Minimax(b: Board) returns (move: Option<Action>)
    ensures move.None? <==> Terminal(b)
    ensures move.Some? ==> Legal(b, move.value)
    ensures move.Some? && Player(b) == X ==> MinAfter(b, move.value) == MaxValue(b)
    ensures move.Some? && Player(b) == O ==> MaxAfter(b, move.value) == MinValue(b)
    ensures move.Some? && Player(b) == X ==>
      forall a | Legal(b, a) && Precedes(a, move.value) :: MinAfter(b, a) < MaxValue(b)
    ensures move.Some? && Player(b) == O ==>
      forall a | Legal(b, a) && Precedes(a, move.value) :: MaxAfter(b, a) > MinValue(b)
  {
    if Terminal(b) {
      return None;
    }
    var a;
    if Player(b) == X {
      a := BestMoveForX(b);
    } else {
      a := BestMoveForO(b);
    }
    move := Some(a);
  }

  /** If a legal move completes a line for X, X can force a win. */
  lemma ImmediateWinForX(b: Board, a: Action)
    requires !Terminal(b) && Legal(b, a) && Winner(Apply(b, a)) == Some(X)
    ensures MaxValue(b) == 1
  {
    assert MinAfter(b, a) == MinValue(Apply(b, a)) == 1;
    MaxValueIsBestReply(b);
  }

  /** If a legal move completes a line for O, O can force a win. */
  lemma ImmediateWinForO(b: Board, a: Action)
    requires !Terminal(b) && Legal(b, a) && Winner(Apply(b, a)) == Some(O)
    ensures MinValue(b) == -1
  {
    assert MaxAfter(b, a) == MaxValue(Apply(b, a)) == -1;
    MinValueIsBestReply(b);
  }
}
