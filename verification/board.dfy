/** The board as the search sees it. The board's own rules (where a token
    lands, when a line is formed, who has won) are not part of this model: a
    board is recorded as the answers to the queries the agent makes on it,
    and, for each free column, the board that adding a token there produces.
 */
module Boards {

  /** A board, observed through the agent's queries. */
  datatype Board = Board(
    player: int,                 // the player to move
    outcome: int,                // the winner, or a code that is no player
    w: nat,                      // width
    h: nat,                      // height
    tokens: map<(int, int), int>, // the token at (x, y); absent means empty (0)
    lines: set<(int, int)>,      // the cells for which a line goes through the token
    moves: seq<Move>             // one entry per free column, in free-column order
  )

  /** A free column and the board after adding a token to it (the token
      belongs to the player to move, who then changes). */
  datatype Move = Move(col: int, after: Board)

  /** A successor board together with the column whose drop produced it. */
  datatype Child = Child(board: Board, col: int)

  /** The token at column x, row y: 0 when the cell is empty. */
  function Cell(b: Board, x: int, y: int): int
  {
    if (x, y) in b.tokens then b.tokens[(x, y)] else 0
  }

  /** Whether the token at (x, y) is part of a line. */
  predicate IsAnyLineAt(b: Board, x: int, y: int)
  {
    (x, y) in b.lines
  }

  /** The columns of a list of moves, in order. */
  function Columns(moves: seq<Move>): (cols: seq<int>)
    ensures |cols| == |moves|
  {
    if |moves| == 0 then [] else [moves[0].col] + Columns(moves[1..])
  }

  /** The columns that still accept a token. */
  function FreeCols(b: Board): seq<int>
  {
    Columns(b.moves)
  }

  /** The board after adding a token to column c: the recorded board of the
      first free-column entry for c. */
  function Drop(b: Board, c: int): Board
    requires c in FreeCols(b)
  {
    DropIn(b.moves, c)
  }

  function DropIn(moves: seq<Move>, c: int): Board
    requires c in Columns(moves)
  {
    if moves[0].col == c then moves[0].after
    else
      assert c in Columns(moves[1..]);
      DropIn(moves[1..], c)
  }

  /** One child per column of `cols`, in order, each the board after a drop there. */
  function ChildrenFor(b: Board, cols: seq<int>): (s: seq<Child>)
    requires forall i :: 0 <= i < |cols| ==> cols[i] in FreeCols(b)
    ensures |s| == |cols|
  {
    if |cols| == 0 then [] else [Child(Drop(b, cols[0]), cols[0])] + ChildrenFor(b, cols[1..])
  }

  lemma {:induction false} ChildAt(b: Board, cols: seq<int>, i: nat)
    requires forall i :: 0 <= i < |cols| ==> cols[i] in FreeCols(b)
    requires i < |cols|
    ensures ChildrenFor(b, cols)[i] == Child(Drop(b, cols[i]), cols[i])
  {
    if i > 0 {
      ChildAt(b, cols[1..], i - 1);
    }
  }

  /** The successors of a board: one child per free column, in free-column order. */
  function Successors(b: Board): seq<Child>
  {
    ChildrenFor(b, FreeCols(b))
  }

  /** Successor generation as the agent performs it: for each free column in
      turn, a copy of the board with a token dropped in that column. */
  method GetSuccessors(b: Board) returns (succ: seq<Child>)
    ensures |succ| == |FreeCols(b)|
    ensures forall i :: 0 <= i < |succ| ==>
              succ[i].col == FreeCols(b)[i] && succ[i].board == Drop(b, FreeCols(b)[i])
    ensures FreeCols(b) == [] ==> succ == []
    ensures succ == Successors(b)
  {
    forall i | 0 <= i < |Successors(b)|
      ensures Successors(b)[i] == Child(Drop(b, FreeCols(b)[i]), FreeCols(b)[i])
    {
      ChildAt(b, FreeCols(b), i);
    }
    var cols := FreeCols(b);
    if cols == [] {
      return [];
    }
    succ := [];
    for k := 0 to |cols|
      invariant |succ| == k
      invariant forall i :: 0 <= i < k ==> succ[i] == Child(Drop(b, cols[i]), cols[i])
    {
      var next := Drop(b, cols[k]);
      succ := succ + [Child(next, cols[k])];
    }
  }
}
