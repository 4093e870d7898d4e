/** The agent's two roles and its static evaluation of a board. */
module Evaluation {
  import opened Values
  import opened Boards

  datatype RolePair = RolePair(me: int, you: int)

  /** The searching agent ("me") and its opponent ("you"); they always differ. */
  type Roles = r: RolePair | r.me != r.you witness RolePair(1, 2)

  /** The roles fixed at the start of a search: "me" is the player to move and
      "you" is 2 when me is 1, otherwise 1. */
  function RolesFor(player: int): (r: Roles)
    ensures r.me == player
    ensures r.you == 1 || r.you == 2
    ensures player == 1 || player == 2 ==> r.you == 3 - player
  {
    RolePair(player, if player - 1 == 0 then 2 else 1)
  }

  /** The contribution of one cell: -10 for an opponent token on a line, +1
      for an own token on a line, 0 otherwise (including empty cells). */
  function CellScore(roles: Roles, b: Board, x: int, y: int): int
  {
    var t := Cell(b, x, y);
    if t != 0 && IsAnyLineAt(b, x, y) then
      if t == roles.you then -10
      else if t == roles.me then 1
      else 0
    else 0
  }

  /** The sum of `CellScore` over rows 0 .. rows-1 of column x. */
  function ColumnScore(roles: Roles, b: Board, x: int, rows: nat): int
  {
    if rows == 0 then 0
    else ColumnScore(roles, b, x, rows - 1) + CellScore(roles, b, x, rows - 1)
  }

  /** The sum of `ColumnScore` over columns 0 .. cols-1, each at full height. */
  function GridScore(roles: Roles, b: Board, cols: nat): int
  {
    if cols == 0 then 0
    else GridScore(roles, b, cols - 1) + ColumnScore(roles, b, cols - 1, b.h)
  }

  /** The token at (x, y) belongs to p, is not empty and lies on a line. */
  ghost predicate OnLine(b: Board, p: int, x: int, y: int)
  {
    Cell(b, x, y) != 0 && IsAnyLineAt(b, x, y) && Cell(b, x, y) == p
  }

  /** The cells of column x, below row `rows`, that are p's and on a line. */
  ghost function ColumnLineCells(b: Board, p: int, x: int, rows: nat): set<(int, int)>
  {
    set y | 0 <= y < rows && OnLine(b, p, x, y) :: (x, y)
  }

  /** The cells left of column `cols` (at full height) that are p's and on a line. */
  ghost function LineCells(b: Board, p: int, cols: nat): set<(int, int)>
  {
    set x, y | 0 <= x < cols && 0 <= y < b.h && OnLine(b, p, x, y) :: (x, y)
  }

  /** How many of p's tokens on the whole board lie on a line. */
  ghost function LineCount(b: Board, p: int): nat
  {
    |LineCells(b, p, b.w)|
  }

  /** Extending a column by one row adds that row's cell exactly when it counts. */
  lemma ColumnLineCellsStep(b: Board, p: int, x: int, y: nat)
    ensures ColumnLineCells(b, p, x, y + 1)
            == ColumnLineCells(b, p, x, y) + (if OnLine(b, p, x, y) then {(x, y)} else {})
    ensures (x, y) !in ColumnLineCells(b, p, x, y)
  {
  }

  lemma {:induction false} ColumnScoreCounts(roles: Roles, b: Board, x: int, rows: nat)
    ensures ColumnScore(roles, b, x, rows)
            == |ColumnLineCells(b, roles.me, x, rows)| - 10 * |ColumnLineCells(b, roles.you, x, rows)|
  {
    if rows > 0 {
      ColumnScoreCounts(roles, b, x, rows - 1);
      ColumnLineCellsStep(b, roles.me, x, rows - 1);
      ColumnLineCellsStep(b, roles.you, x, rows - 1);
    }
  }

  lemma {:induction false} GridScoreCounts(roles: Roles, b: Board, cols: nat)
    ensures GridScore(roles, b, cols)
            == |LineCells(b, roles.me, cols)| - 10 * |LineCells(b, roles.you, cols)|
  {
    if cols > 0 {
      GridScoreCounts(roles, b, cols - 1);
      var x := cols - 1;
      ColumnScoreCounts(roles, b, x, b.h);
      forall p | true
        ensures LineCells(b, p, cols)
                == LineCells(b, p, x) + ColumnLineCells(b, p, x, b.h)
        ensures LineCells(b, p, x) * ColumnLineCells(b, p, x, b.h) == {}
      {
      }
    }
  }

  lemma {:induction false} ColumnScoreBounds(roles: Roles, b: Board, x: int, rows: nat)
    ensures -10 * rows <= ColumnScore(roles, b, x, rows) <= rows
  {
    if rows > 0 {
      ColumnScoreBounds(roles, b, x, rows - 1);
    }
  }

  lemma {:induction false} GridScoreBounds(roles: Roles, b: Board, cols: nat)
    ensures -10 * cols * b.h <= GridScore(roles, b, cols) <= cols * b.h
  {
    if cols > 0 {
      GridScoreBounds(roles, b, cols - 1);
      ColumnScoreBounds(roles, b, cols - 1, b.h);
      assert cols * b.h == (cols - 1) * b.h + b.h;
    }
  }

  /** The static evaluation of a board for "me": +infinity when "me" has won
      and "you" is to move, -infinity when "you" has won and "me" is to move,
      and otherwise the line-cell count of "me" minus ten times that of "you". */
  function Heuristic(roles: Roles, b: Board): (r: Value)
    ensures r == PosInf <==> b.outcome == roles.me && b.player == roles.you
    ensures r == NegInf <==> b.outcome == roles.you && b.player == roles.me
    ensures r.Fin? ==> r.n == LineCount(b, roles.me) - 10 * LineCount(b, roles.you)
    ensures r.Fin? ==> -10 * b.w * b.h <= r.n <= b.w * b.h
  {
    if b.outcome == roles.me && b.player == roles.you then PosInf
    else if b.outcome == roles.you && b.player == roles.me then NegInf
    else
      GridScoreCounts(roles, b, b.w);
      GridScoreBounds(roles, b, b.w);
      Fin(GridScore(roles, b, b.w))
  }
}
