/** The depth-bounded alpha-beta search of the agent, and the plain minimax
    value it is proved to compute.
 */
module Search {
  import opened Values
  import opened Boards
  import opened Evaluation
  import opened Scan

  /** What a search call returns: the chosen successor board and its column
      (both None when nothing was chosen; at depth 0 the board is the input
      board itself and the column is None), together with the value. */
  datatype Pick = Pick(board: Option<Board>, col: Option<int>, value: Value)

  /** The unpruned minimax value of a board searched `n` plies deep: the
      heuristic at depth 0, otherwise the maximum (or minimum) of the
      children's values, which is -infinity (or +infinity) when there is no
      child. A won board above depth 0 is expanded like any other. */
  function Minimax(roles: Roles, b: Board, n: nat, maximizing: bool): Value
    decreases n, 0
  {
    if n == 0 then Heuristic(roles, b)
    else Extreme(ChildValues(roles, Successors(b), n - 1, !maximizing), maximizing)
  }

  /** The minimax values of a list of children, each searched `n` plies deep. */
  function ChildValues(roles: Roles, succ: seq<Child>, n: nat, maximizing: bool): (vs: seq<Value>)
    decreases n, 1, |succ|
    ensures |vs| == |succ|
  {
    if |succ| == 0 then []
    else [Minimax(roles, succ[0].board, n, maximizing)] + ChildValues(roles, succ[1..], n, maximizing)
  }

  lemma {:induction false} ChildValueAt(roles: Roles, succ: seq<Child>, n: nat, maximizing: bool, k: nat)
    requires k < |succ|
    ensures ChildValues(roles, succ, n, maximizing)[k] == Minimax(roles, succ[k].board, n, maximizing)
    decreases k
  {
    if k > 0 {
      ChildValueAt(roles, succ[1..], n, maximizing, k - 1);
    }
  }

  /** Above depth 0 a board without free columns is worth the initial
      infinity of the side to move, whatever its outcome. */
  lemma MinimaxNoMoves(roles: Roles, b: Board, n: nat, maximizing: bool)
    requires n > 0 && FreeCols(b) == []
    ensures Minimax(roles, b, n, maximizing) == Init(maximizing)
  {
  }

  /** The column an unpruned maximizing search picks: the first child, in
      free-column order, whose value is the maximum, unless that maximum is
      -infinity (or there is no child), in which case no column. */
  function BestColumn(roles: Roles, b: Board, n: nat): Option<int>
  {
    if n == 0 then None
    else
      var succ := Successors(b);
      match ArgBest(ChildValues(roles, succ, n - 1, false), true)
      case None => None
      case Some(j) => Some(succ[j].col)
  }

  /** One ply deep, a column whose drop wins for the player to move (the
      outcome is that player and the opponent is to move) is never missed:
      the chosen column leads to a board scored +infinity. */
  lemma {:induction false} ImmediateWin(b: Board, c: int) returns (j: nat)
    requires c in FreeCols(b)
    requires Drop(b, c).outcome == b.player && Drop(b, c).player == RolesFor(b.player).you
    ensures j < |Successors(b)| && BestColumn(RolesFor(b.player), b, 1) == Some(Successors(b)[j].col)
    ensures Heuristic(RolesFor(b.player), Successors(b)[j].board) == PosInf
  {
    var roles := RolesFor(b.player);
    var succ := Successors(b);
    var vals := ChildValues(roles, succ, 0, false);
    var i :| 0 <= i < |FreeCols(b)| && FreeCols(b)[i] == c;
    ChildAt(b, FreeCols(b), i);
    ChildValueAt(roles, succ, 0, false, i);
    assert vals[i] == PosInf;
    var best := ArgBest(vals, true);
    if best.None? {
      assert false;
    }
    j := best.value;
    ChildValueAt(roles, succ, 0, false, j);
  }

  /** Two plies deep, when some column leaves "you" no reply that wins
      against "me" (its one-ply minimizing value is not -infinity), the
      chosen column is such a blocking column too. */
  lemma {:induction false} ImmediateBlock(b: Board, c: int) returns (j: nat)
    requires c in FreeCols(b)
    requires Minimax(RolesFor(b.player), Drop(b, c), 1, false) != NegInf
    ensures j < |Successors(b)| && BestColumn(RolesFor(b.player), b, 2) == Some(Successors(b)[j].col)
    ensures Minimax(RolesFor(b.player), Successors(b)[j].board, 1, false) != NegInf
  {
    var roles := RolesFor(b.player);
    var succ := Successors(b);
    var vals := ChildValues(roles, succ, 1, false);
    var i :| 0 <= i < |FreeCols(b)| && FreeCols(b)[i] == c;
    ChildAt(b, FreeCols(b), i);
    ChildValueAt(roles, succ, 1, false, i);
    var best := ArgBest(vals, true);
    if best.None? {
      assert false;
    }
    j := best.value;
    ChildValueAt(roles, succ, 1, false, j);
  }

  /** Child j of `succ` is the one a maximizing call picked: its board and
      column are in `r`, every earlier child has a strictly smaller minimax
      value, its own value is exact inside the window and at least `r.value`
      on a cutoff, and the cutoff happened right after examining it. */
  ghost predicate MaxChoice(roles: Roles, b: Board, n: nat, j: int, r: Pick,
                               alpha: Value, beta: Value, examined: nat)
    requires n > 0
  {
    var succ := Successors(b);
    var vals := ChildValues(roles, succ, n - 1, false);
    && 0 <= j < |succ|
    && r.col == Some(succ[j].col) && r.board == Some(succ[j].board)
    && (forall i :: 0 <= i < j ==> Lt(vals[i], r.value))
    && (Lt(alpha, r.value) && Lt(r.value, beta) ==> vals[j] == r.value)
    && (Le(beta, r.value) ==> Le(r.value, vals[j]) && examined == j + 1)
  }

  /** The mirror image of `MaxChoice` for a minimizing call. */
  ghost predicate MinChoice(roles: Roles, b: Board, n: nat, j: int, r: Pick,
                               alpha: Value, beta: Value, examined: nat)
    requires n > 0
  {
    var succ := Successors(b);
    var vals := ChildValues(roles, succ, n - 1, true);
    && 0 <= j < |succ|
    && r.col == Some(succ[j].col) && r.board == Some(succ[j].board)
    && (forall i :: 0 <= i < j ==> Lt(r.value, vals[i]))
    && (Lt(alpha, r.value) && Lt(r.value, beta) ==> vals[j] == r.value)
    && (Le(r.value, alpha) ==> Le(vals[j], r.value) && examined == j + 1)
  }

  /** The maximizing half of the search. `examined` counts the children
      searched before returning. */
  method MaxSearch(roles: Roles, b: Board, n: nat, alpha: Value, beta: Value)
    returns (r: Pick, ghost examined: nat)
    requires Lt(alpha, beta)
    decreases n
    ensures FailSoft(r.value, alpha, beta, Minimax(roles, b, n, true))
    ensures n == 0 ==> r == Pick(Some(b), None, Heuristic(roles, b)) && examined == 0
    ensures n > 0 ==> (r.col.None? <==> r.value == NegInf) && (r.col.None? ==> r.board.None?)
    ensures n > 0 ==> examined <= |FreeCols(b)|
    ensures n > 0 && examined < |FreeCols(b)| ==> Le(beta, r.value)
    ensures r.col.Some? ==> r.col.value in FreeCols(b)
    ensures r.col.Some? ==> n > 0
    ensures r.col.Some? && n > 0 ==>
              exists j :: MaxChoice(roles, b, n, j, r, alpha, beta, examined)
  {
    if n == 0 {
      return Pick(Some(b), None, Heuristic(roles, b)), 0;
    }
    var successors := GetSuccessors(b);
    ghost var vals := ChildValues(roles, successors, n - 1, false);
    assert Minimax(roles, b, n, true) == Extreme(vals, true);
    var a := alpha;
    var bestValue := NegInf;
    var bestBoard: Option<Board> := None;
    var bestCol: Option<int> := None;
    ghost var bestIdx := 0;
    var k := 0;
    while k < |successors|
      invariant 0 <= k <= |successors|
      invariant MaxScan(vals, k, alpha, beta, bestValue, bestIdx)
      invariant a == Max(alpha, bestValue)
      invariant bestCol.None? <==> bestValue == NegInf
      invariant bestCol.None? ==> bestBoard.None?
      invariant bestCol.Some? ==>
                  bestCol == Some(successors[bestIdx].col) && bestBoard == Some(successors[bestIdx].board)
    {
      var child := successors[k];
      var sub, _ := MinSearch(roles, child.board, n - 1, a, beta);
      ChildValueAt(roles, successors, n - 1, false, k);
      MaxScanStep(vals, k, alpha, beta, bestValue, bestIdx, sub.value);
      if Lt(bestValue, sub.value) {
        bestBoard := Some(child.board);
        bestCol := Some(child.col);
        bestValue := sub.value;
        bestIdx := k;
      }
      if Le(beta, bestValue) {
        ExtremeBounds(vals, true, bestIdx);
        assert MaxChoice(roles, b, n, bestIdx, Pick(bestBoard, bestCol, bestValue), alpha, beta, k + 1);
        return Pick(bestBoard, bestCol, bestValue), k + 1;
      }
      a := Max(a, bestValue);
      k := k + 1;
    }
    r := Pick(bestBoard, bestCol, bestValue);
    examined := |successors|;
    MaxScanDone(vals, alpha, beta, bestValue, bestIdx);
    if bestCol.Some? {
      assert MaxChoice(roles, b, n, bestIdx, r, alpha, beta, examined);
    }
  }

  /** The minimizing half of the search, the mirror image of `MaxSearch`. */
  method MinSearch(roles: Roles, b: Board, n: nat, alpha: Value, beta: Value)
    returns (r: Pick, ghost examined: nat)
    requires Lt(alpha, beta)
    decreases n
    ensures FailSoft(r.value, alpha, beta, Minimax(roles, b, n, false))
    ensures n == 0 ==> r == Pick(Some(b), None, Heuristic(roles, b)) && examined == 0
    ensures n > 0 ==> (r.col.None? <==> r.value == PosInf) && (r.col.None? ==> r.board.None?)
    ensures n > 0 ==> examined <= |FreeCols(b)|
    ensures n > 0 && examined < |FreeCols(b)| ==> Le(r.value, alpha)
    ensures r.col.Some? ==> r.col.value in FreeCols(b)
    ensures r.col.Some? ==> n > 0
    ensures r.col.Some? && n > 0 ==>
              exists j :: MinChoice(roles, b, n, j, r, alpha, beta, examined)
  {
    if n == 0 {
      return Pick(Some(b), None, Heuristic(roles, b)), 0;
    }
    var successors := GetSuccessors(b);
    ghost var vals := ChildValues(roles, successors, n - 1, true);
    assert Minimax(roles, b, n, false) == Extreme(vals, false);
    var bt := beta;
    var bestValue := PosInf;
    var bestBoard: Option<Board> := None;
    var bestCol: Option<int> := None;
    ghost var bestIdx := 0;
    var k := 0;
    while k < |successors|
      invariant 0 <= k <= |successors|
      invariant MinScan(vals, k, alpha, beta, bestValue, bestIdx)
      invariant bt == Min(beta, bestValue)
      invariant bestCol.None? <==> bestValue == PosInf
      invariant bestCol.None? ==> bestBoard.None?
      invariant bestCol.Some? ==>
                  bestCol == Some(successors[bestIdx].col) && bestBoard == Some(successors[bestIdx].board)
    {
      var child := successors[k];
      var sub, _ := MaxSearch(roles, child.board, n - 1, alpha, bt);
      ChildValueAt(roles, successors, n - 1, true, k);
      MinScanStep(vals, k, alpha, beta, bestValue, bestIdx, sub.value);
      if Lt(sub.value, bestValue) {
        bestBoard := Some(child.board);
        bestCol := Some(child.col);
        bestValue := sub.value;
        bestIdx := k;
      }
      if Le(bestValue, alpha) {
        ExtremeBounds(vals, false, bestIdx);
        assert MinChoice(roles, b, n, bestIdx, Pick(bestBoard, bestCol, bestValue), alpha, beta, k + 1);
        return Pick(bestBoard, bestCol, bestValue), k + 1;
      }
      bt := Min(bt, bestValue);
      k := k + 1;
    }
    r := Pick(bestBoard, bestCol, bestValue);
    examined := |successors|;
    MinScanDone(vals, alpha, beta, bestValue, bestIdx);
    if bestCol.Some? {
      assert MinChoice(roles, b, n, bestIdx, r, alpha, beta, examined);
    }
  }

  /** Pick a column for the player to move: "me" is that player, "you" the
      other one, and the maximizing search runs with the full window. The
      column is the one the unpruned search would pick. */
  method Go(maxDepth: nat, b: Board) returns (col: Option<int>)
    ensures col.Some? ==> col.value in FreeCols(b)
    ensures col == BestColumn(RolesFor(b.player), b, maxDepth)
    ensures col.None? <==> maxDepth == 0 || Minimax(RolesFor(b.player), b, maxDepth, true) == NegInf
  {
    var roles := RolesFor(b.player);
    var r, examined := MaxSearch(roles, b, maxDepth, NegInf, PosInf);
    ghost var exact := Minimax(roles, b, maxDepth, true);
    FullWindowExact(r.value, exact);
    if maxDepth > 0 {
      ArgBestIsExtreme(ChildValues(roles, Successors(b), maxDepth - 1, false), true);
    }
    if maxDepth > 0 && r.col.Some? {
      ghost var succ := Successors(b);
      ghost var vals := ChildValues(roles, succ, maxDepth - 1, false);
      ghost var j :| MaxChoice(roles, b, maxDepth, j, r, NegInf, PosInf, examined);
      FirstExtremeUnique(vals, true, j);
    }
    col := r.col;
  }
}
