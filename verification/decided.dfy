/** A minimax that stops at decided boards: a board the heuristic scores
    +infinity or -infinity is not expanded further, whatever depth remains.
    The agent's own search (module Search) expands such boards; this variant
    is the search that takes an immediate win at every depth.
 */
module Decided {
  import opened Values
  import opened Boards
  import opened Evaluation
  import Search

  /** The minimax value that treats a board scored +-infinity as a leaf. */
  function DecidedMinimax(roles: Roles, b: Board, n: nat, maximizing: bool): Value
    decreases n, 0
  {
    if n == 0 || !Heuristic(roles, b).Fin? then Heuristic(roles, b)
    else Extreme(DecidedChildValues(roles, Successors(b), n - 1, !maximizing), maximizing)
  }

  /** The decided-aware values of a list of children, each `n` plies deep. */
  function DecidedChildValues(roles: Roles, succ: seq<Child>, n: nat, maximizing: bool): (vs: seq<Value>)
    decreases n, 1, |succ|
    ensures |vs| == |succ|
  {
    if |succ| == 0 then []
    else [DecidedMinimax(roles, succ[0].board, n, maximizing)] + DecidedChildValues(roles, succ[1..], n, maximizing)
  }

  lemma {:induction false} DecidedChildValueAt(roles: Roles, succ: seq<Child>, n: nat, maximizing: bool, k: nat)
    requires k < |succ|
    ensures DecidedChildValues(roles, succ, n, maximizing)[k] == DecidedMinimax(roles, succ[k].board, n, maximizing)
    decreases k
  {
    if k > 0 {
      DecidedChildValueAt(roles, succ[1..], n, maximizing, k - 1);
    }
  }

  /** The column the decided-aware search picks at the root, which is
      always expanded, with the same first-wins tie-break as the agent. */
  function DecidedBestColumn(roles: Roles, b: Board, n: nat): Option<int>
  {
    if n == 0 then None
    else
      var succ := Successors(b);
      match ArgBest(DecidedChildValues(roles, succ, n - 1, false), true)
      case None => None
      case Some(j) => Some(succ[j].col)
  }

  /** Children searched to depth 0 get their heuristic in both searches. */
  lemma {:induction false} LeafValuesAgree(roles: Roles, succ: seq<Child>, maximizing: bool)
    ensures DecidedChildValues(roles, succ, 0, maximizing) == Search.ChildValues(roles, succ, 0, maximizing)
  {
    if |succ| > 0 {
      LeafValuesAgree(roles, succ[1..], maximizing);
    }
  }

  /** One ply deep the correction changes nothing: both searches pick the
      same column. */
  lemma DecidedAgreesAtDepthOne(roles: Roles, b: Board)
    ensures DecidedBestColumn(roles, b, 1) == Search.BestColumn(roles, b, 1)
  {
    LeafValuesAgree(roles, Successors(b), false);
  }

  /** At every depth from 1 on, a column whose drop wins for the player to
      move (that player is the outcome and the opponent is to move) is never
      passed over: the chosen column leads to a board worth +infinity. */
  lemma {:induction false} DecidedImmediateWin(b: Board, c: int, n: nat) returns (j: nat)
    requires n >= 1 && c in FreeCols(b)
    requires Drop(b, c).outcome == b.player && Drop(b, c).player == RolesFor(b.player).you
    ensures j < |Successors(b)| && DecidedBestColumn(RolesFor(b.player), b, n) == Some(Successors(b)[j].col)
    ensures DecidedMinimax(RolesFor(b.player), Successors(b)[j].board, n - 1, false) == PosInf
  {
    var roles := RolesFor(b.player);
    var succ := Successors(b);
    var vals := DecidedChildValues(roles, succ, n - 1, false);
    var i :| 0 <= i < |FreeCols(b)| && FreeCols(b)[i] == c;
    ChildAt(b, FreeCols(b), i);
    DecidedChildValueAt(roles, succ, n - 1, false, i);
    assert vals[i] == PosInf;
    var best := ArgBest(vals, true);
    if best.None? {
      assert false;
    }
    j := best.value;
    DecidedChildValueAt(roles, succ, n - 1, false, j);
  }
}
