/** A concrete position on which the agent, searching two plies, blocks
    instead of winning. The board is one row of five cells and a line is two
    adjacent tokens of one player. "Me" (player 1) holds cell 0, "you"
    (player 2) holds cell 4, and columns 1, 2 and 3 are free. Every board
    below is the one the previous drop produces under that rule; the winner
    of a board stays its outcome. The boards two drops down are only scored,
    never expanded, so their lists of moves are left empty.
 */
module DeepWin {
  import opened Values
  import opened Boards
  import opened Evaluation
  import opened Search

  /** "Me" has completed the line 0-1, then "you" replied in column 2 or 3. */
  const WinThen2 := Board(1, 1, 5, 1, map[(0, 0) := 1, (1, 0) := 1, (2, 0) := 2, (4, 0) := 2],
                          {(0, 0), (1, 0)}, [])
  const WinThen3 := Board(1, 1, 5, 1, map[(0, 0) := 1, (1, 0) := 1, (3, 0) := 2, (4, 0) := 2],
                          {(0, 0), (1, 0), (3, 0), (4, 0)}, [])
  /** "Me" has won by dropping in column 1; columns 2 and 3 are still free. */
  const Win := Board(2, 1, 5, 1, map[(0, 0) := 1, (1, 0) := 1, (4, 0) := 2],
                     {(0, 0), (1, 0)}, [Move(2, WinThen2), Move(3, WinThen3)])

  /** "Me" dropped in column 2, then "you" replied in column 1 or won in column 3. */
  const OpenThen1 := Board(1, 0, 5, 1, map[(0, 0) := 1, (1, 0) := 2, (2, 0) := 1, (4, 0) := 2], {}, [])
  const OpenThen3 := Board(1, 2, 5, 1, map[(0, 0) := 1, (2, 0) := 1, (3, 0) := 2, (4, 0) := 2],
                           {(3, 0), (4, 0)}, [])
  const Open := Board(2, 0, 5, 1, map[(0, 0) := 1, (2, 0) := 1, (4, 0) := 2], {},
                      [Move(1, OpenThen1), Move(3, OpenThen3)])

  /** "Me" blocked in column 3, then "you" replied in column 1 or 2. */
  const BlockThen1 := Board(1, 0, 5, 1, map[(0, 0) := 1, (1, 0) := 2, (3, 0) := 1, (4, 0) := 2], {}, [])
  const BlockThen2 := Board(1, 0, 5, 1, map[(0, 0) := 1, (2, 0) := 2, (3, 0) := 1, (4, 0) := 2], {}, [])
  const Block := Board(2, 0, 5, 1, map[(0, 0) := 1, (3, 0) := 1, (4, 0) := 2], {},
                       [Move(1, BlockThen1), Move(2, BlockThen2)])

  /** The position itself, "me" to move. */
  const Root := Board(1, 0, 5, 1, map[(0, 0) := 1, (4, 0) := 2], {},
                      [Move(1, Win), Move(2, Open), Move(3, Block)])

  /** The one-ply minimizing value of a board with exactly two free columns
      is the smaller of the two replies' heuristics. */
  lemma TwoRepliesValue(roles: Roles, b: Board, r0: Board, r1: Board, c0: int, c1: int)
    requires b.moves == [Move(c0, r0), Move(c1, r1)] && c0 != c1
    ensures FreeCols(b) == [c0, c1] && Drop(b, c0) == r0 && Drop(b, c1) == r1
    ensures Minimax(roles, b, 1, false) == Min(Heuristic(roles, r0), Heuristic(roles, r1))
  {
    assert b.moves[1..] == [Move(c1, r1)] && [Move(c1, r1)][1..] == [];
    assert Columns([Move(c1, r1)]) == [c1];
    assert FreeCols(b) == [c0, c1];
    assert FreeCols(b)[1..] == [c1] && [c1][1..] == [];
    assert DropIn(b.moves[1..], c1) == r1;
    assert ChildrenFor(b, [c1]) == [Child(r1, c1)];
    var succ := Successors(b);
    assert succ == [Child(r0, c0), Child(r1, c1)];
    assert succ[1..] == [Child(r1, c1)] && [Child(r1, c1)][1..] == [];
    var vals := ChildValues(roles, succ, 0, true);
    assert ChildValues(roles, succ[1..], 0, true) == [Heuristic(roles, r1)];
    assert succ[0].board == r0 && Minimax(roles, r0, 0, true) == Heuristic(roles, r0);
    assert vals == [Minimax(roles, succ[0].board, 0, true)] + ChildValues(roles, succ[1..], 0, true);
    assert vals == [Heuristic(roles, r0), Heuristic(roles, r1)];
    assert vals[..1] == [Heuristic(roles, r0)] && vals[..1][..0] == [];
    assert Extreme(vals[..1], false) == Heuristic(roles, r0);
    assert Minimax(roles, b, 1, false) == Extreme(vals, false);
  }

  /** The three successors of the position, in column order. */
  lemma RootSuccessors()
    ensures FreeCols(Root) == [1, 2, 3]
    ensures Successors(Root) == [Child(Win, 1), Child(Open, 2), Child(Block, 3)]
  {
    var m := Root.moves;
    assert m[1..] == [Move(2, Open), Move(3, Block)];
    assert m[1..][1..] == [Move(3, Block)] && m[1..][1..][1..] == [];
    assert Columns(m[1..][1..]) == [3];
    assert Columns(m[1..]) == [2, 3];
    assert FreeCols(Root) == [1, 2, 3];
    assert DropIn(m[1..][1..], 3) == Block;
    assert DropIn(m[1..], 2) == Open;
    assert DropIn(m[1..], 3) == Block;
    ChildAt(Root, FreeCols(Root), 0);
    ChildAt(Root, FreeCols(Root), 1);
    ChildAt(Root, FreeCols(Root), 2);
  }

  /** After winning, "you"'s line in column 3 and "me" to move make the won
      board worth 2 - 20 = -18 one ply further. */
  lemma WinValue()
    ensures Heuristic(RolesFor(1), Win) == PosInf
    ensures Minimax(RolesFor(1), Win, 1, false) == Fin(-18)
  {
    TwoRepliesValue(RolesFor(1), Win, WinThen2, WinThen3, 2, 3);
    assert GridScore(RolesFor(1), WinThen2, 5) == 2;
    assert GridScore(RolesFor(1), WinThen3, 5) == -18;
  }

  /** Column 2 lets "you" win in column 3. */
  lemma OpenValue()
    ensures Minimax(RolesFor(1), Open, 1, false) == NegInf
  {
    TwoRepliesValue(RolesFor(1), Open, OpenThen1, OpenThen3, 1, 3);
    assert GridScore(RolesFor(1), OpenThen1, 5) == 0;
  }

  /** Column 3 blocks; neither reply forms a line. */
  lemma BlockValue()
    ensures Minimax(RolesFor(1), Block, 1, false) == Fin(0)
  {
    TwoRepliesValue(RolesFor(1), Block, BlockThen1, BlockThen2, 1, 2);
    assert GridScore(RolesFor(1), BlockThen1, 5) == 0;
    assert GridScore(RolesFor(1), BlockThen2, 5) == 0;
  }

  /** The two-ply values of the three successors, in column order. */
  lemma RootChildValues()
    ensures ChildValues(RolesFor(1), Successors(Root), 1, false) == [Fin(-18), NegInf, Fin(0)]
  {
    var roles := RolesFor(1);
    RootSuccessors();
    WinValue();
    OpenValue();
    BlockValue();
    var succ := Successors(Root);
    ChildValueAt(roles, succ, 1, false, 0);
    ChildValueAt(roles, succ, 1, false, 1);
    ChildValueAt(roles, succ, 1, false, 2);
  }

  /** Over those values the maximizing scan keeps the third, value 0. */
  lemma RootPick()
    ensures Extreme([Fin(-18), NegInf, Fin(0)], true) == Fin(0)
    ensures ArgBest([Fin(-18), NegInf, Fin(0)], true) == Some(2)
  {
    var vals: seq<Value> := [Fin(-18), NegInf, Fin(0)];
    assert vals[..2] == [Fin(-18), NegInf] && vals[..2][..1] == [Fin(-18)] && vals[..2][..1][..0] == [];
    assert Extreme(vals[..2][..1], true) == Fin(-18);
    assert Extreme(vals[..2], true) == Fin(-18);
    FirstExtremeUnique(vals, true, 2);
  }

  /** Searching two plies, the agent passes over the immediately winning
      column 1 and picks column 3, with value 0. */
  lemma DeepWinMissed()
    ensures Drop(Root, 1) == Win
    ensures Win.outcome == Root.player && Win.player == RolesFor(Root.player).you
    ensures Heuristic(RolesFor(Root.player), Drop(Root, 1)) == PosInf
    ensures Minimax(RolesFor(Root.player), Drop(Root, 1), 1, false) == Fin(-18)
    ensures BestColumn(RolesFor(Root.player), Root, 2) == Some(3)
    ensures Minimax(RolesFor(Root.player), Root, 2, true) == Fin(0)
  {
    RootSuccessors();
    ChildAt(Root, FreeCols(Root), 0);
    WinValue();
    RootChildValues();
    RootPick();
  }
}
