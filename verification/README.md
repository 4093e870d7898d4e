# Alpha-beta agent for a connection game, in Dafny

This project models `AlphaBetaAgent`, the move-selection engine of a
two-player connection game. Tokens drop into columns, and a player wins by
completing a line of their own tokens. The agent chooses a column with a
depth-bounded alpha-beta search:

- `go` fixes the roles. "Me" is the player to move and "you" is the other
  player. It then runs the maximizing search with the full window
  (-infinity, +infinity).
- `max` and `min` are the mutually recursive halves of the search. Each
  keeps the first strictly best child and returns on a beta (resp. alpha)
  cutoff.
- `get_successors` produces one child board per free column, in order.
- `heuristic` scores a leaf. It returns ±infinity for a win in the
  situations it recognises. Otherwise it returns the number of "me" tokens
  on a line minus ten times the number of "you" tokens on a line.

The modules follow that structure:

- `Values` (values.dfy): search values. These are the integers extended
  with -infinity and +infinity, replacing the floating-point infinities.
  The module also defines the maximum/minimum of a sequence (`Extreme`) and
  the index an unpruned scan with a strict comparison keeps (`ArgBest`).
- `Boards` (board.dfy): the board as the agent observes it. A board is
  recorded as the answers to the agent's queries (player to move, outcome,
  width, height, tokens, cells on a line). For each free column it also
  holds the board that dropping a token there produces. The board's own
  rules are not modelled.
- `Evaluation` (evaluation.dfy): the roles and the heuristic. The
  heuristic is proved against an independent count of line cells.
- `Scan` (scan.dfy): the bookkeeping of one successor loop. This covers
  the fail-soft relation and one loop step with or without a cutoff.
- `Search` (search.dfy): the unpruned minimax reference, the pruned search
  and `Go`. The pruned search is proved fail-soft against the reference.
  With the full window it computes the minimax value exactly and picks the
  same column as the unpruned search.
- `Decided` (decided.dfy): a corrected reference search that does not
  expand a board already scored ±infinity. It backs the finding below. The
  agent model in `Search` keeps the code's behaviour.
- `DeepWin` (witness.dfy): a concrete position on which the agent's
  two-ply search passes over an immediate win.

## Model

| member | source | states |
|---|---|---|
| Evaluation.RolesFor | alpha_beta_agent.py:60-61 | "me" is the player to move. "You" is always 1 or 2 and differs from "me". For players 1 and 2, "you" is 3 − "me". |
| Evaluation.Heuristic | alpha_beta_agent.py:25-49 | +infinity exactly when the outcome is "me" and "you" is to move. −infinity exactly when the outcome is "you" and "me" is to move. Otherwise the score is finite: the number of "me" cells on a line minus ten times the number of "you" cells on a line, and it lies in [−10·w·h, w·h]. |
| Evaluation.GridScoreCounts | alpha_beta_agent.py:38-49 | Summing the per-cell score (−10, +1 or 0) over the first `cols` columns gives the size of the set of "me" line cells minus ten times that of "you" line cells. Empty cells, cells off any line and tokens of neither role add nothing. |
| Evaluation.ColumnScoreCounts | alpha_beta_agent.py:40-48 | The same count for one column, row by row. |
| Evaluation.GridScoreBounds | alpha_beta_agent.py:38-49 | The sum over `cols` columns lies between −10·cols·h and cols·h. |
| Evaluation.ColumnScoreBounds | alpha_beta_agent.py:40-48 | The sum over `rows` cells of one column lies between −10·rows and rows. |
| Boards.GetSuccessors | alpha_beta_agent.py:113-130 | One child per free column, in free-column order. Child i carries column i and the board after a drop in that column. The result is empty when there is no free column, and it equals the reference list `Successors`. |
| Boards.ChildAt | alpha_beta_agent.py:122-129 | Child i of the reference successor list is the drop in column i paired with that column. |
| Values.Max | alpha_beta_agent.py:84 | The larger of two values: at least both arguments, and one of them (raising alpha). |
| Values.Min | alpha_beta_agent.py:104 | The smaller of two values: at most both arguments, and one of them (lowering beta). |
| Values.ArgBest | alpha_beta_agent.py:71-81 | The unpruned scan's pick. It is None only when every value is the initial infinity. Otherwise it is an index whose value is not the initial infinity, is no worse than every value, and is strictly better than every earlier value. |
| Values.ArgBestIsExtreme | alpha_beta_agent.py:76-85 | The scan picks nothing exactly when the maximum (minimum) is the initial infinity. Otherwise the value it picks is the maximum (minimum). |
| Values.FirstExtremeUnique | alpha_beta_agent.py:78-81 | The first index holding the extreme, with every earlier value strictly worse, is the one the strict-comparison scan picks (first-wins tie-break). |
| Values.ExtremeBounds | alpha_beta_agent.py:78-81 | The maximum (minimum) is no worse than any element. |
| Values.ExtremeAttained | alpha_beta_agent.py:78-81 | The maximum (minimum) of a non-empty sequence is one of its elements. |
| Values.ExtremeBoundedBy | alpha_beta_agent.py:78-81 | A value no worse than every element is no worse than their maximum (minimum). |
| Scan.FullWindowExact | alpha_beta_agent.py:62-64 | A fail-soft value for the window (−infinity, +infinity) is the exact value. |
| Scan.MaxScanStep | alpha_beta_agent.py:76-84 | After one child of the maximizing loop, either the loop invariant holds for one more child, or the new best reached beta. In that case the new best is a lower bound of that child's exact value and beats every earlier child. |
| Scan.MinScanStep | alpha_beta_agent.py:96-104 | The mirror image for the minimizing loop, with the cutoff at alpha. |
| Scan.MaxScanDone | alpha_beta_agent.py:85 | A maximizing loop that ran through all children returns a fail-soft value of the children's maximum. |
| Scan.MinScanDone | alpha_beta_agent.py:105 | A minimizing loop that ran through all children returns a fail-soft value of the children's minimum. |
| Search.ChildValueAt | alpha_beta_agent.py:76-77 | Entry k of the children's value list is the minimax value of child k. |
| Search.MinimaxNoMoves | alpha_beta_agent.py:71-85 | Above depth 0, a board without free columns is worth the initial infinity of the side to move. |
| Search.ImmediateWin | alpha_beta_agent.py:32-33 | One ply deep, when some free column wins for the player to move, the unpruned choice is a column whose child is scored +infinity. |
| Search.ImmediateBlock | alpha_beta_agent.py:35-36 | Two plies deep, when some column leaves "you" no reply scored −infinity, the chosen column is also one whose one-ply minimizing value is not −infinity. |
| DeepWin.DeepWinMissed | alpha_beta_agent.py:67-85 | A concrete one-row, five-cell position where a line is two adjacent tokens. "Me" has a winning column (1) and "you" has a threat (column 3). Column 1's board is scored +infinity, but the two-ply search expands it: "you" completes its own line in reply, "me" is to move again, and the won board is worth 2 − 20 = −18. The search picks the blocking column 3, worth 0, instead of winning. |
| Decided.DecidedImmediateWin | alpha_beta_agent.py:29-33 | With boards scored ±infinity treated as leaves, at every depth from 1 on an immediately winning column is never passed over: the chosen child is worth +infinity. |
| Decided.DecidedAgreesAtDepthOne | alpha_beta_agent.py:67-85 | One ply deep, the corrected search and the agent's search pick the same column. |
| Decided.LeafValuesAgree | alpha_beta_agent.py:68-69 | Children searched to depth 0 get their heuristic in both searches. |
| Search.MaxSearch | alpha_beta_agent.py:67-85 | Fail-soft against the unpruned minimax value: exact inside (alpha, beta), an upper bound at or below alpha, a lower bound at or above beta. At depth 0 it returns the heuristic with no column and examines nothing. Above depth 0 there is no column exactly when the value is −infinity. A column is always a free column. It belongs to a child whose every predecessor has a minimax value strictly below the returned value. That child's value equals the returned value inside the window and is at least the returned value on a cutoff. It stops early only at a value ≥ beta, right after the child that reached it. |
| Search.MinSearch | alpha_beta_agent.py:87-105 | The mirror image: +infinity when there is no column, the cutoff at a value ≤ alpha, and earlier children strictly larger. |
| Search.Go | alpha_beta_agent.py:57-65 | The chosen column is a free column and equals the unpruned search's first best column. It is None exactly when the depth is 0 or the minimax value is −infinity, for example when there is no free column. |

## Left out

- The board's rules (where a token lands, line detection, the outcome, the player flip after a drop, copying) are not part of this model. A board is a record of the values the agent reads. No proved property depends on those rules.
- The agent base class and the `name` constructor parameter carry no logic. They are not modelled.
- Floating-point infinities are replaced by the two infinite `Value`s. Every value the agent compares is an integer or an infinity.
- The mutable fields `me`/`you` become the `Roles` parameter. `go` sets them once per search and nothing else writes them.
- The always-true `if "defensive":` guard and the `value += 0` branch change nothing, so they have no counterpart.
- Search.MaxSearch, Search.MinSearch: both require alpha < beta. Every call in the agent meets this: `go` passes the full window, and a loop narrows the window only while the best value is still inside it. With an empty window the fail-soft statement would not hold.
- Search.Go: the depth is a natural number. A negative depth never reaches the depth-0 case of the agent, which then searches until boards have no free column. That behaviour needs the board's rules.
- Boards are values. That `get_successors` leaves its input board unchanged therefore holds by construction and is not stated as a separate property.
- Search.ImmediateWin: stated for depth 1 only. Above depth 0 a won board is expanded like any other. As long as the board keeps reporting that winner, at an even root depth the leaves below the won board have "me" to move, so the whose-turn condition at alpha_beta_agent.py:32 scores them as finite boards. At an odd depth from 3 on, "you" is to move at those leaves and the win can score +infinity again. An actual miss also needs the replies to outweigh the winner's line cells (see `DeepWin.DeepWinMissed` and the finding below).
- Search.ImmediateBlock: stated for depth 2 only. A board on which "you" has won and that still has a free column is expanded while depth remains. At an odd root depth from 3 on, "me" is no longer to move at the leaves below it, so the whose-turn condition at alpha_beta_agent.py:35 scores that win as finite. At even depths "me" is to move there and the win keeps its −infinity.
- Calling `go` on a board with no free column: the agent returns None, and the model follows that behaviour. It does not raise a dedicated "no legal moves" failure.

## Findings

| source | as written | input that shows it | evidently intended | confidence | as-written member | corrected member |
|---|---|---|---|---|---|---|
| alpha_beta_agent.py:67-85 | `max`/`min` expand every board while depth remains, including a board on which a player has already won. After an odd number of further plies the whose-turn condition at lines 32 and 35 fails, and the win is scored as a finite board. | The position of `DeepWin.DeepWinMissed`: "me" holds a winning column and "you" one threat; the depth-2 search blocks instead of winning (column 3, value 0, over column 1, value −18). | The comment at lines 29-31: play a winning move whenever one exists, at any depth ≥ 1. | medium, not executed; needs the board to keep offering free columns and to keep reporting the first winner after a win, which the board class decides | DeepWin.DeepWinMissed | Decided.DecidedImmediateWin |
