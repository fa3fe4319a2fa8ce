# Tic-tac-toe search agents in Dafny

This project models the game-playing core of a small tic-tac-toe AI:

- **the game** (`game/TicTacToeGame.py`, module `TicTacToeGame`):
  - the action space: one action per cell, numbered row by row as `n * x + y`, plus a pass slot at `n * n`;
  - the valid-move vector;
  - the transition `getNextState` and the verdict `getGameEnded`;
  - the canonical form, the eight board/policy symmetries, and `action2move`.
- **depth-bounded minimax** (`agent/minimax/Minimax.py`, module `Minimax`):
  - `Minimax` is a recursive function that serves as the reference definition;
  - `Search` is the loop-and-dict procedure the source writes, proved to compute `Minimax`;
  - the search answer is proved to be an extreme child score, with ties going to the lowest action.
- **two Monte Carlo tree searches**, over a shared arena tree (module `MctsTree`):
  - the arena's node 0 is the root;
  - a parent has a smaller index than its children;
  - a parent lists its children by index.

  The two searches:
  - `agent/mcts/MonteCarloTreeSearch.py` (module `Mcts`) and `agent/mcts/backup.py` (module `MctsBackup`);
  - each is a class `MonteCarloTree` whose methods update the arena in place: the lazily cached untried actions, expand, backpropagate, best child and rollout;
  - the descent is a class method in `Mcts` (`Select`, `SelectStep`, as select is a method in MonteCarloTreeSearch.py). In `MctsBackup` it is the free methods `TreePolicy` and `PolicyStep` over the root, as tree_policy is a free function in backup.py;
  - each also has a free driver, `MonteCarloTreeSearch`, whose loop of simulations is the method `RunSimulations`.

The tree invariant `WellFormed` holds that:
- every non-root node is its parent's position after the parent's player took the node's action;
- the visit counter equals the total of the results tally;
- the cached untried actions and the children's actions split the legal action list.

The lemmas about the specification functions (`Filled`, `Expanded`, `BackedUp`) prove that every operation keeps `WellFormed`. From that invariant, each driver is proved to:
- answer a legal action;
- visit the root exactly once per simulation;
- pick the first root child with the largest wins-minus-losses per visit;
- reach its tree by exactly `simulations` simulations from a lone root. The ghost `history` lists the arenas, and each is one `SimulationStep` after the one before: a descent, the leaf's score, and the backpropagation of that score (`Simulated`).

The descent (select, tree_policy) returns a ghost `path`. Each hop along it from a node that existed before is a first-largest-weight child step (`BestChildHop`), and the last hop may be an expansion (`ExpansionHop`). backup.py's random playout is the function `Playout`, and its rollout loop is proved to end on exactly that board. Each simulation is proved to back up exactly the leaf's score into the arena the descent left (`BackedUp`).

The board rules (`game/TicTacToeLogic.py`) are not part of this model. Module `TicTacToeLogic` stands in for them with the usual n-in-a-row rules:
- a legal move is an empty cell;
- executing a move writes one cell;
- a win is a full row, column or diagonal.

The rest of the model depends on these concrete definitions, not only on their contracts. In particular, `IsWin` has no contract of its own, and several lemmas unfold the definitions:
- `TicTacToeGame.CanonicalWin` relies on how `IsWin` looks at the pieces;
- `TicTacToeGame.CanonicalKeepsEmptyCells` relies on how `LegalMoves` and `ExecuteMove` look at empty cells;
- the termination of backup.py's playout (`MctsBackup.Playout`) and of its rollout loop rests on `ExecuteLegalMove` and `LegalActionShrinks`, which unfold `LegalMoves` and `ExecuteMove`. Minimax terminates on its depth alone.

A different board implementation would need these lemmas re-proved.

## Model

| member | source | states |
|---|---|---|
| TicTacToeLogic.LegalMoves | game/TicTacToeGame.py:35 | the legal moves of a board are exactly its empty in-grid cells |
| TicTacToeLogic.HasLegalMovesIff | game/TicTacToeGame.py:52 | "moves remain" holds exactly when the set of legal moves is non-empty |
| TicTacToeLogic.ExecuteMove | game/TicTacToeGame.py:28 | the board stays a valid n-by-n grid; the chosen cell now holds the mover's piece; every other cell is unchanged |
| TicTacToeLogic.ExecuteLegalMove | agent/mcts/backup.py:83-90 | playing a legal move removes exactly that move from the legal moves, so the number of legal moves strictly drops |
| TicTacToeLogic.IsWin | game/TicTacToeGame.py:48-51 | definition of b.is_win(c): some row, column, diagonal or anti-diagonal holds only c's pieces. It has no contract of its own; `TicTacToeGame.GetGameEnded` and `TicTacToeGame.CanonicalWin` state what the model relies on |
| TicTacToeGame.CellIndexRoundTrip | game/TicTacToeGame.py:39-40 | the slot `n * x + y` of an in-grid cell lies below `n * n`, and dividing and taking the remainder by n give back x and y |
| TicTacToeGame.CellIndex | game/TicTacToeGame.py:40 | definition of the slot `n * x + y` of cell (x, y); specified by `CellIndexRoundTrip` and `IndexCellRoundTrip` |
| TicTacToeGame.SupportedSize | game/TicTacToeGame.py:84 | definition: the board sizes (`1 <= n` and `n * n <= 32`) at which every cell's action passes action2move's `action <= 31` assertion |
| TicTacToeGame.IndexCellRoundTrip | game/TicTacToeGame.py:83-85 | every action below `n * n` decodes to an in-grid cell whose slot is that action |
| TicTacToeGame.ActionSize | game/TicTacToeGame.py:17-19 | there are `n * n + 1` actions, and every cell's slot lies before the last (pass) slot |
| TicTacToeGame.AllCellsIndexed | game/TicTacToeGame.py:39-40 | every in-grid cell's slot is an ordinary action |
| TicTacToeGame.ValidMovesSpec | game/TicTacToeGame.py:31-41 | the vector has one slot per action; the pass slot is set exactly when no move is legal; a cell's slot is set exactly when that cell is a legal move |
| TicTacToeGame.ValidMoves | game/TicTacToeGame.py:31-41 | definition of the valid-move vector; specified by `ValidMovesSpec`, and computed by the loop in `GetValidMoves` |
| TicTacToeGame.GetValidMoves | game/TicTacToeGame.py:31-41 | filling a zeroed array from the legal moves yields exactly that vector |
| TicTacToeGame.SetSlotsMembers | agent/mcts/MonteCarloTreeSearch.py:66-68 | an action is collected exactly when it is below the bound and its slot is set |
| TicTacToeGame.SetSlotsAscending | agent/mcts/MonteCarloTreeSearch.py:66-68 | the collected actions are strictly ascending |
| TicTacToeGame.OrdinaryActionsSpec | agent/mcts/MonteCarloTreeSearch.py:64-68 | the action list holds exactly the set slots before the pass slot; it is strictly ascending; it is empty when no such slot is set |
| TicTacToeGame.CollectActions | agent/mcts/backup.py:85-88 | the append loop builds exactly that action list |
| TicTacToeGame.LegalActionsSpec | agent/mcts/backup.py:50-54 | an action is listed exactly when it is the slot of a legal move, and the list is strictly ascending |
| TicTacToeGame.LegalActions | agent/mcts/MonteCarloTreeSearch.py:64-68 | definition of the list untried_actions builds: the set ordinary slots of the valid-move vector, in ascending order; specified by `LegalActionsSpec` |
| TicTacToeGame.Action2Move | game/TicTacToeGame.py:83-85 | the decoded (row, column) re-encodes to the action; the column is below n; the cell is in the grid when the action is below `n * n` |
| TicTacToeGame.Action2MoveInvertsIndex | game/TicTacToeGame.py:83-85 | decoding the slot `n * x + y` that getValidMoves sets gives back (x, y) |
| TicTacToeGame.GetNextState | game/TicTacToeGame.py:21-29 | the player always flips; the pass leaves the board as it is; any other action puts the mover's piece in its cell and leaves every other cell alone |
| TicTacToeGame.GetGameEnded | game/TicTacToeGame.py:43-55 | each of win, loss, ongoing and draw holds exactly under its condition, checked in the source's order: own line, opponent's line, free cell |
| TicTacToeGame.EndedForBoth | game/TicTacToeGame.py:43-55 | "ongoing" and "draw" are the same from both players' sides; when the two players do not both have a line, a win for one is a loss for the other |
| TicTacToeGame.PassSlot | game/TicTacToeGame.py:36-38 | the pass slot is set exactly when no cell is free |
| TicTacToeGame.MovesRemainOfferActions | game/TicTacToeGame.py:36-41 | while a cell is free, the pass slot is clear and some ordinary action is offered |
| TicTacToeGame.SearchableActions | agent/minimax/Minimax.py:24-29 | the pass slot is set exactly when no cell is free; every offered action is a cell slot; a free cell means some action is offered |
| TicTacToeGame.OngoingHasActions | game/TicTacToeGame.py:31-53 | while the game is on, the pass slot is clear and at least one ordinary action is offered |
| TicTacToeGame.NextStateIsApplyAction | agent/minimax/Minimax.py:30-33 | putting the piece directly at `(action // n, action % n)`, as minimax and backup's expand do, is getNextState's transition with the player flipped |
| TicTacToeGame.ApplyAction | agent/mcts/backup.py:69-72 | placing the mover's piece directly on cell `(a / n, a % n)` of a copy, as backup.py's expand and minimax do, gives a valid board. `NextStateIsApplyAction` proves it is getNextState's board |
| TicTacToeGame.LegalActionShrinks | agent/mcts/backup.py:83-90 | a legal action takes a free cell, so every rollout step leaves fewer legal moves |
| TicTacToeGame.DrawOffersOnlyPass | game/TicTacToeGame.py:24-41 | a drawn board offers only the pass, and passing leaves it unchanged |
| TicTacToeGame.GetCanonicalForm | game/TicTacToeGame.py:57-61 | the canonical board is a valid board in which every cell is the original cell multiplied by the player |
| TicTacToeGame.CanonicalInvolution | game/TicTacToeGame.py:57-61 | canonicalising twice with the same player gives back the board |
| TicTacToeGame.CanonicalWin | game/TicTacToeGame.py:57-61 | in the canonical board, piece c has a line exactly when piece `player * c` has one in the original |
| TicTacToeGame.CanonicalKeepsEmptyCells | game/TicTacToeGame.py:57-61 | canonicalising neither fills nor frees a cell |
| TicTacToeGame.CanonicalGameEnded | game/TicTacToeGame.py:57-61 | the canonical board judged for player 1 gets the verdict that the original gets for `player` |
| TicTacToeGame.Rot90 | game/TicTacToeGame.py:71-72 | a quarter turn keeps the grid square and moves entry `[j][n-1-i]` to `[i][j]` |
| TicTacToeGame.FlipLR | game/TicTacToeGame.py:73-75 | a left-right flip keeps the grid square and reverses every row |
| TicTacToeGame.ReshapeAt | game/TicTacToeGame.py:66 | the reshaped policy holds policy entry `n * i + j` at `[i][j]` |
| TicTacToeGame.RavelAt | game/TicTacToeGame.py:76 | the flattened grid holds `[i][j]` at position `n * i + j` |
| TicTacToeGame.Reshape | game/TicTacToeGame.py:66 | np.reshape of the policy's first `n * n` entries gives an n-by-n grid; its entries are given by `ReshapeAt` |
| TicTacToeGame.Ravel | game/TicTacToeGame.py:76 | ravel of an n-by-n grid has `n * n` entries; they are given by `RavelAt`, and `RavelReshape` proves it undoes `Reshape` |
| TicTacToeGame.RavelReshape | game/TicTacToeGame.py:66-76 | flattening the reshaped policy gives the policy back |
| TicTacToeGame.FullTurn | game/TicTacToeGame.py:69-72 | four quarter turns give back the grid |
| TicTacToeGame.RotValid | game/TicTacToeGame.py:71 | rotating a valid board gives a valid board |
| TicTacToeGame.SymmetryShape | game/TicTacToeGame.py:63-77 | every symmetry is a square board that is valid when the original is, paired with a policy as long as the action space that keeps the pass probability last |
| TicTacToeGame.SymmetryIdentity | game/TicTacToeGame.py:69-76 | the fourth turn without a flip is the original board and policy |
| TicTacToeGame.Symmetry | game/TicTacToeGame.py:71-76 | definition of one round of getSymmetries' loop (rotate the board and the policy grid, optionally flip both, ravel and re-append the pass probability); specified by `SymmetryShape` and `SymmetryIdentity` |
| TicTacToeGame.GetSymmetries | game/TicTacToeGame.py:63-77 | the method returns eight pairs. Entry k is `turns = k / 2 + 1` quarter turns, flipped exactly when k is even. Each pair has the right shape, and the last pair is the input itself |
| Minimax.Evaluate | agent/minimax/Minimax.py:44-50 | the value is 1 exactly when player 1 has a line; -1 exactly when player 1 has none and player -1 has one; 0 otherwise |
| Minimax.EvaluateAgreesWithGameEnded | agent/minimax/Minimax.py:44-50 | evaluate is getGameEnded seen from player 1, with draw and ongoing both scored 0 |
| Minimax.ArgBest | agent/minimax/Minimax.py:37-40 | max/min with a key over the insertion-ordered dict: no entry beats the chosen one, and every earlier entry is beaten by it |
| Minimax.ChildValue | agent/minimax/Minimax.py:30-34 | definition of the score minimax records for an action: minimax one level shallower, for the other player, on the board with the action played; `PriceListAt` and `ScoreAction` state it |
| Minimax.PriceList | agent/minimax/Minimax.py:27-34 | the price list has one entry per action, in order, each a verdict in {-1, 0, 1} |
| Minimax.Minimax | agent/minimax/Minimax.py:19-42 | every value is in {-1, 0, 1}. Depth 0 or a line on the board answers the sentinel with evaluate. A full board answers the sentinel with 0. An action is answered exactly when the search looks at moves |
| Minimax.MinimaxSearches | agent/minimax/Minimax.py:24-42 | in the searching case the legal action list is non-empty, and minimax answers its best price-list entry |
| Minimax.PriceListStep | agent/minimax/Minimax.py:28-34 | one loop round appends the action with its child score when its slot is set, and nothing otherwise |
| Minimax.PriceListAt | agent/minimax/Minimax.py:27-34 | entry k of the price list is action k with the score of the search one level down after it |
| Minimax.MinimaxIsExtreme | agent/minimax/Minimax.py:37-42 | when minimax answers an action, the action is legal and its price is its child score. No legal action scores better for the mover (more for player 1, less for player -1), and every smaller legal action scores strictly worse |
| Minimax.SelectBest | agent/minimax/Minimax.py:37-40 | the scan returns exactly the first best entry `ArgBest` |
| Minimax.Search | agent/minimax/Minimax.py:19-42 | the loop-and-dict search returns the same action and price as the recursive `Minimax` |
| Minimax.PriceActions | agent/minimax/Minimax.py:27-34 | the pricing loop builds exactly the price list over the set slots |
| Minimax.ScoreAction | agent/minimax/Minimax.py:30-34 | the price recorded for an action is the search one level shallower, for the other player, on the board after that action |
| MctsTree.RewardOf | agent/mcts/MonteCarloTreeSearch.py:103-106 | the reward is in {-1, 0, 1}. It is 1 exactly for a win and -1 exactly for a loss; the draw marker becomes 0 |
| MctsTree.Tally.Add | agent/mcts/MonteCarloTreeSearch.py:113 | `_results[r] += 1`: only the count for r grows, by one, and the total grows by one |
| MctsTree.Node.Q | agent/mcts/MonteCarloTreeSearch.py:45-49 | q is the results count for the node's player minus that for the opponent; while visits equal the tally total, q lies between -visits and visits |
| MctsTree.NewNode | agent/mcts/MonteCarloTreeSearch.py:33-43 | a new node has no visits, an empty tally, no children and nothing cached, and it holds the given position, player, parent and action |
| MctsTree.Path | agent/mcts/MonteCarloTreeSearch.py:111-115 | the nodes backpropagate visits include the node itself and only nodes with smaller or equal index |
| MctsTree.RootOnPath | agent/mcts/MonteCarloTreeSearch.py:111-115 | every backpropagation reaches the root |
| MctsTree.Bump | agent/mcts/MonteCarloTreeSearch.py:112-113 | one backpropagate step adds one visit and one count for the result, and changes nothing else |
| MctsTree.BackedUp | agent/mcts/MonteCarloTreeSearch.py:111-115 | after backpropagate, exactly the nodes on the path to the root are bumped; every other node is unchanged |
| MctsTree.StatsOnlyKeepWellFormed | agent/mcts/MonteCarloTreeSearch.py:111-115 | changing only counters keeps the tree invariant, as long as every counter equals its tally's total |
| MctsTree.BackedUpKeepsWellFormed | agent/mcts/MonteCarloTreeSearch.py:111-115 | backpropagation keeps the tree invariant and adds one visit at the root and one at the node itself |
| MctsTree.BackedUpKeepsRoot | agent/mcts/MonteCarloTreeSearch.py:111-115 | backpropagation keeps the root's position, player and children, and loses no visit anywhere. If every other node was visited, afterwards all are |
| MctsTree.VisitedButNew | agent/mcts/MonteCarloTreeSearch.py:75-90 | after a descent, every node but the root and the node just expanded is still visited |
| MctsTree.UntriedInGrid | agent/mcts/MonteCarloTreeSearch.py:61-69 | every untried action names a cell of the grid |
| MctsTree.Filled | agent/mcts/MonteCarloTreeSearch.py:61-69 | after the first read, the node caches exactly the list untried_actions answered |
| MctsTree.UntriedOf | agent/mcts/MonteCarloTreeSearch.py:61-69 | definition of what untried_actions answers: the cached list if there is one, else the legal action list; specified by `UntriedInGrid` and `UntriedAndChildrenPartition` |
| MctsTree.FilledKeeps | agent/mcts/MonteCarloTreeSearch.py:61-69 | caching the list touches no position, link, counter or child list |
| MctsTree.FilledNodeOk | agent/mcts/MonteCarloTreeSearch.py:61-69 | each node stays well formed when one node caches its list |
| MctsTree.FilledKeepsWellFormed | agent/mcts/MonteCarloTreeSearch.py:61-69 | caching keeps the tree invariant and changes no answer of untried_actions; a second read changes nothing |
| MctsTree.ExpandedKeepsOld | agent/mcts/MonteCarloTreeSearch.py:84-90 | expand leaves every existing node's position, player, links and statistics alone, and nodes other than the expanded one entirely |
| MctsTree.ExpandedKeeps | agent/mcts/MonteCarloTreeSearch.py:84-90 | expand appends a node whose parent is the expanded node, keeps every existing node's position, link, action, counters and tally, and shrinks no child list. It leaves every other node exactly as it was, adds exactly the new index to the expanded node's children, and gives the new node no visits, no children and no cached list |
| MctsTree.ExpandedAfterFilled | agent/mcts/MonteCarloTreeSearch.py:77-79 | expanding after the untried list is first read and cached is the same as expanding the uncached node, because expand overwrites the cache |
| MctsTree.Expanded | agent/mcts/MonteCarloTreeSearch.py:84-90 | expand on the arena: the arena grows by exactly one node; `ExpandedKeeps`, `ExpandedChildrenLinked` and `ExpandedKeepsWellFormed` state the rest |
| MctsTree.ExpandedNewNodeOk | agent/mcts/MonteCarloTreeSearch.py:84-90 | the appended node is well formed: it is the parent's position after the popped action |
| MctsTree.ExpandedChildrenLinked | agent/mcts/MonteCarloTreeSearch.py:84-90 | after expand, child j of the node hangs under it by legal action `L[len(L) - 1 - j]`, because pop takes from the end |
| MctsTree.ExpandedParentOk | agent/mcts/MonteCarloTreeSearch.py:84-90 | the expanded node stays well formed |
| MctsTree.ExpandedOtherOk | agent/mcts/MonteCarloTreeSearch.py:84-90 | every other node stays well formed |
| MctsTree.ExpandedKeepsWellFormed | agent/mcts/MonteCarloTreeSearch.py:84-90 | expand keeps the tree invariant |
| MctsTree.UntriedAndChildrenPartition | agent/mcts/MonteCarloTreeSearch.py:61-90 | an action is legal exactly when it is untried or some child took it, and no child's action is still untried |
| MctsTree.WellFormed | agent/mcts/MonteCarloTreeSearch.py:33-43 | definition of the tree invariant: node 0 is the only node without a parent, and every node holds a valid board. Every non-root node is its parent's board after the parent's action. Each node's visits equal its tally's total, its children lie after it and name it as parent, and its cached untried actions and its children's actions split its legal actions; kept by `FilledKeepsWellFormed`, `ExpandedKeepsWellFormed` and `BackedUpKeepsWellFormed` |
| MctsTree.AllVisitedChildren | agent/mcts/MonteCarloTreeSearch.py:118-120 | when all non-root nodes are visited, every child best_child divides by has a positive count |
| MctsTree.ChildWeights | agent/mcts/MonteCarloTreeSearch.py:119 | there is one weight per child, in order, each q/n plus c times the exploration term |
| MctsTree.ArgMax | agent/mcts/MonteCarloTreeSearch.py:120 | np.argmax returns the first index of a largest weight |
| MctsTree.IsFirstMax | agent/mcts/MonteCarloTreeSearch.py:120 | definition of np.argmax's answer: an entry no other entry exceeds, before which every entry is smaller; `ArgMax` computes it |
| MctsTree.CrossMultiply | agent/mcts/MonteCarloTreeSearch.py:119 | comparing two q/n ratios is comparing their cross products |
| MctsTree.ExploitationWeights | agent/mcts/MonteCarloTreeSearch.py:15 | with c = 0, the weight order of two children is the order of `q_a * n_b` and `q_b * n_a` |
| MctsTree.ExploitationChoice | agent/mcts/MonteCarloTreeSearch.py:15 | the argmax of the c = 0 weights is the first child with the largest wins-minus-losses per visit |
| MctsTree.ChildActionLegal | agent/mcts/MonteCarloTreeSearch.py:84-90 | a child's action is a legal action of its parent's position |
| Mcts.MonteCarloTree.constructor | agent/mcts/MonteCarloTreeSearch.py:33-43 | a fresh tree is a lone, well-formed root holding the position and player |
| Mcts.MonteCarloTree.UntriedActions | agent/mcts/MonteCarloTreeSearch.py:61-69 | the first read answers and caches the ascending legal actions; later reads answer the cache and change nothing |
| Mcts.MonteCarloTree.Expand | agent/mcts/MonteCarloTreeSearch.py:84-90 | the new tree is `Expanded` of the old one, the invariant holds, and the answer is the new node |
| Mcts.MonteCarloTree.Backpropagate | agent/mcts/MonteCarloTreeSearch.py:111-115 | the new tree is `BackedUp` of the old one, and the invariant holds |
| Mcts.MonteCarloTree.BestChild | agent/mcts/MonteCarloTreeSearch.py:118-120 | the answer is the first child with the largest `q/n + c * explore(N, n)` |
| Mcts.MonteCarloTree.Rollout | agent/mcts/MonteCarloTreeSearch.py:92-106 | on a finished position, the reward is 1 exactly for a win of the node's player, -1 exactly for a loss, and 0 exactly for a draw |
| Mcts.MonteCarloTree.SelectStep | agent/mcts/MonteCarloTreeSearch.py:77-81 | if the node has untried actions, the arena afterwards is exactly `Expanded` at that node, and the answer is the new last node, its last child. Otherwise the arena is exactly the node with its (empty) untried list cached, and the answer is the node's first child of largest weight at c = 1.4 (`BestChildHop`). No other node changes, and the invariant is kept |
| Mcts.MonteCarloTree.Select | agent/mcts/MonteCarloTreeSearch.py:75-82 | the ghost `path` runs from the root to the answer. Each hop between nodes that existed before is a first-best-child step at c = 1.4 from a fully expanded, unfinished node, in the final arena (`BestChildPath`). The answer is either the node just expanded from the path's second-to-last node (`ExpansionHop`), or a finished node when nothing was added. The invariant holds, every existing node keeps its position, counters and tally, and the root has a child whenever its game is on |
| Mcts.Simulated | agent/mcts/MonteCarloTreeSearch.py:9-14 | definition of one simulation from arena `before` to arena `after` through `selected`, `path`, `leaf` and `result`: the facts in the `Simulate` row |
| Mcts.SimulationStep | agent/mcts/MonteCarloTreeSearch.py:9-14 | definition: some leaf, score, path and intermediate arena make one `Simulated` simulation from `before` to `after` |
| Mcts.Simulate | agent/mcts/MonteCarloTreeSearch.py:8-14 | (`Simulated`) the arena after one simulation is exactly `BackedUp` of the arena select left, from the leaf select answered along its best-child path. The value backed up is the leaf's rollout reward if its game is over, and 0 otherwise. The invariant and the root's position are kept, the root gains exactly one visit, and every node stays visited |
| Mcts.RunSimulations | agent/mcts/MonteCarloTreeSearch.py:8-14 | the loop runs exactly `simulations` simulations: `history` starts at the arena before and ends at the arena after, and each entry is one `SimulationStep` after the one before. The root keeps its position and gains one visit per simulation, and every node stays visited |
| Mcts.MonteCarloTreeSearch | agent/mcts/MonteCarloTreeSearch.py:6-15 | the answer is a legal action, taken by the first root child with the largest wins-minus-losses per visit. The root has one visit per simulation, and the returned tree is the last of `simulations + 1` arenas that start at a lone root, each one `SimulationStep` after the one before |
| MctsBackup.MonteCarloTree.constructor | agent/mcts/backup.py:33-45 | a fresh tree is a lone, well-formed root holding the position and player |
| MctsBackup.PicksMember | agent/mcts/backup.py:112-113 | definition of what the model keeps of rollout_policy: on a non-empty list it answers one of the list's members |
| MctsBackup.MonteCarloTree.UntriedActions | agent/mcts/backup.py:47-55 | the first read answers and caches the ascending legal actions; later reads answer the cache and change nothing |
| MctsBackup.MonteCarloTree.Expand | agent/mcts/backup.py:67-75 | the new tree is `Expanded` of the old one (piece put directly, other player to move), the invariant holds, and the answer is the new node |
| MctsBackup.MonteCarloTree.Backpropagate | agent/mcts/backup.py:96-100 | the new tree is `BackedUp` of the old one, and the invariant holds |
| MctsBackup.MonteCarloTree.BestChild | agent/mcts/backup.py:105-110 | the answer is the first child with the largest `q/n + c * explore(N, n)` |
| MctsBackup.Playout | agent/mcts/backup.py:80-94 | the playout that takes `policy`'s pick from the legal actions and plays it until the game ends ends on a valid board that is finished for both players. It is the starting board itself when that game is already over |
| MctsBackup.PlayoutKeepsPieces | agent/mcts/backup.py:83-90 | a playout only adds pieces: every piece on the starting board is still there at the end |
| MctsBackup.MonteCarloTree.Rollout | agent/mcts/backup.py:80-94 | the loop's final board is exactly `Playout` from the node's board and player, so the random playout ends on a finished board, the node's own board if its game is already over. The reward is 1, -1 or 0 exactly for a win, a loss or a draw of the node's player there |
| MctsBackup.PolicyStep | agent/mcts/backup.py:25-29 | if the node is not fully expanded, the arena afterwards is exactly `Expanded` at that node, and the answer is the new last node, its last child. Otherwise the arena is exactly the node with its (empty) untried list cached, and the answer is the node's first child of largest weight at c = 1.4 (`BestChildHop`). No other node changes, and the invariant is kept |
| MctsBackup.TreePolicy | agent/mcts/backup.py:23-30 | the ghost `path` runs from the root to the answer. Each hop between nodes that existed before is a first-best-child step at c = 1.4 from a fully expanded, unfinished node, in the final arena (`BestChildPath`). The answer is either the node just expanded from the path's second-to-last node (`ExpansionHop`), or a finished node when nothing was added. The invariant holds, every existing node keeps its position, counters and tally, and the root has a child whenever its game is on |
| MctsBackup.Simulated | agent/mcts/backup.py:15-19 | definition of one simulation from arena `before` to arena `after` through `selected`, `path`, `leaf` and `reward`: the facts in the `Simulate` row |
| MctsBackup.SimulationStep | agent/mcts/backup.py:15-19 | definition: some leaf, reward, path and intermediate arena make one `Simulated` simulation from `before` to `after` |
| MctsBackup.Simulate | agent/mcts/backup.py:15-19 | (`Simulated`) the arena after one simulation is exactly `BackedUp` of the arena tree_policy left, from the leaf tree_policy answered along its best-child path. The value backed up is the reward of the leaf player's result on `Playout` from the leaf. The invariant and the root's position are kept, the root gains exactly one visit, and every node stays visited |
| MctsTree.HopKept | agent/mcts/MonteCarloTreeSearch.py:118-120 | a best-child step stays a best-child step when the arena grows without changing its source node: every child keeps its counters and tally, so every weight is the same |
| MctsTree.PathKept | agent/mcts/MonteCarloTreeSearch.py:75-82 | a best-child path stays one when the arena grows and only a node off the path's sources changes |
| MctsTree.PathExtended | agent/mcts/MonteCarloTreeSearch.py:79-81 | appending a best-child step at the path's end gives a best-child path |
| MctsTree.DescentAdvances | agent/mcts/backup.py:25-29 | one round of the descent extends the best-child path by the node it answers, and the arena still keeps every node of the arena the descent started from |
| MctsTree.StepsExtended | agent/mcts/MonteCarloTreeSearch.py:8 | a run of arenas in which each is one step after the one before stays such a run when one more step is appended |
| MctsBackup.RunSimulations | agent/mcts/backup.py:13-19 | the loop runs exactly `simulations` simulations: `history` starts at the arena before and ends at the arena after, and each entry is one `SimulationStep` after the one before. The root keeps its position and gains one visit per simulation, and every node stays visited |
| MctsBackup.MonteCarloTreeSearch | agent/mcts/backup.py:11-21 | the answer is a legal action, taken by the first root child with the largest wins-minus-losses per visit. The root has one visit per simulation, and the returned tree is the last of `simulations + 1` arenas that start at a lone root, each one `SimulationStep` after the one before |

## Left out

- Board internals: `game/TicTacToeLogic.py` is not part of this model. `TicTacToeLogic` states the rules the game relies on, as contracts on n-in-a-row rules.
- getInitBoard and getBoardSize (`game/TicTacToeGame.py:8-15`): they only build an empty grid or return `(n, n)`, and no modelled operation calls them.
- stringRepresentation and display (`game/TicTacToeGame.py:79-117`): byte dumps and console output.
- backup.py's `__repr__`: string formatting only.
- The exploration term: best_child's `sqrt(2 ln N / n)` is floating point. It is the parameter `explore(N, n)`. With c = 0 it drops out, and the drivers' final choice is proved exactly on whole numbers.
- Randomness: np.random in rollout_policy is the parameter `policy`, constrained only to pick one of the moves it is offered. Being a function, it picks the same move whenever it is offered the same list.
- Board copies: positions are values, so every np.copy is implicit, and no aliasing between nodes' boards is modelled.
- Numbers: visit counters and tallies are `nat`. backup.py keeps them as floats, which count exactly far beyond any simulation budget.
- Draw marker: getGameEnded's draw value 1e-4 is the constructor `Draw`. Every comparison the source makes with it (`== 0`, truthiness, `is not 1`) is modelled on the constructor.
- Mcts.MonteCarloTree.Rollout: requires a finished position. On an unfinished one, the loop body at `agent/mcts/MonteCarloTreeSearch.py:96-102` calls the game object itself and would raise, and the driver only rolls out finished nodes.
- TicTacToeGame.GetNextState: requires an ordinary action to be at most 31, because action2move asserts exactly that. The pass action `n * n` is accepted at any size.
- MctsBackup.Playout: like backup.py's rollout, the playout requires `n * n <= 32` (`SupportedSize`), so that every action it feeds to GetNextState passes that assertion. Minimax and backup.py's expand place pieces directly and have no such limit.
- Mcts.MonteCarloTree.constructor, Mcts.MonteCarloTree.Valid and Mcts.MonteCarloTreeSearch: the Mcts class invariant, its constructor and the Mcts driver require `n * n <= 32` (`SupportedSize`). MonteCarloTreeSearch.py itself accepts any board, and fails only when getNextState is asked for an action above 31. The model proves nothing for larger boards.
- TicTacToeLogic.ExecuteMove: the stand-in treats execute_move as both returning the new board and updating the board in place, and the model uses it as a value. getNextState (`game/TicTacToeGame.py:28`) uses the returned board. Minimax (`agent/minimax/Minimax.py:33-34`) and backup.py's expand (`agent/mcts/backup.py:72-73`) read `pieces` after the call. The model assumes execute_move does both, and how the real board class does it is not modelled.
- MctsBackup.MonteCarloTree.Rollout: requires `SupportedSize` for every board. The source fails only when a picked action exceeds 31, but any action may be picked once the board is larger.
- Mcts.MonteCarloTreeSearch and MctsBackup.MonteCarloTreeSearch: require at least one simulation and an unfinished root. Otherwise the root has no child, and the final np.argmax over an empty list raises.
- Result perspective: backpropagate adds the same result, from the leaf player's point of view, to every ancestor, and q reads the tally by each node's own player number. The model keeps this as written; it does not claim that q measures wins for the node's player.
- TicTacToe.py and agent/TicTacToePlayers.py: the interactive game loop and the player wrappers, which are I/O around the searches.
