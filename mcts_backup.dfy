/**
 * The earlier Monte Carlo tree search of agent/mcts/backup.py.
 *
 * The tree is the same arena as in Mcts (see MctsTree). What differs from
 * MonteCarloTreeSearch.py: expand plays the popped action with execute_move on a
 * copy of the board instead of going through getNextState, the descent is the
 * free function `tree_policy`, and every simulation rolls out, playing moves
 * chosen by the rollout policy until the game is over.
 *
 * The random choice of rollout_policy is the parameter `policy`, which may pick
 * any of the moves it is offered; the exploration term of best_child is the
 * parameter `explore(N, n)`, scaled by c.
 */
module MctsBackup {
  import opened Options
  import opened TicTacToeLogic
  import opened TicTacToeGame
  import opened MctsTree

  /** best_child's default c_param, 1.4. */
  const ExplorationWeight: real := 1.4

  /** A stand-in for `possible_moves[np.random.randint(len(possible_moves))]`: it picks one of the moves offered. */
  ghost predicate PicksMember(policy: seq<int> -> int) {
    forall moves: seq<int> | |moves| > 0 :: policy(moves) in moves
  }

  /**
   * The game rollout plays out from board `b` with `p` to move: while the game is
   * on, the mover takes the action `policy` picks among the legal ordinary actions
   * (through getNextState); the answer is the finished board.
   */
  function Playout(n: nat, b: Board, p: Player, policy: seq<int> -> int): (final: Board)
    requires SupportedSize(n) && ValidBoard(n, b) && PicksMember(policy)
    ensures ValidBoard(n, final)
    ensures GetGameEnded(n, final, p) != Ongoing && GetGameEnded(n, final, Opponent(p)) != Ongoing
    ensures GetGameEnded(n, b, p) != Ongoing ==> final == b
    decreases |LegalMoves(n, b)|
  {
    if GetGameEnded(n, b, p) != Ongoing then
      EndedForBoth(n, b, p);
      b
    else
      OngoingHasActions(n, b, p);
      var a := policy(LegalActions(n, b, p));
      LegalActionShrinks(n, b, p, a);
      NextStateIsApplyAction(n, b, p, a);
      var next := GetNextState(n, b, p, a);
      Playout(n, next.0, next.1, policy)
  }

  /** A playout only fills empty cells: every piece on the starting board is still there at the end. */
  lemma {:induction false} PlayoutKeepsPieces(n: nat, b: Board, p: Player, policy: seq<int> -> int)
    requires SupportedSize(n) && ValidBoard(n, b) && PicksMember(policy)
    ensures forall x, y | InRange(n, x, y) && b[x][y] != 0 :: Playout(n, b, p, policy)[x][y] == b[x][y]
    decreases |LegalMoves(n, b)|
  {
    if GetGameEnded(n, b, p) == Ongoing {
      OngoingHasActions(n, b, p);
      var a := policy(LegalActions(n, b, p));
      LegalActionShrinks(n, b, p, a);
      LegalActionsSpec(n, b, p);
      NextStateIsApplyAction(n, b, p, a);
      var next := GetNextState(n, b, p, a);
      forall x, y | InRange(n, x, y) && b[x][y] != 0 ensures next.0[x][y] == b[x][y] {
        CellIndexRoundTrip(n, x, y);
      }
      PlayoutKeepsPieces(n, next.0, next.1, policy);
    }
  }

  class MonteCarloTree {
    /** The board size of `game`. */
    const n: nat
    var nodes: seq<Node>

    ghost predicate Valid()
      reads this
    {
      WellFormed(n, nodes)
    }

    /** `MonteCarloTree(game, state, player)`: a lone root holding a copy of the board. */
    constructor (n: nat, state: Board, player: Player)
      requires 1 <= n && ValidBoard(n, state)
      ensures Valid()
      ensures this.n == n && nodes == [NewNode(state, player, None, None)]
    {
      this.n := n;
      nodes := [NewNode(state, player, None, None)];
      new;
      assert NodeOk(n, nodes, 0);
    }

    /**
     * `untried_actions`: on first access, the ascending legal ordinary actions,
     * cached on the node; afterwards the cached list.
     */
    method UntriedActions(i: nat) returns (u: seq<int>)
      requires Valid() && i < |nodes|
      modifies this
      ensures Valid()
      ensures nodes == Filled(n, old(nodes), i)
      ensures u == UntriedOf(n, old(nodes)[i])
      ensures old(nodes)[i].untried.None? ==> u == LegalActions(n, nodes[i].state, nodes[i].player)
      ensures old(nodes)[i].untried.Some? ==> nodes == old(nodes)
    {
      FilledKeepsWellFormed(n, nodes, i);
      match nodes[i].untried
      case Some(cached) =>
        u := cached;
      case None =>
        var valids := GetValidMoves(n, nodes[i].state, nodes[i].player);
        u := CollectActions(valids);
        nodes := nodes[i := nodes[i].(untried := Some(u))];
    }

    /**
     * `expand`: pops the last untried action, puts the node's piece at
     * (action // n, action % n) of a copy of the board, and appends the child, with
     * the other player to move, to the arena and to node i's children.
     */
    method Expand(i: nat) returns (child: nat)
      requires Valid() && i < |nodes| && |UntriedOf(n, nodes[i])| > 0
      modifies this
      ensures Valid()
      ensures nodes == Expanded(n, old(nodes), i)
      ensures child == |old(nodes)| && child < |nodes|
    {
      ghost var before := nodes;
      UntriedInGrid(n, nodes, i);
      var u := UntriedActions(i);
      var action := u[|u| - 1];
      nodes := nodes[i := nodes[i].(untried := Some(u[..|u| - 1]))];
      var nextBoard := ApplyAction(n, nodes[i].state, nodes[i].player, action);
      child := |nodes|;
      nodes := nodes[i := nodes[i].(children := nodes[i].children + [child])]
        + [NewNode(nextBoard, Opponent(nodes[i].player), Some(i), Some(action))];
      assert nodes == Expanded(n, before, i);
      ExpandedKeepsWellFormed(n, before, i);
    }

    /** `backpropagate(result)`: one more visit and one more count of `result` here and at every ancestor. */
    method Backpropagate(i: nat, result: int)
      requires Valid() && i < |nodes| && IsReward(result)
      modifies this
      ensures Valid()
      ensures ParentsBelow(old(nodes)) && nodes == BackedUp(old(nodes), i, result)
      decreases i
    {
      WellFormedParentsBelow(n, nodes);
      ghost var before := nodes;
      nodes := nodes[i := Bump(nodes[i], result)];
      assert SameShape(before, nodes);
      forall k | 0 <= k < |nodes| ensures nodes[k].visits == nodes[k].results.Total() {
        assert NodeOk(n, before, k);
      }
      StatsOnlyKeepWellFormed(n, before, nodes);
      match nodes[i].parent
      case None =>
      case Some(p) =>
        WellFormedParentsBelow(n, nodes);
        Backpropagate(p, result);
    }

    /** `best_child(c_param)`: the position of the first child with the largest q/n + c * explore(N, n). */
    method BestChild(i: nat, c: real, explore: (nat, nat) -> real) returns (k: nat)
      requires Valid() && i < |nodes| && |nodes[i].children| > 0 && ChildrenVisited(nodes, i)
      ensures k < |nodes[i].children|
      ensures IsFirstMax(ChildWeights(nodes, i, c, explore), k)
    {
      var choicesWeights := ChildWeights(nodes, i, c, explore);
      k := ArgMax(choicesWeights);
    }

    /**
     * `rollout`: from a copy of the node's board, while the game is on, the player
     * to move plays a move the policy picks among the legal ones. The finished board
     * is the playout from the node, and the reward is its verdict for the node's own
     * player, with the draw marker mapped to 0. The node itself is not changed. A
     * node whose game is already over is scored on its own board.
     */
    method Rollout(i: nat, policy: seq<int> -> int) returns (reward: int, ghost final: Board)
      requires Valid() && i < |nodes| && SupportedSize(n) && PicksMember(policy)
      ensures final == Playout(n, nodes[i].state, nodes[i].player, policy)
      ensures reward == RewardOf(GetGameEnded(n, final, nodes[i].player))
      ensures ValidBoard(n, final) && GetGameEnded(n, final, nodes[i].player) != Ongoing
      ensures IsReward(reward)
      ensures reward == 1 <==> IsWin(n, final, nodes[i].player)
      ensures reward == -1 <==> !IsWin(n, final, nodes[i].player) && IsWin(n, final, Opponent(nodes[i].player))
      ensures reward == 0 <==> GetGameEnded(n, final, nodes[i].player) == Draw
      ensures GetGameEnded(n, nodes[i].state, nodes[i].player) != Ongoing ==> final == nodes[i].state
    {
      var currentRolloutState := nodes[i].state;
      var player := nodes[i].player;
      while GetGameEnded(n, currentRolloutState, player) == Ongoing
        invariant ValidBoard(n, currentRolloutState)
        invariant Playout(n, currentRolloutState, player, policy) == Playout(n, nodes[i].state, nodes[i].player, policy)
        decreases |LegalMoves(n, currentRolloutState)|
      {
        var valids := GetValidMoves(n, currentRolloutState, player);
        var possibleMoves := CollectActions(valids);
        OngoingHasActions(n, currentRolloutState, player);
        var action := policy(possibleMoves);
        LegalActionShrinks(n, currentRolloutState, player, action);
        NextStateIsApplyAction(n, currentRolloutState, player, action);
        var next := GetNextState(n, currentRolloutState, player, action);
        currentRolloutState, player := next.0, next.1;
      }
      EndedForBoth(n, currentRolloutState, player);
      reward := RewardOf(GetGameEnded(n, currentRolloutState, nodes[i].player));
      final := currentRolloutState;
    }
  }

  /**
   * `tree_policy`: from the root, while the node is not finished, expand it if it
   * has untried actions, else move to its best child (c = 1.4). The answer is a
   * freshly expanded child or a finished node. The ghost `path` is the descent from
   * the root: every hop into a node that already existed is a best-child hop from
   * an unfinished, fully expanded node, and a descent that expands ends with the
   * hop to the appended node. The root ends up with a child whenever its game is on.
   */
  method TreePolicy(root: MonteCarloTree, explore: (nat, nat) -> real) returns (v: nat, ghost path: seq<nat>)
    requires root.Valid() && AllVisited(root.nodes)
    modifies root
    ensures root.Valid() && Keeps(old(root.nodes), root.nodes)
    ensures v < |root.nodes| <= |old(root.nodes)| + 1
    ensures |path| >= 1 && path[0] == 0 && path[|path| - 1] == v
    ensures BestChildPath(root.n, root.nodes, path, |old(root.nodes)|, ExplorationWeight, explore)
    ensures |root.nodes| == |old(root.nodes)| + 1 ==>
      v == |old(root.nodes)| && |path| >= 2 && ExpansionHop(root.n, root.nodes, path[|path| - 2], v)
    ensures |root.nodes| == |old(root.nodes)| ==>
      GetGameEnded(root.n, root.nodes[v].state, root.nodes[v].player) != Ongoing
    ensures GetGameEnded(root.n, root.nodes[0].state, root.nodes[0].player) == Ongoing ==> |root.nodes[0].children| > 0
  {
    var current := 0;
    path := [0];
    while GetGameEnded(root.n, root.nodes[current].state, root.nodes[current].player) == Ongoing
      invariant root.Valid() && current < |root.nodes| == |old(root.nodes)|
      invariant Keeps(old(root.nodes), root.nodes) && AllVisited(root.nodes)
      invariant current != 0 ==> |root.nodes[0].children| > 0
      invariant |path| >= 1 && path[0] == 0 && path[|path| - 1] == current
      invariant forall t | 0 <= t < |path| - 1 :: path[t] < current
      invariant BestChildPath(root.n, root.nodes, path, |old(root.nodes)|, ExplorationWeight, explore)
      decreases |root.nodes| - current
    {
      ghost var pre := root.nodes;
      var next, expanded := PolicyStep(root, current, explore);
      DescentAdvances(root.n, old(root.nodes), pre, root.nodes, path, current, next, ExplorationWeight, explore);
      path := path + [next];
      if expanded {
        assert path[|path| - 2] == current;
        assert ExpansionHop(root.n, root.nodes, path[|path| - 2], next);
        return next, path;
      }
      current := next;
    }
    v := current;
  }

  /**
   * One round of tree_policy's loop at an unfinished node: if it is not fully
   * expanded, expand it and answer the new child, else answer its best child
   * (c = 1.4). No other node changes.
   */
  method PolicyStep(root: MonteCarloTree, current: nat, explore: (nat, nat) -> real) returns (next: nat, expanded: bool)
    requires root.Valid() && AllVisited(root.nodes) && current < |root.nodes|
    requires GetGameEnded(root.n, root.nodes[current].state, root.nodes[current].player) == Ongoing
    modifies root
    ensures root.Valid() && Keeps(old(root.nodes), root.nodes)
    ensures forall k | 0 <= k < |old(root.nodes)| && k != current :: root.nodes[k] == old(root.nodes)[k]
    ensures current == 0 || |old(root.nodes)[0].children| > 0 ==> |root.nodes[0].children| > 0
    ensures expanded ==>
      && |UntriedOf(root.n, old(root.nodes)[current])| > 0 && root.nodes == Expanded(root.n, old(root.nodes), current)
      && next == |old(root.nodes)| && ExpansionHop(root.n, root.nodes, current, next)
    ensures !expanded ==>
      && root.nodes == Filled(root.n, old(root.nodes), current) && UntriedOf(root.n, old(root.nodes)[current]) == []
      && AllVisited(root.nodes) && current < next < |root.nodes|
      && BestChildHop(root.n, root.nodes, current, next, ExplorationWeight, explore)
  {
    ghost var pre := root.nodes;
    var u := root.UntriedActions(current);
    FilledKeeps(root.n, pre, current);
    FilledKeepsWellFormed(root.n, pre, current);
    if |u| != 0 {
      ghost var before := root.nodes;
      next := root.Expand(current);
      ExpandedKeeps(root.n, before, current);
      ExpandedAfterFilled(root.n, pre, current);
      KeepsTransitive(pre, before, root.nodes);
      return next, true;
    }
    assert NodeOk(root.n, root.nodes, current);
    OngoingHasActions(root.n, root.nodes[current].state, root.nodes[current].player);
    AllVisitedChildren(root.n, root.nodes, current);
    var k := root.BestChild(current, ExplorationWeight, explore);
    next, expanded := root.nodes[current].children[k], false;
  }

  /**
   * One simulation took arena `before` to arena `after`. tree_policy descended from
   * the root along `path` to `leaf`, leaving `selected`: every hop from a node that
   * existed before is a best-child hop at c = 1.4, and the leaf is either the node
   * just expanded at the path's end or a finished one. The leaf was rolled out, and
   * `reward`, the leaf player's reward on its `policy` playout, was backed up from
   * the leaf.
   */
  ghost predicate Simulated(
    n: nat, before: seq<Node>, after: seq<Node>, explore: (nat, nat) -> real, policy: seq<int> -> int,
    leaf: nat, reward: int, path: seq<nat>, selected: seq<Node>)
  {
    && SupportedSize(n) && PicksMember(policy)
    && WellFormed(n, selected) && Keeps(before, selected)
    && |selected| <= |before| + 1 && leaf < |selected|
    && |path| >= 1 && path[0] == 0 && path[|path| - 1] == leaf
    && BestChildPath(n, selected, path, |before|, ExplorationWeight, explore)
    && (|selected| == |before| + 1 ==>
         leaf == |before| && |path| >= 2 && ExpansionHop(n, selected, path[|path| - 2], leaf))
    && (|selected| == |before| ==> GetGameEnded(n, selected[leaf].state, selected[leaf].player) != Ongoing)
    && reward == RewardOf(GetGameEnded(n,
         Playout(n, selected[leaf].state, selected[leaf].player, policy), selected[leaf].player))
    && ParentsBelow(selected)
    && after == BackedUp(selected, leaf, reward)
  }

  /** Some descent, rollout and backpropagation take arena `before` to arena `after`. */
  ghost predicate SimulationStep(
    n: nat, before: seq<Node>, after: seq<Node>, explore: (nat, nat) -> real, policy: seq<int> -> int)
  {
    exists leaf: nat, reward: int, path: seq<nat>, selected: seq<Node> ::
      Simulated(n, before, after, explore, policy, leaf, reward, path, selected)
  }

  /**
   * One simulation of the driver loop, as `Simulated` describes it. The root gains
   * exactly one visit, keeps its position, and has a child afterwards; every other
   * node stays visited.
   */
  method Simulate(root: MonteCarloTree, explore: (nat, nat) -> real, policy: seq<int> -> int)
    returns (leaf: nat, reward: int, ghost path: seq<nat>, ghost selected: seq<Node>)
    requires root.Valid() && AllVisited(root.nodes) && SupportedSize(root.n) && PicksMember(policy)
    requires GetGameEnded(root.n, root.nodes[0].state, root.nodes[0].player) == Ongoing
    modifies root
    ensures Simulated(root.n, old(root.nodes), root.nodes, explore, policy, leaf, reward, path, selected)
    ensures root.Valid() && AllVisited(root.nodes)
    ensures root.nodes[0].state == old(root.nodes[0].state) && root.nodes[0].player == old(root.nodes[0].player)
    ensures root.nodes[0].visits == old(root.nodes[0].visits) + 1
    ensures |root.nodes[0].children| > 0
  {
    leaf, path := TreePolicy(root, explore);
    selected := root.nodes;
    ghost var final;
    reward, final := root.Rollout(leaf, policy);
    VisitedButNew(old(root.nodes), selected, leaf);
    root.Backpropagate(leaf, reward);
    BackedUpKeepsWellFormed(root.n, selected, leaf, reward);
    BackedUpKeepsRoot(selected, leaf, reward);
  }

  /**
   * The driver's loop: `simulations` simulations on the tree `root`, one after the
   * other. `history` lists the arenas: the one before the loop, then one per
   * simulation, each one simulation after the one before.
   */
  method RunSimulations(root: MonteCarloTree, simulations: nat, explore: (nat, nat) -> real, policy: seq<int> -> int)
    returns (ghost history: seq<seq<Node>>)
    requires root.Valid() && AllVisited(root.nodes) && SupportedSize(root.n) && PicksMember(policy)
    requires GetGameEnded(root.n, root.nodes[0].state, root.nodes[0].player) == Ongoing
    modifies root
    ensures root.Valid() && AllVisited(root.nodes)
    ensures root.nodes[0].state == old(root.nodes[0].state) && root.nodes[0].player == old(root.nodes[0].player)
    ensures root.nodes[0].visits == old(root.nodes[0].visits) + simulations
    ensures simulations > 0 ==> |root.nodes[0].children| > 0
    ensures |history| == simulations + 1 && history[0] == old(root.nodes) && history[simulations] == root.nodes
    ensures forall t | 0 <= t < simulations :: SimulationStep(root.n, history[t], history[t + 1], explore, policy)
  {
    history := [root.nodes];
    for s := 0 to simulations
      invariant root.Valid() && AllVisited(root.nodes)
      invariant root.nodes[0].state == old(root.nodes[0].state) && root.nodes[0].player == old(root.nodes[0].player)
      invariant root.nodes[0].visits == old(root.nodes[0].visits) + s
      invariant s > 0 ==> |root.nodes[0].children| > 0
      invariant |history| == s + 1 && history[0] == old(root.nodes) && history[s] == root.nodes
      invariant forall t | 0 <= t < s :: SimulationStep(root.n, history[t], history[t + 1], explore, policy)
    {
      ghost var before := root.nodes;
      var leaf, reward, path, selected := Simulate(root, explore, policy);
      assert SimulationStep(root.n, before, root.nodes, explore, policy);
      StepsExtended((a, b) => SimulationStep(root.n, a, b, explore, policy), history, root.nodes);
      history := history + [root.nodes];
    }
  }

  /**
   * `monteCarloTreeSearch`: each simulation runs tree_policy, one rollout and one
   * backpropagate; the answer is the action of the root's child with the best q/n.
   * The answer is legal, the root has one visit per simulation, no child of the
   * root has a larger wins-minus-losses per visit, and every child added before
   * the chosen one has a smaller one. `history` lists the arenas: a lone root
   * first, then one arena per simulation, each one simulation after the one before.
   */
  method MonteCarloTreeSearch(
    n: nat, state: Board, player: Player, simulations: nat,
    explore: (nat, nat) -> real, policy: seq<int> -> int)
    returns (action: int, ghost tree: MonteCarloTree, ghost history: seq<seq<Node>>)
    requires SupportedSize(n) && ValidBoard(n, state) && simulations >= 1
    requires GetGameEnded(n, state, player) == Ongoing
    requires PicksMember(policy)
    ensures action in LegalActions(n, state, player)
    ensures tree.Valid() && tree.nodes[0].state == state && tree.nodes[0].visits == simulations
    ensures ChildrenVisited(tree.nodes, 0)
    ensures exists k | 0 <= k < |tree.nodes[0].children| ::
      && FirstBestByRatio(tree.nodes, 0, k)
      && tree.nodes[tree.nodes[0].children[k]].action == Some(action)
    ensures |history| == simulations + 1 && history[0] == [NewNode(state, player, None, None)]
    ensures history[simulations] == tree.nodes
    ensures forall t | 0 <= t < simulations :: SimulationStep(n, history[t], history[t + 1], explore, policy)
  {
    var root := new MonteCarloTree(n, state, player);
    history := RunSimulations(root, simulations, explore, policy);
    AllVisitedChildren(n, root.nodes, 0);
    var k := root.BestChild(0, 0.0, explore);
    ExploitationChoice(root.nodes, 0, explore, k);
    ChildActionLegal(n, root.nodes, 0, k);
    action := root.nodes[root.nodes[0].children[k]].action.value;
    tree := root;
  }
}
