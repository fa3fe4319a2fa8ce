/**
 * The Monte Carlo tree search of agent/mcts/MonteCarloTreeSearch.py.
 *
 * `MonteCarloTree` holds the whole tree as an arena of nodes (see MctsTree); a
 * node of the source is an index into `nodes`. Every simulation selects a node,
 * scores it (a finished game by its rollout, an unfinished one as 0) and backs
 * the score up to the root; the answer is the action of the root's child with the
 * best wins-minus-losses per visit.
 *
 * The exploration term sqrt(2 ln N / n) of best_child is the parameter
 * `explore(N, n)`; the search only ever scales it by the constant c.
 */
module Mcts {
  import opened Options
  import opened TicTacToeLogic
  import opened TicTacToeGame
  import opened MctsTree

  /** best_child's default c_param, 1.4. */
  const ExplorationWeight: real := 1.4

  class MonteCarloTree {
    /** The board size of `game`. */
    const n: nat
    var nodes: seq<Node>

    /** The tree invariant, on a board small enough for getNextState to decode every action. */
    ghost predicate Valid()
      reads this
    {
      SupportedSize(n) && WellFormed(n, nodes)
    }

    /** `MonteCarloTree(game, state, player)`: a lone root. */
    constructor (n: nat, state: Board, player: Player)
      requires SupportedSize(n) && ValidBoard(n, state)
      ensures Valid()
      ensures this.n == n && nodes == [NewNode(state, player, None, None)]
    {
      this.n := n;
      nodes := [NewNode(state, player, None, None)];
      new;
      assert NodeOk(n, nodes, 0);
    }

    /**
     * `untried_actions`: computed from getValidMoves on first access and cached on
     * the node; every later access returns the cached list.
     */
    method UntriedActions(i: nat) returns (u: seq<int>)
      requires Valid() && i < |nodes|
      modifies this
      ensures Valid()
      ensures nodes == Filled(n, old(nodes), i)
      ensures u == UntriedOf(n, old(nodes)[i])
      ensures old(nodes)[i].untried.None? ==> u == LegalActions(n, nodes[i].state, nodes[i].player)
      ensures old(nodes)[i].untried.Some? ==> nodes == old(nodes)
    {
      FilledKeepsWellFormed(n, nodes, i);
      match nodes[i].untried
      case Some(cached) =>
        u := cached;
      case None =>
        var valids := GetValidMoves(n, nodes[i].state, nodes[i].player);
        u := CollectActions(valids);
        nodes := nodes[i := nodes[i].(untried := Some(u))];
    }

    /**
     * `expand`: pops the last untried action, builds the child from getNextState on
     * a copy of the position, and appends it to the arena and to node i's children.
     */
    method Expand(i: nat) returns (child: nat)
      requires Valid() && i < |nodes| && |UntriedOf(n, nodes[i])| > 0
      modifies this
      ensures Valid()
      ensures nodes == Expanded(n, old(nodes), i)
      ensures child == |old(nodes)| && child < |nodes|
    {
      ghost var before := nodes;
      UntriedInGrid(n, nodes, i);
      var u := UntriedActions(i);
      var action := u[|u| - 1];
      nodes := nodes[i := nodes[i].(untried := Some(u[..|u| - 1]))];
      var next := GetNextState(n, nodes[i].state, nodes[i].player, action);
      NextStateIsApplyAction(n, nodes[i].state, nodes[i].player, action);
      child := |nodes|;
      nodes := nodes[i := nodes[i].(children := nodes[i].children + [child])]
        + [NewNode(next.0, next.1, Some(i), Some(action))];
      assert nodes == Expanded(n, before, i);
      ExpandedKeepsWellFormed(n, before, i);
    }

    /**
     * `backpropagate(result)`: one more visit and one more count of `result` here,
     * then the same at the parent, up to the root.
     */
    method Backpropagate(i: nat, result: int)
      requires Valid() && i < |nodes| && IsReward(result)
      modifies this
      ensures Valid()
      ensures ParentsBelow(old(nodes)) && nodes == BackedUp(old(nodes), i, result)
      decreases i
    {
      WellFormedParentsBelow(n, nodes);
      ghost var before := nodes;
      nodes := nodes[i := Bump(nodes[i], result)];
      assert SameShape(before, nodes);
      forall k | 0 <= k < |nodes| ensures nodes[k].visits == nodes[k].results.Total() {
        assert NodeOk(n, before, k);
      }
      StatsOnlyKeepWellFormed(n, before, nodes);
      match nodes[i].parent
      case None =>
      case Some(p) =>
        WellFormedParentsBelow(n, nodes);
        Backpropagate(p, result);
    }

    /**
     * `best_child(c_param)`: the position among node i's children of the first
     * child with the largest q/n + c * explore(N, n).
     */
    method BestChild(i: nat, c: real, explore: (nat, nat) -> real) returns (k: nat)
      requires Valid() && i < |nodes| && |nodes[i].children| > 0 && ChildrenVisited(nodes, i)
      ensures k < |nodes[i].children|
      ensures IsFirstMax(ChildWeights(nodes, i, c, explore), k)
    {
      var choicesWeight := ChildWeights(nodes, i, c, explore);
      k := ArgMax(choicesWeight);
    }

    /**
     * `rollout` on a finished position, the only kind the driver rolls out: the
     * verdict for the node's own player, 1 and -1 kept and the draw marker mapped
     * to 0.
     */
    method Rollout(i: nat) returns (result: int)
      requires Valid() && i < |nodes|
      requires GetGameEnded(n, nodes[i].state, nodes[i].player) != Ongoing
      ensures IsReward(result)
      ensures result == 1 <==> IsWin(n, nodes[i].state, nodes[i].player)
      ensures result == -1 <==> !IsWin(n, nodes[i].state, nodes[i].player)
                                && IsWin(n, nodes[i].state, Opponent(nodes[i].player))
      ensures result == 0 <==> GetGameEnded(n, nodes[i].state, nodes[i].player) == Draw
    {
      var state := nodes[i].state;
      result := RewardOf(GetGameEnded(n, state, nodes[i].player));
    }

    /**
     * `select`: from the root, while the node is not finished, expand it if it has
     * untried actions, else move to its best child (c = 1.4). The answer is either
     * a freshly expanded child or a finished node. The ghost `path` is the descent
     * from the root: every hop into a node that already existed is a best-child hop
     * from an unfinished, fully expanded node, and a descent that expands ends with
     * the hop to the appended node. The root ends up with a child whenever its game
     * is on.
     */
    method Select(explore: (nat, nat) -> real) returns (leaf: nat, ghost path: seq<nat>)
      requires Valid() && AllVisited(nodes)
      modifies this
      ensures Valid() && Keeps(old(nodes), nodes)
      ensures leaf < |nodes| <= |old(nodes)| + 1
      ensures |path| >= 1 && path[0] == 0 && path[|path| - 1] == leaf
      ensures BestChildPath(n, nodes, path, |old(nodes)|, ExplorationWeight, explore)
      ensures |nodes| == |old(nodes)| + 1 ==>
        leaf == |old(nodes)| && |path| >= 2 && ExpansionHop(n, nodes, path[|path| - 2], leaf)
      ensures |nodes| == |old(nodes)| ==> GetGameEnded(n, nodes[leaf].state, nodes[leaf].player) != Ongoing
      ensures GetGameEnded(n, nodes[0].state, nodes[0].player) == Ongoing ==> |nodes[0].children| > 0
    {
      var cur := 0;
      path := [0];
      while GetGameEnded(n, nodes[cur].state, nodes[cur].player) == Ongoing
        invariant Valid() && cur < |nodes| == |old(nodes)|
        invariant Keeps(old(nodes), nodes) && AllVisited(nodes)
        invariant cur != 0 ==> |nodes[0].children| > 0
        invariant |path| >= 1 && path[0] == 0 && path[|path| - 1] == cur
        invariant forall t | 0 <= t < |path| - 1 :: path[t] < cur
        invariant BestChildPath(n, nodes, path, |old(nodes)|, ExplorationWeight, explore)
        decreases |nodes| - cur
      {
        ghost var pre := nodes;
        var next, expanded := SelectStep(cur, explore);
        DescentAdvances(n, old(nodes), pre, nodes, path, cur, next, ExplorationWeight, explore);
        path := path + [next];
        if expanded {
          assert path[|path| - 2] == cur;
          assert ExpansionHop(n, nodes, path[|path| - 2], next);
          leaf := next;
          return;
        }
        cur := next;
      }
      leaf := cur;
    }

    /**
     * One round of select's loop at an unfinished node: read its untried actions;
     * if there are some, expand it and answer the new child, else answer its best
     * child (c = 1.4). No other node changes.
     */
    method SelectStep(cur: nat, explore: (nat, nat) -> real) returns (next: nat, expanded: bool)
      requires Valid() && AllVisited(nodes) && cur < |nodes|
      requires GetGameEnded(n, nodes[cur].state, nodes[cur].player) == Ongoing
      modifies this
      ensures Valid() && Keeps(old(nodes), nodes)
      ensures forall k | 0 <= k < |old(nodes)| && k != cur :: nodes[k] == old(nodes)[k]
      ensures cur == 0 || |old(nodes)[0].children| > 0 ==> |nodes[0].children| > 0
      ensures expanded ==>
        && |UntriedOf(n, old(nodes)[cur])| > 0 && nodes == Expanded(n, old(nodes), cur)
        && next == |old(nodes)| && ExpansionHop(n, nodes, cur, next)
      ensures !expanded ==>
        && nodes == Filled(n, old(nodes), cur) && UntriedOf(n, old(nodes)[cur]) == []
        && AllVisited(nodes) && cur < next < |nodes|
        && BestChildHop(n, nodes, cur, next, ExplorationWeight, explore)
    {
      ghost var pre := nodes;
      var u := UntriedActions(cur);
      FilledKeeps(n, pre, cur);
      FilledKeepsWellFormed(n, pre, cur);
      if |u| != 0 {
        ghost var before := nodes;
        next := Expand(cur);
        ExpandedKeeps(n, before, cur);
        ExpandedAfterFilled(n, pre, cur);
        KeepsTransitive(pre, before, nodes);
        return next, true;
      }
      assert NodeOk(n, nodes, cur);
      OngoingHasActions(n, nodes[cur].state, nodes[cur].player);
      AllVisitedChildren(n, nodes, cur);
      var k := BestChild(cur, ExplorationWeight, explore);
      next, expanded := nodes[cur].children[k], false;
    }
  }

  /**
   * One simulation took arena `before` to arena `after`. select descended from the
   * root along `path` to `leaf`, leaving `selected`: every hop from a node that
   * existed before is a best-child hop at c = 1.4, and the leaf is either the node
   * just expanded at the path's end or a finished one. The leaf was scored `result`
   * (its rollout reward if its game is over, 0 otherwise), and exactly that score
   * was backed up from the leaf.
   */
  ghost predicate Simulated(
    n: nat, before: seq<Node>, after: seq<Node>, explore: (nat, nat) -> real,
    leaf: nat, result: int, path: seq<nat>, selected: seq<Node>)
  {
    && WellFormed(n, selected) && Keeps(before, selected)
    && |selected| <= |before| + 1 && leaf < |selected|
    && |path| >= 1 && path[0] == 0 && path[|path| - 1] == leaf
    && BestChildPath(n, selected, path, |before|, ExplorationWeight, explore)
    && (|selected| == |before| + 1 ==>
         leaf == |before| && |path| >= 2 && ExpansionHop(n, selected, path[|path| - 2], leaf))
    && (|selected| == |before| ==> GetGameEnded(n, selected[leaf].state, selected[leaf].player) != Ongoing)
    && result == (if GetGameEnded(n, selected[leaf].state, selected[leaf].player) == Ongoing then 0
                  else RewardOf(GetGameEnded(n, selected[leaf].state, selected[leaf].player)))
    && ParentsBelow(selected)
    && after == BackedUp(selected, leaf, result)
  }

  /** Some descent, score and backpropagation take arena `before` to arena `after`. */
  ghost predicate SimulationStep(n: nat, before: seq<Node>, after: seq<Node>, explore: (nat, nat) -> real) {
    exists leaf: nat, result: int, path: seq<nat>, selected: seq<Node> ::
      Simulated(n, before, after, explore, leaf, result, path, selected)
  }

  /**
   * One simulation of the driver loop, as `Simulated` describes it. The root gains
   * exactly one visit, keeps its position, and has a child afterwards; every other
   * node stays visited.
   */
  method Simulate(root: MonteCarloTree, explore: (nat, nat) -> real)
    returns (leaf: nat, result: int, ghost path: seq<nat>, ghost selected: seq<Node>)
    requires root.Valid() && AllVisited(root.nodes)
    requires GetGameEnded(root.n, root.nodes[0].state, root.nodes[0].player) == Ongoing
    modifies root
    ensures Simulated(root.n, old(root.nodes), root.nodes, explore, leaf, result, path, selected)
    ensures root.Valid() && AllVisited(root.nodes)
    ensures root.nodes[0].state == old(root.nodes[0].state) && root.nodes[0].player == old(root.nodes[0].player)
    ensures root.nodes[0].visits == old(root.nodes[0].visits) + 1
    ensures |root.nodes[0].children| > 0
  {
    leaf, path := root.Select(explore);
    selected := root.nodes;
    if GetGameEnded(root.n, root.nodes[leaf].state, root.nodes[leaf].player) != Ongoing {
      result := root.Rollout(leaf);
    } else {
      result := 0;
    }
    VisitedButNew(old(root.nodes), selected, leaf);
    root.Backpropagate(leaf, result);
    BackedUpKeepsWellFormed(root.n, selected, leaf, result);
    BackedUpKeepsRoot(selected, leaf, result);
  }

  /**
   * The driver's loop: `simulations` simulations on the tree `root`, one after the
   * other. `history` lists the arenas: the one before the loop, then one per
   * simulation, each one simulation after the one before.
   */
  method RunSimulations(root: MonteCarloTree, simulations: nat, explore: (nat, nat) -> real)
    returns (ghost history: seq<seq<Node>>)
    requires root.Valid() && AllVisited(root.nodes)
    requires GetGameEnded(root.n, root.nodes[0].state, root.nodes[0].player) == Ongoing
    modifies root
    ensures root.Valid() && AllVisited(root.nodes)
    ensures root.nodes[0].state == old(root.nodes[0].state) && root.nodes[0].player == old(root.nodes[0].player)
    ensures root.nodes[0].visits == old(root.nodes[0].visits) + simulations
    ensures simulations > 0 ==> |root.nodes[0].children| > 0
    ensures |history| == simulations + 1 && history[0] == old(root.nodes) && history[simulations] == root.nodes
    ensures forall t | 0 <= t < simulations :: SimulationStep(root.n, history[t], history[t + 1], explore)
  {
    history := [root.nodes];
    for s := 0 to simulations
      invariant root.Valid() && AllVisited(root.nodes)
      invariant root.nodes[0].state == old(root.nodes[0].state) && root.nodes[0].player == old(root.nodes[0].player)
      invariant root.nodes[0].visits == old(root.nodes[0].visits) + s
      invariant s > 0 ==> |root.nodes[0].children| > 0
      invariant |history| == s + 1 && history[0] == old(root.nodes) && history[s] == root.nodes
      invariant forall t | 0 <= t < s :: SimulationStep(root.n, history[t], history[t + 1], explore)
    {
      ghost var before := root.nodes;
      var leaf, result, path, selected := Simulate(root, explore);
      assert SimulationStep(root.n, before, root.nodes, explore);
      StepsExtended((a, b) => SimulationStep(root.n, a, b, explore), history, root.nodes);
      history := history + [root.nodes];
    }
  }

  /**
   * `monteCarloTreeSearch`: run the simulations on a fresh tree and answer the
   * action of the root's child with the best q/n. The answer is a legal action;
   * the root has been visited once per simulation; and no child of the root has a
   * larger wins-minus-losses per visit, while every child added before the chosen
   * one has a smaller one. `history` lists the arenas: a lone root first, then
   * one arena per simulation, each one simulation after the one before.
   */
  method MonteCarloTreeSearch(n: nat, state: Board, player: Player, simulations: nat, explore: (nat, nat) -> real)
    returns (action: int, ghost tree: MonteCarloTree, ghost history: seq<seq<Node>>)
    requires SupportedSize(n) && ValidBoard(n, state) && simulations >= 1
    requires GetGameEnded(n, state, player) == Ongoing
    ensures action in LegalActions(n, state, player)
    ensures tree.Valid() && tree.nodes[0].state == state && tree.nodes[0].visits == simulations
    ensures ChildrenVisited(tree.nodes, 0)
    ensures exists k | 0 <= k < |tree.nodes[0].children| ::
      && FirstBestByRatio(tree.nodes, 0, k)
      && tree.nodes[tree.nodes[0].children[k]].action == Some(action)
    ensures |history| == simulations + 1 && history[0] == [NewNode(state, player, None, None)]
    ensures history[simulations] == tree.nodes
    ensures forall t | 0 <= t < simulations :: SimulationStep(n, history[t], history[t + 1], explore)
  {
    var root := new MonteCarloTree(n, state, player);
    history := RunSimulations(root, simulations, explore);
    AllVisitedChildren(n, root.nodes, 0);
    var k := root.BestChild(0, 0.0, explore);
    ExploitationChoice(root.nodes, 0, explore, k);
    ChildActionLegal(n, root.nodes, 0, k);
    action := root.nodes[root.nodes[0].children[k]].action.value;
    tree := root;
  }
}
