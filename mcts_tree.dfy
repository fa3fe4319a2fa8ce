/**
 * The search tree shared by both Monte Carlo tree searches
 * (agent/mcts/MonteCarloTreeSearch.py and agent/mcts/backup.py), held as an arena:
 * node 0 is the root, a node's parent has a smaller index than the node, and a
 * parent lists its children by index. This module gives the node record, the
 * invariant every arena keeps, and the arenas that expand, backpropagate and the
 * lazy untried-action cache produce, with the lemmas that they keep the invariant.
 */
module MctsTree {
  import opened Options
  import opened TicTacToeLogic
  import opened TicTacToeGame

  /** The values a simulation backs up: a win, a loss or a draw for the node it ended at. */
  predicate IsReward(r: int) {
    r == -1 || r == 0 || r == 1
  }

  /** The reward rollout reports for a finished game: 1 and -1 are kept, anything else (the draw marker) becomes 0. */
  function RewardOf(o: Outcome): (r: int)
    ensures IsReward(r)
    ensures r == 1 <==> o == Win
    ensures r == -1 <==> o == Loss
  {
    match o
    case Win => 1
    case Loss => -1
    case Ongoing => 0
    case Draw => 0
  }

  /** `_results`: a defaultdict(int) counting the backed-up rewards by value. */
  datatype Tally = Tally(minus: nat, zero: nat, plus: nat) {
    /** `_results[r]`: every key outside {-1, 0, 1} reads as 0. */
    function Get(r: int): (count: nat) {
      if r == -1 then minus else if r == 0 then zero else if r == 1 then plus else 0
    }

    /** The number of rewards counted. */
    function Total(): (total: nat) {
      minus + zero + plus
    }

    /** `_results[r] += 1`: only the count for `r` grows, by one. */
    function Add(r: int): (t: Tally)
      requires IsReward(r)
      ensures t.Get(r) == Get(r) + 1
      ensures forall s | s != r :: t.Get(s) == Get(s)
      ensures t.Total() == Total() + 1
    {
      if r == -1 then this.(minus := minus + 1)
      else if r == 0 then this.(zero := zero + 1)
      else this.(plus := plus + 1)
    }
  }

  /**
   * One tree node: the position and the player to move there, the parent and the
   * action that led here (absent at the root), the visit counter, the results
   * tally, the lazily computed untried actions (absent until first asked for) and
   * the children in the order they were expanded.
   */
  datatype Node = Node(
    state: Board,
    player: Player,
    parent: Option<nat>,
    action: Option<int>,
    visits: nat,
    results: Tally,
    untried: Option<seq<int>>,
    children: seq<nat>)
  {
    /** q: wins minus losses, read from the tally by this node's player number. */
    function Q(): (q: int)
      ensures visits == results.Total() ==> -(visits as int) <= q <= visits
      ensures q == results.Get(player) - results.Get(Opponent(player))
    {
      results.Get(player) - results.Get(Opponent(player))
    }
  }

  /** The node `__init__` creates: no visits, an empty tally, no children, nothing cached yet. */
  function NewNode(state: Board, player: Player, parent: Option<nat>, action: Option<int>): (node: Node)
    ensures node.visits == 0 && forall r :: node.results.Get(r) == 0
    ensures node.children == [] && node.untried.None?
    ensures node.state == state && node.player == player && node.parent == parent && node.action == action
  {
    Node(state, player, parent, action, 0, Tally(0, 0, 0), None, [])
  }

  /** The list `untried_actions` answers: the cached one, or the legal actions if nothing is cached yet. */
  function UntriedOf(n: nat, node: Node): (u: seq<int>)
    requires 1 <= n && ValidBoard(n, node.state)
  {
    match node.untried
    case None => LegalActions(n, node.state, node.player)
    case Some(u) => u
  }

  /** A node that is not the root came from its parent by the parent's player taking its action. */
  ghost predicate LinkedToParent(n: nat, nodes: seq<Node>, k: nat)
    requires k < |nodes| && nodes[k].parent.Some?
  {
    var p := nodes[k].parent.value;
    && p < k
    && 1 <= n
    && nodes[k].action.Some?
    && 0 <= nodes[k].action.value < n * n
    && ValidBoard(n, nodes[p].state)
    && nodes[k].state == ApplyAction(n, nodes[p].state, nodes[p].player, nodes[k].action.value)
    && nodes[k].player == Opponent(nodes[p].player)
  }

  /**
   * The untried actions and the children's actions split the legal list L: the
   * untried ones are a prefix of L and child j took L[|L| - 1 - j], because expand
   * pops from the end. Before the cache exists there are no children.
   */
  ghost predicate UntriedOk(n: nat, nodes: seq<Node>, k: nat)
    requires k < |nodes| && 1 <= n && ValidBoard(n, nodes[k].state)
  {
    var node := nodes[k];
    var legal := LegalActions(n, node.state, node.player);
    match node.untried
    case None => node.children == []
    case Some(u) =>
      && |u| + |node.children| == |legal|
      && u == legal[..|u|]
      && forall j | 0 <= j < |node.children| ::
           node.children[j] < |nodes| && nodes[node.children[j]].action == Some(legal[|legal| - 1 - j])
  }

  ghost predicate NodeOk(n: nat, nodes: seq<Node>, k: nat)
    requires k < |nodes|
  {
    var node := nodes[k];
    && 1 <= n
    && ValidBoard(n, node.state)
    && node.visits == node.results.Total()
    && (k == 0 <==> node.parent.None?)
    && (node.parent.Some? ==> LinkedToParent(n, nodes, k))
    && (forall j | 0 <= j < |node.children| ::
          k < node.children[j] < |nodes| && nodes[node.children[j]].parent == Some(k))
    && UntriedOk(n, nodes, k)
  }

  /** The arena invariant: a root at index 0 and every node well linked, counted and cached. */
  ghost predicate WellFormed(n: nat, nodes: seq<Node>) {
    && 1 <= n
    && |nodes| >= 1
    && (forall k | 0 <= k < |nodes| :: ValidBoard(n, nodes[k].state))
    && (forall k | 0 <= k < |nodes| :: NodeOk(n, nodes, k))
  }

  ghost predicate ParentsBelow(nodes: seq<Node>) {
    forall k | 0 <= k < |nodes| && nodes[k].parent.Some? :: nodes[k].parent.value < k
  }

  lemma WellFormedParentsBelow(n: nat, nodes: seq<Node>)
    requires WellFormed(n, nodes)
    ensures ParentsBelow(nodes)
  {
    forall k | 0 <= k < |nodes| && nodes[k].parent.Some? ensures nodes[k].parent.value < k {
      assert NodeOk(n, nodes, k);
    }
  }

  /** The node and its ancestors up to the root: the nodes backpropagate visits. */
  ghost function Path(nodes: seq<Node>, i: nat): (path: set<nat>)
    requires ParentsBelow(nodes) && i < |nodes|
    ensures i in path
    ensures forall k | k in path :: k <= i
    decreases i
  {
    match nodes[i].parent
    case None => {i}
    case Some(p) => {i} + Path(nodes, p)
  }

  /** The root lies on every node's path, because only the root has no parent. */
  lemma {:induction false} RootOnPath(n: nat, nodes: seq<Node>, i: nat)
    requires WellFormed(n, nodes) && i < |nodes|
    ensures ParentsBelow(nodes)
    ensures 0 in Path(nodes, i)
    decreases i
  {
    WellFormedParentsBelow(n, nodes);
    assert NodeOk(n, nodes, i);
    if i != 0 {
      RootOnPath(n, nodes, nodes[i].parent.value);
    }
  }

  /** The path only follows parent links, so arenas with the same links have the same paths. */
  lemma {:induction false} PathFollowsParents(a: seq<Node>, b: seq<Node>, i: nat)
    requires ParentsBelow(a) && ParentsBelow(b) && i < |a| == |b|
    requires forall k | 0 <= k < |a| :: a[k].parent == b[k].parent
    ensures Path(a, i) == Path(b, i)
    decreases i
  {
    if a[i].parent.Some? {
      PathFollowsParents(a, b, a[i].parent.value);
    }
  }

  /** One backpropagate step at a node: one more visit and one more count for `r`. */
  function Bump(node: Node, r: int): (b: Node)
    requires IsReward(r)
    ensures b.visits == node.visits + 1
    ensures b.results.Get(r) == node.results.Get(r) + 1
    ensures b.results.Total() == node.results.Total() + 1
    ensures b.(visits := node.visits, results := node.results) == node
  {
    node.(visits := node.visits + 1, results := node.results.Add(r))
  }

  /** Two arenas that differ at most in visit counters and tallies. */
  ghost predicate SameShape(a: seq<Node>, b: seq<Node>) {
    && |a| == |b|
    && forall k | 0 <= k < |a| :: b[k].(visits := a[k].visits, results := a[k].results) == a[k]
  }

  /**
   * The arena after `backpropagate(r)` at node i: every node on i's path to the
   * root is bumped, every other node is unchanged.
   */
  ghost function BackedUp(nodes: seq<Node>, i: nat, r: int): (b: seq<Node>)
    requires ParentsBelow(nodes) && i < |nodes| && IsReward(r)
    ensures SameShape(nodes, b) && ParentsBelow(b)
    ensures forall k | 0 <= k < |nodes| :: b[k] == if k in Path(nodes, i) then Bump(nodes[k], r) else nodes[k]
    decreases i
  {
    var bumped := nodes[i := Bump(nodes[i], r)];
    assert SameShape(nodes, bumped);
    match nodes[i].parent
    case None => bumped
    case Some(p) =>
      PathFollowsParents(nodes, bumped, p);
      BackedUp(bumped, p, r)
  }

  /** Changing only counters keeps the arena well formed as long as every counter still equals its tally's total. */
  lemma StatsOnlyKeepWellFormed(n: nat, a: seq<Node>, b: seq<Node>)
    requires WellFormed(n, a) && SameShape(a, b)
    requires forall k | 0 <= k < |b| :: b[k].visits == b[k].results.Total()
    ensures WellFormed(n, b)
  {
    forall k | 0 <= k < |b| ensures NodeOk(n, b, k) {
      assert NodeOk(n, a, k);
      var node := b[k];
      assert node.state == a[k].state && node.player == a[k].player;
      assert node.parent == a[k].parent && node.action == a[k].action;
      assert node.untried == a[k].untried && node.children == a[k].children;
      forall j | 0 <= j < |node.children|
        ensures b[node.children[j]].parent == a[node.children[j]].parent
        ensures b[node.children[j]].action == a[node.children[j]].action
      {
        assert b[node.children[j]].(visits := a[node.children[j]].visits, results := a[node.children[j]].results) == a[node.children[j]];
      }
      if node.parent.Some? {
        var p := node.parent.value;
        assert b[p].(visits := a[p].visits, results := a[p].results) == a[p];
        assert LinkedToParent(n, a, k);
      }
    }
  }

  /**
   * Backpropagation keeps the arena well formed, adds one visit at the root and at
   * the node itself, and adds exactly one visit to every node's count on the path.
   */
  lemma BackedUpKeepsWellFormed(n: nat, nodes: seq<Node>, i: nat, r: int)
    requires WellFormed(n, nodes) && i < |nodes| && IsReward(r)
    ensures ParentsBelow(nodes)
    ensures WellFormed(n, BackedUp(nodes, i, r))
    ensures BackedUp(nodes, i, r)[0].visits == nodes[0].visits + 1
    ensures BackedUp(nodes, i, r)[i].visits == nodes[i].visits + 1
  {
    RootOnPath(n, nodes, i);
    var b := BackedUp(nodes, i, r);
    forall k | 0 <= k < |b| ensures b[k].visits == b[k].results.Total() {
      assert NodeOk(n, nodes, k);
    }
    StatsOnlyKeepWellFormed(n, nodes, b);
  }

  /** Backing up keeps the root's position and children, and loses no visit anywhere. */
  lemma BackedUpKeepsRoot(nodes: seq<Node>, i: nat, r: int)
    requires ParentsBelow(nodes) && i < |nodes| && IsReward(r)
    ensures forall k | 0 <= k < |nodes| :: BackedUp(nodes, i, r)[k].visits >= nodes[k].visits
    ensures (forall k | 1 <= k < |nodes| && k != i :: nodes[k].visits > 0) ==> AllVisited(BackedUp(nodes, i, r))
    ensures BackedUp(nodes, i, r)[0].state == nodes[0].state
    ensures BackedUp(nodes, i, r)[0].player == nodes[0].player
    ensures BackedUp(nodes, i, r)[0].children == nodes[0].children
  {
    var b := BackedUp(nodes, i, r);
    assert b[0].(visits := nodes[0].visits, results := nodes[0].results) == nodes[0];
    forall k | 0 <= k < |b| ensures b[k].visits >= nodes[k].visits && (k == i ==> b[k].visits > 0) {
    }
  }

  /** After a descent that keeps the arena and may append node v, every node but the root and v is still visited. */
  lemma VisitedButNew(a: seq<Node>, b: seq<Node>, v: nat)
    requires AllVisited(a) && Keeps(a, b) && |b| <= |a| + 1 && (|b| == |a| + 1 ==> v == |a|)
    ensures forall k | 1 <= k < |b| && k != v :: b[k].visits > 0
  {
  }

  /** Every offered untried action names a cell, and the cache keeps the legal list's prefix. */
  lemma UntriedInGrid(n: nat, nodes: seq<Node>, i: nat)
    requires WellFormed(n, nodes) && i < |nodes|
    ensures 1 <= n && ValidBoard(n, nodes[i].state)
    ensures ActionsInGrid(n, UntriedOf(n, nodes[i]))
  {
    assert NodeOk(n, nodes, i);
    var legal := LegalActions(n, nodes[i].state, nodes[i].player);
    SearchableActions(n, nodes[i].state, nodes[i].player);
    var u := UntriedOf(n, nodes[i]);
    forall j | 0 <= j < |u| ensures 0 <= u[j] < n * n {
      assert u[j] == legal[j];
    }
  }

  /** The arena after the first read of `untried_actions` at node i: the legal list is cached there. */
  ghost function Filled(n: nat, nodes: seq<Node>, i: nat): (f: seq<Node>)
    requires WellFormed(n, nodes) && i < |nodes|
    ensures |f| == |nodes|
    ensures f[i].untried == Some(UntriedOf(n, nodes[i]))
  {
    UntriedInGrid(n, nodes, i);
    nodes[i := nodes[i].(untried := Some(UntriedOf(n, nodes[i])))]
  }

  /** Caching the list touches no position, link, statistic or child list. */
  lemma FilledKeeps(n: nat, nodes: seq<Node>, i: nat)
    requires WellFormed(n, nodes) && i < |nodes|
    ensures Keeps(nodes, Filled(n, nodes, i)) && |Filled(n, nodes, i)| == |nodes|
    ensures forall k | 0 <= k < |nodes| :: Filled(n, nodes, i)[k].children == nodes[k].children
  {
  }

  /** Caching the list changes no answer: the node offers the same untried actions afterwards. */
  lemma FilledKeepsWellFormed(n: nat, nodes: seq<Node>, i: nat)
    requires WellFormed(n, nodes) && i < |nodes|
    ensures WellFormed(n, Filled(n, nodes, i))
    ensures UntriedOf(n, Filled(n, nodes, i)[i]) == UntriedOf(n, nodes[i])
    ensures nodes[i].untried.Some? ==> Filled(n, nodes, i) == nodes
  {
    var f := Filled(n, nodes, i);
    forall k | 0 <= k < |f| ensures NodeOk(n, f, k) {
      FilledNodeOk(n, nodes, i, k);
    }
  }

  /** Node k stays well formed when node i caches its list: only i's cache changes, to the legal list. */
  lemma FilledNodeOk(n: nat, nodes: seq<Node>, i: nat, k: nat)
    requires WellFormed(n, nodes) && i < |nodes| && k < |nodes|
    ensures NodeOk(n, Filled(n, nodes, i), k)
  {
    var f := Filled(n, nodes, i);
    assert NodeOk(n, nodes, k);
    if k == i {
      var legal := LegalActions(n, nodes[i].state, nodes[i].player);
      if nodes[i].untried.None? {
        assert legal[..|legal|] == legal;
      }
    }
    var node := f[k];
    forall j | 0 <= j < |node.children|
      ensures f[node.children[j]].parent == nodes[node.children[j]].parent
      ensures f[node.children[j]].action == nodes[node.children[j]].action
    {
    }
    if node.parent.Some? {
      assert LinkedToParent(n, nodes, k);
    }
  }

  /**
   * The arena after `expand` at node i: the last untried action is popped, and a
   * new node for the position after it, with the other player to move, parent i
   * and that action, is appended and listed as i's newest child.
   */
  ghost function Expanded(n: nat, nodes: seq<Node>, i: nat): (e: seq<Node>)
    requires WellFormed(n, nodes) && i < |nodes| && |UntriedOf(n, nodes[i])| > 0
    ensures |e| == |nodes| + 1
  {
    UntriedInGrid(n, nodes, i);
    var node := nodes[i];
    var u := UntriedOf(n, node);
    var a := u[|u| - 1];
    nodes[i := node.(untried := Some(u[..|u| - 1]), children := node.children + [|nodes|])]
      + [NewNode(ApplyAction(n, node.state, node.player, a), Opponent(node.player), Some(i), Some(a))]
  }

  /** Expanding after the first read of the untried actions is expanding at once: expand overwrites the cache anyway. */
  lemma ExpandedAfterFilled(n: nat, nodes: seq<Node>, i: nat)
    requires WellFormed(n, nodes) && i < |nodes| && |UntriedOf(n, nodes[i])| > 0
    ensures WellFormed(n, Filled(n, nodes, i)) && |UntriedOf(n, Filled(n, nodes, i)[i])| > 0
    ensures Expanded(n, Filled(n, nodes, i), i) == Expanded(n, nodes, i)
  {
    FilledKeepsWellFormed(n, nodes, i);
  }

  /** Expanding leaves every existing node's position, player, links and statistics alone. */
  lemma ExpandedKeepsOld(n: nat, nodes: seq<Node>, i: nat)
    requires WellFormed(n, nodes) && i < |nodes| && |UntriedOf(n, nodes[i])| > 0
    ensures forall k | 0 <= k < |nodes| ::
      && Expanded(n, nodes, i)[k].state == nodes[k].state
      && Expanded(n, nodes, i)[k].player == nodes[k].player
      && Expanded(n, nodes, i)[k].parent == nodes[k].parent
      && Expanded(n, nodes, i)[k].action == nodes[k].action
      && Expanded(n, nodes, i)[k].visits == nodes[k].visits
      && Expanded(n, nodes, i)[k].results == nodes[k].results
      && (k != i ==> Expanded(n, nodes, i)[k] == nodes[k])
  {
  }

  /** Expanding keeps what a descent reads, appends a child under i, and shrinks no child list. */
  lemma ExpandedKeeps(n: nat, nodes: seq<Node>, i: nat)
    requires WellFormed(n, nodes) && i < |nodes| && |UntriedOf(n, nodes[i])| > 0
    ensures Keeps(nodes, Expanded(n, nodes, i))
    ensures Expanded(n, nodes, i)[|nodes|].parent == Some(i)
    ensures |Expanded(n, nodes, i)[i].children| > 0
    ensures forall k | 0 <= k < |nodes| :: |nodes[k].children| <= |Expanded(n, nodes, i)[k].children|
    ensures forall k | 0 <= k < |nodes| && k != i :: Expanded(n, nodes, i)[k] == nodes[k]
    ensures Expanded(n, nodes, i)[i].children == nodes[i].children + [|nodes|]
    ensures var m := Expanded(n, nodes, i)[|nodes|];
      m.visits == 0 && m.children == [] && m.untried.None?
  {
    ExpandedKeepsOld(n, nodes, i);
  }

  /** The appended node is well formed: it hangs under i by the popped action. */
  lemma ExpandedNewNodeOk(n: nat, nodes: seq<Node>, i: nat)
    requires WellFormed(n, nodes) && i < |nodes| && |UntriedOf(n, nodes[i])| > 0
    ensures NodeOk(n, Expanded(n, nodes, i), |nodes|)
  {
    UntriedInGrid(n, nodes, i);
    ExpandedKeepsOld(n, nodes, i);
    var e := Expanded(n, nodes, i);
    var m := |nodes|;
    assert e[m].parent == Some(i);
    assert LinkedToParent(n, e, m);
  }

  /** Node i stays well formed: its newest child took the action just popped from its untried list. */
  lemma ExpandedParentOk(n: nat, nodes: seq<Node>, i: nat)
    requires WellFormed(n, nodes) && i < |nodes| && |UntriedOf(n, nodes[i])| > 0
    ensures NodeOk(n, Expanded(n, nodes, i), i)
  {
    UntriedInGrid(n, nodes, i);
    ExpandedKeepsOld(n, nodes, i);
    var e := Expanded(n, nodes, i);
    var m := |nodes|;
    var u := UntriedOf(n, nodes[i]);
    var legal := LegalActions(n, nodes[i].state, nodes[i].player);
    assert NodeOk(n, nodes, i);
    assert u == legal[..|u|] && |u| + |nodes[i].children| == |legal|;
    ExpandedChildrenLinked(n, nodes, i);
    if e[i].parent.Some? {
      assert LinkedToParent(n, nodes, i);
    }
  }

  /** After expanding, node i's children, the new one last, hang under i by the legal actions taken from the back. */
  lemma ExpandedChildrenLinked(n: nat, nodes: seq<Node>, i: nat)
    requires WellFormed(n, nodes) && i < |nodes| && |UntriedOf(n, nodes[i])| > 0
    ensures var e := Expanded(n, nodes, i);
      var legal := LegalActions(n, nodes[i].state, nodes[i].player);
      forall j | 0 <= j < |e[i].children| ::
        && i < e[i].children[j] < |e| && e[e[i].children[j]].parent == Some(i)
        && |e[i].children| <= |legal|
        && e[e[i].children[j]].action == Some(legal[|legal| - 1 - j])
  {
    UntriedInGrid(n, nodes, i);
    ExpandedKeepsOld(n, nodes, i);
    var e := Expanded(n, nodes, i);
    var m := |nodes|;
    var u := UntriedOf(n, nodes[i]);
    var legal := LegalActions(n, nodes[i].state, nodes[i].player);
    assert NodeOk(n, nodes, i);
    assert u == legal[..|u|] && |u| + |nodes[i].children| == |legal|;
    var c := e[i].children;
    assert c == nodes[i].children + [m];
    forall j | 0 <= j < |c|
      ensures i < c[j] < |e| && e[c[j]].parent == Some(i)
      ensures e[c[j]].action == Some(legal[|legal| - 1 - j])
    {
      if j < |c| - 1 {
        assert c[j] == nodes[i].children[j];
      }
    }
  }

  /** Every other node stays well formed: nothing it refers to has changed. */
  lemma ExpandedOtherOk(n: nat, nodes: seq<Node>, i: nat, k: nat)
    requires WellFormed(n, nodes) && i < |nodes| && |UntriedOf(n, nodes[i])| > 0
    requires k < |nodes| && k != i
    ensures NodeOk(n, Expanded(n, nodes, i), k)
  {
    ExpandedKeepsOld(n, nodes, i);
    var e := Expanded(n, nodes, i);
    assert NodeOk(n, nodes, k);
    assert e[k] == nodes[k];
    if nodes[k].parent.Some? {
      assert LinkedToParent(n, nodes, k);
    }
  }

  /** Expanding keeps the arena well formed: the popped action moves from the untried list to the new child. */
  lemma ExpandedKeepsWellFormed(n: nat, nodes: seq<Node>, i: nat)
    requires WellFormed(n, nodes) && i < |nodes| && |UntriedOf(n, nodes[i])| > 0
    ensures WellFormed(n, Expanded(n, nodes, i))
  {
    var e := Expanded(n, nodes, i);
    ExpandedKeepsOld(n, nodes, i);
    ExpandedNewNodeOk(n, nodes, i);
    ExpandedParentOk(n, nodes, i);
    forall k | 0 <= k < |e| ensures NodeOk(n, e, k) {
      if k < |nodes| && k != i {
        ExpandedOtherOk(n, nodes, i, k);
      }
    }
  }

  /**
   * The untried actions and the children's actions partition the legal list: an
   * action is legal exactly when it is untried or some child took it, and no child
   * took an action that is still untried.
   */
  lemma {:induction false} UntriedAndChildrenPartition(n: nat, nodes: seq<Node>, i: nat)
    requires WellFormed(n, nodes) && i < |nodes| && nodes[i].untried.Some?
    ensures var u := nodes[i].untried.value;
      var legal := LegalActions(n, nodes[i].state, nodes[i].player);
      var c := nodes[i].children;
      && (forall j | 0 <= j < |c| :: c[j] < |nodes| && nodes[c[j]].action.Some? && nodes[c[j]].action.value !in u)
      && (forall a :: a in legal <==> a in u || exists j | 0 <= j < |c| :: c[j] < |nodes| && nodes[c[j]].action == Some(a))
  {
    assert NodeOk(n, nodes, i);
    var u := nodes[i].untried.value;
    var legal := LegalActions(n, nodes[i].state, nodes[i].player);
    var c := nodes[i].children;
    LegalActionsSpec(n, nodes[i].state, nodes[i].player);
    forall a | a in legal ensures a in u || exists j | 0 <= j < |c| :: c[j] < |nodes| && nodes[c[j]].action == Some(a) {
      var t :| 0 <= t < |legal| && legal[t] == a;
      if t < |u| {
        assert u[t] == a;
      } else {
        var j := |legal| - 1 - t;
        assert nodes[c[j]].action == Some(a);
      }
    }
    forall j | 0 <= j < |c| ensures c[j] < |nodes| && nodes[c[j]].action.Some? && nodes[c[j]].action.value !in u {
      var a := legal[|legal| - 1 - j];
      forall t | 0 <= t < |u| ensures u[t] < a {
        assert u[t] == legal[t];
      }
    }
  }

  /** Every node but the root has been visited, so best_child never divides by zero. */
  ghost predicate AllVisited(nodes: seq<Node>) {
    forall k | 1 <= k < |nodes| :: nodes[k].visits > 0
  }

  /** The children of node i are in the arena and have been visited. */
  ghost predicate ChildrenVisited(nodes: seq<Node>, i: nat)
    requires i < |nodes|
  {
    forall j | 0 <= j < |nodes[i].children| ::
      nodes[i].children[j] < |nodes| && nodes[nodes[i].children[j]].visits > 0
  }

  lemma AllVisitedChildren(n: nat, nodes: seq<Node>, i: nat)
    requires WellFormed(n, nodes) && AllVisited(nodes) && i < |nodes|
    ensures ChildrenVisited(nodes, i)
  {
    assert NodeOk(n, nodes, i);
  }

  /** A child's best_child score: q/n plus c times the exploration term, given the parent's visits. */
  function Weight(child: Node, c: real, explore: (nat, nat) -> real, parentVisits: nat): (w: real)
    requires child.visits > 0
  {
    (child.Q() as real) / (child.visits as real) + c * explore(parentVisits, child.visits)
  }

  /** `choices_weight`: the score of every child of node i, in the order the children were added. */
  function ChildWeights(nodes: seq<Node>, i: nat, c: real, explore: (nat, nat) -> real): (w: seq<real>)
    requires i < |nodes| && ChildrenVisited(nodes, i)
    ensures |w| == |nodes[i].children|
    ensures forall j | 0 <= j < |w| :: w[j] == Weight(nodes[nodes[i].children[j]], c, explore, nodes[i].visits)
  {
    var cs := nodes[i].children;
    seq(|cs|, j requires 0 <= j < |cs| => Weight(nodes[cs[j]], c, explore, nodes[i].visits))
  }

  /** np.argmax: an index of a largest entry, and the first such. */
  predicate IsFirstMax(w: seq<real>, k: nat) {
    && k < |w|
    && (forall j | 0 <= j < |w| :: w[j] <= w[k])
    && (forall j | 0 <= j < k :: w[j] < w[k])
  }

  /** np.argmax as a scan that moves only on a strictly larger entry. */
  method ArgMax(w: seq<real>) returns (k: nat)
    requires |w| > 0
    ensures IsFirstMax(w, k)
  {
    k := 0;
    for j := 1 to |w|
      invariant k < j
      invariant forall t | 0 <= t < j :: w[t] <= w[k]
      invariant forall t | 0 <= t < k :: w[t] < w[k]
    {
      if w[j] > w[k] {
        k := j;
      }
    }
  }

  /** Comparing two fractions with positive denominators is comparing the cross products. */
  lemma CrossMultiply(x: int, m: int, y: int, k: int)
    requires m > 0 && k > 0
    ensures (x as real) / (m as real) <= (y as real) / (k as real) <==> x * k <= y * m
    ensures (x as real) / (m as real) < (y as real) / (k as real) <==> x * k < y * m
  {
    var a := (x as real) / (m as real);
    var b := (y as real) / (k as real);
    var mk := (m as real) * (k as real);
    assert a * (m as real) == x as real;
    assert b * (k as real) == y as real;
    assert a * mk == (x * k) as real;
    assert b * mk == (y * m) as real;
    assert mk > 0.0;
    assert a <= b <==> a * mk <= b * mk;
    assert a < b <==> a * mk < b * mk;
  }

  /**
   * With c = 0 the scores are q/n alone, and comparing them is comparing
   * q_a * n_b with q_b * n_a in whole numbers.
   */
  lemma ExploitationWeights(a: Node, b: Node, explore: (nat, nat) -> real, parentVisits: nat)
    requires a.visits > 0 && b.visits > 0
    ensures Weight(a, 0.0, explore, parentVisits) <= Weight(b, 0.0, explore, parentVisits)
      <==> a.Q() * b.visits <= b.Q() * a.visits
    ensures Weight(a, 0.0, explore, parentVisits) < Weight(b, 0.0, explore, parentVisits)
      <==> a.Q() * b.visits < b.Q() * a.visits
  {
    CrossMultiply(a.Q(), a.visits, b.Q(), b.visits);
  }

  /**
   * The first child maximising the exploitation score, stated on whole numbers: no
   * child has a larger q/n, and every earlier child has a smaller one.
   */
  ghost predicate FirstBestByRatio(nodes: seq<Node>, i: nat, k: nat)
    requires i < |nodes| && ChildrenVisited(nodes, i)
  {
    var cs := nodes[i].children;
    && k < |cs|
    && (forall j | 0 <= j < |cs| :: nodes[cs[j]].Q() * nodes[cs[k]].visits <= nodes[cs[k]].Q() * nodes[cs[j]].visits)
    && (forall j | 0 <= j < k :: nodes[cs[j]].Q() * nodes[cs[k]].visits < nodes[cs[k]].Q() * nodes[cs[j]].visits)
  }

  lemma ExploitationChoice(nodes: seq<Node>, i: nat, explore: (nat, nat) -> real, k: nat)
    requires i < |nodes| && ChildrenVisited(nodes, i)
    requires IsFirstMax(ChildWeights(nodes, i, 0.0, explore), k)
    ensures FirstBestByRatio(nodes, i, k)
  {
    var cs := nodes[i].children;
    var w := ChildWeights(nodes, i, 0.0, explore);
    forall j | 0 <= j < |cs|
      ensures nodes[cs[j]].Q() * nodes[cs[k]].visits <= nodes[cs[k]].Q() * nodes[cs[j]].visits
      ensures j < k ==> nodes[cs[j]].Q() * nodes[cs[k]].visits < nodes[cs[k]].Q() * nodes[cs[j]].visits
    {
      ExploitationWeights(nodes[cs[j]], nodes[cs[k]], explore, nodes[i].visits);
    }
  }

  /** A child's action is one of its parent's legal actions. */
  lemma ChildActionLegal(n: nat, nodes: seq<Node>, i: nat, j: nat)
    requires WellFormed(n, nodes) && i < |nodes| && j < |nodes[i].children|
    ensures 1 <= n && ValidBoard(n, nodes[i].state)
    ensures nodes[i].children[j] < |nodes|
    ensures nodes[nodes[i].children[j]].action.Some?
    ensures nodes[nodes[i].children[j]].action.value in LegalActions(n, nodes[i].state, nodes[i].player)
  {
    assert NodeOk(n, nodes, i);
    var legal := LegalActions(n, nodes[i].state, nodes[i].player);
    assert legal[|legal| - 1 - j] in legal;
  }

  /**
   * What a descent keeps: the arena only grows, and every node already present
   * keeps its position, player, parent, action and statistics, and at most gains
   * children after the ones it had.
   */
  ghost predicate Keeps(a: seq<Node>, b: seq<Node>) {
    && |a| <= |b|
    && forall k | 0 <= k < |a| ::
         && b[k].state == a[k].state && b[k].player == a[k].player
         && b[k].parent == a[k].parent && b[k].action == a[k].action
         && b[k].visits == a[k].visits && b[k].results == a[k].results
         && a[k].children <= b[k].children
  }

  lemma KeepsTransitive(a: seq<Node>, b: seq<Node>, c: seq<Node>)
    requires Keeps(a, b) && Keeps(b, c)
    ensures Keeps(a, c)
  {
  }

  /**
   * One hop of select's descent that does not expand: `from` is unfinished and
   * fully expanded (its cached untried list is empty), and `to` is the child
   * best_child(c) answers there.
   */
  ghost predicate BestChildHop(n: nat, nodes: seq<Node>, from: nat, to: nat, c: real, explore: (nat, nat) -> real) {
    && from < |nodes|
    && ValidBoard(n, nodes[from].state)
    && GetGameEnded(n, nodes[from].state, nodes[from].player) == Ongoing
    && nodes[from].untried == Some([])
    && ChildrenVisited(nodes, from)
    && exists k | 0 <= k < |nodes[from].children| ::
         nodes[from].children[k] == to && IsFirstMax(ChildWeights(nodes, from, c, explore), k)
  }

  /** Every hop of `path` into a node below `bound` (a node that existed before the descent) is a best-child hop. */
  ghost predicate BestChildPath(n: nat, nodes: seq<Node>, path: seq<nat>, bound: nat, c: real, explore: (nat, nat) -> real) {
    forall t | 0 <= t < |path| - 1 && path[t + 1] < bound :: BestChildHop(n, nodes, path[t], path[t + 1], c, explore)
  }

  /**
   * The last hop of a descent that expands: `to` is the node just appended, as the
   * newest child of the unfinished node `from`, not yet visited or expanded.
   */
  ghost predicate ExpansionHop(n: nat, nodes: seq<Node>, from: nat, to: nat) {
    && from < to && to + 1 == |nodes|
    && ValidBoard(n, nodes[from].state)
    && GetGameEnded(n, nodes[from].state, nodes[from].player) == Ongoing
    && |nodes[from].children| > 0 && nodes[from].children[|nodes[from].children| - 1] == to
    && nodes[to].parent == Some(from) && nodes[to].visits == 0
    && nodes[to].children == [] && nodes[to].untried.None?
  }

  /** A best-child hop stays one when its node is untouched and the rest of the arena is kept. */
  lemma HopKept(n: nat, a: seq<Node>, b: seq<Node>, from: nat, to: nat, c: real, explore: (nat, nat) -> real)
    requires BestChildHop(n, a, from, to, c, explore)
    requires Keeps(a, b) && b[from] == a[from]
    ensures BestChildHop(n, b, from, to, c, explore)
  {
    var cs := a[from].children;
    forall j | 0 <= j < |cs| ensures cs[j] < |a| && b[cs[j]].visits == a[cs[j]].visits && b[cs[j]].Q() == a[cs[j]].Q() {
    }
    assert ChildrenVisited(b, from);
    var wa, wb := ChildWeights(a, from, c, explore), ChildWeights(b, from, c, explore);
    forall j | 0 <= j < |cs| ensures wb[j] == wa[j] {
      assert Weight(b[cs[j]], c, explore, a[from].visits) == Weight(a[cs[j]], c, explore, a[from].visits);
    }
    assert wb == wa;
    var k :| 0 <= k < |cs| && cs[k] == to && IsFirstMax(ChildWeights(a, from, c, explore), k);
  }

  /** The best-child hops of a path survive a step that changes no node on the path except possibly its end. */
  lemma PathKept(n: nat, a: seq<Node>, b: seq<Node>, path: seq<nat>, bound: nat, c: real, explore: (nat, nat) -> real, changed: nat)
    requires BestChildPath(n, a, path, bound, c, explore) && Keeps(a, b)
    requires forall t | 0 <= t < |path| - 1 :: path[t] != changed
    requires forall k | 0 <= k < |a| && k != changed :: b[k] == a[k]
    ensures BestChildPath(n, b, path, bound, c, explore)
  {
    forall t | 0 <= t < |path| - 1 && path[t + 1] < bound
      ensures BestChildHop(n, b, path[t], path[t + 1], c, explore)
    {
      HopKept(n, a, b, path[t], path[t + 1], c, explore);
    }
  }

  /** A path extended by a best-child hop, or by a hop to a new node, is still a best-child path. */
  lemma PathExtended(n: nat, nodes: seq<Node>, path: seq<nat>, to: nat, bound: nat, c: real, explore: (nat, nat) -> real)
    requires |path| >= 1 && BestChildPath(n, nodes, path, bound, c, explore)
    requires to < bound ==> BestChildHop(n, nodes, path[|path| - 1], to, c, explore)
    ensures BestChildPath(n, nodes, path + [to], bound, c, explore)
  {
    var p := path + [to];
    forall t | 0 <= t < |p| - 1 && p[t + 1] < bound
      ensures BestChildHop(n, nodes, p[t], p[t + 1], c, explore)
    {
      if t < |path| - 1 {
        assert p[t] == path[t] && p[t + 1] == path[t + 1];
      }
    }
  }

  /**
   * One round of a descent from `start`: the round changed no node but `cur`, the
   * end of the path, and moved to `next` by a best-child hop unless `next` is new.
   * The arena is still kept and the longer path is still a best-child path.
   */
  lemma DescentAdvances(n: nat, start: seq<Node>, pre: seq<Node>, post: seq<Node>, path: seq<nat>,
                        cur: nat, next: nat, c: real, explore: (nat, nat) -> real)
    requires Keeps(start, pre) && Keeps(pre, post)
    requires |path| >= 1 && path[|path| - 1] == cur && forall t | 0 <= t < |path| - 1 :: path[t] < cur
    requires BestChildPath(n, pre, path, |start|, c, explore)
    requires forall k | 0 <= k < |pre| && k != cur :: post[k] == pre[k]
    requires next < |start| ==> BestChildHop(n, post, cur, next, c, explore)
    ensures Keeps(start, post)
    ensures BestChildPath(n, post, path + [next], |start|, c, explore)
  {
    KeepsTransitive(start, pre, post);
    PathKept(n, pre, post, path, |start|, c, explore, cur);
    PathExtended(n, post, path, next, |start|, c, explore);
  }

  /** A run of arenas, each one `step` after the one before, followed by one more step is a longer such run. */
  lemma StepsExtended(step: (seq<Node>, seq<Node>) -> bool, history: seq<seq<Node>>, next: seq<Node>)
    requires |history| >= 1
    requires forall t | 0 <= t < |history| - 1 :: step(history[t], history[t + 1])
    requires step(history[|history| - 1], next)
    ensures forall t | 0 <= t < |history| :: step((history + [next])[t], (history + [next])[t + 1])
  {
    forall t | 0 <= t < |history|
      ensures step((history + [next])[t], (history + [next])[t + 1])
    {
      if t < |history| - 1 {
        assert (history + [next])[t] == history[t] && (history + [next])[t + 1] == history[t + 1];
      }
    }
  }
}
