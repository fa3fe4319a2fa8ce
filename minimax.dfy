/**
 * Depth-bounded minimax (agent/minimax/Minimax.py).
 *
 * `Minimax` is the search as a recursive function: it stops at depth 0 or on a won
 * board, answers a forced pass with 0, and otherwise scores every legal action by a
 * search one level shallower for the other player, keeping the first action with the
 * largest score for player 1 and the first with the smallest for player -1.
 * `Search` is the same search written as the source writes it, with the per-level
 * `pricelist` filled in a loop, and is proved to compute `Minimax`.
 */
module Minimax {
  import opened TicTacToeLogic
  import opened TicTacToeGame

  /** The action minimax answers with: the sentinel (-1, -1) when it does not search, or an action index. */
  datatype Choice = Sentinel | Action(index: int)

  /** evaluate: 1 if player 1 holds a line (checked first), else -1 if player -1 does, else 0. */
  function Evaluate(n: nat, b: Board): (v: int)
    requires ValidBoard(n, b)
    ensures -1 <= v <= 1
    ensures v == 1 <==> IsWin(n, b, 1)
    ensures v == -1 <==> !IsWin(n, b, 1) && IsWin(n, b, -1)
  {
    if IsWin(n, b, 1) then 1
    else if IsWin(n, b, -1) then -1
    else 0
  }

  /** evaluate is getGameEnded seen from player 1, with a finished draw and an open board both scored 0. */
  lemma EvaluateAgreesWithGameEnded(n: nat, b: Board)
    requires ValidBoard(n, b)
    ensures Evaluate(n, b) == 1 <==> GetGameEnded(n, b, 1) == Win
    ensures Evaluate(n, b) == -1 <==> GetGameEnded(n, b, 1) == Loss
    ensures Evaluate(n, b) == 0 <==> GetGameEnded(n, b, 1) in {Ongoing, Draw}
  {
  }

  /** Whether score `v` beats score `w` for the mover: larger for player 1, smaller for player -1. */
  predicate Beats(v: int, w: int, maximise: bool) {
    if maximise then v > w else v < w
  }

  /**
   * Python's max (or min) with a key over a dict filled in ascending action order:
   * an entry no other entry beats, and the first such entry.
   */
  function ArgBest(prices: seq<(int, int)>, maximise: bool): (k: nat)
    requires |prices| > 0
    ensures k < |prices|
    ensures forall j | 0 <= j < |prices| :: !Beats(prices[j].1, prices[k].1, maximise)
    ensures forall j | 0 <= j < k :: Beats(prices[k].1, prices[j].1, maximise)
    decreases |prices|
  {
    if |prices| == 1 then 0
    else
      var k := ArgBest(prices[..|prices| - 1], maximise);
      if Beats(prices[|prices| - 1].1, prices[k].1, maximise) then |prices| - 1 else k
  }

  /** The score minimax records for action `a`: a search one level shallower, for the other player, after `a`. */
  function ChildValue(n: nat, state: Board, depth: nat, player: Player, a: int): (v: int)
    requires 1 <= n && ValidBoard(n, state) && 1 <= depth && 0 <= a < n * n
    decreases depth, 0, 0
  {
    Minimax(n, ApplyAction(n, state, player, a), depth - 1, Opponent(player)).1
  }

  /** The `pricelist` dict for the actions `acts`, as (action, score) entries in insertion order. */
  function PriceList(n: nat, state: Board, depth: nat, player: Player, acts: seq<int>): (prices: seq<(int, int)>)
    requires 1 <= n && ValidBoard(n, state) && 1 <= depth
    requires ActionsInGrid(n, acts)
    ensures |prices| == |acts|
    ensures forall k | 0 <= k < |prices| :: prices[k].0 == acts[k] && -1 <= prices[k].1 <= 1
    decreases depth, 0, |acts|
  {
    if acts == [] then []
    else
      var a := acts[|acts| - 1];
      PriceList(n, state, depth, player, acts[..|acts| - 1]) + [(a, ChildValue(n, state, depth, player, a))]
  }

  /**
   * minimax(game, state, depth, player). Every value is a verdict in {-1, 0, 1}; the
   * search answers the sentinel exactly when it does not look at any move (depth 0,
   * a line already on the board, or no free cell), and otherwise answers an action.
   */
  function Minimax(n: nat, state: Board, depth: nat, player: Player): (r: (Choice, int))
    requires 1 <= n && ValidBoard(n, state)
    ensures -1 <= r.1 <= 1
    ensures depth == 0 || Evaluate(n, state) != 0 ==> r == (Sentinel, Evaluate(n, state))
    ensures depth > 0 && Evaluate(n, state) == 0 && !HasLegalMoves(n, state) ==> r == (Sentinel, 0)
    ensures r.0.Action? <==> depth > 0 && Evaluate(n, state) == 0 && HasLegalMoves(n, state)
    decreases depth, 1, 0
  {
    if depth == 0 || Evaluate(n, state) != 0 then
      (Sentinel, Evaluate(n, state))
    else
      var valids := ValidMoves(n, state, player);
      SearchableActions(n, state, player);
      if valids[n * n] != 0 then
        (Sentinel, 0)
      else
        var acts := OrdinaryActions(valids);
        var prices := PriceList(n, state, depth, player, acts);
        var k := ArgBest(prices, player == 1);
        (Action(prices[k].0), prices[k].1)
  }

  /** In the searching case minimax answers the best entry of the price list over the legal actions. */
  lemma MinimaxSearches(n: nat, state: Board, depth: nat, player: Player)
    requires 1 <= n && ValidBoard(n, state)
    requires depth > 0 && Evaluate(n, state) == 0 && HasLegalMoves(n, state)
    ensures ActionsInGrid(n, LegalActions(n, state, player))
    ensures LegalActions(n, state, player) != []
    ensures var prices := PriceList(n, state, depth, player, LegalActions(n, state, player));
      var k := ArgBest(prices, player == 1);
      Minimax(n, state, depth, player) == (Action(prices[k].0), prices[k].1)
  {
    SearchableActions(n, state, player);
  }

  /** One round of the pricing loop: a set slot appends that action with its score, a clear slot appends nothing. */
  lemma {:induction false} PriceListStep(n: nat, state: Board, depth: nat, player: Player, valids: seq<int>, action: nat)
    requires 1 <= n && ValidBoard(n, state) && 1 <= depth
    requires action < n * n && |valids| == n * n + 1
    ensures ActionsInGrid(n, SetSlots(valids, action))
    ensures ActionsInGrid(n, SetSlots(valids, action + 1))
    ensures PriceList(n, state, depth, player, SetSlots(valids, action + 1)) ==
      PriceList(n, state, depth, player, SetSlots(valids, action)) +
      (if valids[action] != 0 then [(action, ChildValue(n, state, depth, player, action))] else [])
  {
    SetSlotsBelow(valids, action + 1);
    SetSlotsBelow(valids, action);
    var acts := SetSlots(valids, action + 1);
    if valids[action] != 0 {
      assert acts == SetSlots(valids, action) + [action];
      assert acts[..|acts| - 1] == SetSlots(valids, action);
    } else {
      assert acts == SetSlots(valids, action);
    }
  }

  /** Entry k of the price list is action k with the score of the search below it. */
  lemma {:induction false} PriceListAt(n: nat, state: Board, depth: nat, player: Player, acts: seq<int>, k: nat)
    requires 1 <= n && ValidBoard(n, state) && 1 <= depth
    requires ActionsInGrid(n, acts)
    requires k < |acts|
    ensures PriceList(n, state, depth, player, acts)[k] == (acts[k], ChildValue(n, state, depth, player, acts[k]))
    decreases |acts|
  {
    if k < |acts| - 1 {
      var init := acts[..|acts| - 1];
      PriceListAt(n, state, depth, player, init, k);
    }
  }

  /**
   * In the searching case the answer is an extreme child score taken at the chosen
   * action: for player 1 no legal action scores more and every smaller action scores
   * less; for player -1 no legal action scores less and every smaller action scores
   * more. So ties go to the lowest action index.
   */
  lemma MinimaxIsExtreme(n: nat, state: Board, depth: nat, player: Player)
    requires 1 <= n && ValidBoard(n, state)
    requires Minimax(n, state, depth, player).0.Action?
    ensures depth >= 1
    ensures var r := Minimax(n, state, depth, player);
      && r.0.index in LegalActions(n, state, player)
      && 0 <= r.0.index < n * n
      && r.1 == ChildValue(n, state, depth, player, r.0.index)
      && (forall b | b in LegalActions(n, state, player) ::
            0 <= b < n * n && !Beats(ChildValue(n, state, depth, player, b), r.1, player == 1))
      && (forall b | b in LegalActions(n, state, player) && b < r.0.index ::
            Beats(r.1, ChildValue(n, state, depth, player, b), player == 1))
  {
    MinimaxSearches(n, state, depth, player);
    var acts := LegalActions(n, state, player);
    var prices := PriceList(n, state, depth, player, acts);
    var k := ArgBest(prices, player == 1);
    PriceListAt(n, state, depth, player, acts, k);
    forall b | b in acts
      ensures 0 <= b < n * n && !Beats(ChildValue(n, state, depth, player, b), prices[k].1, player == 1)
      ensures b < acts[k] ==> Beats(prices[k].1, ChildValue(n, state, depth, player, b), player == 1)
    {
      var j :| 0 <= j < |acts| && acts[j] == b;
      PriceListAt(n, state, depth, player, acts, j);
      if b < acts[k] {
        LegalActionsSpec(n, state, player);
        assert j < k;
      }
    }
  }

  /** The selection `max(pricelist, key=...)` or `min(...)`: a scan that keeps the first best entry. */
  method SelectBest(prices: seq<(int, int)>, maximise: bool) returns (best: nat)
    requires |prices| > 0
    ensures best == ArgBest(prices, maximise)
  {
    best := 0;
    for k := 1 to |prices|
      invariant best == ArgBest(prices[..k], maximise)
    {
      assert prices[..k + 1][..k] == prices[..k];
      if Beats(prices[k].1, prices[best].1, maximise) {
        best := k;
      }
    }
    assert prices[..|prices|] == prices;
  }

  /**
   * minimax as the source writes it: evaluate, check the pass slot, fill `pricelist`
   * in a loop over the vector, then take max or min. It computes `Minimax`.
   */
  method Search(n: nat, state: Board, depth: nat, player: Player) returns (a: Choice, price: int)
    requires 1 <= n && ValidBoard(n, state)
    ensures a == Minimax(n, state, depth, player).0 && price == Minimax(n, state, depth, player).1
    decreases depth, 2
  {
    var e := Evaluate(n, state);
    if depth == 0 || e != 0 {
      return Sentinel, e;
    }
    var valids := GetValidMoves(n, state, player);
    PassSlot(n, state, player);
    if valids[|valids| - 1] != 0 {
      return Sentinel, 0;
    }
    var pricelist := PriceActions(n, state, depth, player, valids);
    MinimaxSearches(n, state, depth, player);
    var best := SelectBest(pricelist, player == 1);
    a, price := Action(pricelist[best].0), pricelist[best].1;
  }

  /** The pricing loop: every action whose slot is set, in order, with the score of a search one level down. */
  method PriceActions(n: nat, state: Board, depth: nat, player: Player, valids: seq<int>)
    returns (pricelist: seq<(int, int)>)
    requires 1 <= n && ValidBoard(n, state) && 1 <= depth && |valids| == n * n + 1
    ensures ActionsInGrid(n, SetSlots(valids, n * n))
    ensures pricelist == PriceList(n, state, depth, player, SetSlots(valids, n * n))
    decreases depth, 1
  {
    pricelist := [];
    SetSlotsBelow(valids, 0);
    for action := 0 to n * n
      invariant ActionsInGrid(n, SetSlots(valids, action))
      invariant pricelist == PriceList(n, state, depth, player, SetSlots(valids, action))
    {
      PriceListStep(n, state, depth, player, valids, action);
      if valids[action] != 0 {
        var v := ScoreAction(n, state, depth, player, action);
        pricelist := pricelist + [(action, v)];
      }
    }
  }

  /** The body of the pricing loop: play `action` on a copy and search one level shallower for the other player. */
  method ScoreAction(n: nat, state: Board, depth: nat, player: Player, action: int) returns (price: int)
    requires 1 <= n && ValidBoard(n, state) && 1 <= depth && 0 <= action < n * n
    ensures price == ChildValue(n, state, depth, player, action)
    decreases depth, 0
  {
    var nextState := ApplyAction(n, state, player, action);
    var _, v := Search(n, nextState, depth - 1, Opponent(player));
    price := v;
  }
}
