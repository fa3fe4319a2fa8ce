/**
 * The tic-tac-toe game model that both searches query (game/TicTacToeGame.py):
 * the action space, the valid-move vector, the transition, the verdict, the
 * canonical form, the symmetries and the action-to-cell decoding.
 *
 * Actions number the cells row by row, `n * x + y` for cell (x, y), and add one
 * pass slot at `n * n` that is offered only when no cell is free.
 */
module TicTacToeGame {
  import opened TicTacToeLogic

  /**
   * The verdict of getGameEnded from one player's point of view. The source returns
   * 0, 1, -1, or the tiny number 1e-4 for a draw; the draw is kept apart from
   * "ongoing" here as its own constructor.
   */
  datatype Outcome = Ongoing | Win | Loss | Draw

  /** action2move asserts that an action is at most 31, so a transition on every cell needs n * n <= 32. */
  predicate SupportedSize(n: int) {
    1 <= n && n * n <= 32
  }

  /** The index of cell (x, y) in the action space. */
  function CellIndex(n: nat, x: int, y: int): (a: int) {
    n * x + y
  }

  lemma CellIndexRoundTrip(n: nat, x: int, y: int)
    requires InRange(n, x, y)
    ensures 0 <= CellIndex(n, x, y) < n * n
    ensures CellIndex(n, x, y) / n == x && CellIndex(n, x, y) % n == y
  {
    var a := CellIndex(n, x, y);
    MulMonotone(n, x, n - 1);
    assert n * (n - 1) + n == n * n;
    var q, r := a / n, a % n;
    assert a == n * q + r;
    MulDistributes(n, q, x);
    if q > x {
      MulMonotone(n, 1, q - x);
      assert false;
    } else if q < x {
      MulMonotone(n, 1, x - q);
      assert false;
    }
  }

  lemma IndexCellRoundTrip(n: nat, a: int)
    requires 1 <= n && 0 <= a < n * n
    ensures InRange(n, a / n, a % n) && CellIndex(n, a / n, a % n) == a
  {
    if a / n >= n {
      MulMonotone(n, n, a / n);
      assert false;
    }
  }

  lemma MulDistributes(n: int, i: int, j: int)
    ensures n * (i - j) == n * i - n * j
  {
  }

  lemma MulMonotone(n: nat, i: int, j: int)
    requires i <= j
    ensures n * i <= n * j
  {
    assert n * j - n * i == n * (j - i);
  }

  /** getActionSize: one action per cell and the pass slot after them. */
  function ActionSize(n: nat): (size: nat)
    ensures size == n * n + 1
    ensures forall x, y | InRange(n, x, y) :: 0 <= CellIndex(n, x, y) < size - 1
  {
    AllCellsIndexed(n);
    n * n + 1
  }

  lemma AllCellsIndexed(n: nat)
    ensures forall x, y | InRange(n, x, y) :: 0 <= CellIndex(n, x, y) < n * n
  {
    forall x, y | InRange(n, x, y) ensures 0 <= CellIndex(n, x, y) < n * n {
      CellIndexRoundTrip(n, x, y);
    }
  }

  /** The indicator vector getValidMoves returns, as a value. */
  function ValidMoves(n: nat, b: Board, player: Player): (valids: seq<int>)
    requires 1 <= n && ValidBoard(n, b)
  {
    var moves := LegalMoves(n, b);
    seq(ActionSize(n), i requires 0 <= i < ActionSize(n) =>
      if moves == {} then (if i == n * n then 1 else 0)
      else if i < n * n && (i / n, i % n) in moves then 1 else 0)
  }

  /**
   * The vector has one slot per action; the pass slot is set exactly when no move is
   * legal, and the slot of cell (x, y) is set exactly when (x, y) is a legal move.
   */
  lemma ValidMovesSpec(n: nat, b: Board, player: Player)
    requires 1 <= n && ValidBoard(n, b)
    ensures |ValidMoves(n, b, player)| == ActionSize(n)
    ensures ValidMoves(n, b, player)[n * n] == if HasLegalMoves(n, b) then 0 else 1
    ensures forall x, y | InRange(n, x, y) ::
      ValidMoves(n, b, player)[CellIndex(n, x, y)] == if (x, y) in LegalMoves(n, b) then 1 else 0
    ensures forall a | 0 <= a < n * n ::
      ValidMoves(n, b, player)[a] == if (a / n, a % n) in LegalMoves(n, b) then 1 else 0
  {
    HasLegalMovesIff(n, b);
    var v := ValidMoves(n, b, player);
    forall x, y | InRange(n, x, y)
      ensures v[CellIndex(n, x, y)] == if (x, y) in LegalMoves(n, b) then 1 else 0
    {
      CellIndexRoundTrip(n, x, y);
    }
    forall a | 0 <= a < n * n
      ensures v[a] == if (a / n, a % n) in LegalMoves(n, b) then 1 else 0
    {
      IndexCellRoundTrip(n, a);
    }
  }

  /** getValidMoves: fills a zeroed vector slot by slot from the legal moves. */
  method GetValidMoves(n: nat, b: Board, player: Player) returns (valids: seq<int>)
    requires 1 <= n && ValidBoard(n, b)
    ensures valids == ValidMoves(n, b, player)
  {
    var v := new int[ActionSize(n)](_ => 0);
    var legal := LegalMoves(n, b);
    if |legal| == 0 {
      v[n * n] := 1;
      valids := v[..];
      return;
    }
    var rest := legal;
    while rest != {}
      invariant rest <= legal
      invariant forall i | 0 <= i < v.Length ::
        v[i] == if i < n * n && (i / n, i % n) in legal - rest then 1 else 0
      decreases |rest|
    {
      var m :| m in rest;
      CellIndexRoundTrip(n, m.0, m.1);
      var k := CellIndex(n, m.0, m.1);
      v[k] := 1;
      forall i | 0 <= i < n * n && i != k ensures (i / n, i % n) != m {
        IndexCellRoundTrip(n, i);
      }
      rest := rest - {m};
    }
    valids := v[..];
  }

  /** The action indices below `k` whose slot is set, in ascending order. */
  function SetSlots(valids: seq<int>, k: nat): (acts: seq<int>)
    requires k <= |valids|
  {
    if k == 0 then [] else SetSlots(valids, k - 1) + (if valids[k - 1] != 0 then [k - 1] else [])
  }

  lemma {:induction false} SetSlotsMembers(valids: seq<int>, k: nat)
    requires k <= |valids|
    ensures forall a :: a in SetSlots(valids, k) <==> 0 <= a < k && valids[a] != 0
  {
    if k > 0 {
      SetSlotsMembers(valids, k - 1);
    }
  }

  /** Every collected slot lies below the bound it was collected under. */
  lemma SetSlotsBelow(valids: seq<int>, k: nat)
    requires k <= |valids|
    ensures forall j | 0 <= j < |SetSlots(valids, k)| :: 0 <= SetSlots(valids, k)[j] < k
  {
    SetSlotsMembers(valids, k);
    forall j | 0 <= j < |SetSlots(valids, k)| ensures 0 <= SetSlots(valids, k)[j] < k {
      assert SetSlots(valids, k)[j] in SetSlots(valids, k);
    }
  }

  lemma {:induction false} SetSlotsAscending(valids: seq<int>, k: nat)
    requires k <= |valids|
    ensures forall i, j | 0 <= i < j < |SetSlots(valids, k)| :: SetSlots(valids, k)[i] < SetSlots(valids, k)[j]
  {
    if k > 0 {
      SetSlotsAscending(valids, k - 1);
      SetSlotsMembers(valids, k - 1);
      var prev := SetSlots(valids, k - 1);
      forall i | 0 <= i < |prev| ensures prev[i] < k - 1 {
        assert prev[i] in prev;
      }
    }
  }

  lemma {:induction false} SetSlotsNone(valids: seq<int>, k: nat)
    requires k <= |valids| && forall a | 0 <= a < k :: valids[a] == 0
    ensures SetSlots(valids, k) == []
  {
    if k > 0 {
      SetSlotsNone(valids, k - 1);
    }
  }

  /**
   * The ordinary actions a valid-move vector offers: every set slot before the last
   * (pass) slot, ascending. The searches build their action lists this way.
   */
  function OrdinaryActions(valids: seq<int>): (acts: seq<int>) {
    if |valids| == 0 then [] else SetSlots(valids, |valids| - 1)
  }

  lemma OrdinaryActionsSpec(valids: seq<int>)
    ensures forall a :: a in OrdinaryActions(valids) <==> 0 <= a < |valids| - 1 && valids[a] != 0
    ensures forall i, j | 0 <= i < j < |OrdinaryActions(valids)| ::
      OrdinaryActions(valids)[i] < OrdinaryActions(valids)[j]
    ensures (forall a | 0 <= a < |valids| - 1 :: valids[a] == 0) ==> OrdinaryActions(valids) == []
  {
    if |valids| > 0 {
      SetSlotsMembers(valids, |valids| - 1);
      SetSlotsAscending(valids, |valids| - 1);
      if forall a | 0 <= a < |valids| - 1 :: valids[a] == 0 {
        SetSlotsNone(valids, |valids| - 1);
      }
    }
  }

  /** The loop `for action in range(len(valids) - 1): if valids[action]: append(action)`. */
  method CollectActions(valids: seq<int>) returns (acts: seq<int>)
    ensures acts == OrdinaryActions(valids)
  {
    acts := [];
    if |valids| == 0 {
      return;
    }
    for a := 0 to |valids| - 1
      invariant acts == SetSlots(valids, a)
    {
      if valids[a] != 0 {
        acts := acts + [a];
      }
    }
  }

  /** Every action in `acts` names a cell of the grid. */
  predicate ActionsInGrid(n: nat, acts: seq<int>) {
    forall k | 0 <= k < |acts| :: 0 <= acts[k] < n * n
  }

  /** The legal ordinary actions of a position, ascending; the pass slot is never among them. */
  function LegalActions(n: nat, b: Board, player: Player): (acts: seq<int>)
    requires 1 <= n && ValidBoard(n, b)
  {
    OrdinaryActions(ValidMoves(n, b, player))
  }

  /** An action is a legal ordinary action exactly when it is the index of a legal move. */
  lemma LegalActionsSpec(n: nat, b: Board, player: Player)
    requires 1 <= n && ValidBoard(n, b)
    ensures forall a :: a in LegalActions(n, b, player) <==>
      0 <= a < n * n && (a / n, a % n) in LegalMoves(n, b)
    ensures forall i, j | 0 <= i < j < |LegalActions(n, b, player)| ::
      LegalActions(n, b, player)[i] < LegalActions(n, b, player)[j]
  {
    var v := ValidMoves(n, b, player);
    ValidMovesSpec(n, b, player);
    OrdinaryActionsSpec(v);
  }

  /** action2move: decodes an action index into its cell; the source asserts 0 <= action <= 31. */
  function Action2Move(n: nat, action: int): (move: (int, int))
    requires 1 <= n && 0 <= action <= 31
    ensures CellIndex(n, move.0, move.1) == action
    ensures 0 <= move.0 && 0 <= move.1 < n
    ensures action < n * n ==> InRange(n, move.0, move.1)
  {
    DecodeFacts(n, action);
    (action / n, action % n)
  }

  lemma DecodeFacts(n: nat, action: int)
    requires 1 <= n && 0 <= action
    ensures CellIndex(n, action / n, action % n) == action
    ensures action < n * n ==> InRange(n, action / n, action % n)
  {
    if action < n * n {
      IndexCellRoundTrip(n, action);
    }
  }

  /** action2move inverts the indexing getValidMoves uses. */
  lemma Action2MoveInvertsIndex(n: nat, x: int, y: int)
    requires InRange(n, x, y) && CellIndex(n, x, y) <= 31
    ensures Action2Move(n, CellIndex(n, x, y)) == (x, y)
  {
    CellIndexRoundTrip(n, x, y);
  }

  /**
   * getNextState: the player always flips; the pass action leaves the board as it is;
   * any other action writes the mover's piece into its cell of a copy of the board.
   */
  function GetNextState(n: nat, b: Board, player: Player, action: int): (next: (Board, Player))
    requires 1 <= n && ValidBoard(n, b)
    requires action == n * n || (0 <= action < n * n && action <= 31)
    ensures next.1 == Opponent(player)
    ensures ValidBoard(n, next.0)
    ensures action == n * n ==> next.0 == b
    ensures action < n * n ==>
      && next.0[action / n][action % n] == player
      && forall x, y | InRange(n, x, y) && CellIndex(n, x, y) != action :: next.0[x][y] == b[x][y]
  {
    if action == n * n then
      (b, Opponent(player))
    else
      var move := Action2Move(n, action);
      (ExecuteMove(n, b, move, player), Opponent(player))
  }

  /** getGameEnded: the player's own win first, then the opponent's, then "moves remain", else a draw. */
  function GetGameEnded(n: nat, b: Board, player: Player): (r: Outcome)
    requires ValidBoard(n, b)
    ensures r == Win <==> IsWin(n, b, player)
    ensures r == Loss <==> !IsWin(n, b, player) && IsWin(n, b, Opponent(player))
    ensures r == Ongoing <==> !IsWin(n, b, player) && !IsWin(n, b, Opponent(player)) && HasLegalMoves(n, b)
    ensures r == Draw <==> !IsWin(n, b, player) && !IsWin(n, b, Opponent(player)) && !HasLegalMoves(n, b)
  {
    if IsWin(n, b, player) then Win
    else if IsWin(n, b, Opponent(player)) then Loss
    else if HasLegalMoves(n, b) then Ongoing
    else Draw
  }

  /** Whether a game has ended does not depend on whose point of view is asked. */
  lemma EndedForBoth(n: nat, b: Board, player: Player)
    requires ValidBoard(n, b)
    ensures (GetGameEnded(n, b, player) == Ongoing) == (GetGameEnded(n, b, Opponent(player)) == Ongoing)
    ensures GetGameEnded(n, b, player) == Draw <==> GetGameEnded(n, b, Opponent(player)) == Draw
    ensures !(IsWin(n, b, 1) && IsWin(n, b, -1)) ==>
      (GetGameEnded(n, b, player) == Win <==> GetGameEnded(n, b, Opponent(player)) == Loss)
  {
  }

  /** While a cell is free, the valid-move vector offers at least one ordinary action and not the pass. */
  lemma MovesRemainOfferActions(n: nat, b: Board, player: Player)
    requires 1 <= n && ValidBoard(n, b) && HasLegalMoves(n, b)
    ensures ValidMoves(n, b, player)[n * n] == 0
    ensures LegalActions(n, b, player) != []
  {
    ValidMovesSpec(n, b, player);
    HasLegalMovesIff(n, b);
    var m :| m in LegalMoves(n, b);
    CellIndexRoundTrip(n, m.0, m.1);
    OrdinaryActionsSpec(ValidMoves(n, b, player));
    assert CellIndex(n, m.0, m.1) in LegalActions(n, b, player);
  }

  /**
   * What a search needs of a position: the pass slot is set exactly when no cell is
   * free, every offered ordinary action is a cell index, and a free cell means some
   * ordinary action is offered.
   */
  lemma SearchableActions(n: nat, b: Board, player: Player)
    requires 1 <= n && ValidBoard(n, b)
    ensures |ValidMoves(n, b, player)| == n * n + 1
    ensures ValidMoves(n, b, player)[n * n] != 0 <==> !HasLegalMoves(n, b)
    ensures forall k | 0 <= k < |LegalActions(n, b, player)| :: 0 <= LegalActions(n, b, player)[k] < n * n
    ensures HasLegalMoves(n, b) ==> LegalActions(n, b, player) != []
  {
    PassSlot(n, b, player);
    var acts := LegalActions(n, b, player);
    forall k | 0 <= k < |acts| ensures 0 <= acts[k] < n * n {
      OrdinaryActionsSpec(ValidMoves(n, b, player));
      assert acts[k] in acts;
    }
    if HasLegalMoves(n, b) {
      MovesRemainOfferActions(n, b, player);
    }
  }

  /** The pass slot alone: set exactly when no cell is free. */
  lemma PassSlot(n: nat, b: Board, player: Player)
    requires 1 <= n && ValidBoard(n, b)
    ensures |ValidMoves(n, b, player)| == n * n + 1
    ensures ValidMoves(n, b, player)[n * n] == if HasLegalMoves(n, b) then 0 else 1
  {
    HasLegalMovesIff(n, b);
  }

  /** While the game is on, the valid-move vector offers at least one ordinary action and not the pass. */
  lemma OngoingHasActions(n: nat, b: Board, player: Player)
    requires 1 <= n && ValidBoard(n, b) && GetGameEnded(n, b, player) == Ongoing
    ensures ValidMoves(n, b, player)[n * n] == 0
    ensures LegalActions(n, b, player) != []
  {
    MovesRemainOfferActions(n, b, player);
  }

  /**
   * The board after `player` takes ordinary action `a`: the piece goes into cell
   * (a / n, a % n) of a copy. Minimax and the older tree search call execute_move
   * this way directly.
   */
  function ApplyAction(n: nat, b: Board, player: Player, a: int): (r: Board)
    requires 1 <= n && ValidBoard(n, b) && 0 <= a < n * n
    ensures ValidBoard(n, r)
  {
    IndexCellRoundTrip(n, a);
    ExecuteMove(n, b, (a / n, a % n), player)
  }

  /** getNextState on an ordinary action is ApplyAction, with the player flipped. */
  lemma NextStateIsApplyAction(n: nat, b: Board, player: Player, a: int)
    requires 1 <= n && ValidBoard(n, b) && 0 <= a < n * n && a <= 31
    ensures GetNextState(n, b, player, a) == (ApplyAction(n, b, player, a), Opponent(player))
  {
  }

  /** A legal action takes a free cell, so it leaves one legal move fewer. */
  lemma LegalActionShrinks(n: nat, b: Board, player: Player, a: int)
    requires 1 <= n && ValidBoard(n, b) && a in LegalActions(n, b, player)
    ensures 0 <= a < n * n
    ensures |LegalMoves(n, ApplyAction(n, b, player, a))| < |LegalMoves(n, b)|
  {
    LegalActionsSpec(n, b, player);
    ExecuteLegalMove(n, b, (a / n, a % n), player);
  }

  /** A drawn board offers only the pass, and passing leaves it unchanged. */
  lemma DrawOffersOnlyPass(n: nat, b: Board, player: Player)
    requires 1 <= n && ValidBoard(n, b) && GetGameEnded(n, b, player) == Draw
    ensures ValidMoves(n, b, player)[n * n] == 1
    ensures LegalActions(n, b, player) == []
    ensures GetNextState(n, b, player, n * n).0 == b
  {
    ValidMovesSpec(n, b, player);
    HasLegalMovesIff(n, b);
    OrdinaryActionsSpec(ValidMoves(n, b, player));
  }

  /** getCanonicalForm: every cell multiplied by the player. */
  function GetCanonicalForm(n: nat, b: Board, player: Player): (c: Board)
    requires ValidBoard(n, b)
    ensures ValidBoard(n, c)
    ensures forall x, y | InRange(n, x, y) :: c[x][y] == player * b[x][y]
  {
    seq(n, x requires 0 <= x < n => seq(n, y requires 0 <= y < n => player * b[x][y]))
  }

  /** Canonicalising twice with the same player gives back the board. */
  lemma CanonicalInvolution(n: nat, b: Board, player: Player)
    requires ValidBoard(n, b)
    ensures GetCanonicalForm(n, GetCanonicalForm(n, b, player), player) == b
  {
    var c := GetCanonicalForm(n, GetCanonicalForm(n, b, player), player);
    forall x | 0 <= x < n ensures c[x] == b[x] {
      assert forall y | 0 <= y < n :: c[x][y] == b[x][y];
    }
  }

  /** In the canonical board, `c` wins exactly when `player * c` wins in the original. */
  lemma CanonicalWin(n: nat, b: Board, player: Player, c: Player)
    requires ValidBoard(n, b)
    ensures IsWin(n, GetCanonicalForm(n, b, player), c) <==> IsWin(n, b, player * c)
  {
    var cb := GetCanonicalForm(n, b, player);
    var pc := player * c;
    assert forall x, y | InRange(n, x, y) :: cb[x][y] == c <==> b[x][y] == pc;
    forall x | 0 <= x < n ensures RowFilled(n, cb, x, c) <==> RowFilled(n, b, x, pc) {
    }
    forall y | 0 <= y < n ensures ColumnFilled(n, cb, y, c) <==> ColumnFilled(n, b, y, pc) {
    }
  }

  /** The canonical board judged for player 1 gets the verdict the original gets for `player`. */
  lemma CanonicalGameEnded(n: nat, b: Board, player: Player)
    requires ValidBoard(n, b)
    ensures GetGameEnded(n, GetCanonicalForm(n, b, player), 1) == GetGameEnded(n, b, player)
  {
    CanonicalWin(n, b, player, 1);
    CanonicalWin(n, b, player, -1);
    assert player * 1 == player && player * -1 == Opponent(player);
    CanonicalKeepsEmptyCells(n, b, player);
  }

  /** Canonicalising neither fills nor frees a cell. */
  lemma CanonicalKeepsEmptyCells(n: nat, b: Board, player: Player)
    requires ValidBoard(n, b)
    ensures HasLegalMoves(n, GetCanonicalForm(n, b, player)) <==> HasLegalMoves(n, b)
  {
    var cb := GetCanonicalForm(n, b, player);
    if HasLegalMoves(n, b) {
      var x, y :| 0 <= x < n && 0 <= y < n && b[x][y] == 0;
      assert cb[x][y] == 0;
    }
    if HasLegalMoves(n, cb) {
      var x, y :| 0 <= x < n && 0 <= y < n && cb[x][y] == 0;
      assert b[x][y] == 0 by {
        if player == 1 { assert cb[x][y] == b[x][y]; } else { assert cb[x][y] == -b[x][y]; }
      }
    }
  }

  // ---------------------------------------------------------------------------
  // Symmetries: numpy's rot90 and fliplr on square grids, and the policy vector
  // reshaped to a grid and flattened back.

  predicate IsSquare<T>(m: seq<seq<T>>, n: nat) {
    |m| == n && forall r | 0 <= r < n :: |m[r]| == n
  }

  /** numpy.rot90: a quarter turn counter-clockwise. */
  function Rot90<T>(m: seq<seq<T>>, n: nat): (r: seq<seq<T>>)
    requires IsSquare(m, n)
    ensures IsSquare(r, n)
    ensures forall i, j | 0 <= i < n && 0 <= j < n :: r[i][j] == m[j][n - 1 - i]
  {
    seq(n, i requires 0 <= i < n => seq(n, j requires 0 <= j < n => m[j][n - 1 - i]))
  }

  /** numpy.rot90(m, k). */
  function Rot<T>(m: seq<seq<T>>, n: nat, k: nat): (r: seq<seq<T>>)
    requires IsSquare(m, n)
    ensures IsSquare(r, n)
    decreases k
  {
    if k == 0 then m else Rot90(Rot(m, n, k - 1), n)
  }

  /** numpy.fliplr: each row reversed. */
  function FlipLR<T>(m: seq<seq<T>>, n: nat): (r: seq<seq<T>>)
    requires IsSquare(m, n)
    ensures IsSquare(r, n)
    ensures forall i, j | 0 <= i < n && 0 <= j < n :: r[i][j] == m[i][n - 1 - j]
  {
    seq(n, i requires 0 <= i < n => seq(n, j requires 0 <= j < n => m[i][n - 1 - j]))
  }

  /** Row `i` of numpy.reshape(p, (n, n)). */
  function ReshapeRow<T>(p: seq<T>, n: nat, i: int): (r: seq<T>)
    requires 0 <= i < n && |p| >= n * n
    ensures |r| == n
  {
    seq(n, j requires 0 <= j < n => CellIndexRoundTrip(n, i, j); p[CellIndex(n, i, j)])
  }

  /** numpy.reshape(p, (n, n)) of the first n * n entries. */
  function Reshape<T>(p: seq<T>, n: nat): (m: seq<seq<T>>)
    requires |p| >= n * n
    ensures IsSquare(m, n)
  {
    seq(n, i requires 0 <= i < n => ReshapeRow(p, n, i))
  }

  lemma ReshapeAt<T>(p: seq<T>, n: nat, i: int, j: int)
    requires |p| >= n * n && InRange(n, i, j)
    ensures CellIndex(n, i, j) < |p| && Reshape(p, n)[i][j] == p[CellIndex(n, i, j)]
  {
    CellIndexRoundTrip(n, i, j);
    assert Reshape(p, n)[i] == ReshapeRow(p, n, i);
  }

  /** ravel: the grid flattened row by row. */
  function Ravel<T>(m: seq<seq<T>>, n: nat): (p: seq<T>)
    requires 1 <= n && IsSquare(m, n)
    ensures |p| == n * n
  {
    seq(n * n, k requires 0 <= k < n * n => IndexCellRoundTrip(n, k); m[k / n][k % n])
  }

  lemma RavelAt<T>(m: seq<seq<T>>, n: nat, i: int, j: int)
    requires 1 <= n && IsSquare(m, n) && InRange(n, i, j)
    ensures 0 <= CellIndex(n, i, j) < n * n && Ravel(m, n)[CellIndex(n, i, j)] == m[i][j]
  {
    CellIndexRoundTrip(n, i, j);
  }

  /** Flattening the reshaped policy gives the policy back. */
  lemma RavelReshape<T>(p: seq<T>, n: nat)
    requires 1 <= n && |p| == n * n
    ensures Ravel(Reshape(p, n), n) == p
  {
    var q := Ravel(Reshape(p, n), n);
    forall k | 0 <= k < n * n ensures q[k] == p[k] {
      IndexCellRoundTrip(n, k);
      ReshapeAt(p, n, k / n, k % n);
    }
  }

  /** Four quarter turns give back the grid. */
  lemma FullTurn<T>(m: seq<seq<T>>, n: nat)
    requires IsSquare(m, n)
    ensures Rot(m, n, 4) == m
  {
    var r := Rot(m, n, 4);
    forall i | 0 <= i < n ensures r[i] == m[i] {
      forall j | 0 <= j < n ensures r[i][j] == m[i][j] {
        var r1 := Rot(m, n, 1);
        var r2 := Rot(m, n, 2);
        var r3 := Rot(m, n, 3);
        assert r[i][j] == r3[j][n - 1 - i];
        assert r3[j][n - 1 - i] == r2[n - 1 - i][n - 1 - j];
        assert r2[n - 1 - i][n - 1 - j] == r1[n - 1 - j][i];
      }
    }
  }

  /** One of the eight symmetries: rot90 `turns` times, then fliplr when `flip`, of the board and of the policy. */
  function Symmetry(n: nat, board: Board, pi: seq<real>, turns: nat, flip: bool): (sym: (Board, seq<real>))
    requires 1 <= n && IsSquare(board, n) && |pi| == n * n + 1
  {
    var newB := Rot(board, n, turns);
    var newPi := Rot(Reshape(pi[..n * n], n), n, turns);
    if flip then (FlipLR(newB, n), Ravel(FlipLR(newPi, n), n) + [pi[n * n]])
    else (newB, Ravel(newPi, n) + [pi[n * n]])
  }

  /**
   * Every symmetry is a square board of the same size, valid when the original is,
   * with a policy as long as the action space that keeps the pass probability last.
   */
  lemma {:induction false} SymmetryShape(n: nat, board: Board, pi: seq<real>, turns: nat, flip: bool)
    requires 1 <= n && IsSquare(board, n) && |pi| == n * n + 1
    ensures IsSquare(Symmetry(n, board, pi, turns, flip).0, n)
    ensures ValidBoard(n, board) ==> ValidBoard(n, Symmetry(n, board, pi, turns, flip).0)
    ensures |Symmetry(n, board, pi, turns, flip).1| == ActionSize(n)
    ensures Symmetry(n, board, pi, turns, flip).1[n * n] == pi[n * n]
  {
    if ValidBoard(n, board) {
      RotValid(n, board, turns);
    }
  }

  lemma {:induction false} RotValid(n: nat, board: Board, turns: nat)
    requires ValidBoard(n, board)
    ensures ValidBoard(n, Rot(board, n, turns))
  {
    if turns > 0 {
      RotValid(n, board, turns - 1);
    }
  }

  /** The fourth rotation without a flip is the original board and policy. */
  lemma SymmetryIdentity(n: nat, board: Board, pi: seq<real>)
    requires 1 <= n && IsSquare(board, n) && |pi| == n * n + 1
    ensures Symmetry(n, board, pi, 4, false) == (board, pi)
  {
    FullTurn(board, n);
    FullTurn(Reshape(pi[..n * n], n), n);
    RavelReshape(pi[..n * n], n);
    assert pi[..n * n] + [pi[n * n]] == pi;
  }

  /** Entry 2 * (i - 1) + t of the list is turn i, flipped exactly for t == 0. */
  lemma SymmetrySlot(i: int, t: int)
    requires 1 <= i && 0 <= t < 2
    ensures (2 * (i - 1) + t) / 2 + 1 == i
    ensures (2 * (i - 1) + t) % 2 == 0 <==> t == 0
  {
  }

  /**
   * getSymmetries: for turns 1..4 and flip in [True, False], the rotated (and flipped)
   * board with the matching policy; eight pairs, the last being the input itself.
   */
  method GetSymmetries(n: nat, board: Board, pi: seq<real>) returns (l: seq<(Board, seq<real>)>)
    requires 1 <= n && IsSquare(board, n) && |pi| == n * n + 1
    ensures |l| == 8
    ensures forall k | 0 <= k < 8 :: l[k] == Symmetry(n, board, pi, k / 2 + 1, k % 2 == 0)
    ensures forall k | 0 <= k < 8 ::
      IsSquare(l[k].0, n) && |l[k].1| == ActionSize(n) && l[k].1[n * n] == pi[n * n]
    ensures ValidBoard(n, board) ==> forall k | 0 <= k < 8 :: ValidBoard(n, l[k].0)
    ensures l[7] == (board, pi)
  {
    var piBoard := Reshape(pi[..n * n], n);
    l := [];
    for i := 1 to 5
      invariant |l| == 2 * (i - 1)
      invariant forall k | 0 <= k < |l| :: l[k] == Symmetry(n, board, pi, k / 2 + 1, k % 2 == 0)
    {
      var flips := [true, false];
      for t := 0 to 2
        invariant |l| == 2 * (i - 1) + t
        invariant forall k | 0 <= k < |l| :: l[k] == Symmetry(n, board, pi, k / 2 + 1, k % 2 == 0)
      {
        var newB := Rot(board, n, i);
        var newPi := Rot(piBoard, n, i);
        if flips[t] {
          newB := FlipLR(newB, n);
          newPi := FlipLR(newPi, n);
        }
        SymmetrySlot(i, t);
        l := l + [(newB, Ravel(newPi, n) + [pi[n * n]])];
      }
    }
    forall k | 0 <= k < 8
      ensures IsSquare(l[k].0, n) && |l[k].1| == ActionSize(n) && l[k].1[n * n] == pi[n * n]
      ensures ValidBoard(n, board) ==> ValidBoard(n, l[k].0)
    {
      SymmetryShape(n, board, pi, k / 2 + 1, k % 2 == 0);
    }
    SymmetryIdentity(n, board, pi);
  }
}
