/**
 * The board rules that the game model queries. game/TicTacToeLogic.py is not part
 * of this model; this module stands in for it with the usual n-in-a-row rules:
 *   - a legal move is an empty cell inside the grid;
 *   - executing a move writes the mover's piece into that one cell and nothing else;
 *   - `HasLegalMoves` holds exactly when some legal move exists;
 *   - a win is a full row, column or diagonal (`IsWin`, which has no contract).
 * The rest of the project depends on these concrete definitions, not only on the
 * contracts: TicTacToeGame.CanonicalWin unfolds `IsWin`,
 * TicTacToeGame.CanonicalKeepsEmptyCells unfolds `LegalMoves` and `ExecuteMove`, and
 * `ExecuteLegalMove`, on which the termination of backup.py's playout and rollout
 * loop rests, unfolds them too.
 */
module TicTacToeLogic {

  /** An n-by-n grid of pieces, indexed `b[x][y]`: 1 and -1 for the two players, 0 for an empty cell. */
  type Board = seq<seq<int>>

  /** The two players; play alternates by negation. */
  type Player = p: int | p == 1 || p == -1 witness 1

  /** The other player: the source negates the player number. */
  function Opponent(p: Player): (q: Player)
    ensures q == -(p as int) && q != p
  {
    -(p as int)
  }

  /** The pieces a cell may hold. */
  predicate IsPiece(v: int) {
    v == -1 || v == 0 || v == 1
  }

  predicate InRange(n: nat, x: int, y: int) {
    0 <= x < n && 0 <= y < n
  }

  /** `b` is an n-by-n grid over {-1, 0, 1}. */
  predicate ValidBoard(n: nat, b: Board) {
    && |b| == n
    && (forall x | 0 <= x < n :: |b[x]| == n)
    && (forall x, y | 0 <= x < n && 0 <= y < n :: IsPiece(b[x][y]))
  }

  /** The legal moves: every empty cell, as a set of (x, y) pairs. */
  function LegalMoves(n: nat, b: Board): (moves: set<(int, int)>)
    requires ValidBoard(n, b)
    ensures forall m :: m in moves <==> InRange(n, m.0, m.1) && b[m.0][m.1] == 0
  {
    set x, y | 0 <= x < n && 0 <= y < n && b[x][y] == 0 :: (x, y)
  }

  /** Some cell is still empty. */
  predicate HasLegalMoves(n: nat, b: Board)
    requires ValidBoard(n, b)
  {
    exists x, y | 0 <= x < n && 0 <= y < n :: b[x][y] == 0
  }

  lemma HasLegalMovesIff(n: nat, b: Board)
    requires ValidBoard(n, b)
    ensures HasLegalMoves(n, b) <==> LegalMoves(n, b) != {}
  {
    if HasLegalMoves(n, b) {
      var x, y :| 0 <= x < n && 0 <= y < n && b[x][y] == 0;
      assert (x, y) in LegalMoves(n, b);
    }
  }

  /** Writes `color` into the cell `move`; every other cell keeps its piece. */
  function ExecuteMove(n: nat, b: Board, move: (int, int), color: Player): (r: Board)
    requires ValidBoard(n, b) && InRange(n, move.0, move.1)
    ensures ValidBoard(n, r)
    ensures r[move.0][move.1] == color
    ensures forall x, y | InRange(n, x, y) && (x, y) != move :: r[x][y] == b[x][y]
  {
    b[move.0 := b[move.0][move.1 := color]]
  }

  /** Playing a legal move removes exactly that move from the legal moves, so a game cannot go on forever. */
  lemma ExecuteLegalMove(n: nat, b: Board, move: (int, int), color: Player)
    requires ValidBoard(n, b) && move in LegalMoves(n, b)
    ensures LegalMoves(n, ExecuteMove(n, b, move, color)) == LegalMoves(n, b) - {move}
    ensures |LegalMoves(n, ExecuteMove(n, b, move, color))| < |LegalMoves(n, b)|
  {
    var r := ExecuteMove(n, b, move, color);
    assert LegalMoves(n, r) == LegalMoves(n, b) - {move};
  }

  predicate RowFilled(n: nat, b: Board, x: int, c: int)
    requires ValidBoard(n, b) && 0 <= x < n
  {
    forall y | 0 <= y < n :: b[x][y] == c
  }

  predicate ColumnFilled(n: nat, b: Board, y: int, c: int)
    requires ValidBoard(n, b) && 0 <= y < n
  {
    forall x | 0 <= x < n :: b[x][y] == c
  }

  predicate DiagonalFilled(n: nat, b: Board, c: int)
    requires ValidBoard(n, b)
  {
    forall d | 0 <= d < n :: b[d][d] == c
  }

  predicate AntiDiagonalFilled(n: nat, b: Board, c: int)
    requires ValidBoard(n, b)
  {
    forall d | 0 <= d < n :: b[d][n - 1 - d] == c
  }

  /** `c` holds a whole row, column or diagonal. */
  predicate IsWin(n: nat, b: Board, c: int)
    requires ValidBoard(n, b)
  {
    || (exists x | 0 <= x < n :: RowFilled(n, b, x, c))
    || (exists y | 0 <= y < n :: ColumnFilled(n, b, y, c))
    || DiagonalFilled(n, b, c)
    || AntiDiagonalFilled(n, b, c)
  }
}
