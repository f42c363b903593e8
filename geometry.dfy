/** Distances and neighbourhoods on the N x N grid (the pure parts of world.py). */
module Geometry {

  function Abs(a: int): nat {
    if a < 0 then -a else a
  }

  /**
   * `manhattan_distance`: zero exactly on the same cell, and between the
   * king-move distance and twice it.
   */
  function Manhattan(x1: int, y1: int, x2: int, y2: int): (d: nat)
    ensures d == 0 <==> (x1, y1) == (x2, y2)
    ensures Chebyshev(x1, y1, x2, y2) <= d <= 2 * Chebyshev(x1, y1, x2, y2)
  {
    Abs(x1 - x2) + Abs(y1 - y2)
  }

  /** The king-move distance: neighbours are the cells at distance exactly one. */
  function Chebyshev(x1: int, y1: int, x2: int, y2: int): nat {
    var dx := Abs(x1 - x2);
    var dy := Abs(y1 - y2);
    if dx < dy then dy else dx
  }

  /** The direction `move_towards` steps in along one axis. */
  function Sign(a: int): int {
    if a > 0 then 1 else if a < 0 then -1 else 0
  }

  predicate InGrid(size: nat, p: (int, int)) {
    0 <= p.0 < size && 0 <= p.1 < size
  }

  /** The cells `get_neighbors(x, y)` lists: inside the grid, one king move away. */
  predicate IsNeighbor(size: nat, x: int, y: int, p: (int, int)) {
    InGrid(size, p) && Chebyshev(x, y, p.0, p.1) == 1
  }

  /** Row-major order: the order the engine's nested loops visit cells in. */
  predicate Before(p: (int, int), q: (int, int)) {
    p.0 < q.0 || (p.0 == q.0 && p.1 < q.1)
  }

  /**
   * The cell one step from `(cx, cy)` towards `(tx, ty)`, diagonal moves
   * allowed: at most one king move, standing still only on the target, and
   * never further from the target along either axis.
   */
  function StepTowards(cx: int, cy: int, tx: int, ty: int): (r: (int, int))
    ensures Chebyshev(cx, cy, r.0, r.1) <= 1
    ensures r == (cx, cy) <==> (cx, cy) == (tx, ty)
    ensures Abs(r.0 - tx) <= Abs(cx - tx) && Abs(r.1 - ty) <= Abs(cy - ty)
  {
    (cx + Sign(tx - cx), cy + Sign(ty - cy))
  }

  /**
   * A step towards a different cell is one king move, and it brings the
   * mover strictly closer to the target in both the king-move and the
   * Manhattan distance.
   */
  lemma StepApproaches(cx: int, cy: int, tx: int, ty: int)
    requires (cx, cy) != (tx, ty)
    ensures var s := StepTowards(cx, cy, tx, ty);
            && Chebyshev(cx, cy, s.0, s.1) == 1
            && Chebyshev(s.0, s.1, tx, ty) == Chebyshev(cx, cy, tx, ty) - 1
            && Manhattan(s.0, s.1, tx, ty) < Manhattan(cx, cy, tx, ty)
  {
  }
}
