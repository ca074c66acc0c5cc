/**
 The playing field of the snake game: a fixed 20 x 20 grid whose edges wrap
 around (a torus), the four movement directions, and the one-cell step that
 advances a position in a direction.
 */
module Grid {

  /** Number of cells along each side of the square grid. */
  const GridSize: int := 20

  /** A cell coordinate. Nothing in the type keeps it on the grid; see InBounds. */
  datatype Pos = Pos(x: int, y: int)

  datatype Dir = Up | Down | Left | Right

  predicate InBounds(p: Pos) {
    0 <= p.x < GridSize && 0 <= p.y < GridSize
  }

  /** A coordinate on the grid, as produced by the random food source. */
  type Cell = p: Pos | InBounds(p) witness Pos(0, 0)

  /** The direction that would take the snake straight back where it came from. */
  function Opposite(d: Dir): (r: Dir)
    ensures r != d
    ensures d == Up <==> r == Down
    ensures d == Down <==> r == Up
    ensures d == Left <==> r == Right
    ensures d == Right <==> r == Left
  {
    match d
    case Up => Down
    case Down => Up
    case Left => Right
    case Right => Left
  }

  /** The remainder of JavaScript's `a % GRID_SIZE` on integers: the quotient
      is truncated toward zero, so the remainder carries the sign of the
      dividend. On a non-negative dividend it agrees with Dafny's Euclidean `%`. */
  function JsRem(a: int): (r: int)
    ensures -GridSize < r < GridSize
    ensures a >= 0 ==> r == a % GridSize
    ensures a < 0 ==> r <= 0
    ensures (a - r) % GridSize == 0
  {
    if a >= 0 then a % GridSize else -((-a) % GridSize)
  }

  /** The head's next cell: one step in direction d, wrapping around on the
      moving axis only. */
  function Step(p: Pos, d: Dir): (q: Pos)
    ensures (d == Up || d == Down) ==> q.x == p.x
    ensures (d == Left || d == Right) ==> q.y == p.y
    ensures InBounds(p) ==> InBounds(q)
    ensures InBounds(p) && d == Up ==> (p.y - q.y) % GridSize == 1
    ensures InBounds(p) && d == Down ==> (q.y - p.y) % GridSize == 1
    ensures InBounds(p) && d == Left ==> (p.x - q.x) % GridSize == 1
    ensures InBounds(p) && d == Right ==> (q.x - p.x) % GridSize == 1
  {
    match d
    case Up => Pos(p.x, JsRem(p.y - 1 + GridSize))
    case Down => Pos(p.x, JsRem(p.y + 1))
    case Left => Pos(JsRem(p.x - 1 + GridSize), p.y)
    case Right => Pos(JsRem(p.x + 1), p.y)
  }

  /** Leaving the grid over an edge re-enters it on the opposite edge. */
  lemma StepWrapsAtEdges(x: int, y: int)
    requires 0 <= x < GridSize && 0 <= y < GridSize
    ensures Step(Pos(GridSize - 1, y), Right) == Pos(0, y)
    ensures Step(Pos(0, y), Left) == Pos(GridSize - 1, y)
    ensures Step(Pos(x, 0), Up) == Pos(x, GridSize - 1)
    ensures Step(Pos(x, GridSize - 1), Down) == Pos(x, 0)
  {
  }

  /** Away from the edges a step is a plain unit move. */
  lemma StepInterior(p: Pos, d: Dir)
    requires 0 < p.x < GridSize - 1 && 0 < p.y < GridSize - 1
    ensures Step(p, d) == match d
                          case Up => Pos(p.x, p.y - 1)
                          case Down => Pos(p.x, p.y + 1)
                          case Left => Pos(p.x - 1, p.y)
                          case Right => Pos(p.x + 1, p.y)
  {
  }

  /** Stepping back in the opposite direction undoes a step. */
  lemma StepInverse(p: Pos, d: Dir)
    requires InBounds(p)
    ensures Step(Step(p, d), Opposite(d)) == p
  {
    var q := Step(p, d);
    match d
    case Up => assert q.y == if p.y == 0 then GridSize - 1 else p.y - 1;
    case Down => assert q.y == if p.y == GridSize - 1 then 0 else p.y + 1;
    case Left => assert q.x == if p.x == 0 then GridSize - 1 else p.x - 1;
    case Right => assert q.x == if p.x == GridSize - 1 then 0 else p.x + 1;
  }

  /** A step always leaves the cell it started from. */
  lemma StepLeaves(p: Pos, d: Dir)
    requires InBounds(p)
    ensures Step(p, d) != p
  {
  }
}
