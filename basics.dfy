/** Shared vocabulary: optional values, grid coordinates, the eight compass
    directions a cell can face, rotations and clamping. */
module Basics {

  datatype Option<T> = None | Some(value: T)

  /** A tile of the grid, used as a key of the occupancy map. */
  type Coord = (int, int)

  /** The direction table of the cell class: index 0 is north-west and the
      indices run clockwise. */
  const Directions: seq<(int, int)> :=
    [(-1, -1), (0, -1), (1, -1), (1, 0), (1, 1), (0, 1), (-1, 1), (-1, 0)]

  predicate IsOrientation(o: int) { 0 <= o <= 7 }

  /** The tile next to `c` in direction `k`. */
  function Neighbour(c: Coord, k: int): (n: Coord)
    requires IsOrientation(k)
    ensures n != c
    ensures -1 <= n.0 - c.0 <= 1 && -1 <= n.1 - c.1 <= 1
  {
    (c.0 + Directions[k].0, c.1 + Directions[k].1)
  }

  /** The eight directions are pairwise distinct unit offsets, so the eight
      neighbours of a tile are eight different tiles. */
  lemma NeighboursDistinct(c: Coord, i: int, j: int)
    requires IsOrientation(i) && IsOrientation(j) && i != j
    ensures Neighbour(c, i) != Neighbour(c, j)
  {
  }

  /** Opcode "clockwise": one step clockwise, 7 wraps to 0. */
  function Clockwise(o: int): (r: int)
    ensures IsOrientation(o) ==> IsOrientation(r) && r == (o + 1) % 8
  {
    if o + 1 > 7 then 0 else o + 1
  }

  /** Opcode "counter-clockwise": one step back, 0 wraps to 7. */
  function Cclockwise(o: int): (r: int)
    ensures IsOrientation(o) ==> IsOrientation(r) && r == (o + 7) % 8
  {
    if o - 1 < 0 then 7 else o - 1
  }

  /** The two rotations undo each other on every orientation. */
  lemma RotationsInverse(o: int)
    requires IsOrientation(o)
    ensures Cclockwise(Clockwise(o)) == o && Clockwise(Cclockwise(o)) == o
  {
  }

  /** Clamp a colour channel into [0, 255]. */
  function ClampChannel(v: int): (r: int)
    ensures 0 <= r <= 255
    ensures 0 <= v <= 255 ==> r == v
    ensures v > 255 ==> r == 255
    ensures v < 0 ==> r == 0
  {
    if v > 255 then 255 else if v < 0 then 0 else v
  }

  function Min(a: int, b: int): (r: int)
    ensures r <= a && r <= b && (r == a || r == b)
  {
    if a < b then a else b
  }
}
