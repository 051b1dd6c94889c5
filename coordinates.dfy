/** Grid positions of the sliding puzzle and the pure queries on them.
    A coordinate is a plain pair of integers: the direction getters step off
    the board without complaint (x = -1 is a perfectly good coordinate), and
    bounds are the caller's business. */
module Coordinates {

  datatype Coord = Coord(x: int, y: int)

  function Abs(n: int): nat {
    if n < 0 then -n else n
  }

  /** Manhattan distance: the reference notion of adjacency on a grid. */
  function Distance(a: Coord, b: Coord): nat {
    Abs(a.x - b.x) + Abs(a.y - b.y)
  }

  /** areNeigbours: one axis equal, the other off by exactly one. */
  function AreNeighbours(a: Coord, b: Coord): (r: bool)
    ensures r <==> Distance(a, b) == 1
  {
    if a.x == b.x then
      Abs(a.y - b.y) == 1
    else if a.y == b.y then
      Abs(a.x - b.x) == 1
    else
      false
  }

  /** areEqual: field-wise comparison, which is value equality of coordinates. */
  function AreEqual(a: Coord, b: Coord): (r: bool)
    ensures r <==> a == b
  {
    a.x == b.x && a.y == b.y
  }

  function Left(c: Coord): Coord { Coord(c.x - 1, c.y) }

  function Right(c: Coord): Coord { Coord(c.x + 1, c.y) }

  function Top(c: Coord): Coord { Coord(c.x, c.y - 1) }

  function Bottom(c: Coord): Coord { Coord(c.x, c.y + 1) }

  /** The four direction getters applied to `c`, in the order the candidate
      search lists them. */
  function Adjacent(c: Coord): seq<Coord> {
    [Left(c), Right(c), Top(c), Bottom(c)]
  }

  lemma NeighboursSymmetric(a: Coord, b: Coord)
    ensures AreNeighbours(a, b) == AreNeighbours(b, a)
  {
  }

  lemma NeighboursIrreflexive(a: Coord)
    ensures !AreNeighbours(a, a)
  {
  }

  /** A diagonal step (one unit on both axes) never yields a neighbour. */
  lemma DiagonalsAreNotNeighbours(a: Coord, dx: int, dy: int)
    requires Abs(dx) == 1 && Abs(dy) == 1
    ensures !AreNeighbours(a, Coord(a.x + dx, a.y + dy))
  {
  }

  /** The neighbours of `c` are exactly the four coordinates the direction
      getters produce, and those four are pairwise different. */
  lemma NeighboursAreAdjacent(c: Coord, d: Coord)
    ensures AreNeighbours(c, d) <==> d in Adjacent(c)
    ensures |Adjacent(c)| == 4
    ensures forall i, j :: 0 <= i < j < 4 ==> Adjacent(c)[i] != Adjacent(c)[j]
  {
    if AreNeighbours(c, d) {
      if d.x == c.x {
        assert d == Top(c) || d == Bottom(c);
      } else {
        assert d == Left(c) || d == Right(c);
      }
    }
  }

  /** Left undoes Right and Top undoes Bottom, in either order. */
  lemma OppositeDirectionsCancel(c: Coord)
    ensures Left(Right(c)) == c && Right(Left(c)) == c
    ensures Top(Bottom(c)) == c && Bottom(Top(c)) == c
  {
  }

  /** Whether x + y is even: the colour of the cell on a chessboard. */
  predicate EvenCell(c: Coord) {
    (c.x + c.y) % 2 == 0
  }

  /** Every step to a neighbour changes the colour of the cell. */
  lemma NeighbourFlipsParity(a: Coord, b: Coord)
    requires AreNeighbours(a, b)
    ensures EvenCell(a) != EvenCell(b)
  {
    var d := (b.x + b.y) - (a.x + a.y);
    assert d == 1 || d == -1;
  }
}
