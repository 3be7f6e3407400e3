/**
 * The vertex lattice of an H x W Slitherlink grid and the segments between
 * neighbouring vertices (slitherlink.py builds segments as pairs of (row, col)
 * tuples, the smaller tuple first).
 */
module Lattice {

  /** A lattice vertex: a (row, col) tuple. */
  datatype Point = Point(row: int, col: int)

  /** A segment key: the tuple (segment[0], segment[1]). */
  datatype Seg = Seg(p: Point, q: Point)

  /** `sommet in segment`: v is one of the two endpoints of s. */
  predicate Has(s: Seg, v: Point)
  {
    s.p == v || s.q == v
  }

  function RightOf(v: Point): Point
  {
    Point(v.row, v.col + 1)
  }

  function Below(v: Point): Point
  {
    Point(v.row + 1, v.col)
  }

  /**
   * The canonical key of a lattice edge: its endpoints differ by one in exactly
   * one coordinate and the lexicographically smaller one comes first, that is,
   * the second endpoint is the right or the lower neighbour of the first.
   */
  predicate WellFormed(s: Seg)
  {
    s.q == RightOf(s.p) || s.q == Below(s.p)
  }

  predicate PointIn(v: Point, h: int, w: int)
  {
    0 <= v.row <= h && 0 <= v.col <= w
  }

  /** A canonical edge of the (h+1) x (w+1) vertex lattice. */
  predicate InLattice(s: Seg, h: int, w: int)
  {
    WellFormed(s) && PointIn(s.p, h, w) && PointIn(s.q, h, w)
  }

  /** The horizontal edge leaving vertex (i, j) to the right. */
  function Across(i: int, j: int): Seg
  {
    Seg(Point(i, j), RightOf(Point(i, j)))
  }

  /** The vertical edge leaving vertex (i, j) downwards. */
  function Down(i: int, j: int): Seg
  {
    Seg(Point(i, j), Below(Point(i, j)))
  }

  /** Every canonical edge of the lattice, as a finite set. */
  function LatticeEdges(h: nat, w: nat): (r: set<Seg>)
    ensures forall s :: s in r <==> InLattice(s, h, w)
  {
    var across := set i, j | 0 <= i <= h && 0 <= j < w :: Across(i, j);
    var down := set i, j | 0 <= i < h && 0 <= j <= w :: Down(i, j);
    assert forall s :: InLattice(s, h, w) ==> s in across + down by {
      forall s | InLattice(s, h, w) ensures s in across + down {
        if s.q == RightOf(s.p) {
          assert s == Across(s.p.row, s.p.col);
        } else {
          assert s == Down(s.p.row, s.p.col);
        }
      }
    }
    across + down
  }

  /** Two canonical keys with the same two endpoints are the same key. */
  lemma SameEndsSameSeg(a: Seg, b: Seg, x: Point, y: Point)
    requires WellFormed(a) && WellFormed(b) && x != y
    requires Has(a, x) && Has(a, y) && Has(b, x) && Has(b, y)
    ensures a == b
  {
  }

  /**
   * The four borders of cell (i, j) in the order statut_case lists them:
   * top, left, bottom, right.
   */
  function Borders(i: int, j: int): (r: seq<Seg>)
    ensures |r| == 4
    ensures forall k :: 0 <= k < 4 ==> WellFormed(r[k])
    ensures forall k, l :: 0 <= k < l < 4 ==> r[k] != r[l]
  {
    [Seg(Point(i, j), Point(i, j + 1)), Seg(Point(i, j), Point(i + 1, j)),
     Seg(Point(i + 1, j), Point(i + 1, j + 1)), Seg(Point(i, j + 1), Point(i + 1, j + 1))]
  }

  /** The four corners of cell (i, j) in the order selectionne_sommet tries them. */
  function Corners(i: int, j: int): (r: seq<Point>)
    ensures |r| == 4 && r[0] == Point(i, j)
    ensures forall a, b :: 0 <= a < b < 4 ==> r[a] != r[b]
    ensures forall v :: v in r <==> i <= v.row <= i + 1 && j <= v.col <= j + 1
  {
    [Point(i, j), Point(i, j + 1), Point(i + 1, j), Point(i + 1, j + 1)]
  }
}
