/**
 Grid geometry: integer cells, their 4-, diagonal- and 8-neighbourhoods, and the
 crossing-parity point-in-polygon test (helpers.py).
 */
module Geometry {

  datatype Point = Point(x: int, y: int)

  function Abs(n: int): nat
  {
    if n < 0 then -n else n
  }

  /** Cells one orthogonal step apart. */
  predicate OrthogonalStep(p: Point, q: Point)
  {
    Abs(q.x - p.x) + Abs(q.y - p.y) == 1
  }

  /** Cells one diagonal step apart. */
  predicate DiagonalStep(p: Point, q: Point)
  {
    Abs(q.x - p.x) == 1 && Abs(q.y - p.y) == 1
  }

  /** Chebyshev (king-move) distance. */
  function Chebyshev(p: Point, q: Point): nat
  {
    var dx := Abs(q.x - p.x);
    var dy := Abs(q.y - p.y);
    if dx < dy then dy else dx
  }

  predicate Distinct<T(==)>(s: seq<T>)
  {
    forall i, j | 0 <= i < j < |s| :: s[i] != s[j]
  }

  /** The four diagonal neighbours, in the order the game lists them. */
  function DiagonalNeighbours(p: Point): (r: seq<Point>)
    ensures |r| == 4 && Distinct(r)
    ensures forall q :: q in r <==> DiagonalStep(p, q)
  {
    var r := [Point(p.x + 1, p.y + 1), Point(p.x - 1, p.y + 1),
              Point(p.x + 1, p.y - 1), Point(p.x - 1, p.y - 1)];
    assert forall q | DiagonalStep(p, q) :: q in r by {
      forall q | DiagonalStep(p, q) ensures q in r {
        if q.x == p.x + 1 && q.y == p.y + 1 { assert q == r[0]; }
        else if q.x == p.x - 1 && q.y == p.y + 1 { assert q == r[1]; }
        else if q.x == p.x + 1 { assert q == r[2]; }
        else { assert q == r[3]; }
      }
    }
    r
  }

  /** The four orthogonal neighbours, in the order the game lists them. */
  function VertHorizNeighbours(p: Point): (r: seq<Point>)
    ensures |r| == 4 && Distinct(r)
    ensures forall q :: q in r <==> OrthogonalStep(p, q)
  {
    var r := [Point(p.x, p.y + 1), Point(p.x - 1, p.y),
              Point(p.x, p.y - 1), Point(p.x + 1, p.y)];
    assert forall q | OrthogonalStep(p, q) :: q in r by {
      forall q | OrthogonalStep(p, q) ensures q in r {
        if q.x == p.x && q.y == p.y + 1 { assert q == r[0]; }
        else if q.x == p.x - 1 { assert q == r[1]; }
        else if q.x == p.x { assert q == r[2]; }
        else { assert q == r[3]; }
      }
    }
    r
  }

  /** The eight neighbours: the orthogonal four followed by the diagonal four. */
  function Neighbours(p: Point): (r: seq<Point>)
    ensures |r| == 8 && Distinct(r)
    ensures forall q :: q in r <==> Chebyshev(p, q) == 1
    ensures p !in r
  {
    var o := VertHorizNeighbours(p);
    var d := DiagonalNeighbours(p);
    assert forall i, j | 0 <= i < 4 && 0 <= j < 4 :: o[i] != d[j] by {
      forall i, j | 0 <= i < 4 && 0 <= j < 4 ensures o[i] != d[j] {
        assert o[i] in o && d[j] in d;
      }
    }
    o + d
  }

  /** The 8-neighbour relation is symmetric. */
  lemma NeighboursSymmetric(p: Point, q: Point)
    ensures q in Neighbours(p) <==> p in Neighbours(q)
  {
  }

  // ---------------------------------------------------------------------------
  // Point in polygon

  /**
   Edge `i` of the closed polygon `poly` joins vertex `i - 1` to vertex `i`; edge 0
   wraps round to the last vertex (Python's `poly[-1]`).
   */
  function Edge(poly: seq<Point>, i: nat): (e: (Point, Point))
    requires i < |poly|
    ensures e.1 == poly[i]
    ensures e.0 == poly[if i == 0 then |poly| - 1 else i - 1]
  {
    (poly[if i == 0 then |poly| - 1 else i - 1], poly[i])
  }

  function Edges(poly: seq<Point>): (es: seq<(Point, Point)>)
    ensures |es| == |poly|
  {
    seq(|poly|, i requires 0 <= i < |poly| => Edge(poly, i))
  }

  /** The half-open test: `y` lies in `[b.y, a.y)` or in `[a.y, b.y)`. */
  predicate Straddles(a: Point, b: Point, y: int)
  {
    (b.y <= y < a.y) || (a.y <= y < b.y)
  }

  /** The x-coordinate where the edge from `a` to `b` meets the horizontal line at `y`. */
  function CrossX(a: Point, b: Point, y: int): real
    requires a.y != b.y
  {
    ((a.x - b.x) * (y - b.y)) as real / (a.y - b.y) as real + b.x as real
  }

  /**
   Whether the edge toggles the parity for `p`. The edge must straddle `p.y` before the
   division is evaluated, so a horizontal edge never toggles and never divides by zero.
   */
  predicate Crosses(p: Point, e: (Point, Point))
    ensures Crosses(p, e) ==> e.0.y != e.1.y
  {
    Straddles(e.0, e.1, p.y) && p.x as real > CrossX(e.0, e.1, p.y)
  }

  /** The parity of the number of edges of `es` that `p` crosses, folded left to right. */
  function Parity(p: Point, es: seq<(Point, Point)>): bool
  {
    if |es| == 0 then false
    else Parity(p, es[..|es| - 1]) != Crosses(p, es[|es| - 1])
  }

  function InPolygon(p: Point, poly: seq<Point>): bool
  {
    Parity(p, Edges(poly))
  }

  /** The crossing-parity test, one edge per loop iteration as the game runs it. */
  method InPolygonScan(p: Point, poly: seq<Point>) returns (inside: bool)
    ensures inside == InPolygon(p, poly)
    ensures |poly| == 0 ==> !inside
  {
    inside := false;
    var i := 0;
    while i < |poly|
      invariant 0 <= i <= |poly|
      invariant inside == Parity(p, Edges(poly)[..i])
    {
      var a := poly[if i == 0 then |poly| - 1 else i - 1];
      var b := poly[i];
      if Straddles(a, b, p.y) && p.x as real > CrossX(a, b, p.y) {
        inside := !inside;
      }
      assert Edges(poly)[..i + 1][..i] == Edges(poly)[..i];
      i := i + 1;
    }
    assert Edges(poly)[..|poly|] == Edges(poly);
  }

  lemma {:induction false} ParityAppend(p: Point, a: seq<(Point, Point)>, b: seq<(Point, Point)>)
    ensures Parity(p, a + b) == (Parity(p, a) != Parity(p, b))
    decreases |b|
  {
    if |b| == 0 {
      assert a + b == a;
    } else {
      var b' := b[..|b| - 1];
      assert (a + b)[..|a + b| - 1] == a + b';
      ParityAppend(p, a, b');
    }
  }

  /** Rotating the vertex list one place left. */
  function Rotate<T>(s: seq<T>): (r: seq<T>)
    ensures |r| == |s|
  {
    if |s| == 0 then s else s[1..] + [s[0]]
  }

  /**
   The polygon is closed: starting the vertex list at a different vertex does not
   change the answer, because the wrap-around edge is one of its edges.
   */
  lemma InPolygonRotate(p: Point, poly: seq<Point>)
    ensures InPolygon(p, Rotate(poly)) == InPolygon(p, poly)
  {
    if |poly| > 0 {
      var es := Edges(poly);
      var es' := Edges(Rotate(poly));
      assert es' == es[1..] + [es[0]] by {
        forall i | 0 <= i < |poly|
          ensures es'[i] == (es[1..] + [es[0]])[i]
        {
          if |poly| == 1 {
          } else if i == |poly| - 1 {
            assert es'[i] == Edge(poly, 0);
          } else {
            assert es'[i] == Edge(poly, i + 1);
          }
        }
      }
      ParityAppend(p, es[1..], [es[0]]);
      ParityAppend(p, [es[0]], es[1..]);
      assert [es[0]] + es[1..] == es;
    }
  }

}
