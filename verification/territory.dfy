/**
 One player's territory (game_objects/territory.py): the set of owned cells, its
 8-neighbour boundary, the graph walked along that boundary, the voids closed between a
 trail and the boundary, and the scan fill that proposes the cells inside them.
 */
module Territories {

  import opened Wrappers
  import opened Geometry
  import opened Settings

  datatype Territory = Territory(color: seq<int>, points: set<Point>, changed: bool)

  function ToSet(s: seq<Point>): (r: set<Point>)
    ensures forall q :: q in r <==> q in s
  {
    set q | q in s
  }

  lemma {:induction false} DistinctToSetSize(s: seq<Point>)
    requires Distinct(s)
    ensures |ToSet(s)| == |s|
  {
    if |s| > 0 {
      DistinctToSetSize(s[1..]);
      assert ToSet(s) == {s[0]} + ToSet(s[1..]);
      assert s[0] !in ToSet(s[1..]);
    }
  }

  /** A new territory is the 3×3 block centred on the spawn cell. */
  function NewTerritory(x: int, y: int, color: seq<int>): (t: Territory)
    ensures t.color == color && t.changed
    ensures forall q :: q in t.points <==> Chebyshev(Point(x, y), q) <= 1
    ensures |t.points| == 9
  {
    var c := Point(x, y);
    var ns := Neighbours(c);
    DistinctToSetSize(ns);
    assert forall q | Chebyshev(c, q) == 0 :: q == c;
    Territory(color, {c} + ToSet(ns), true)
  }

  // ---------------------------------------------------------------------------
  // Boundary and boundary graph

  /** The owned cells with at least one unowned 8-neighbour. */
  function Boundary(points: set<Point>): (b: set<Point>)
    ensures b <= points
    ensures forall q :: q in b <==> q in points && exists n :: Chebyshev(q, n) == 1 && n !in points
  {
    set q | q in points && exists n | n in Neighbours(q) :: n !in points
  }

  /** An owned cell off the boundary is surrounded by owned cells. */
  lemma InteriorSurrounded(points: set<Point>, q: Point, n: Point)
    requires q in points && q !in Boundary(points)
    requires Chebyshev(q, n) == 1
    ensures n in points
  {
  }

  /** An edge of the boundary graph joins two boundary cells that are 8-neighbours. */
  predicate GraphEdge(b: set<Point>, p: Point, q: Point)
  {
    p in b && q in b && q in Neighbours(p)
  }

  /** The boundary graph is undirected and has no self-loops. */
  lemma GraphEdgeSymmetric(b: set<Point>, p: Point, q: Point)
    ensures GraphEdge(b, p, q) <==> GraphEdge(b, q, p)
    ensures !GraphEdge(b, p, p)
  {
    NeighboursSymmetric(p, q);
  }

  /** A walk along the boundary graph. */
  predicate IsWalk(b: set<Point>, w: seq<Point>)
  {
    && (forall k | 0 <= k < |w| :: w[k] in b)
    && (forall k | 0 <= k < |w| - 1 :: GraphEdge(b, w[k], w[k + 1]))
  }

  /**
   The shortest-path search of the graph library, as a parameter: given the boundary
   and two of its cells it returns a path between them or fails.
   */
  type PathFinder = (set<Point>, Point, Point) -> Option<seq<Point>>

  /** What the search promises on boundary `b`: a simple walk from `s` to `t`, when it succeeds. */
  ghost predicate ValidFinderOn(f: PathFinder, b: set<Point>)
  {
    forall s, t :: f(b, s, t).Some? ==>
      var w := f(b, s, t).value;
      && |w| > 0 && w[0] == s && w[|w| - 1] == t
      && IsWalk(b, w) && Distinct(w)
  }

  /** Two cells are siblings when they are orthogonal neighbours. */
  function IsSiblings(p1: Point, p2: Point): (r: bool)
    ensures r <==> OrthogonalStep(p1, p2)
  {
    p2 in VertHorizNeighbours(p1)
  }

  /** The elements of `s` that lie in `b`, in order. */
  function KeepIn(s: seq<Point>, b: set<Point>): (r: seq<Point>)
    ensures forall q :: q in r <==> q in s && q in b
  {
    if |s| == 0 then [] else (if s[0] in b then [s[0]] else []) + KeepIn(s[1..], b)
  }

  /** The boundary cells among `p` and its eight neighbours, `p` first. */
  function StartPoints(p: Point, b: set<Point>): (r: seq<Point>)
    ensures forall q :: q in r <==> q in b && Chebyshev(p, q) <= 1
  {
    assert forall q | Chebyshev(p, q) == 0 :: q == p;
    KeepIn([p] + Neighbours(p), b)
  }

  /** The first index of `x` in `s` (Python's `list.index`). */
  function IndexOf(s: seq<Point>, x: Point): (k: nat)
    requires x in s
    ensures k < |s| && s[k] == x
    ensures forall m | 0 <= m < k :: s[m] != x
  {
    if s[0] == x then 0 else 1 + IndexOf(s[1..], x)
  }

  // ---------------------------------------------------------------------------
  // Voids between the trail and the territory

  /** The state threaded through the inner loops: voids so far and the previous start point. */
  datatype Scan = Scan(voids: seq<seq<Point>>, prev: Option<Point>)

  /** A path whose two ends coincide loses its first node. */
  function TrimLoop(path: seq<Point>): seq<Point>
  {
    if |path| > 1 && path[0] == path[|path| - 1] then path[1..] else path
  }

  /**
   The loop over the start points of trail cell `line[j]`, for the void that closes at
   trail cell `line[i]` through its boundary neighbour `end`.
   */
  function VoidsFromStarts(b: set<Point>, f: PathFinder, line: seq<Point>, i: nat, end: Point,
                           j: nat, starts: seq<Point>, prev: Option<Point>): Scan
    requires j <= i < |line|
    decreases |starts|
  {
    if |starts| == 0 then Scan([], prev)
    else
      var s := starts[0];
      if prev.Some? && (IsSiblings(prev.value, s) || prev.value == s) then
        VoidsFromStarts(b, f, line, i, end, j, starts[1..], Some(s))
      else
        match f(b, end, s)
        case None => VoidsFromStarts(b, f, line, i, end, j, starts[1..], prev)
        case Some(path) =>
          var v := line[IndexOf(line, line[j])..i + 1] + TrimLoop(path);
          var rest := VoidsFromStarts(b, f, line, i, end, j, starts[1..], Some(s));
          Scan([v] + rest.voids, rest.prev)
  }

  /** The loop over trail cells `line[j..i]`, carrying the previous start point along. */
  function VoidsFromLine(b: set<Point>, f: PathFinder, line: seq<Point>, i: nat, end: Point,
                         j: nat, prev: Option<Point>): seq<seq<Point>>
    requires j <= i + 1 && i < |line|
    decreases i + 1 - j
  {
    if j > i then []
    else
      var sc := VoidsFromStarts(b, f, line, i, end, j, StartPoints(line[j], b), prev);
      sc.voids + VoidsFromLine(b, f, line, i, end, j + 1, sc.prev)
  }

  /** The loop over the neighbours of `line[i]` from the `k`-th on. */
  function VoidsFromNeighbours(b: set<Point>, f: PathFinder, line: seq<Point>, i: nat, k: nat)
    : seq<seq<Point>>
    requires i < |line| && k <= 8
    decreases 8 - k
  {
    if k == 8 then []
    else
      var n := Neighbours(line[i])[k];
      (if n in b then VoidsFromLine(b, f, line, i, n, 0, None) else [])
        + VoidsFromNeighbours(b, f, line, i, k + 1)
  }

  /** The outer loop over the trail from `line[i]` on. */
  function VoidsFrom(b: set<Point>, f: PathFinder, line: seq<Point>, i: nat): seq<seq<Point>>
    requires i <= |line|
    decreases |line| - i
  {
    if i == |line| then []
    else VoidsFromNeighbours(b, f, line, i, 0) + VoidsFrom(b, f, line, i + 1)
  }

  /** Every polygon closed between the trail and the boundary of `points`. */
  function Voids(points: set<Point>, line: seq<Point>, f: PathFinder): seq<seq<Point>>
  {
    VoidsFrom(Boundary(points), f, line, 0)
  }

  /**
   The boundary part of a void: a walk along the boundary that begins next to the trail
   cell `line[i]` where the void closes and ends within one cell of `line[k]` where it opens.
   */
  predicate ClosingWalk(b: set<Point>, line: seq<Point>, k: nat, i: nat, w: seq<Point>)
    requires k <= i < |line|
  {
    |w| > 0 && IsWalk(b, w) && Chebyshev(line[i], w[0]) == 1 && Chebyshev(line[k], w[|w| - 1]) <= 1
  }

  /** `v` is the trail slice `line[k..i]` followed, for a valid search, by a closing walk. */
  ghost predicate VoidShapeAt(b: set<Point>, f: PathFinder, line: seq<Point>, v: seq<Point>, k: nat, i: nat)
  {
    && k <= i < |line| && i + 1 - k <= |v|
    && v[..i + 1 - k] == line[k..i + 1]
    && (ValidFinderOn(f, b) ==> ClosingWalk(b, line, k, i, v[i + 1 - k..]))
  }

  ghost predicate VoidShape(b: set<Point>, f: PathFinder, line: seq<Point>, v: seq<Point>)
  {
    exists k: nat, i: nat :: VoidShapeAt(b, f, line, v, k, i)
  }

  /** Every void in `vs` has the shape above. */
  ghost predicate AllShaped(b: set<Point>, f: PathFinder, line: seq<Point>, vs: seq<seq<Point>>)
    decreases |vs|
  {
    |vs| == 0 || (VoidShape(b, f, line, vs[0]) && AllShaped(b, f, line, vs[1..]))
  }

  lemma {:induction false} AllShapedConcat(b: set<Point>, f: PathFinder, line: seq<Point>,
                                           xs: seq<seq<Point>>, ys: seq<seq<Point>>)
    requires AllShaped(b, f, line, xs) && AllShaped(b, f, line, ys)
    ensures AllShaped(b, f, line, xs + ys)
    decreases |xs|
  {
    if |xs| > 0 {
      AllShapedConcat(b, f, line, xs[1..], ys);
      assert (xs + ys)[1..] == xs[1..] + ys;
    } else {
      assert xs + ys == ys;
    }
  }

  lemma {:induction false} AllShapedMember(b: set<Point>, f: PathFinder, line: seq<Point>,
                                           vs: seq<seq<Point>>, v: seq<Point>)
    requires AllShaped(b, f, line, vs) && v in vs
    ensures VoidShape(b, f, line, v)
    decreases |vs|
  {
    if vs[0] != v {
      assert v in vs[1..];
      AllShapedMember(b, f, line, vs[1..], v);
    }
  }

  lemma {:induction false} VoidsFromStartsShape(b: set<Point>, f: PathFinder, line: seq<Point>, i: nat,
                                                end: Point, j: nat, starts: seq<Point>, prev: Option<Point>)
    requires j <= i < |line|
    requires Chebyshev(line[i], end) == 1
    requires forall s | s in starts :: Chebyshev(line[j], s) <= 1
    ensures AllShaped(b, f, line, VoidsFromStarts(b, f, line, i, end, j, starts, prev).voids)
    decreases |starts|
  {
    if |starts| > 0 {
      var s := starts[0];
      if prev.Some? && (IsSiblings(prev.value, s) || prev.value == s) {
        VoidsFromStartsShape(b, f, line, i, end, j, starts[1..], Some(s));
      } else if f(b, end, s).None? {
        VoidsFromStartsShape(b, f, line, i, end, j, starts[1..], prev);
      } else {
        VoidsFromStartsShape(b, f, line, i, end, j, starts[1..], Some(s));
        var path := f(b, end, s).value;
        var k := IndexOf(line, line[j]);
        var v := line[k..i + 1] + TrimLoop(path);
        assert v[..i + 1 - k] == line[k..i + 1];
        if ValidFinderOn(f, b) {
          assert TrimLoop(path) == path;
          assert v[i + 1 - k..] == path;
        }
        assert VoidShapeAt(b, f, line, v, k, i);
        var rest := VoidsFromStarts(b, f, line, i, end, j, starts[1..], Some(s));
        assert VoidsFromStarts(b, f, line, i, end, j, starts, prev).voids == [v] + rest.voids;
        AllShapedConcat(b, f, line, [v], rest.voids);
      }
    }
  }

  lemma {:induction false} VoidsFromLineShape(b: set<Point>, f: PathFinder, line: seq<Point>, i: nat,
                                              end: Point, j: nat, prev: Option<Point>)
    requires j <= i + 1 && i < |line|
    requires Chebyshev(line[i], end) == 1
    ensures AllShaped(b, f, line, VoidsFromLine(b, f, line, i, end, j, prev))
    decreases i + 1 - j
  {
    if j <= i {
      var sc := VoidsFromStarts(b, f, line, i, end, j, StartPoints(line[j], b), prev);
      VoidsFromStartsShape(b, f, line, i, end, j, StartPoints(line[j], b), prev);
      VoidsFromLineShape(b, f, line, i, end, j + 1, sc.prev);
      AllShapedConcat(b, f, line, sc.voids, VoidsFromLine(b, f, line, i, end, j + 1, sc.prev));
    }
  }

  lemma {:induction false} VoidsFromNeighboursShape(b: set<Point>, f: PathFinder, line: seq<Point>, i: nat, k: nat)
    requires i < |line| && k <= 8
    ensures AllShaped(b, f, line, VoidsFromNeighbours(b, f, line, i, k))
    decreases 8 - k
  {
    if k < 8 {
      var n := Neighbours(line[i])[k];
      if n in b {
        VoidsFromLineShape(b, f, line, i, n, 0, None);
      }
      VoidsFromNeighboursShape(b, f, line, i, k + 1);
      var here: seq<seq<Point>> := if n in b then VoidsFromLine(b, f, line, i, n, 0, None) else [];
      AllShapedConcat(b, f, line, here, VoidsFromNeighbours(b, f, line, i, k + 1));
    }
  }

  lemma VoidsFromShape(b: set<Point>, f: PathFinder, line: seq<Point>)
    ensures AllShaped(b, f, line, VoidsFrom(b, f, line, 0))
  {
    var i := |line|;
    while i > 0
      invariant 0 <= i <= |line| && AllShaped(b, f, line, VoidsFrom(b, f, line, i))
    {
      i := i - 1;
      VoidsFromStepShape(b, f, line, i, VoidsFrom(b, f, line, i), VoidsFrom(b, f, line, i + 1));
    }
  }


  lemma VoidsFromStepShape(b: set<Point>, f: PathFinder, line: seq<Point>, i: nat, vs: seq<seq<Point>>, ys: seq<seq<Point>>)
    requires i < |line| && vs == VoidsFrom(b, f, line, i) && ys == VoidsFrom(b, f, line, i + 1)
    requires AllShaped(b, f, line, ys)
    ensures AllShaped(b, f, line, vs)
  {
    VoidsFromNeighboursShape(b, f, line, i, 0);
    AllShapedConcat(b, f, line, VoidsFromNeighbours(b, f, line, i, 0), ys);
  }



  /**
   Each void opens with a non-empty contiguous slice of the trail; when the path search
   keeps its promise, the rest of the void is a boundary walk that starts next to the
   slice's last cell and ends within one cell of its first, closing the polygon.
   */
  lemma VoidsShape(points: set<Point>, line: seq<Point>, f: PathFinder)
    ensures forall v | v in Voids(points, line, f) :: VoidShape(Boundary(points), f, line, v)
    ensures forall v | v in Voids(points, line, f) :: |v| > 0
  {
    VoidsFromShape(Boundary(points), f, line);
    forall v | v in Voids(points, line, f) ensures VoidShape(Boundary(points), f, line, v) && |v| > 0 {
      AllShapedMember(Boundary(points), f, line, Voids(points, line, f), v);
      var k: nat, i: nat :| VoidShapeAt(Boundary(points), f, line, v, k, i);
    }
  }

  // ---------------------------------------------------------------------------
  // Scan fill

  function Xs(poly: seq<Point>): (r: seq<int>)
    ensures |r| == |poly|
  {
    seq(|poly|, k requires 0 <= k < |poly| => poly[k].x)
  }

  function Ys(poly: seq<Point>): (r: seq<int>)
    ensures |r| == |poly|
  {
    seq(|poly|, k requires 0 <= k < |poly| => poly[k].y)
  }

  function Max(s: seq<int>): (m: int)
    requires |s| > 0
    ensures m in s
    ensures forall k | 0 <= k < |s| :: s[k] <= m
  {
    if |s| == 1 then s[0]
    else
      var m := Max(s[1..]);
      if s[0] > m then s[0] else m
  }

  function Min(s: seq<int>): (m: int)
    requires |s| > 0
    ensures m in s
    ensures forall k | 0 <= k < |s| :: m <= s[k]
  {
    if |s| == 1 then s[0]
    else
      var m := Min(s[1..]);
      if s[0] < m then s[0] else m
  }

  /**
   The cells the fill proposes for polygon `poly`: unowned, inside the half-open
   bounding box `(min, max]` of the vertices on both axes, and inside the polygon.
   */
  predicate InFill(points: set<Point>, poly: seq<Point>, q: Point)
  {
    && |poly| > 0
    && Min(Xs(poly)) < q.x <= Max(Xs(poly))
    && Min(Ys(poly)) < q.y <= Max(Ys(poly))
    && q !in points
    && InPolygon(q, poly)
  }

  /** The fill of one polygon as a set: the reference the scan is proved against. */
  function FillSet(points: set<Point>, poly: seq<Point>): (r: set<Point>)
    requires |poly| > 0
    ensures forall q :: q in r <==> InFill(points, poly, q)
  {
    var loX, hiX, loY, hiY := Min(Xs(poly)), Max(Xs(poly)), Min(Ys(poly)), Max(Ys(poly));
    set x: int, y: int | loX < x <= hiX && loY < y <= hiY && Point(x, y) !in points
                         && InPolygon(Point(x, y), poly) :: Point(x, y)
  }

  /** `p` comes strictly after `q` in the fill's scan order (x descending, then y descending). */
  predicate ScanBefore(q: Point, p: Point)
  {
    q.x > p.x || (q.x == p.x && q.y > p.y)
  }

  /** A sequence of cells listed in scan order. */
  predicate ScanSorted(s: seq<Point>)
  {
    forall a, b | 0 <= a < b < |s| :: ScanBefore(s[a], s[b])
  }

  /** Every cell of `s` is scanned before `p`. */
  predicate AllBefore(s: seq<Point>, p: Point)
  {
    forall a | 0 <= a < |s| :: ScanBefore(s[a], p)
  }

  lemma AppendSorted(s: seq<Point>, p: Point, next: Point)
    requires ScanSorted(s) && AllBefore(s, p) && ScanBefore(p, next)
    ensures ScanSorted(s + [p]) && AllBefore(s + [p], next)
  {
  }

  lemma BeforeLater(s: seq<Point>, p: Point, next: Point)
    requires AllBefore(s, p) && ScanBefore(p, next)
    ensures AllBefore(s, next)
  {
  }

  /**
   The bounding-box scan of `_capture`: columns from the largest x down to just above the
   smallest, rows likewise, keeping the unowned cells inside the polygon.
   */
  method ScanFill(points: set<Point>, poly: seq<Point>) returns (captured: seq<Point>)
    requires |poly| > 0
    ensures forall q :: q in captured <==> InFill(points, poly, q)
    ensures ScanSorted(captured)
  {
    var maxX, minX := Max(Xs(poly)), Min(Xs(poly));
    captured := [];
    var x := maxX;
    while x > minX
      invariant minX <= x <= maxX
      invariant forall q :: q in captured <==> InFill(points, poly, q) && q.x > x
      invariant ScanSorted(captured)
      invariant forall a | 0 <= a < |captured| :: captured[a].x > x
    {
      captured := ScanColumn(points, poly, x, captured);
      x := x - 1;
    }
  }

  /** One column of the scan: rows from the largest y down to just above the smallest. */
  method ScanColumn(points: set<Point>, poly: seq<Point>, x: int, before: seq<Point>)
    returns (captured: seq<Point>)
    requires |poly| > 0 && Min(Xs(poly)) < x <= Max(Xs(poly))
    requires forall q :: q in before <==> InFill(points, poly, q) && q.x > x
    requires ScanSorted(before)
    requires forall a | 0 <= a < |before| :: before[a].x > x
    ensures forall q :: q in captured <==> InFill(points, poly, q) && q.x >= x
    ensures ScanSorted(captured)
    ensures forall a | 0 <= a < |captured| :: captured[a].x >= x
  {
    var maxY, minY := Max(Ys(poly)), Min(Ys(poly));
    captured := before;
    var y := maxY;
    while y > minY
      invariant minY <= y <= maxY
      invariant forall q :: q in captured <==> InFill(points, poly, q) && (q.x > x || (q.x == x && q.y > y))
      invariant ScanSorted(captured) && AllBefore(captured, Point(x, y))
    {
      var p := Point(x, y);
      var inside := InPolygonScan(p, poly);
      assert InFill(points, poly, p) <==> p !in points && inside;
      var next := captured;
      if p !in points && inside {
        AppendSorted(captured, p, Point(x, y - 1));
        next := captured + [p];
      } else {
        BeforeLater(captured, p, Point(x, y - 1));
      }
      forall q ensures q in next <==> InFill(points, poly, q) && (q.x > x || (q.x == x && q.y > y - 1)) {
        assert q in next <==> q in captured || (q == p && p !in points && inside);
      }
      captured := next;
      y := y - 1;
    }
    assert forall a | 0 <= a < |captured| :: captured[a].x >= x by {
      assert AllBefore(captured, Point(x, y));
    }
  }



  /** The union of the fills of all voids. */
  function FillAll(points: set<Point>, voids: seq<seq<Point>>): (r: set<Point>)
    requires forall v | v in voids :: |v| > 0
    ensures forall q :: q in r <==> exists v | v in voids :: InFill(points, v, q)
  {
    if |voids| == 0 then {}
    else FillSet(points, voids[0]) + FillAll(points, voids[1..])
  }

  // ---------------------------------------------------------------------------
  // Capture, removal, split

  /**
   The cells a trail would capture, without committing them: the unowned trail cells and
   the fills of every void. The owned set is untouched; only the dirty flag may change.
   */
  function Capture(t: Territory, line: seq<Point>, f: PathFinder): (r: (set<Point>, Territory))
    ensures r.1 == t.(changed := r.1.changed)
    ensures r.1.changed <==> t.changed || r.0 != {}
    ensures r.0 !! t.points
    ensures |line| < 2 || line[|line| - 1] !in t.points ==> r.0 == {}
    ensures |line| >= 2 && line[|line| - 1] in t.points ==>
              forall q | q in line && q !in t.points :: q in r.0
    ensures forall q | q in r.0 ::
              q in line || exists v | v in Voids(t.points, line, f) :: InFill(t.points, v, q)
    ensures |line| >= 2 && line[|line| - 1] in t.points ==>
              forall v, q | v in Voids(t.points, line, f) && InFill(t.points, v, q) :: q in r.0
  {
    if |line| > 1 && line[|line| - 1] in t.points then
      var voids := Voids(t.points, line, f);
      VoidsShape(t.points, line, f);
      var captured := (set q | q in line && q !in t.points) + FillAll(t.points, voids);
      (captured, t.(changed := t.changed || |captured| > 0))
    else
      ({}, t)
  }

  /** Discards the given cells and returns those that were owned. */
  function RemovePoints(t: Territory, pts: set<Point>): (r: (set<Point>, Territory))
    ensures r.0 <= pts && r.0 <= t.points
    ensures r.1.points !! pts
    ensures r.1.points + r.0 == t.points && r.1.points !! r.0
    ensures r.1.color == t.color
    ensures r.1.changed <==> t.changed || r.0 != {}
  {
    var removed := set q | q in pts && q in t.points;
    (removed, Territory(t.color, t.points - removed, t.changed || |removed| > 0))
  }

  /**
   Whether `q` lies on the far side of `l`, the first trail cell, from the player at `pos`,
   along the axis the direction key selects: x for up and down, y for left and right.
   */
  predicate FarSide(cfg: Config, l: Point, direction: int, pos: Point, q: Point)
  {
    || ((direction == cfg.arrows.up || direction == cfg.arrows.down) &&
        (if pos.x < l.x then q.x >= l.x else q.x <= l.x))
    || ((direction == cfg.arrows.left || direction == cfg.arrows.right) &&
        (if pos.y < l.y then q.y >= l.y else q.y <= l.y))
  }

  /** Whether some trail cell is owned. */
  predicate Touches(points: set<Point>, line: seq<Point>)
  {
    exists q | q in line :: q in points
  }

  /**
   Cuts the territory along the trail: when the trail touches it, every cell on the far
   side of the trail's first cell is discarded and returned. An empty trail has no first
   cell, and the source fails on it with an index error.
   */
  function Split(cfg: Config, t: Territory, line: seq<Point>, direction: int, pos: Point)
    : (r: Option<(set<Point>, Territory)>)
    ensures r.None? <==> |line| == 0
    ensures r.Some? ==>
              var removed, kept := r.value.0, r.value.1;
              && removed <= t.points
              && kept == t.(points := t.points - removed, changed := kept.changed)
              && (kept.changed <==> t.changed || removed != {})
              && (forall q :: q in removed <==>
                    q in t.points && Touches(t.points, line) && FarSide(cfg, line[0], direction, pos, q))
    ensures r.Some? && !Touches(t.points, line) ==> r.value.0 == {} && r.value.1 == t
    ensures r.Some? && direction !in {cfg.arrows.up, cfg.arrows.down, cfg.arrows.left, cfg.arrows.right} ==>
              r.value.0 == {} && r.value.1 == t
    ensures r.Some? && Touches(t.points, line) ==>
              forall q | q in r.value.1.points ::
                && (direction == cfg.arrows.up || direction == cfg.arrows.down ==>
                      if pos.x < line[0].x then q.x < line[0].x else q.x > line[0].x)
                && (direction == cfg.arrows.left || direction == cfg.arrows.right ==>
                      if pos.y < line[0].y then q.y < line[0].y else q.y > line[0].y)
  {
    if |line| == 0 then None
    else
      var l := line[0];
      var removed := if Touches(t.points, line)
                     then set q | q in t.points && FarSide(cfg, l, direction, pos, q) else {};
      Some((removed, t.(points := t.points - removed, changed := t.changed || removed != {})))
  }

  /** Cutting twice along the same trail discards nothing the second time. */
  lemma SplitTwice(cfg: Config, t: Territory, line: seq<Point>, direction: int, pos: Point)
    requires |line| > 0
    ensures var once := Split(cfg, t, line, direction, pos).value.1;
      var twice := Split(cfg, once, line, direction, pos).value;
      twice.0 == {} && twice.1 == once
  {
    var once := Split(cfg, t, line, direction, pos).value.1;
    var twice := Split(cfg, once, line, direction, pos).value;
    if Touches(t.points, line) {
      assert forall q | q in once.points :: !FarSide(cfg, line[0], direction, pos, q);
    } else {
      assert once == t;
    }
  }

}
