/** A connected component: the pixels of one extracted shape, kept as a
    sequence of integer points in insertion order. Duplicates are allowed and
    nothing is ever removed. The model has value semantics: an "update" returns
    a new component and leaves the old one as it was. */
module ConnectedComponents {
  import opened JavaInts

  datatype Point = Point(x: int, y: int)

  datatype ConnectedComponent = ConnectedComponent(points: seq<Point>)

  /** Every coordinate fits a Java `int`, as it does for any component built from `java.awt.Point`s. */
  predicate IsJavaShape(c: ConnectedComponent) {
    forall i :: 0 <= i < |c.points| ==> IsInt(c.points[i].x) && IsInt(c.points[i].y)
  }

  // ----- construction -----

  /** The component with no points. */
  function Empty(): (c: ConnectedComponent)
    ensures |c.points| == 0
    ensures forall x: int, y: int :: !Contains(c, x, y)
  {
    ConnectedComponent([])
  }

  /** The component grown from one seed pixel: an empty component with (x, y) appended. */
  function FromSeed(x: int, y: int): (c: ConnectedComponent)
    ensures c == AddXY(Empty(), x, y)
    ensures forall u: int, v: int :: Contains(c, u, v) <==> u == x && v == y
  {
    ConnectedComponent([Point(x, y)])
  }

  /** A component wrapped around an existing point list, taken as it is. */
  function FromPoints(ps: seq<Point>): (c: ConnectedComponent)
    ensures GetPoints(c) == ps
  {
    ConnectedComponent(ps)
  }

  /** The points, in insertion order: a component wrapped around them is
      identical to this one. */
  function GetPoints(c: ConnectedComponent): (ps: seq<Point>)
    ensures IsIdenticalTo(ConnectedComponent(ps), c)
  {
    c.points
  }

  /** A copy built point by point, in the same order. With value semantics the
      copy is independent of the original by construction. */
  method DeepClone(c: ConnectedComponent) returns (d: ConnectedComponent)
    ensures IsIdenticalTo(c, d)
    ensures d == c
  {
    var copy: seq<Point> := [];
    for i := 0 to |c.points|
      invariant copy == c.points[..i]
    {
      var p := c.points[i];
      copy := copy + [Point(p.x, p.y)];
    }
    d := FromPoints(copy);
  }

  // ----- mutation -----

  /** Appends p after every point already present. */
  function AddPoint(c: ConnectedComponent, p: Point): (r: ConnectedComponent)
    ensures |r.points| == |c.points| + 1
    ensures r.points[|c.points|] == p
    ensures r.points[..|c.points|] == c.points
  {
    ConnectedComponent(c.points + [p])
  }

  /** Appends the point (x, y). */
  function AddXY(c: ConnectedComponent, x: int, y: int): (r: ConnectedComponent)
    ensures |r.points| == |c.points| + 1
    ensures r.points[|c.points|] == Point(x, y)
    ensures r.points[..|c.points|] == c.points
  {
    AddPoint(c, Point(x, y))
  }

  // ----- queries -----

  /** Whether some stored point has exactly the coordinates (x, y). */
  function Contains(c: ConnectedComponent, x: int, y: int): (b: bool)
    ensures b <==> exists i :: 0 <= i < |c.points| && c.points[i] == Point(x, y)
  {
    Scan(c.points, x, y)
  }

  function ContainsPoint(c: ConnectedComponent, p: Point): (b: bool)
    ensures b <==> p in c.points
  {
    Contains(c, p.x, p.y)
  }

  /** The linear scan behind Contains: first point first, stopping at the first match. */
  function Scan(ps: seq<Point>, x: int, y: int): (b: bool)
    ensures b <==> exists i :: 0 <= i < |ps| && ps[i].x == x && ps[i].y == y
    decreases |ps|
  {
    if |ps| == 0 then false
    else if ps[0].x == x && ps[0].y == y then true
    else
      assert forall i :: 1 <= i < |ps| ==> ps[i] == ps[1..][i - 1];
      Scan(ps[1..], x, y)
  }

  /** After appending (x, y) the component contains exactly what it contained
      before, plus (x, y). */
  lemma ContainsAfterAdd(c: ConnectedComponent, x: int, y: int, u: int, v: int)
    ensures Contains(AddXY(c, x, y), x, y)
    ensures Contains(AddXY(c, x, y), u, v) <==> Contains(c, u, v) || (u == x && v == y)
  {
    var r := AddXY(c, x, y);
    assert r.points[|c.points|] == Point(x, y);
    if Contains(c, u, v) {
      var i :| 0 <= i < |c.points| && c.points[i] == Point(u, v);
      assert r.points[i] == c.points[i];
    }
    if Contains(r, u, v) && !(u == x && v == y) {
      var i :| 0 <= i < |r.points| && r.points[i] == Point(u, v);
      assert i < |c.points| && c.points[i] == r.points[i];
    }
  }

  /** Same number of points and, index by index, the same coordinates. */
  predicate IsIdenticalTo(a: ConnectedComponent, b: ConnectedComponent)
    ensures IsIdenticalTo(a, b) <==> a == b
  {
    && |a.points| == |b.points|
    && forall i :: 0 <= i < |a.points| ==>
         a.points[i].x == b.points[i].x && a.points[i].y == b.points[i].y
  }

  /** Identity is reflexive and symmetric. */
  lemma IdenticalReflexiveSymmetric(a: ConnectedComponent, b: ConnectedComponent)
    ensures IsIdenticalTo(a, a)
    ensures IsIdenticalTo(a, b) <==> IsIdenticalTo(b, a)
  {}

  /** Identity looks at order: two distinct points, added in either order,
      give components with the same points counted with multiplicity, yet
      the components are not identical. */
  lemma IdenticalIsOrderSensitive(p: Point, q: Point)
    requires p != q
    ensures multiset(FromPoints([p, q]).points) == multiset(FromPoints([q, p]).points)
    ensures !IsIdenticalTo(FromPoints([p, q]), FromPoints([q, p]))
  {}

  /** Three points added in one order and in the reverse order: both components
      contain all three, yet they are not identical. */
  lemma ReversedInsertionOrder(p: Point, q: Point, s: Point)
    requires p != s
    ensures var forward := FromPoints([p, q, s]);
            var backward := FromPoints([s, q, p]);
            && forward == AddPoint(AddPoint(AddPoint(Empty(), p), q), s)
            && backward == AddPoint(AddPoint(AddPoint(Empty(), s), q), p)
            && !IsIdenticalTo(forward, backward)
            && ContainsPoint(forward, p) && ContainsPoint(forward, q) && ContainsPoint(forward, s)
            && ContainsPoint(backward, p) && ContainsPoint(backward, q) && ContainsPoint(backward, s)
  {
    assert AddPoint(Empty(), p).points == [p];
    assert AddPoint(AddPoint(Empty(), p), q).points == [p, q];
    assert AddPoint(Empty(), s).points == [s];
    assert AddPoint(AddPoint(Empty(), s), q).points == [s, q];
  }

  /** Growing a copy does not grow the original: after an append the copy has
      one more point and is no longer identical to the original. */
  lemma AppendToCopyKeepsOriginal(c: ConnectedComponent, d: ConnectedComponent, p: Point)
    requires IsIdenticalTo(c, d)
    ensures |AddPoint(d, p).points| == |c.points| + 1
    ensures !IsIdenticalTo(c, AddPoint(d, p))
  {}
}
