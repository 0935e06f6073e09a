/** Bounding-box geometry of a connected component: coordinate projections,
    the four corners, width, height, areas, the centre and the area term of the
    coverage ratio. Every derived value is recomputed from the points, and all
    of them need at least one point (the reductions have nothing to work on
    otherwise). */
module Geometry {
  import opened JavaInts
  import opened MathTools
  import opened ConnectedComponents

  predicate NonEmpty(c: ConnectedComponent) {
    |c.points| > 0
  }

  // ----- projections -----

  /** The x coordinates, in point order. */
  function Xs(c: ConnectedComponent): (xs: seq<int>)
    ensures |xs| == |c.points|
    ensures forall i :: 0 <= i < |xs| ==> xs[i] == c.points[i].x
  {
    seq(|c.points|, i requires 0 <= i < |c.points| => c.points[i].x)
  }

  /** The y coordinates, in point order. */
  function Ys(c: ConnectedComponent): (ys: seq<int>)
    ensures |ys| == |c.points|
    ensures forall i :: 0 <= i < |ys| ==> ys[i] == c.points[i].y
  {
    seq(|c.points|, i requires 0 <= i < |c.points| => c.points[i].y)
  }

  /** Pairs up two coordinate lists of equal length. */
  function Zip(xs: seq<int>, ys: seq<int>): seq<Point>
    requires |xs| == |ys|
  {
    seq(|xs|, i requires 0 <= i < |xs| => Point(xs[i], ys[i]))
  }

  /** The projections lose nothing: zipping them back gives the points. */
  lemma ProjectionsRoundTrip(c: ConnectedComponent)
    ensures Zip(Xs(c), Ys(c)) == c.points
  {}

  function MinX(c: ConnectedComponent): int requires NonEmpty(c) { Min(Xs(c)) }
  function MaxX(c: ConnectedComponent): int requires NonEmpty(c) { Max(Xs(c)) }
  function MinY(c: ConnectedComponent): int requires NonEmpty(c) { Min(Ys(c)) }
  function MaxY(c: ConnectedComponent): int requires NonEmpty(c) { Max(Ys(c)) }

  // ----- corners -----

  /** Left edge and top edge of the circumscribed rectangle: no point lies
      further left or higher, and some point touches each edge. */
  function TopLeft(c: ConnectedComponent): (p: Point)
    requires NonEmpty(c)
    ensures forall i :: 0 <= i < |c.points| ==> p.x <= c.points[i].x && p.y <= c.points[i].y
    ensures exists i :: 0 <= i < |c.points| && c.points[i].x == p.x
    ensures exists i :: 0 <= i < |c.points| && c.points[i].y == p.y
  {
    Point(MinX(c), MinY(c))
  }

  /** Right edge and top edge. */
  function TopRight(c: ConnectedComponent): (p: Point)
    requires NonEmpty(c)
    ensures forall i :: 0 <= i < |c.points| ==> c.points[i].x <= p.x && p.y <= c.points[i].y
    ensures exists i :: 0 <= i < |c.points| && c.points[i].x == p.x
    ensures exists i :: 0 <= i < |c.points| && c.points[i].y == p.y
  {
    Point(MaxX(c), MinY(c))
  }

  /** Left edge and bottom edge. */
  function BottomLeft(c: ConnectedComponent): (p: Point)
    requires NonEmpty(c)
    ensures forall i :: 0 <= i < |c.points| ==> p.x <= c.points[i].x && c.points[i].y <= p.y
    ensures exists i :: 0 <= i < |c.points| && c.points[i].x == p.x
    ensures exists i :: 0 <= i < |c.points| && c.points[i].y == p.y
  {
    Point(MinX(c), MaxY(c))
  }

  /** The bottom-right corner as the component computes it: its x is the
      minimum x, so it is the bottom-LEFT corner. */
  function BottomRight(c: ConnectedComponent): (p: Point)
    requires NonEmpty(c)
    ensures p == BottomLeft(c)
    ensures p.x == TopLeft(c).x
  {
    Point(MinX(c), MaxY(c))
  }

  /** Whenever the component is more than one column wide, some point lies
      strictly to the right of the computed bottom-right corner. */
  lemma BottomRightIsNotRightmost(c: ConnectedComponent)
    requires NonEmpty(c)
    requires TopLeft(c).x < TopRight(c).x
    ensures exists i :: 0 <= i < |c.points| && c.points[i].x > BottomRight(c).x
  {
    var i := ArgMax(Xs(c));
    assert c.points[i].x == TopRight(c).x;
  }

  /** The bottom-right corner the rectangle metrics call for: right edge, bottom edge. */
  function BottomRightIntended(c: ConnectedComponent): (p: Point)
    requires NonEmpty(c)
    ensures forall i :: 0 <= i < |c.points| ==> c.points[i].x <= p.x && c.points[i].y <= p.y
    ensures exists i :: 0 <= i < |c.points| && c.points[i].x == p.x
    ensures exists i :: 0 <= i < |c.points| && c.points[i].y == p.y
  {
    Point(MaxX(c), MaxY(c))
  }

  /** Every point lies inside the rectangle spanned by the corners. */
  lemma PointsInsideBoundingBox(c: ConnectedComponent, i: int)
    requires NonEmpty(c)
    requires 0 <= i < |c.points|
    ensures TopLeft(c).x <= c.points[i].x <= TopRight(c).x
    ensures TopLeft(c).y <= c.points[i].y <= BottomLeft(c).y
  {}

  // ----- width and height -----

  /** The horizontal extent, right edge minus left edge, narrowed to an int. */
  function Width(c: ConnectedComponent): (w: int)
    requires NonEmpty(c)
    ensures 0 <= w <= INT_MAX
  {
    MinAtMostMax(Xs(c));
    ToInt(TopRight(c).x - TopLeft(c).x)
  }

  /** The vertical extent, bottom edge minus top edge, narrowed to an int. */
  function Height(c: ConnectedComponent): (h: int)
    requires NonEmpty(c)
    ensures 0 <= h <= INT_MAX
  {
    MinAtMostMax(Ys(c));
    ToInt(BottomLeft(c).y - TopLeft(c).y)
  }

  /** The width is the largest x-difference between two points, saturated at
      the int maximum: no pair differs by more unless it saturated, and some
      pair differs by at least as much. */
  lemma WidthIsLargestXDifference(c: ConnectedComponent)
    requires NonEmpty(c)
    ensures forall i, j :: 0 <= i < |c.points| && 0 <= j < |c.points| ==>
              c.points[i].x - c.points[j].x <= Width(c) || Width(c) == INT_MAX
    ensures exists i, j :: 0 <= i < |c.points| && 0 <= j < |c.points| &&
              c.points[i].x - c.points[j].x >= Width(c)
  {
    var xs, w := Xs(c), Width(c);
    SaturatedSpan(xs, w);
    var i, j :| 0 <= i < |xs| && 0 <= j < |xs| && xs[i] - xs[j] >= w;
    assert c.points[i].x - c.points[j].x >= w;
  }

  /** The height is the largest y-difference between two points, saturated at
      the int maximum. */
  lemma HeightIsLargestYDifference(c: ConnectedComponent)
    requires NonEmpty(c)
    ensures forall i, j :: 0 <= i < |c.points| && 0 <= j < |c.points| ==>
              c.points[i].y - c.points[j].y <= Height(c) || Height(c) == INT_MAX
    ensures exists i, j :: 0 <= i < |c.points| && 0 <= j < |c.points| &&
              c.points[i].y - c.points[j].y >= Height(c)
  {
    var ys, h := Ys(c), Height(c);
    SaturatedSpan(ys, h);
    var i, j :| 0 <= i < |ys| && 0 <= j < |ys| && ys[i] - ys[j] >= h;
    assert c.points[i].y - c.points[j].y >= h;
  }

  /** Maximum minus minimum, narrowed: no two elements differ by more unless it
      saturated, and the extreme pair differs by at least as much. */
  lemma SaturatedSpan(s: seq<int>, w: int)
    requires |s| > 0
    requires w == ToInt(Max(s) - Min(s))
    ensures forall i, j :: 0 <= i < |s| && 0 <= j < |s| ==> s[i] - s[j] <= w || w == INT_MAX
    ensures exists i, j :: 0 <= i < |s| && 0 <= j < |s| && s[i] - s[j] >= w
  {
    var lo, hi := ArgMin(s), ArgMax(s);
    assert s[lo] <= s[0] <= s[hi];
    assert w == INT_MAX || w == s[hi] - s[lo];
    assert s[hi] - s[lo] >= w;
  }

  /** When the spans fit an int, width and height are exactly the distances
      between opposite edges of the bounding box. */
  lemma WidthHeightAreSpans(c: ConnectedComponent)
    requires NonEmpty(c)
    requires MaxX(c) - MinX(c) <= INT_MAX && MaxY(c) - MinY(c) <= INT_MAX
    ensures Width(c) == TopRight(c).x - TopLeft(c).x >= 0
    ensures Height(c) == BottomLeft(c).y - TopLeft(c).y >= 0
  {
    MinAtMostMax(Xs(c));
    MinAtMostMax(Ys(c));
  }

  // ----- areas -----

  /** The larger of width and height: the side of the circumscribed square. */
  function MaxSide(c: ConnectedComponent): (s: int)
    requires NonEmpty(c)
    ensures Width(c) <= s && Height(c) <= s
    ensures s == Width(c) || s == Height(c)
  {
    if Width(c) > Height(c) then Width(c) else Height(c)
  }

  /** Area of the circumscribed rectangle, computed as an int product: it agrees
      with width times height modulo 2^32 and is always an int. */
  function RectArea(c: ConnectedComponent): (a: int)
    requires NonEmpty(c)
    ensures IsInt(a)
    ensures (a - Width(c) * Height(c)) % MODULUS == 0
  {
    Wrap(Width(c) * Height(c))
  }

  /** Without overflow the rectangle area is the plain, non-negative product. */
  lemma RectAreaWithoutOverflow(c: ConnectedComponent)
    requires NonEmpty(c)
    requires Width(c) * Height(c) <= INT_MAX
    ensures RectArea(c) == Width(c) * Height(c)
    ensures RectArea(c) >= 0
  {
    ProductNonNegative(Width(c), Height(c));
  }

  lemma ProductNonNegative(a: int, b: int)
    requires a >= 0 && b >= 0
    ensures a * b >= 0
    ensures a * b > 0 <==> a > 0 && b > 0
  {
    if a > 0 && b > 0 {
      assert a * b >= b;
    }
  }

  /** The rectangle area computed without 32-bit wrap-around. */
  function RectAreaExact(c: ConnectedComponent): (a: int)
    requires NonEmpty(c)
    ensures a >= 0
    ensures Width(c) == 0 ==> a == 0
    ensures Width(c) > 0 ==> a % Width(c) == 0 && a / Width(c) == Height(c)
    ensures (a - RectArea(c)) % MODULUS == 0
    ensures a <= INT_MAX ==> a == RectArea(c)
  {
    ExactProduct(Width(c), Height(c));
    Width(c) * Height(c)
  }

  /** Facts about w * h for non-negative sides: non-negative, divisible back
      by w, and congruent to (equal, when it fits) its wrapped int value. */
  lemma ExactProduct(w: int, h: int)
    requires w >= 0 && h >= 0
    ensures w * h >= 0
    ensures w == 0 ==> w * h == 0
    ensures w > 0 ==> (w * h) % w == 0 && (w * h) / w == h
    ensures (w * h - Wrap(w * h)) % MODULUS == 0
    ensures w * h <= INT_MAX ==> w * h == Wrap(w * h)
  {
    ProductNonNegative(w, h);
    ProductDividesBack(w, h);
    var p, r := w * h, Wrap(w * h);
    assert (r - p) % MODULUS == 0;
    assert (p - r) % MODULUS == 0;
  }

  /** Dividing a product by one non-zero factor leaves the other, with no remainder. */
  lemma ProductDividesBack(w: int, h: int)
    ensures w == 0 ==> w * h == 0
    ensures w > 0 ==> (w * h) % w == 0 && (w * h) / w == h
  {
    if w > 0 {
      var q, r := (w * h) / w, (w * h) % w;
      assert w * h == w * q + r && 0 <= r < w;
      MultipleBelowFactor(w, h - q, r);
    }
  }

  /** A multiple of a positive w that lies in [0, w) is zero times w. */
  lemma MultipleBelowFactor(w: int, k: int, r: int)
    requires w > 0
    requires w * k == r && 0 <= r < w
    ensures k == 0
  {
    assert k >= 1 ==> w * k >= w * 1;
    assert k <= -1 ==> w * k <= w * -1;
  }

  /** The wrapped rectangle area never exceeds the exact one. */
  lemma RectAreaAtMostExact(c: ConnectedComponent)
    requires NonEmpty(c)
    ensures RectArea(c) <= RectAreaExact(c)
  {
    if Width(c) * Height(c) <= INT_MAX {
      RectAreaWithoutOverflow(c);
    }
  }

  /** Area of the circumscribed square: the square of the larger side. */
  function SquArea(c: ConnectedComponent): (a: int)
    requires NonEmpty(c)
    ensures a == MaxSide(c) * MaxSide(c)
    ensures a >= RectAreaExact(c)
    ensures a >= RectArea(c)
  {
    SquareCoversRectangle(Width(c), Height(c), MaxSide(c));
    RectAreaAtMostExact(c);
    MaxSide(c) * MaxSide(c)
  }

  /** A rectangle fits inside the square on its longer side. */
  lemma SquareCoversRectangle(w: int, h: int, s: int)
    requires 0 <= w <= s && 0 <= h <= s
    ensures w * h <= s * s
  {
    assert w * h <= s * h;
    assert s * h <= s * s;
  }

  // ----- centre -----

  /** The centre of the bounding box, rounded toward the top-left. For a
      component of Java ints it is the top-left corner moved by half the
      (narrowed) width and height, with no further narrowing; it lies inside
      the bounding box, and when the
      width fits an int its distances to the two edges differ by at most one,
      the right-hand one being the larger. */
  function Center(c: ConnectedComponent): (p: Point)
    requires NonEmpty(c)
    ensures IsJavaShape(c) ==> p == Point(MinX(c) + Width(c) / 2, MinY(c) + Height(c) / 2)
    ensures IsJavaShape(c) ==>
              && TopLeft(c).x <= p.x <= TopRight(c).x
              && TopLeft(c).y <= p.y <= BottomLeft(c).y
    ensures IsJavaShape(c) && MaxX(c) - MinX(c) <= INT_MAX ==>
              p.x - MinX(c) <= MaxX(c) - p.x <= p.x - MinX(c) + 1
    ensures IsJavaShape(c) && MaxY(c) - MinY(c) <= INT_MAX ==>
              p.y - MinY(c) <= MaxY(c) - p.y <= p.y - MinY(c) + 1
  {
    CenterInsideBox(c);
    // Width and height are non-negative, so `/ 2` truncates exactly as Java's int division does.
    var tl := TopLeft(c);
    Point(ToInt(tl.x + Width(c) / 2), ToInt(tl.y + Height(c) / 2))
  }

  lemma CenterInsideBox(c: ConnectedComponent)
    requires NonEmpty(c)
    ensures IsJavaShape(c) ==>
              && ToInt(MinX(c) + Width(c) / 2) == MinX(c) + Width(c) / 2
              && ToInt(MinY(c) + Height(c) / 2) == MinY(c) + Height(c) / 2
  {
    if IsJavaShape(c) {
      CenterCoordinate(Xs(c), Width(c));
      CenterCoordinate(Ys(c), Height(c));
    }
  }

  /** One coordinate of the centre: the minimum plus half the narrowed span
      stays between minimum and maximum and needs no narrowing itself. */
  lemma CenterCoordinate(s: seq<int>, w: int)
    requires |s| > 0
    requires forall i :: 0 <= i < |s| ==> IsInt(s[i])
    requires w == ToInt(Max(s) - Min(s))
    ensures ToInt(Min(s) + w / 2) == Min(s) + w / 2
    ensures Min(s) <= Min(s) + w / 2 <= Max(s)
    ensures Max(s) - Min(s) <= INT_MAX ==>
              (Min(s) + w / 2) - Min(s) <= Max(s) - (Min(s) + w / 2) <= (Min(s) + w / 2) - Min(s) + 1
  {
    assert IsInt(s[ArgMin(s)]) && IsInt(s[ArgMax(s)]);
  }

  // ----- coverage -----

  /** The result of dividing a point count by an area in double arithmetic:
      an exact ratio when the area is not zero, and IEEE 754's infinity or NaN
      when it is. Rounding of the ratio is not modelled. */
  datatype Quotient = Ratio(num: int, den: int) | PositiveInfinity | NaN

  /** A count divided by an area: the exact ratio for a non-zero area,
      positive infinity for a zero area and a positive count, NaN for 0/0. */
  function DivideByArea(n: nat, area: int): Quotient
  {
    if area != 0 then Ratio(n, area)
    else if n > 0 then PositiveInfinity
    else NaN
  }

  /** The area term of the coverage ratio, from the top-left and the computed
      bottom-right corner. Because the bottom-right corner reuses the minimum
      x, the x-span and with it the whole term is zero for every component. */
  function CoverageArea(c: ConnectedComponent): (a: int)
    requires NonEmpty(c)
    ensures a == 0
  {
    var tl, br := TopLeft(c), BottomRight(c);
    var dx, dy := br.x - tl.x, br.y - tl.y;
    assert dx == 0;
    dx * dy
  }

  /** Point count over the area term: with the area term always zero, the
      coverage of every component is positive infinity. */
  function Coverage(c: ConnectedComponent): (q: Quotient)
    requires NonEmpty(c)
    ensures q == PositiveInfinity
  {
    DivideByArea(|c.points|, CoverageArea(c))
  }

  /** The area term with the intended bottom-right corner: the full bounding
      box, which is the rectangle area whenever the spans fit an int. */
  function CoverageAreaIntended(c: ConnectedComponent): (a: int)
    requires NonEmpty(c)
    ensures a >= 0
    ensures a > 0 <==> MinX(c) < MaxX(c) && MinY(c) < MaxY(c)
    ensures MaxX(c) - MinX(c) <= INT_MAX && MaxY(c) - MinY(c) <= INT_MAX ==> a == RectAreaExact(c)
  {
    var tl, br := TopLeft(c), BottomRightIntended(c);
    var dx, dy := br.x - tl.x, br.y - tl.y;
    MinAtMostMax(Xs(c));
    MinAtMostMax(Ys(c));
    ProductNonNegative(dx, dy);
    dx * dy
  }

  /** Coverage with the intended area term: a finite ratio exactly when the
      bounding box has non-zero width and height. */
  function CoverageIntended(c: ConnectedComponent): (q: Quotient)
    requires NonEmpty(c)
    ensures q.Ratio? <==> MinX(c) < MaxX(c) && MinY(c) < MaxY(c)
    ensures q.Ratio? ==> q.num == |c.points| && q.den > 0
    ensures q.Ratio? ==> q.den == CoverageAreaIntended(c)
  {
    DivideByArea(|c.points|, CoverageAreaIntended(c))
  }
}
