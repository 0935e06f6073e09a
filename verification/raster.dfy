/** The arithmetic of rasterising a connected component into a square image:
    the side of the square and the buffer position of every point, with the
    shape translated so that its left and top edges land on column and row 0.
    The pixel buffer itself (allocation, fill, plotting) is not modelled; the
    model stops at what the component hands to it. */
module Raster {
  import opened JavaInts
  import opened MathTools
  import opened ConnectedComponents
  import opened Geometry

  /** What the rasteriser hands to the buffer: the side of the square it
      allocates and, in point order, the (column, row) of every foreground pixel. */
  datatype ImagePlan = ImagePlan(side: int, pixels: seq<Point>)

  /** Columns and rows of a square buffer of the given side run from 0 to side - 1. */
  predicate InBuffer(p: Point, side: int) {
    0 <= p.x < side && 0 <= p.y < side
  }

  /** Moves a point so that the component's top-left corner becomes (0, 0),
      narrowing each difference to an int. A point inside the bounding box
      lands inside [0, width] x [0, height]. */
  function Translate(c: ConnectedComponent, p: Point): (t: Point)
    requires NonEmpty(c)
    ensures MinX(c) <= p.x <= MaxX(c) ==> 0 <= t.x <= Width(c)
    ensures MinY(c) <= p.y <= MaxY(c) ==> 0 <= t.y <= Height(c)
  {
    NarrowedOffset(p.x - MinX(c), MaxX(c) - MinX(c));
    NarrowedOffset(p.y - MinY(c), MaxY(c) - MinY(c));
    Point(ToInt(p.x - MinX(c)), ToInt(p.y - MinY(c)))
  }

  /** An offset between zero and the span stays between zero and the narrowed span. */
  lemma NarrowedOffset(d: int, span: int)
    ensures 0 <= d <= span ==> 0 <= ToInt(d) <= ToInt(span)
  {
    if 0 <= d <= span {
      ToIntMonotone(0, d);
      ToIntMonotone(d, span);
    }
  }

  /** Translation loses nothing while the offsets fit an int: adding the
      top-left corner back gives the original point. */
  lemma TranslateRoundTrip(c: ConnectedComponent, p: Point)
    requires NonEmpty(c)
    requires IsInt(p.x - MinX(c)) && IsInt(p.y - MinY(c))
    ensures Point(Translate(c, p).x + TopLeft(c).x, Translate(c, p).y + TopLeft(c).y) == p
  {}

  /** The square image of a component: its side is the larger of width and
      height, every point is plotted at its translated position, and every
      such position lies in [0, side] x [0, side]. */
  function CreateImage(c: ConnectedComponent): (img: ImagePlan)
    requires NonEmpty(c)
    ensures img.side == MaxSide(c)
    ensures |img.pixels| == |c.points|
    ensures forall i :: 0 <= i < |img.pixels| ==> img.pixels[i] == Translate(c, c.points[i])
    ensures forall i :: 0 <= i < |img.pixels| ==>
              0 <= img.pixels[i].x <= img.side && 0 <= img.pixels[i].y <= img.side
  {
    var pixels := seq(|c.points|, i requires 0 <= i < |c.points| => Translate(c, c.points[i]));
    PointsWithinExtremes(c);
    ImagePlan(MaxSide(c), pixels)
  }

  /** Every point's coordinates lie between the component's extreme coordinates. */
  lemma PointsWithinExtremes(c: ConnectedComponent)
    requires NonEmpty(c)
    ensures forall i :: 0 <= i < |c.points| ==>
              MinX(c) <= c.points[i].x <= MaxX(c) && MinY(c) <= c.points[i].y <= MaxY(c)
  {
    var xs, ys := Xs(c), Ys(c);
    assert forall i :: 0 <= i < |c.points| ==> xs[i] == c.points[i].x && ys[i] == c.points[i].y;
  }

  /** A point on the right edge is plotted at column `width`, a point on the
      bottom edge at row `height`. */
  lemma FarEdgesLandOnWidthAndHeight(c: ConnectedComponent, i: int)
    requires NonEmpty(c)
    requires 0 <= i < |c.points|
    ensures c.points[i].x == MaxX(c) ==> CreateImage(c).pixels[i].x == Width(c)
    ensures c.points[i].y == MaxY(c) ==> CreateImage(c).pixels[i].y == Height(c)
  {}

  /** The square is one pixel too small: every component has a point plotted
      at column or row `side`, one past the last index of the buffer, so that
      pixel falls outside the image. */
  lemma SomePixelFallsOutside(c: ConnectedComponent)
    requires NonEmpty(c)
    ensures exists i :: 0 <= i < |c.points| && !InBuffer(CreateImage(c).pixels[i], CreateImage(c).side)
  {
    var img := CreateImage(c);
    if Width(c) >= Height(c) {
      var i := ArgMax(Xs(c));
      FarEdgesLandOnWidthAndHeight(c, i);
      assert img.pixels[i].x == img.side;
    } else {
      var i := ArgMax(Ys(c));
      FarEdgesLandOnWidthAndHeight(c, i);
      assert img.pixels[i].y == img.side;
    }
  }

  /** The square image with room for the far edges: one more than the larger
      of width and height, the same positions. */
  function CreateImageIntended(c: ConnectedComponent): (img: ImagePlan)
    requires NonEmpty(c)
    ensures img.side == MaxSide(c) + 1
    ensures img.pixels == CreateImage(c).pixels
    ensures forall i :: 0 <= i < |img.pixels| ==> InBuffer(img.pixels[i], img.side)
  {
    ImagePlan(MaxSide(c) + 1, CreateImage(c).pixels)
  }
}
