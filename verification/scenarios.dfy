/** Concrete components worked through the model: the corners of a square, a
    filled block, a single seed pixel, and a diagonal whose rectangle area
    overflows an int. */
module Scenarios {
  import opened JavaInts
  import opened MathTools
  import opened ConnectedComponents
  import opened Geometry
  import opened Raster

  function SquareCorners(): ConnectedComponent {
    FromPoints([Point(0, 0), Point(2, 0), Point(0, 2), Point(2, 2)])
  }

  /** The bounding box of the square's corners is [0, 2] x [0, 2]. */
  lemma SquareCornersBox()
    ensures MinX(SquareCorners()) == 0 && MaxX(SquareCorners()) == 2
    ensures MinY(SquareCorners()) == 0 && MaxY(SquareCorners()) == 2
  {
    var c := SquareCorners();
    assert Xs(c) == [0, 2, 0, 2];
    assert Ys(c) == [0, 0, 2, 2];
    assert Min(Xs(c)) <= Xs(c)[0] && Max(Xs(c)) >= Xs(c)[1];
    assert Min(Ys(c)) <= Ys(c)[0] && Max(Ys(c)) >= Ys(c)[2];
  }

  /** The corners of a 2-by-2 square: width and height 2, rectangle area 4,
      centre (1, 1); the intended coverage is 4/4, the computed one infinite. */
  lemma SquareCornersScenario()
    ensures Width(SquareCorners()) == 2 && Height(SquareCorners()) == 2
    ensures RectArea(SquareCorners()) == 4
    ensures Center(SquareCorners()) == Point(1, 1)
    ensures CoverageIntended(SquareCorners()) == Ratio(4, 4)
    ensures Coverage(SquareCorners()) == PositiveInfinity
  {
    SquareCornersBox();
    var c := SquareCorners();
    assert Width(c) == 2 && Height(c) == 2;
    assert Width(c) * Height(c) == 4;
  }

  function FilledBlock(): ConnectedComponent {
    FromPoints([Point(0, 0), Point(1, 0), Point(0, 1), Point(1, 1)])
  }

  /** The bounding box of the filled block is [0, 1] x [0, 1]. */
  lemma FilledBlockBox()
    ensures MinX(FilledBlock()) == 0 && MaxX(FilledBlock()) == 1
    ensures MinY(FilledBlock()) == 0 && MaxY(FilledBlock()) == 1
  {
    var c := FilledBlock();
    assert Xs(c) == [0, 1, 0, 1];
    assert Ys(c) == [0, 0, 1, 1];
    assert Min(Xs(c)) <= Xs(c)[0] && Max(Xs(c)) >= Xs(c)[1];
    assert Min(Ys(c)) <= Ys(c)[0] && Max(Ys(c)) >= Ys(c)[2];
  }

  /** A filled 2-by-2 block of pixels: the spans are 1 by 1, so the area term
      counts one pixel where the box holds four, and even the coverage with the
      corrected corner is 4/1 rather than the proportion 4/4. */
  lemma FilledBlockScenario()
    ensures Width(FilledBlock()) == 1 && Height(FilledBlock()) == 1
    ensures CoverageAreaIntended(FilledBlock()) == 1
    ensures CoverageIntended(FilledBlock()) == Ratio(4, 1)
    ensures Coverage(FilledBlock()) == PositiveInfinity
  {
    FilledBlockBox();
    var c := FilledBlock();
    assert Width(c) == 1 && Height(c) == 1;
  }

  /** A single pixel at (5, 5): a zero-by-zero box centred on the pixel, a
      coverage that divides by zero, and a zero-sided image whose one pixel
      falls outside it. */
  lemma SinglePixelScenario()
    ensures Width(FromSeed(5, 5)) == 0 && Height(FromSeed(5, 5)) == 0
    ensures Center(FromSeed(5, 5)) == Point(5, 5)
    ensures Coverage(FromSeed(5, 5)) == PositiveInfinity
    ensures CoverageIntended(FromSeed(5, 5)) == PositiveInfinity
    ensures CreateImage(FromSeed(5, 5)) == ImagePlan(0, [Point(0, 0)])
  {
    var c := FromSeed(5, 5);
    assert Xs(c) == [5] && Ys(c) == [5];
  }

  function LargeDiagonal(): ConnectedComponent {
    FromPoints([Point(0, 0), Point(46341, 46341)])
  }

  /** 46341 * 46341 exceeds the int maximum, so the rectangle area comes out negative. */
  lemma RectAreaOverflows()
    ensures RectAreaExact(LargeDiagonal()) == 2147488281
    ensures RectArea(LargeDiagonal()) == -2147479015
  {
    var c := LargeDiagonal();
    assert Xs(c) == [0, 46341] && Ys(c) == [0, 46341];
    assert MinX(c) == 0 && MaxX(c) == 46341 by {
      assert Min(Xs(c)) <= Xs(c)[0] && Max(Xs(c)) >= Xs(c)[1];
    }
    assert MinY(c) == 0 && MaxY(c) == 46341 by {
      assert Min(Ys(c)) <= Ys(c)[0] && Max(Ys(c)) >= Ys(c)[1];
    }
  }
}
