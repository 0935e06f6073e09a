# Connected component — a Dafny model

This project models `ConnectedComponent`, the shape type of a card-detection
program. A connected component is the list of integer pixel coordinates of
one extracted shape, kept in insertion order, with duplicates allowed. On
top of that list the class offers:

- construction: empty, from one seed pixel, or around an existing list;
- deep cloning;
- appending a point;
- `contains` and the order-sensitive `isIdenticalTo`;
- the x/y projections;
- the circumscribed-rectangle geometry: corners, width, height, areas,
  centre and coverage;
- the arithmetic that rasterises the shape into a square image.

The model has value semantics. A component is
`ConnectedComponent(points: seq<Point>)`, and appending returns a new
component. Every derived value is a pure function of the points.

Modules:

- `JavaInts` (`java_ints.dfy`): the two places where Java's 32-bit `int` shows through.
  - `ToInt`: the saturating `(int)` cast of a `double` that holds an integer.
  - `Wrap`: the wrap-around of `int` multiplication.
- `MathTools` (`math_tools.dfy`): minimum and maximum of a non-empty integer
  sequence. The library routines these stand for are not part of this model,
  so here they are the usual minimum and maximum. Each is taken at an index
  (`ArgMin`/`ArgMax`), which gives proofs a witness.
- `ConnectedComponents` (`connected_component.dfy`): the data model,
  construction, deep clone, appending, `contains` and `isIdenticalTo`.
- `Geometry` (`geometry.dfy`): projections, corners, width and height, areas,
  centre, and the coverage ratio.
- `Raster` (`raster.dfy`): the side of the square image and the translated
  position of every plotted pixel.
- `Scenarios` (`scenarios.dfy`): four concrete components worked through the
  model.

The source never guards against an empty component. Every geometry function
therefore requires a non-empty component (`Geometry.NonEmpty`).

Coordinates are unbounded integers. Java's `int` range appears only where the
code narrows or multiplies. Claims that depend on every coordinate being a
Java `int` take `IsJavaShape` as a hypothesis.

Three places where `src/extraction/ConnectedComponent.java` does not do what its own comments promise are
modelled as written, and the correction is proved beside them (see Findings):

- The Javadoc of `createImage` (line 195) promises a square image containing
  the connected component. The side it allocates, `max(width, height)`
  (line 198), leaves some pixel at index `side`, outside the image.
- The bottom-right corner is taken with the minimum x (line 148). Because of
  that, the coverage's area term is 0, whereas the Javadoc at lines 112-114
  describes a count over the circumscribed rectangle.
- The Javadoc of `getRectArea` (line 152) promises the area of the circumscribed
  rectangle. The product `getWidth()*getHeight()` (line 155) is an `int`
  product and wraps before it is widened, so a large box gets a wrong area,
  negative for (0,0), (46341,46341).

## Model

| member | source | states |
|---|---|---|
| JavaInts.ToInt | src/extraction/ConnectedComponent.java:169 | The `(int)` narrowing of an integral double is always an int and is the identity on ints. `ToIntIsNearest` shows it picks the nearest int. |
| JavaInts.Wrap | src/extraction/ConnectedComponent.java:155 | An `int` product is the unique int congruent to the exact product modulo 2^32. It equals the exact product when that fits. |
| MathTools.ArgMin | src/extraction/ConnectedComponent.java:127 | The minimum reduction: an index whose element is at most every element. |
| MathTools.ArgMax | src/extraction/ConnectedComponent.java:134 | The maximum reduction: an index whose element is at least every element. |
| ConnectedComponents.Empty | src/extraction/ConnectedComponent.java:14-16 | The no-argument constructor has no points and contains no coordinate pair. |
| ConnectedComponents.FromSeed | src/extraction/ConnectedComponent.java:18-21 | The seed constructor is the empty component with (x, y) appended. It contains exactly that one pair. |
| ConnectedComponents.FromPoints | src/extraction/ConnectedComponent.java:23-25 | The list constructor keeps the given list: reading the points back returns it unchanged. |
| ConnectedComponents.GetPoints | src/extraction/ConnectedComponent.java:42-44 | The returned points, in insertion order: a component wrapped around them is identical to this one. |
| ConnectedComponents.DeepClone | src/extraction/ConnectedComponent.java:30-36 | The point-by-point copy is identical to the original: same length, equal points at every index. |
| ConnectedComponents.AddPoint | src/extraction/ConnectedComponent.java:49-51 | Appending grows the length by exactly one and puts the point at the last index. Every earlier index is unchanged. |
| ConnectedComponents.AddXY | src/extraction/ConnectedComponent.java:57-59 | Appending (x, y) grows the length by one, puts Point(x, y) last, and keeps the prefix. |
| ConnectedComponents.ContainsAfterAdd | src/extraction/ConnectedComponent.java:57-71 | After appending (x, y), `contains` answers true for (x, y). For any other pair it answers exactly as before. |
| ConnectedComponents.Contains | src/extraction/ConnectedComponent.java:65-71 | True iff some index holds a point with both coordinates equal to (x, y). False for the empty component. |
| ConnectedComponents.ContainsPoint | src/extraction/ConnectedComponent.java:61-63 | The point overload is true iff the point occurs in the list. |
| ConnectedComponents.Scan | src/extraction/ConnectedComponent.java:66-70 | The front-to-back scan with early exit finds a match iff one exists at some index. |
| ConnectedComponents.IsIdenticalTo | src/extraction/ConnectedComponent.java:77-87 | Equal sizes and equal coordinates index by index, which holds iff the two point sequences are equal. |
| ConnectedComponents.IdenticalReflexiveSymmetric | src/extraction/ConnectedComponent.java:77-87 | Identity is reflexive and symmetric. |
| ConnectedComponents.IdenticalIsOrderSensitive | src/extraction/ConnectedComponent.java:77-87 | Two distinct points added in either order give components with the same points as a multiset, yet the components are not identical. |
| ConnectedComponents.ReversedInsertionOrder | src/extraction/ConnectedComponent.java:57-87 | Three points appended in one order and in the reverse order are not identical. Both components contain all three points. |
| ConnectedComponents.AppendToCopyKeepsOriginal | src/extraction/ConnectedComponent.java:30-59 | Appending to a copy gives the copy one more point than the original, and the copy is then no longer identical to it. |
| Geometry.Xs | src/extraction/ConnectedComponent.java:92-98 | Same length as the points; element i is the x of point i. |
| Geometry.Ys | src/extraction/ConnectedComponent.java:103-109 | Same length as the points; element i is the y of point i. |
| Geometry.ProjectionsRoundTrip | src/extraction/ConnectedComponent.java:92-109 | Zipping the x and y projections back together gives the original points. |
| Geometry.TopLeft | src/extraction/ConnectedComponent.java:126-128 | No point lies left of or above the corner, and some point touches each of its edges. |
| Geometry.TopRight | src/extraction/ConnectedComponent.java:133-135 | No point lies right of or above the corner, and some point touches each of its edges. |
| Geometry.BottomLeft | src/extraction/ConnectedComponent.java:140-142 | No point lies left of or below the corner, and some point touches each of its edges. |
| Geometry.BottomRight | src/extraction/ConnectedComponent.java:147-149 | As written, the bottom-right corner equals the bottom-left corner. Its x is the top-left x. |
| Geometry.BottomRightIsNotRightmost | src/extraction/ConnectedComponent.java:147-149 | When the component spans more than one column, some point lies strictly right of the computed bottom-right corner. |
| Geometry.BottomRightIntended | src/extraction/ConnectedComponent.java:147-149 | The corrected corner: no point lies right of or below it, and points touch both of its edges. |
| Geometry.PointsInsideBoundingBox | src/extraction/ConnectedComponent.java:126-142 | Every point lies within [left, right] x [top, bottom] of the corners. |
| Geometry.Width | src/extraction/ConnectedComponent.java:168-170 | The width is a non-negative int. |
| Geometry.Height | src/extraction/ConnectedComponent.java:175-177 | The height is a non-negative int. |
| Geometry.WidthIsLargestXDifference | src/extraction/ConnectedComponent.java:168-170 | The width is the largest x-difference between two points, saturated at the int maximum. |
| Geometry.HeightIsLargestYDifference | src/extraction/ConnectedComponent.java:175-177 | The height is the largest y-difference between two points, saturated at the int maximum. |
| Geometry.WidthHeightAreSpans | src/extraction/ConnectedComponent.java:168-177 | When the spans fit an int, width = right − left ≥ 0 and height = bottom − top ≥ 0. |
| Geometry.MaxSide | src/extraction/ConnectedComponent.java:162 | The larger of width and height: at least both, and equal to one of them. |
| Geometry.RectArea | src/extraction/ConnectedComponent.java:154-156 | Width times height as an int product: an int congruent to the exact product modulo 2^32. |
| Geometry.RectAreaWithoutOverflow | src/extraction/ConnectedComponent.java:154-156 | When width·height fits an int, the rectangle area is that product and is non-negative. |
| Geometry.RectAreaExact | src/extraction/ConnectedComponent.java:154-156 | The corrected area is the non-negative product width·height: 0 for zero width, otherwise divisible by the width with quotient the height. It is congruent to the computed area modulo 2^32, and equal to it whenever it fits an int. |
| Geometry.RectAreaAtMostExact | src/extraction/ConnectedComponent.java:154-156 | The computed rectangle area never exceeds the exact product. |
| Geometry.SquArea | src/extraction/ConnectedComponent.java:161-163 | The square of the larger side. It is at least the rectangle area, computed or exact. |
| Geometry.Center | src/extraction/ConnectedComponent.java:182-185 | For Java-int coordinates the centre is (min x + width/2, min y + height/2), with no further narrowing, and lies inside the bounding box. When a span fits an int, the centre splits it into halves that differ by at most one, the larger half toward the right/bottom. |
| Geometry.CoverageArea | src/extraction/ConnectedComponent.java:116-118 | The area term of the coverage is 0 for every non-empty component. |
| Geometry.Coverage | src/extraction/ConnectedComponent.java:116-120 | As written, the coverage of every non-empty component is positive infinity. |
| Geometry.CoverageAreaIntended | src/extraction/ConnectedComponent.java:117-118 | With the corrected corner, the area term is non-negative. It is positive iff the box has positive width and height, and equals the exact rectangle area when the spans fit an int. |
| Geometry.CoverageIntended | src/extraction/ConnectedComponent.java:116-120 | With the corrected corner, the coverage is a finite ratio iff the box has positive width and height. Its numerator is the point count and its denominator is the corrected area term `CoverageAreaIntended`. |
| Raster.Translate | src/extraction/ConnectedComponent.java:203-206 | A point inside the bounding box moves to a position inside [0, width] x [0, height]. |
| Raster.TranslateRoundTrip | src/extraction/ConnectedComponent.java:203-206 | While the offsets fit an int, adding the top-left corner back to a translated point gives the original point. |
| Raster.CreateImage | src/extraction/ConnectedComponent.java:197-211 | The square's side is the larger of width and height. Every point is plotted at its translated position, which lies in [0, side] x [0, side]. |
| Raster.FarEdgesLandOnWidthAndHeight | src/extraction/ConnectedComponent.java:198-207 | A point on the right edge is plotted at column `width`; a point on the bottom edge at row `height`. |
| Raster.SomePixelFallsOutside | src/extraction/ConnectedComponent.java:198-207 | Every non-empty component has a pixel plotted at column or row `side`, outside the square. |
| Raster.CreateImageIntended | src/extraction/ConnectedComponent.java:198-207 | With side max(width, height) + 1 and the same positions, every plotted pixel lies inside the square. |
| Scenarios.SquareCornersScenario | src/extraction/ConnectedComponent.java:116-185 | For the corners of a 2x2 square: width and height 2, area 4, centre (1, 1). The corrected coverage is 4/4; the computed one is infinite. |
| Scenarios.FilledBlockScenario | src/extraction/ConnectedComponent.java:112-120 | For the filled block (0,0), (1,0), (0,1), (1,1): width and height 1 and corrected area term 1, so even the corrected coverage is 4/1 rather than a proportion. The computed one is infinite. |
| Scenarios.SinglePixelScenario | src/extraction/ConnectedComponent.java:18-21 | For the single pixel (5, 5): width and height 0 and centre (5, 5). The coverage divides by zero. The image has side 0, with its one pixel at (0, 0). |
| Scenarios.RectAreaOverflows | src/extraction/ConnectedComponent.java:154-156 | For the diagonal (0, 0), (46341, 46341), the computed rectangle area is −2147479015. The exact area is 2147488281. |

## Left out

- `getCentroid`: its rounding depends on `MathTools.average`, which is not part of this model.
- The pixel buffer: allocating the `ByteProcessor`, `setColor`, `fill` and `putPixel` are calls into an imaging library. The model stops at the side length and the plotted positions (`Raster.ImagePlan`). It makes no claim about what the library does with an out-of-range position or a zero-sided image.
- Geometry.Coverage: the quotient is kept exact (`Ratio(num, den)`). The rounding of the double division is not modelled; only the zero-area cases (infinity, NaN) follow IEEE 754.
- Geometry.CoverageIntended: corrects only the corner. It keeps the span-based area term of line 118, which for spans w and h is w·h, while the rectangle holds (w+1)·(h+1) pixels. So it is not the proportion the Javadoc at lines 112-114 describes: the filled 2x2 block gets 4/1 (`Scenarios.FilledBlockScenario`). A pixel-count coverage is not modelled.
- Geometry.SquArea: `Math.pow` is modelled as an exact integer square. The double result may round once the side exceeds about 9.5·10^7 (square above 2^53). That rounding is not modelled.
- Reference sharing: `getPoints` returns the live list, and the list constructor adopts the caller's list. `addPoint(Point)` (lines 49-51) stores the caller's mutable `java.awt.Point` without copying it, which is why `deepClone` copies each point (line 33). Changing that point, or the shared list, later changes the component. A value model has no counterpart for this heap sharing. `GetPoints` returns the sequence, points are immutable values, and copies are independent by construction.
- `contains(double, double)` takes integer coordinates here. Every stored point has integer coordinates, so only integral arguments can match.
- The empty component: the minimum and maximum of an empty list are not defined in this model. Every geometry function requires at least one point.
- Threads and mutation in place: appending is modelled as returning a new component.

## Findings

| source | as written | input that shows it | evidently intended | confidence | as-written member | corrected member |
|---|---|---|---|---|---|---|
| src/extraction/ConnectedComponent.java:147-149 | `getBottomRight` takes the minimum x, so the corner is the bottom-left one and the coverage area term `(br.x − tl.x)·(br.y − tl.y)` is 0 | any component, e.g. the corners (0,0), (2,0), (0,2), (2,2): area term 0, coverage +∞ instead of the finite 4/4 the corrected corner gives | bottom-right = (max x, max y); the span-based area term at line 118 still undercounts the rectangle's pixels (see Left out) | high, not executed | Geometry.Coverage | Geometry.CoverageIntended |
| src/extraction/ConnectedComponent.java:198 | the image side is `max(width, height)`, but translated positions run from 0 to `side` inclusive | (0,0), (1,0): width 1, side 1, and the point (1,0) is plotted at column 1 of a one-column image | side `max(width, height) + 1`, so that every point is drawn | high, not executed | Raster.SomePixelFallsOutside | Raster.CreateImageIntended |
| src/extraction/ConnectedComponent.java:155 | `getWidth()*getHeight()` is an `int` product and wraps before it is widened to `double` | (0,0), (46341,46341): area −2147479015 | the non-negative product width·height | medium, not executed | Scenarios.RectAreaOverflows | Geometry.RectAreaExact |
