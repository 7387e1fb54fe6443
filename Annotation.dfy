/** The annotation decoder (`json2results`): it turns the `shapes` of a
    labelme-style annotation document into three parallel lists of class
    names, optional scores and 0/1 masks on an `h` by `w` pixel grid. */
module Annotation {
  import opened Wrappers
  import opened Grids

  /** A vertex of a shape, `[x, y]` in the document: x is the column, y the row.
      Coordinates are taken as already-truncated non-negative integers. */
  datatype Point = Point(x: nat, y: nat)

  /** One entry of the document's `shapes` list; `className` is its `label`. `scores` is None when the
      entry has no `scores` key, otherwise the `scores` object. */
  datatype Shape = Shape(
    className: string,
    points: seq<Point>,
    shapeType: string,
    scores: Option<map<string, real>>)

  /** The decoder's output: one class name, one score and one mask per shape. */
  datatype Results = Results(classNames: seq<string>, scores: seq<Option<real>>, masks: seq<Grid>)

  /** The polygon rasteriser of the imaging library (`draw.polygon`): given the
      vertex rows, the vertex columns and the grid height and width, the set of
      (row, col) pixels it fills. Its fill rule is not part of this model. */
  type PolygonFill = (seq<nat>, seq<nat>, nat, nat) -> set<(int, int)>

  const Rectangle := "rectangle"
  const ClassScoreKey := "cls"

  predicate Within(i: int, lo: int, hi: int) {
    lo <= i < hi
  }

  /** The index range `[lo, hi)` that the slice `start:stop` selects on an axis
      of length `n`, for non-negative bounds: both ends clipped to `n`, and an
      empty range when `stop <= start`. */
  function SliceRange(start: nat, stop: nat, n: nat): (range: (nat, nat))
    ensures range.0 <= range.1 <= n
    ensures forall i :: 0 <= i < n ==> (Within(i, range.0, range.1) <==> Within(i, start, stop))
  {
    var lo := if start < n then start else n;
    var hi := if stop < n then stop else n;
    (lo, if hi < lo then lo else hi)
  }

  /** An all-zero `h` by `w` grid (`np.zeros(shape_)`). */
  function Zeros(h: nat, w: nat): (g: Grid)
    ensures IsGrid(g, h, w)
    ensures forall r, c :: 0 <= r < h && 0 <= c < w ==> g[r][c] == 0
  {
    seq(h, _ => seq(w, _ => 0))
  }

  /** `g[rows.0:rows.1, cols.0:cols.1] = v` on a copy of `g`. */
  function AssignBox(g: Grid, rows: (nat, nat), cols: (nat, nat), v: int): (res: Grid)
    ensures |res| == |g| && forall r :: 0 <= r < |g| ==> |res[r]| == |g[r]|
    ensures forall r, c :: 0 <= r < |g| && 0 <= c < |g[r]| ==>
      res[r][c] == if Within(r, rows.0, rows.1) && Within(c, cols.0, cols.1) then v else g[r][c]
  {
    seq(|g|, r requires 0 <= r < |g| =>
      seq(|g[r]|, c requires 0 <= c < |g[r]| =>
        if Within(r, rows.0, rows.1) && Within(c, cols.0, cols.1) then v else g[r][c]))
  }

  /** The mask of a rectangle with corners `p0` and `p1`: zeros, then ones on
      the slice `[p0.y:p1.y, p0.x:p1.x]`. It is 1 exactly on the half-open box
      rows `[p0.y, p1.y)` by columns `[p0.x, p1.x)` inside the grid, 0 elsewhere,
      and all 0 when the box is empty. */
  function RectangleMask(p0: Point, p1: Point, h: nat, w: nat): (mask: Grid)
    ensures IsGrid(mask, h, w)
    ensures forall r, c :: 0 <= r < h && 0 <= c < w ==>
      mask[r][c] == if Within(r, p0.y, p1.y) && Within(c, p0.x, p1.x) then 1 else 0
    ensures p1.y <= p0.y || p1.x <= p0.x ==>
      forall r, c :: 0 <= r < h && 0 <= c < w ==> mask[r][c] == 0
  {
    AssignBox(Zeros(h, w), SliceRange(p0.y, p1.y, h), SliceRange(p0.x, p1.x, w), 1)
  }

  /** `poly2mask` followed by the cast to 0/1: a zero grid with ones at the
      pixels the rasteriser fills. Fill pixels outside the grid are never set. */
  function PolyToMask(rows: seq<nat>, cols: seq<nat>, h: nat, w: nat, polygon: PolygonFill): (mask: Grid)
    ensures IsGrid(mask, h, w)
    ensures forall r, c :: 0 <= r < h && 0 <= c < w ==>
      (mask[r][c] == 1 <==> (r, c) in polygon(rows, cols, h, w)) && (mask[r][c] == 0 || mask[r][c] == 1)
  {
    var fill := polygon(rows, cols, h, w);
    seq(h, r => seq(w, c => if (r, c) in fill then 1 else 0))
  }

  /** The column of y coordinates of the vertices (`mask_points[:, 1]`). */
  function Ys(points: seq<Point>): (ys: seq<nat>)
    ensures |ys| == |points| && forall i :: 0 <= i < |points| ==> ys[i] == points[i].y
  {
    seq(|points|, i requires 0 <= i < |points| => points[i].y)
  }

  /** The column of x coordinates of the vertices (`mask_points[:, 0]`). */
  function Xs(points: seq<Point>): (xs: seq<nat>)
    ensures |xs| == |points| && forall i :: 0 <= i < |points| ==> xs[i] == points[i].x
  {
    seq(|points|, i requires 0 <= i < |points| => points[i].x)
  }

  /** Decodes the shapes in order, appending one class name, one score and one
      mask per shape. A shape without `scores` gets None, one with it gets its
      `cls` value; a `rectangle` gets the box mask of its first two corners,
      and every other shape kind goes to the polygon rasteriser. */
  method Json2Results(shapes: seq<Shape>, h: nat, w: nat, polygon: PolygonFill) returns (results: Results)
    // what the decoder reads without failing: a `scores` object has a `cls`
    // entry, a rectangle has two corners, any other shape at least one vertex
    // (an empty vertex list cannot be sliced by column)
    requires forall i :: 0 <= i < |shapes| && shapes[i].scores.Some? ==> ClassScoreKey in shapes[i].scores.value
    requires forall i :: 0 <= i < |shapes| && shapes[i].shapeType == Rectangle ==> |shapes[i].points| >= 2
    requires forall i :: 0 <= i < |shapes| ==> |shapes[i].points| >= 1
    ensures |results.classNames| == |results.scores| == |results.masks| == |shapes|
    ensures forall i :: 0 <= i < |shapes| ==> results.classNames[i] == shapes[i].className
    ensures forall i :: 0 <= i < |shapes| ==>
      results.scores[i] == if shapes[i].scores.Some? then Some(shapes[i].scores.value[ClassScoreKey]) else None
    ensures forall i :: 0 <= i < |shapes| && shapes[i].shapeType == Rectangle ==>
      results.masks[i] == RectangleMask(shapes[i].points[0], shapes[i].points[1], h, w)
    ensures forall i :: 0 <= i < |shapes| && shapes[i].shapeType != Rectangle ==>
      results.masks[i] == PolyToMask(Ys(shapes[i].points), Xs(shapes[i].points), h, w, polygon)
    ensures Uniform(results.masks, h, w)
  {
    var classNames: seq<string> := [];
    var scores: seq<Option<real>> := [];
    var masks: seq<Grid> := [];
    for i := 0 to |shapes|
      invariant |classNames| == |scores| == |masks| == i
      invariant forall j :: 0 <= j < i ==> classNames[j] == shapes[j].className
      invariant forall j :: 0 <= j < i ==>
        scores[j] == if shapes[j].scores.Some? then Some(shapes[j].scores.value[ClassScoreKey]) else None
      invariant forall j :: 0 <= j < i && shapes[j].shapeType == Rectangle ==>
        masks[j] == RectangleMask(shapes[j].points[0], shapes[j].points[1], h, w)
      invariant forall j :: 0 <= j < i && shapes[j].shapeType != Rectangle ==>
        masks[j] == PolyToMask(Ys(shapes[j].points), Xs(shapes[j].points), h, w, polygon)
      invariant Uniform(masks, h, w)
    {
      var shape := shapes[i];
      classNames := classNames + [shape.className];
      if shape.scores.Some? {
        scores := scores + [Some(shape.scores.value[ClassScoreKey])];
      } else {
        scores := scores + [None];
      }
      var mask: Grid;
      if shape.shapeType == Rectangle {
        mask := RectangleMask(shape.points[0], shape.points[1], h, w);
      } else {
        mask := PolyToMask(Ys(shape.points), Xs(shape.points), h, w, polygon);
      }
      masks := masks + [mask];
    }
    results := Results(classNames, scores, masks);
  }

  /** The rectangle with corners (1, 1) and (3, 3) on a 5 by 5 grid covers
      exactly rows 1 and 2 by columns 1 and 2. */
  lemma RectangleExample()
    ensures var mask := RectangleMask(Point(1, 1), Point(3, 3), 5, 5);
      forall r, c :: 0 <= r < 5 && 0 <= c < 5 ==> (mask[r][c] == 1 <==> (r == 1 || r == 2) && (c == 1 || c == 2))
  {
  }
}
