# Segmentation bookkeeping of the food point-cloud demo

The demo loads a colour image, a depth map and a labelme-style JSON
annotation, and shows one coloured point cloud per detected food item. This
project models the two pieces of integer and boolean grid logic between the
annotation and the point clouds, in `helper.py` (the file
`open3d_gui/helper.py` is an identical copy, line for line, so every citation
below holds for both):

- **Annotation decoder** (`json2results`, module `Annotation`): it walks the
  document's `shapes` in order and appends one class name, one optional score
  and one 0/1 mask per shape. A shape without a `scores` key gets None; one
  with it gets `scores['cls']`. A `rectangle` gets zeros with ones on the
  numpy slice `[y0:y1, x0:x1]` of its first two corners. Every other
  `shape_type` goes to `poly2mask`.
- **Instance ranker** (`get_food_mask`, module `Ranker`): it creates a label
  image of the first mask's height and width, filled with the background
  value -1. For each instance index in input order it overwrites the pixels
  where that instance's mask is 1 with the index, so later instances win
  where masks overlap. It returns the image and the distinct labels other
  than -1, in ascending order.

Grids are `seq<seq<int>>` (module `Grids`). The label image is an
`array2<int>` that `GetFoodMask` allocates and overwrites in place, one
`OverwriteWhere` pass per instance. The function `Owner` is the
specification the ranker is proved against: the owner of a pixel is the
largest index whose mask is 1 there, or -1. `OcclusionExample` is a client of
`GetFoodMask`. It checks that a plate fully covered by the food after it is
absent from the present indices.

What the code does not do, and the model does not add:
- It reads `masks[0]` before anything else (helper.py:50), so it fails on an
  empty mask list. `GetFoodMask` therefore requires at least one mask.
- Every `shape_type` other than `rectangle` takes the polygon branch
  (helper.py:118, helper.py:121-122). No shape kind is rejected, and
  `Json2Results` does the same.
- No grid shapes are checked. The masks are built on the grid passed in, and
  `GetFoodMask` requires the stacked masks to share one shape, which the
  stacking into one array needs.

## Model

| member | source | states |
|---|---|---|
| Annotation.SliceRange | helper.py:120 | the slice `start:stop` on an axis of length n selects exactly the indices i < n with start <= i < stop: both ends are clipped to n, and the range is empty when stop <= start |
| Annotation.RectangleMask | helper.py:117-120 | a rectangle's mask has the grid's shape; it is 1 exactly on rows [y0, y1) by columns [x0, x1) inside the grid and 0 elsewhere; it is all 0 when y1 <= y0 or x1 <= x0 |
| Annotation.PolyToMask | helper.py:64-86 | the polygon mask has the grid's shape, holds only 0 and 1, and is 1 exactly at the pixels the rasteriser fills |
| Annotation.Json2Results | helper.py:109-124 | the three lists have one entry per shape, in input order: the shape's label; None without a `scores` key and `scores['cls']` with one; the rectangle mask of the first two corners for `rectangle` and the polygon mask for every other kind; every mask has the grid's shape |
| Annotation.RectangleExample | helper.py:117-120 | corners (1, 1) and (3, 3) on a 5 by 5 grid give ones exactly at rows {1, 2} by columns {1, 2} |
| Ranker.Owner | helper.py:54-57 | after the first k masks are written, a pixel holds -1 exactly when none of them is 1 there; otherwise it holds an index below k whose mask is 1 there, and no later mask below k is 1 there |
| Ranker.OwnerIsLastWriter | helper.py:54-57 | instance j owns a pixel if and only if its mask is 1 there and no later instance's mask is |
| Ranker.FullyOccludedAbsent | helper.py:56-60 | an instance whose every pixel is also covered by a later instance owns no pixel of the label image |
| Ranker.OverwriteWhere | helper.py:57 | `ranked[mask == 1] = idx`: pixels where the mask is 1 take idx, all others keep their previous label |
| Ranker.Occurs | helper.py:59 | the scan reports true exactly when the label appears somewhere in the image |
| Ranker.PresentIndices | helper.py:59-60 | the result is strictly ascending, lies in [0, n), and holds a value exactly when it is not -1 and appears in the image |
| Ranker.GetFoodMask | helper.py:49-62 | the label image has the first mask's height and width; every pixel holds its Owner over all instances (-1 where no mask covers it, otherwise the last instance covering it); the indices are strictly ascending, fit int16, and are exactly the labels other than -1 present in the image; a fully occluded instance is absent from them; the image is a new array |
| Ranker.DecodedMasksAreRankable | tech_blog_demo.py:189-194 | masks decoded onto one grid meet GetFoodMask's requirement that every mask has the first mask's height and width |

## Left out

- `pix2point` (helper.py:4-35): the floating-point back-projection with lens distortion. Real arithmetic would not reflect float behaviour, and its only exact facts (shape kept, z equals depth) are trivial.
- The rasteriser inside `poly2mask` (`draw.polygon` of scikit-image) is a function parameter (`PolygonFill`). Its fill rule is not modelled; `poly2mask`'s own zeros-then-set logic is.
- Vertex coordinates are non-negative integers. The float-to-int64 truncation and numpy's wrap-around for negative slice bounds are not modelled.
- The label image holds `int` where the code uses a float array. The values are small integers, which floats represent exactly.
- Json2Results: requires every `scores` object to have a `cls` entry; without one the code raises KeyError (helper.py:113).
- Json2Results: requires a rectangle to have at least two points; with fewer the code raises IndexError (helper.py:120).
- Json2Results: requires every shape to have at least one point; with none the column slice raises IndexError (helper.py:122).
- GetFoodMask: requires at least one mask; on an empty list the code raises IndexError at `masks[0]` (helper.py:50).
- GetFoodMask: requires no more class names than masks; otherwise `masks[idx]` raises IndexError (helper.py:57).
- GetFoodMask: requires all masks to share the first mask's shape; otherwise stacking them into one array fails (helper.py:127), and a mismatched boolean index would fail at helper.py:57.
- GetFoodMask: requires at most 32768 instances, so that every label fits the int16 cast; beyond that the cast would wrap.
- GetFoodMask: `np.unique` is modelled by scanning the candidate labels 0 .. n-1 in ascending order (`PresentIndices`). Every label lies in [-1, n), so the result is the same.
- A mask with no rows reports width 0 here, while numpy keeps `shape[1]`. The label image is empty either way.
- Json2Results: a score is a `real`; the code passes through whatever JSON value `scores['cls']` holds. Document keys other than `shapes`, and entries of the wrong JSON type, are not modelled.
- The final conversion of the three lists to numpy arrays (helper.py:126-127) changes no value and is not modelled.
- The GUI (`AppWindow`), file loading, the colour normalisation `(png - 255) / 255` and the 3D label placement by `argsort` in `tech_blog_demo.py` are display and I/O code.
