/** The instance ranker (`get_food_mask`): it merges the decoded instance
    masks into one label image, where later instances overwrite earlier ones
    (input-order overwrite), and lists the instance indices that survive. */
module Ranker {
  import opened Wrappers
  import opened Grids
  import opened Annotation

  /** The label of a pixel that no instance covers. */
  const NonFoodValue := -1

  /** The largest value of the `int16` type the present indices are cast to. */
  const Int16Max := 32767

  /** The owner of pixel (`r`, `c`) after the first `k` masks have been written:
      the largest index `j < k` whose mask is 1 there, or NonFoodValue when no
      such mask exists. */
  function Owner(masks: seq<Grid>, k: nat, r: nat, c: nat): (o: int)
    requires k <= |masks|
    requires forall j :: 0 <= j < k ==> r < |masks[j]| && c < |masks[j][r]|
    ensures NonFoodValue <= o < k
    ensures o != NonFoodValue ==> masks[o][r][c] == 1
    ensures forall j :: o < j < k ==> masks[j][r][c] != 1
    ensures o == NonFoodValue <==> forall j :: 0 <= j < k ==> masks[j][r][c] != 1
    decreases k
  {
    if k == 0 then NonFoodValue
    else if masks[k - 1][r][c] == 1 then k - 1
    else Owner(masks, k - 1, r, c)
  }

  /** Last writer wins: instance `j` owns a pixel exactly when its mask is 1
      there and no later instance's mask is. */
  lemma OwnerIsLastWriter(masks: seq<Grid>, n: nat, j: nat, r: nat, c: nat)
    requires j < n <= |masks|
    requires forall i :: 0 <= i < n ==> r < |masks[i]| && c < |masks[i][r]|
    ensures Owner(masks, n, r, c) == j <==>
      masks[j][r][c] == 1 && forall k :: j < k < n ==> masks[k][r][c] != 1
  {
  }

  /** Every pixel of instance `j`'s `h` by `w` mask is also covered by some
      later instance below `n`. */
  ghost predicate FullyOccluded(masks: seq<Grid>, n: nat, j: nat, h: nat, w: nat)
    requires j < n <= |masks| && Uniform(masks, h, w)
  {
    forall r, c :: 0 <= r < h && 0 <= c < w && masks[j][r][c] == 1 ==>
      exists k :: j < k < n && masks[k][r][c] == 1
  }

  /** An instance whose every pixel is also covered by some later instance
      owns no pixel of the label image, so it is not among the present indices. */
  lemma FullyOccludedAbsent(masks: seq<Grid>, n: nat, j: nat, h: nat, w: nat)
    requires j < n <= |masks|
    requires Uniform(masks, h, w)
    requires FullyOccluded(masks, n, j, h, w)
    ensures forall r, c :: 0 <= r < h && 0 <= c < w ==> Owner(masks, n, r, c) != j
  {
  }

  /** One overwrite pass, `ranked[mask == 1] = idx`: every pixel where `mask`
      is 1 takes `idx`, every other pixel keeps its label. */
  method OverwriteWhere(ranked: array2<int>, mask: Grid, idx: int)
    requires IsGrid(mask, ranked.Length0, ranked.Length1)
    modifies ranked
    ensures forall r, c :: 0 <= r < ranked.Length0 && 0 <= c < ranked.Length1 ==>
      ranked[r, c] == if mask[r][c] == 1 then idx else old(ranked[r, c])
  {
    var r := 0;
    while r < ranked.Length0
      invariant 0 <= r <= ranked.Length0
      invariant forall i, j :: 0 <= i < r && 0 <= j < ranked.Length1 ==>
        ranked[i, j] == if mask[i][j] == 1 then idx else old(ranked[i, j])
      invariant forall i, j :: r <= i < ranked.Length0 && 0 <= j < ranked.Length1 ==>
        ranked[i, j] == old(ranked[i, j])
    {
      var c := 0;
      while c < ranked.Length1
        invariant 0 <= c <= ranked.Length1
        invariant forall i, j :: 0 <= i < r && 0 <= j < ranked.Length1 ==>
          ranked[i, j] == if mask[i][j] == 1 then idx else old(ranked[i, j])
        invariant forall j :: 0 <= j < c ==>
          ranked[r, j] == if mask[r][j] == 1 then idx else old(ranked[r, j])
        invariant forall j :: c <= j < ranked.Length1 ==> ranked[r, j] == old(ranked[r, j])
        invariant forall i, j :: r < i < ranked.Length0 && 0 <= j < ranked.Length1 ==>
          ranked[i, j] == old(ranked[i, j])
      {
        if mask[r][c] == 1 {
          ranked[r, c] := idx;
        }
        c := c + 1;
      }
      r := r + 1;
    }
  }

  /** Whether label `v` appears anywhere in the label image. */
  method Occurs(ranked: array2<int>, v: int) returns (found: bool)
    ensures found <==> exists r, c :: 0 <= r < ranked.Length0 && 0 <= c < ranked.Length1 && ranked[r, c] == v
  {
    var r := 0;
    while r < ranked.Length0
      invariant 0 <= r <= ranked.Length0
      invariant forall i, j :: 0 <= i < r && 0 <= j < ranked.Length1 ==> ranked[i, j] != v
    {
      var c := 0;
      while c < ranked.Length1
        invariant 0 <= c <= ranked.Length1
        invariant forall i, j :: 0 <= i < r && 0 <= j < ranked.Length1 ==> ranked[i, j] != v
        invariant forall j :: 0 <= j < c ==> ranked[r, j] != v
      {
        if ranked[r, c] == v {
          return true;
        }
        c := c + 1;
      }
      r := r + 1;
    }
    return false;
  }

  /** The distinct labels of the image other than NonFoodValue, ascending
      (`np.unique` followed by dropping NonFoodValue). Every label is taken to
      lie in `[NonFoodValue, n)`, so the candidates `0 .. n - 1` are scanned in
      order. */
  method PresentIndices(ranked: array2<int>, n: nat) returns (indices: seq<int>)
    requires forall r, c :: 0 <= r < ranked.Length0 && 0 <= c < ranked.Length1 ==>
      NonFoodValue <= ranked[r, c] < n
    ensures forall i, j :: 0 <= i < j < |indices| ==> indices[i] < indices[j]
    ensures forall i :: 0 <= i < |indices| ==> 0 <= indices[i] < n
    ensures forall v :: v in indices <==> (v != NonFoodValue &&
      exists r, c :: 0 <= r < ranked.Length0 && 0 <= c < ranked.Length1 && ranked[r, c] == v)
  {
    indices := [];
    for v := 0 to n
      invariant forall i, j :: 0 <= i < j < |indices| ==> indices[i] < indices[j]
      invariant forall i :: 0 <= i < |indices| ==> 0 <= indices[i] < v
      invariant forall u :: 0 <= u < v ==> (u in indices <==>
        exists r, c :: 0 <= r < ranked.Length0 && 0 <= c < ranked.Length1 && ranked[r, c] == u)
    {
      var found := Occurs(ranked, v);
      if found {
        indices := indices + [v];
      }
    }
  }

  /** Builds the label image of `results` and its present instance indices.
      The image has the height and width of the first mask and starts as
      NonFoodValue everywhere; instance `idx` then overwrites the pixels of
      its mask, for `idx` in input order over the class names. The present
      indices are the distinct labels other than NonFoodValue, ascending;
      they all fit the `int16` cast. */
  method GetFoodMask(results: Results) returns (ranked: array2<int>, foodIndices: seq<int>)
    requires |results.masks| >= 1
    requires |results.classNames| <= |results.masks|
    requires Uniform(results.masks, |results.masks[0]|, Width(results.masks[0]))
    requires |results.classNames| <= Int16Max + 1
    ensures fresh(ranked)
    ensures ranked.Length0 == |results.masks[0]| && ranked.Length1 == Width(results.masks[0])
    ensures forall r, c :: 0 <= r < ranked.Length0 && 0 <= c < ranked.Length1 ==>
      ranked[r, c] == Owner(results.masks, |results.classNames|, r, c)
    ensures forall i, j :: 0 <= i < j < |foodIndices| ==> foodIndices[i] < foodIndices[j]
    ensures forall i :: 0 <= i < |foodIndices| ==> 0 <= foodIndices[i] < |results.classNames| <= Int16Max + 1
    ensures forall v :: v in foodIndices <==> (v != NonFoodValue &&
      exists r, c :: 0 <= r < ranked.Length0 && 0 <= c < ranked.Length1 && ranked[r, c] == v)
    ensures forall j :: (0 <= j < |results.classNames| &&
      FullyOccluded(results.masks, |results.classNames|, j, ranked.Length0, ranked.Length1)) ==>
      j !in foodIndices
  {
    var masks, n := results.masks, |results.classNames|;
    var h, w := |masks[0]|, Width(masks[0]);
    ranked := new int[h, w]((r, c) => NonFoodValue);
    for idx := 0 to n
      invariant ranked.Length0 == h && ranked.Length1 == w
      invariant forall r, c :: 0 <= r < h && 0 <= c < w ==> ranked[r, c] == Owner(masks, idx, r, c)
    {
      OverwriteWhere(ranked, masks[idx], idx);
    }
    foodIndices := PresentIndices(ranked, n);
    forall j | 0 <= j < n && FullyOccluded(masks, n, j, h, w)
      ensures j !in foodIndices
    {
      FullyOccludedAbsent(masks, n, j, h, w);
    }
  }

  /** Masks decoded onto one `h` by `w` grid meet the shape requirement of
      GetFoodMask: every mask has the height and width of the first one. */
  lemma DecodedMasksAreRankable(masks: seq<Grid>, h: nat, w: nat)
    requires |masks| >= 1 && Uniform(masks, h, w)
    ensures Uniform(masks, |masks[0]|, Width(masks[0]))
  {
  }

  /** A plate fully covered by the food placed after it: the plate's index is
      absent and the food's index is present. */
  method OcclusionExample() {
    var plate: Grid := [[1, 1], [1, 0]];
    var food: Grid := [[1, 1], [1, 1]];
    var results := Results(["plate", "rice"], [None, None], [plate, food]);
    var ranked, foodIndices := GetFoodMask(results);
    assert ranked[0, 0] == 1;
    assert forall r, c :: 0 <= r < 2 && 0 <= c < 2 ==> ranked[r, c] == 1;
    assert 0 !in foodIndices && 1 in foodIndices;
  }
}
