/** The resampling loops of interpolate.py. Each destination cell `(i, j)` is
    mapped back to a source coordinate (calc_coordinates, taken here as the
    parameter `inverseMap`, already bound to the inverse transformation), and
    the destination grid is filled in place from the source grid.

    Coordinates are `(row, column)` pairs, as in the source. */
module Interpolate {

  function Abs(x: real): real
  {
    if x < 0.0 then -x else x
  }

  // ---------------------------------------------------------------------------
  // Rounding and fractional part

  /** Python's `round` on a float: the nearest integer, ties going to the
      even neighbour. */
  function Round(x: real): (r: int)
    ensures -0.5 <= x - r as real <= 0.5
    ensures (x - r as real == 0.5 || x - r as real == -0.5) ==> r % 2 == 0
  {
    var f := x.Floor;
    var d := x - f as real;
    if d < 0.5 then f
    else if d > 0.5 then f + 1
    else if f % 2 == 0 then f
    else f + 1
  }

  /** The two properties in Round's contract pin the result down: any integer
      that has them is `Round(x)`. */
  lemma RoundUnique(x: real, k: int)
    requires -0.5 <= x - k as real <= 0.5
    requires (x - k as real == 0.5 || x - k as real == -0.5) ==> k % 2 == 0
    ensures k == Round(x)
  {
  }

  /** fract (interpolate.py:34-35): the part of `x` above its floor. */
  function Fract(x: real): (r: real)
    ensures 0.0 <= r < 1.0
    ensures (x - r).Floor as real == x - r
  {
    x - x.Floor as real
  }

  /** Splitting `x` into an integer and a part in `[0, 1)` can be done in one
      way only: the integer is `floor(x)` and the rest is `Fract(x)`. */
  lemma FractUnique(x: real, k: int, f: real)
    requires x == k as real + f && 0.0 <= f < 1.0
    ensures k == x.Floor && f == Fract(x)
  {
    assert k as real <= x < k as real + 1.0;
    assert x.Floor as real <= x < x.Floor as real + 1.0;
  }

  // ---------------------------------------------------------------------------
  // Nearest neighbour

  /** does_exceed is imported from transform (interpolate.py:3), which does
      not define it; it is taken as the evident bounds test: `(i, j)` lies
      outside `[0, rows) × [0, cols)`. */
  predicate DoesExceed(i: int, j: int, rows: int, cols: int)
  {
    !(0 <= i < rows && 0 <= j < cols)
  }

  /** The value nearest-neighbour sampling stores for source coordinate `p`:
      the source pixel at the rounded coordinate when it lies inside the
      source, otherwise the cell's `background` (its value before the loop). */
  function NearestAt<T>(original: array2<T>, p: (real, real), background: T): (v: T)
    reads original
    ensures v == background || exists a, b :: 0 <= a < original.Length0 && 0 <= b < original.Length1 && v == original[a, b]
    ensures !DoesExceed(Round(p.0), Round(p.1), original.Length0, original.Length1) ==>
              v == original[Round(p.0), Round(p.1)]
    ensures DoesExceed(Round(p.0), Round(p.1), original.Length0, original.Length1) ==> v == background
  {
    var i, j := Round(p.0), Round(p.1);
    if DoesExceed(i, j, original.Length0, original.Length1) then background else original[i, j]
  }

  /** interpolation_nearest: every destination cell whose rounded source
      coordinate passes the bounds test receives that source pixel; every
      other cell keeps its value. The source grid is not changed. */
  method InterpolationNearest<T>(newImg: array2<T>, original: array2<T>, inverseMap: (int, int) -> (real, real))
    requires newImg != original
    modifies newImg
    ensures unchanged(original)
    ensures forall i, j :: 0 <= i < newImg.Length0 && 0 <= j < newImg.Length1 ==>
              newImg[i, j] == NearestAt(original, inverseMap(i, j), old(newImg[i, j]))
  {
    var newRows, newCols := newImg.Length0, newImg.Length1;
    var oldRows, oldCols := original.Length0, original.Length1;
    var i := 0;
    while i < newRows
      invariant 0 <= i <= newRows
      invariant forall a, b :: 0 <= a < i && 0 <= b < newCols ==>
                  newImg[a, b] == NearestAt(original, inverseMap(a, b), old(newImg[a, b]))
      invariant forall a, b :: i <= a < newRows && 0 <= b < newCols ==> newImg[a, b] == old(newImg[a, b])
    {
      var j := 0;
      while j < newCols
        invariant 0 <= j <= newCols
        invariant forall a, b :: 0 <= a < i && 0 <= b < newCols ==>
                    newImg[a, b] == NearestAt(original, inverseMap(a, b), old(newImg[a, b]))
        invariant forall b :: 0 <= b < j ==>
                    newImg[i, b] == NearestAt(original, inverseMap(i, b), old(newImg[i, b]))
        invariant forall a, b :: i <= a < newRows && 0 <= b < newCols && (a > i || b >= j) ==>
                    newImg[a, b] == old(newImg[a, b])
      {
        var (oldI, oldJ) := inverseMap(i, j);
        var ri, rj := Round(oldI), Round(oldJ);
        if !DoesExceed(ri, rj, oldRows, oldCols) {
          newImg[i, j] := original[ri, rj];
        }
        j := j + 1;
      }
      i := i + 1;
    }
  }

  // ---------------------------------------------------------------------------
  // Bilinear

  /** The pair of neighbouring indices around the rounded coordinate `r` on an
      axis of `size` samples (interpolate.py:44-45 for rows, 46-47 for
      columns): the first is one below `r` (but not below 0), the second the
      next one unless the first is already the last index. */
  function Neighbours(r: int, size: int): (n: (int, int))
    requires 1 <= size && 0 <= r <= size
    ensures 0 <= n.0 <= n.1 <= size - 1
    ensures n.1 == n.0 || n.1 == n.0 + 1
    ensures n.1 == n.0 <==> n.0 == size - 1
    ensures n.0 <= r <= n.0 + 1
    ensures r == 0 ==> n.0 == 0
    ensures 0 < r ==> n.0 == r - 1
  {
    var first := if r == 0 then 0 else r - 1;
    var second := if first == size - 1 then first else first + 1;
    (first, second)
  }

  /** The blend weight of interpolate.py:48-49: the distance of coordinate `c`
      from the centre `k + 0.5` of sample `k`. */
  function Weight(c: real, k: int): (w: real)
    ensures 0.0 <= w
    ensures c == k as real + 0.5 + w || c == k as real + 0.5 - w
    ensures k as real - 0.5 <= c <= k as real + 1.5 ==> w <= 1.0
  {
    Abs(c - k as real - 0.5)
  }

  /** `(1 - t)·a + t·b`. */
  function Lerp(a: real, b: real, t: real): real
  {
    (1.0 - t) * a + t * b
  }

  /** interpolate.py:51-53: blend along the rows with `w`, then between the
      bottom and the top row with `h` (`h` weights the TOP row). */
  function Blend(tl: real, tr: real, bl: real, br: real, w: real, h: real): (v: real)
    ensures tl == tr == bl == br ==> v == tl
  {
    Lerp(Lerp(bl, br, w), Lerp(tl, tr, w), h)
  }

  /** The four sample coefficients of the blend, and that they sum to 1. */
  lemma BlendCoefficients(tl: real, tr: real, bl: real, br: real, w: real, h: real)
    ensures Blend(tl, tr, bl, br, w, h)
         == (1.0 - h) * (1.0 - w) * bl + (1.0 - h) * w * br + h * (1.0 - w) * tl + h * w * tr
    ensures (1.0 - h) * (1.0 - w) + (1.0 - h) * w + h * (1.0 - w) + h * w == 1.0
  {
  }

  /** With `t` in `[0, 1]`, `Lerp(a, b, t)` stays within any range holding
      `a` and `b`. */
  lemma LerpWithin(a: real, b: real, t: real, lo: real, hi: real)
    requires 0.0 <= t <= 1.0
    requires lo <= a <= hi && lo <= b <= hi
    ensures lo <= Lerp(a, b, t) <= hi
  {
    NonNegProduct(1.0 - t, a - lo);
    NonNegProduct(t, b - lo);
    NonNegProduct(1.0 - t, hi - a);
    NonNegProduct(t, hi - b);
    LerpOffset(a, b, t, lo);
    LerpOffset(a, b, t, hi);
  }

  lemma LerpOffset(a: real, b: real, t: real, c: real)
    ensures Lerp(a, b, t) - c == (1.0 - t) * (a - c) + t * (b - c)
  {
  }

  lemma NonNegProduct(x: real, y: real)
    requires 0.0 <= x && 0.0 <= y
    ensures 0.0 <= x * y
  {
  }

  /** With both weights in `[0, 1]` the blend is a convex combination: it stays
      within any range that holds the four samples. */
  lemma BlendWithin(tl: real, tr: real, bl: real, br: real, w: real, h: real, lo: real, hi: real)
    requires 0.0 <= w <= 1.0 && 0.0 <= h <= 1.0
    requires lo <= tl <= hi && lo <= tr <= hi && lo <= bl <= hi && lo <= br <= hi
    ensures lo <= Blend(tl, tr, bl, br, w, h) <= hi
  {
    LerpWithin(bl, br, w, lo, hi);
    LerpWithin(tl, tr, w, lo, hi);
    LerpWithin(Lerp(bl, br, w), Lerp(tl, tr, w), h, lo, hi);
  }

  /** The source coordinates for which the bilinear code indexes inside the
      source grid: a non-empty grid and rounded coordinates in `[0, size]`. */
  predicate BilinearDefined(p: (real, real), rows: int, cols: int)
  {
    1 <= rows && 1 <= cols && 0 <= Round(p.0) <= rows && 0 <= Round(p.1) <= cols
  }

  /** The value interpolation_bilinear stores for source coordinate `p`. */
  function BilinearAt(original: array2<real>, p: (real, real)): real
    reads original
    requires BilinearDefined(p, original.Length0, original.Length1)
  {
    var (top, bottom) := Neighbours(Round(p.0), original.Length0);
    var (left, right) := Neighbours(Round(p.1), original.Length1);
    Blend(original[top, left], original[top, right], original[bottom, left], original[bottom, right],
          Weight(p.1, left), Weight(p.0, bottom))
  }

  /** interpolation_bilinear: every destination cell, in row-major order, is
      overwritten with the bilinear value at its source coordinate; none is
      skipped. The source grid is not changed. */
  method InterpolationBilinear(newImg: array2<real>, original: array2<real>, inverseMap: (int, int) -> (real, real))
    requires newImg != original
    requires forall i, j :: 0 <= i < newImg.Length0 && 0 <= j < newImg.Length1 ==>
               BilinearDefined(inverseMap(i, j), original.Length0, original.Length1)
    modifies newImg
    ensures unchanged(original)
    ensures forall i, j :: 0 <= i < newImg.Length0 && 0 <= j < newImg.Length1 ==>
              newImg[i, j] == BilinearAt(original, inverseMap(i, j))
  {
    var newRows, newCols := newImg.Length0, newImg.Length1;
    var oldRows, oldCols := original.Length0, original.Length1;
    var i := 0;
    while i < newRows
      invariant 0 <= i <= newRows
      invariant forall a, b :: 0 <= a < i && 0 <= b < newCols ==>
                  newImg[a, b] == BilinearAt(original, inverseMap(a, b))
    {
      var j := 0;
      while j < newCols
        invariant 0 <= j <= newCols
        invariant forall a, b :: 0 <= a < i && 0 <= b < newCols ==>
                    newImg[a, b] == BilinearAt(original, inverseMap(a, b))
        invariant forall b :: 0 <= b < j ==> newImg[i, b] == BilinearAt(original, inverseMap(i, b))
      {
        var (oldI, oldJ) := inverseMap(i, j);
        var (topI, bottomI) := Neighbours(Round(oldI), oldRows);
        var (leftJ, rightJ) := Neighbours(Round(oldJ), oldCols);
        var width := Weight(oldJ, leftJ);
        var height := Weight(oldI, bottomI);
        var intensityTop := Lerp(original[topI, leftJ], original[topI, rightJ], width);
        var intensityBottom := Lerp(original[bottomI, leftJ], original[bottomI, rightJ], width);
        newImg[i, j] := Lerp(intensityBottom, intensityTop, height);
        j := j + 1;
      }
      i := i + 1;
    }
  }

  /** The column weight always lies in `[0, 1]`. */
  lemma WidthInUnit(c: real, size: int)
    requires 1 <= size && 0 <= Round(c) <= size
    ensures 0.0 <= Weight(c, Neighbours(Round(c), size).0) <= 1.0
  {
  }

  /** The row weight lies in `[0, 1]` except on the top edge of a grid of two
      or more rows. */
  lemma HeightInUnit(c: real, size: int)
    requires 1 <= size && 0 <= Round(c) <= size
    requires Round(c) != 0 || size == 1
    ensures 0.0 <= Weight(c, Neighbours(Round(c), size).1) <= 1.0
  {
  }

  /** On the top edge of a grid of two or more rows, the row weight lies in
      `[1, 2]`, so the bottom row gets the weight `1 - height <= 0`. */
  lemma HeightAtTopEdge(c: real, size: int)
    requires 2 <= size && Round(c) == 0
    ensures 1.0 <= Weight(c, Neighbours(Round(c), size).1) <= 2.0
  {
  }

  /** Away from the top edge, the bilinear value stays within any range that
      holds every source pixel. */
  lemma BilinearWithinRange(original: array2<real>, p: (real, real), lo: real, hi: real)
    requires BilinearDefined(p, original.Length0, original.Length1)
    requires Round(p.0) != 0 || original.Length0 == 1
    requires forall a, b :: 0 <= a < original.Length0 && 0 <= b < original.Length1 ==> lo <= original[a, b] <= hi
    ensures lo <= BilinearAt(original, p) <= hi
  {
    var (top, bottom) := Neighbours(Round(p.0), original.Length0);
    var (left, right) := Neighbours(Round(p.1), original.Length1);
    WidthInUnit(p.1, original.Length1);
    HeightInUnit(p.0, original.Length0);
    BlendWithin(original[top, left], original[top, right], original[bottom, left], original[bottom, right],
                Weight(p.1, left), Weight(p.0, bottom), lo, hi);
  }

  /** A uniform source grid is reproduced exactly, at every defined coordinate
      (the four coefficients always sum to 1). */
  lemma BilinearOfUniform(original: array2<real>, p: (real, real), v: real)
    requires BilinearDefined(p, original.Length0, original.Length1)
    requires forall a, b :: 0 <= a < original.Length0 && 0 <= b < original.Length1 ==> original[a, b] == v
    ensures BilinearAt(original, p) == v
  {
    var (top, bottom) := Neighbours(Round(p.0), original.Length0);
    var (left, right) := Neighbours(Round(p.1), original.Length1);
    assert original[top, left] == v && original[top, right] == v;
    assert original[bottom, left] == v && original[bottom, right] == v;
  }

  /** On the top edge the value can leave the range of the samples: a 2×1
      grid holding 0 over 200, sampled at `(0, 0)`, gives -100. */
  lemma BilinearTopEdgeOvershoots(original: array2<real>)
    requires original.Length0 == 2 && original.Length1 == 1
    requires original[0, 0] == 0.0 && original[1, 0] == 200.0
    ensures BilinearDefined((0.0, 0.0), 2, 1)
    ensures BilinearAt(original, (0.0, 0.0)) == -100.0
  {
    assert Round(0.0) == 0;
    assert Neighbours(0, 2) == (0, 1);
    assert Neighbours(0, 1) == (0, 0);
    assert Weight(0.0, 0) == 0.5;
    assert Weight(0.0, 1) == 1.5;
  }

  /** The bilinear value with the row weight measured from the top row and
      applied to the bottom one, as the column weight is measured from the
      left column and applied to the right one. */
  function BilinearAtCorrected(original: array2<real>, p: (real, real)): real
    reads original
    requires BilinearDefined(p, original.Length0, original.Length1)
  {
    var (top, bottom) := Neighbours(Round(p.0), original.Length0);
    var (left, right) := Neighbours(Round(p.1), original.Length1);
    var w := Weight(p.1, left);
    Lerp(Lerp(original[top, left], original[top, right], w),
         Lerp(original[bottom, left], original[bottom, right], w),
         Weight(p.0, top))
  }

  /** The corrected value stays within the range of the source pixels at
      every defined coordinate, the top edge included. */
  lemma CorrectedWithinRange(original: array2<real>, p: (real, real), lo: real, hi: real)
    requires BilinearDefined(p, original.Length0, original.Length1)
    requires forall a, b :: 0 <= a < original.Length0 && 0 <= b < original.Length1 ==> lo <= original[a, b] <= hi
    ensures lo <= BilinearAtCorrected(original, p) <= hi
  {
    var (top, bottom) := Neighbours(Round(p.0), original.Length0);
    var (left, right) := Neighbours(Round(p.1), original.Length1);
    var w := Weight(p.1, left);
    WidthInUnit(p.1, original.Length1);
    assert 0.0 <= Weight(p.0, top) <= 1.0;
    LerpWithin(original[top, left], original[top, right], w, lo, hi);
    LerpWithin(original[bottom, left], original[bottom, right], w, lo, hi);
    LerpWithin(Lerp(original[top, left], original[top, right], w),
               Lerp(original[bottom, left], original[bottom, right], w), Weight(p.0, top), lo, hi);
  }

  /** Away from the top edge the corrected value is the one the source
      computes. */
  lemma CorrectedAgreesAwayFromTopEdge(original: array2<real>, p: (real, real))
    requires BilinearDefined(p, original.Length0, original.Length1)
    requires Round(p.0) != 0 || original.Length0 == 1
    ensures BilinearAtCorrected(original, p) == BilinearAt(original, p)
  {
    var (top, bottom) := Neighbours(Round(p.0), original.Length0);
    var (left, right) := Neighbours(Round(p.1), original.Length1);
    var w := Weight(p.1, left);
    var upper := Lerp(original[top, left], original[top, right], w);
    var lower := Lerp(original[bottom, left], original[bottom, right], w);
    if top == bottom {
      assert upper == lower;
    } else {
      assert Weight(p.0, top) == 1.0 - Weight(p.0, bottom);
    }
  }

  // ---------------------------------------------------------------------------
  // Sampling at whole-number coordinates

  /** Nearest-neighbour sampling at a whole-number coordinate inside the grid
      gives that very pixel. */
  lemma NearestAtGridPoint<T>(original: array2<T>, i: int, j: int, background: T)
    requires 0 <= i < original.Length0 && 0 <= j < original.Length1
    ensures NearestAt(original, (i as real, j as real), background) == original[i, j]
  {
    RoundUnique(i as real, i);
    RoundUnique(j as real, j);
  }

  /** As written, bilinear sampling at a whole-number coordinate `(i, j)` away
      from the first row and column gets both weights 0.5 and returns the mean
      of the 2×2 block ending at `(i, j)`, not the pixel `(i, j)`. */
  lemma BilinearAtGridPoint(original: array2<real>, i: int, j: int)
    requires 1 <= i < original.Length0 && 1 <= j < original.Length1
    ensures BilinearDefined((i as real, j as real), original.Length0, original.Length1)
    ensures BilinearAt(original, (i as real, j as real))
         == (original[i - 1, j - 1] + original[i - 1, j] + original[i, j - 1] + original[i, j]) / 4.0
  {
    RoundUnique(i as real, i);
    RoundUnique(j as real, j);
    assert Neighbours(i, original.Length0) == (i - 1, i);
    assert Neighbours(j, original.Length1) == (j - 1, j);
    assert Weight(i as real, i) == 0.5;
    assert Weight(j as real, j - 1) == 0.5;
  }

  /** So if calc_coordinates maps an identity transform to `(i, j)`, the
      bilinear loop does not copy the source: on the 2×2 grid
      `[[0, 0], [0, 4]]` the cell `(1, 1)` receives 1, not 4. */
  lemma BilinearIdentityBlurs(original: array2<real>)
    requires original.Length0 == 2 && original.Length1 == 2
    requires original[0, 0] == 0.0 && original[0, 1] == 0.0
    requires original[1, 0] == 0.0 && original[1, 1] == 4.0
    ensures BilinearDefined((1.0, 1.0), 2, 2)
    ensures BilinearAt(original, (1.0, 1.0)) == 1.0 != original[1, 1]
  {
    BilinearAtGridPoint(original, 1, 1);
  }

  /** Source coordinates inside the grid: `[0, rows) × [0, cols)`. */
  predicate InsideGrid(p: (real, real), rows: int, cols: int)
  {
    0.0 <= p.0 < rows as real && 0.0 <= p.1 < cols as real
  }

  /** The lower sample index of coordinate `c` and the one after it, held at
      the last index of an axis of `size` samples. */
  function FloorNeighbours(c: real, size: int): (n: (int, int))
    requires 0.0 <= c < size as real
    ensures 0 <= n.0 <= n.1 <= size - 1
    ensures n.0 as real <= c < n.0 as real + 1.0
    ensures n.1 == n.0 || n.1 == n.0 + 1
  {
    var first := c.Floor;
    assert first as real <= c < first as real + 1.0;
    (first, if first == size - 1 then first else first + 1)
  }

  /** One repair of the half-pixel disagreement, for a `calc_coordinates`
      that puts pixel `k` at coordinate `k` (as the nearest loop's rounding
      does): the coordinate's floor gives the upper-left sample, and its
      fractional part (the file's `fract`) weights the next row and the next
      column. */
  function BilinearAtIntended(original: array2<real>, p: (real, real)): real
    reads original
    requires InsideGrid(p, original.Length0, original.Length1)
  {
    var (top, bottom) := FloorNeighbours(p.0, original.Length0);
    var (left, right) := FloorNeighbours(p.1, original.Length1);
    Blend(original[top, left], original[top, right], original[bottom, left], original[bottom, right],
          Fract(p.1), 1.0 - Fract(p.0))
  }

  /** The repaired value at a whole-number coordinate is that pixel, as the
      nearest loop's is. */
  lemma IntendedAtGridPoint(original: array2<real>, i: int, j: int)
    requires 0 <= i < original.Length0 && 0 <= j < original.Length1
    ensures InsideGrid((i as real, j as real), original.Length0, original.Length1)
    ensures BilinearAtIntended(original, (i as real, j as real)) == original[i, j]
  {
    FractUnique(i as real, i, 0.0);
    FractUnique(j as real, j, 0.0);
    assert FloorNeighbours(i as real, original.Length0).0 == i;
    assert FloorNeighbours(j as real, original.Length1).0 == j;
  }

  /** The intended value stays within the range of the source pixels at
      every coordinate inside the grid. */
  lemma IntendedWithinRange(original: array2<real>, p: (real, real), lo: real, hi: real)
    requires InsideGrid(p, original.Length0, original.Length1)
    requires forall a, b :: 0 <= a < original.Length0 && 0 <= b < original.Length1 ==> lo <= original[a, b] <= hi
    ensures lo <= BilinearAtIntended(original, p) <= hi
  {
    var (top, bottom) := FloorNeighbours(p.0, original.Length0);
    var (left, right) := FloorNeighbours(p.1, original.Length1);
    BlendWithin(original[top, left], original[top, right], original[bottom, left], original[bottom, right],
                Fract(p.1), 1.0 - Fract(p.0), lo, hi);
  }

  // ---------------------------------------------------------------------------
  // Where the two loops place a pixel

  /** On one axis of `size` samples, the bilinear neighbours and weight at the
      pixel centre `k + 0.5` select sample `k` alone: either the first
      neighbour is `k` with weight 0 on the second, or the second is `k` with
      weight 1. */
  lemma CentreSelectsSample(k: int, size: int)
    requires 0 <= k < size
    ensures 0 <= Round(k as real + 0.5) <= size
    ensures var n := Neighbours(Round(k as real + 0.5), size);
            (n.0 == k && Weight(k as real + 0.5, n.0) == 0.0) || (n.1 == k && Weight(k as real + 0.5, n.0) == 1.0)
    ensures var n := Neighbours(Round(k as real + 0.5), size);
            (n.1 == k && Weight(k as real + 0.5, n.1) == 0.0) || (n.0 == k && Weight(k as real + 0.5, n.1) == 1.0)
  {
    var r := Round(k as real + 0.5);
    assert r == k || r == k + 1;
  }

  /** As written, bilinear sampling at the pixel centre `(i + 0.5, j + 0.5)`
      returns pixel `(i, j)` exactly, on the edges too: the weights of
      interpolate.py:48-49 measure from sample centres. */
  lemma BilinearAtCentre(original: array2<real>, i: int, j: int)
    requires 0 <= i < original.Length0 && 0 <= j < original.Length1
    ensures BilinearDefined((i as real + 0.5, j as real + 0.5), original.Length0, original.Length1)
    ensures BilinearAt(original, (i as real + 0.5, j as real + 0.5)) == original[i, j]
  {
    CentreSelectsSample(i, original.Length0);
    CentreSelectsSample(j, original.Length1);
    var (top, bottom) := Neighbours(Round(i as real + 0.5), original.Length0);
    var (left, right) := Neighbours(Round(j as real + 0.5), original.Length1);
    var w, h := Weight(j as real + 0.5, left), Weight(i as real + 0.5, bottom);
    var upper := Lerp(original[top, left], original[top, right], w);
    var lower := Lerp(original[bottom, left], original[bottom, right], w);
    assert w == 0.0 ==> upper == original[top, j] && lower == original[bottom, j];
    assert w == 1.0 ==> upper == original[top, j] && lower == original[bottom, j];
    assert h == 0.0 ==> Lerp(lower, upper, h) == lower;
    assert h == 1.0 ==> Lerp(lower, upper, h) == upper;
  }

  /** The nearest loop and the bilinear loop place a pixel half a sample
      apart, so for any one `calc_coordinates` one of them shifts the image.
      On a 3×1 grid holding 0, 4, 9: at `(1, 0)` nearest gives pixel 1 and
      bilinear the mean of pixels 0 and 1; at the centre `(1.5, 0.5)` of pixel
      1 bilinear gives pixel 1 and nearest pixel 2 (`round(1.5) == 2`). */
  lemma SamplersDisagree(original: array2<real>)
    requires original.Length0 == 3 && original.Length1 == 1
    requires original[0, 0] == 0.0 && original[1, 0] == 4.0 && original[2, 0] == 9.0
    ensures NearestAt(original, (1.0, 0.0), 0.0) == 4.0
    ensures BilinearDefined((1.0, 0.0), 3, 1) && BilinearAt(original, (1.0, 0.0)) == 2.0
    ensures NearestAt(original, (1.5, 0.5), 0.0) == 9.0
    ensures BilinearDefined((1.5, 0.5), 3, 1) && BilinearAt(original, (1.5, 0.5)) == 4.0
  {
    assert Round(1.0) == 1 && Round(0.0) == 0;
    assert Round(1.5) == 2 && Round(0.5) == 0;
    assert Neighbours(1, 3) == (0, 1) && Neighbours(2, 3) == (1, 2) && Neighbours(0, 1) == (0, 0);
    assert Weight(1.0, 1) == 0.5 && Weight(1.5, 2) == 1.0;
    BilinearAtCentre(original, 1, 0);
  }
}
