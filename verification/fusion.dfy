/** The integer arithmetic of `Model.postprocess` for one crop.

    Each clustering fit (KMeans or a Gaussian mixture, fitted elsewhere) is
    given as per-pixel labels in row-major order and one representative
    value per cluster. The pixels are rasterised to the representative value
    of their cluster, smoothed with the hybrid median filter, summed, the sum
    min-max normalised to 0..255 and masked at its mean. A second pair of fits
    (on a depth-blended raster computed elsewhere) is rasterised again, and the
    largest value of each of those rasters is selected as the foreground level.
 */
module Fusion {
  import opened Rasters
  import Statistics
  import HybridMedian

  /** numpy's float-to-`uint8` store for a value in range: truncation. */
  function ToByte(x: real): (n: int)
    requires 0.0 <= x < 256.0
    ensures IsByte(n)
    ensures n as real <= x < n as real + 1.0
  {
    x.Floor
  }

  /** A fitted clustering of `n` pixels: each pixel's cluster label and each
      cluster's representative value (centroid or mixture mean; for colour
      pixels, its first channel). Fitted on byte data, the representatives lie
      in [0, 255]. */
  datatype Clustering = Clustering(labels: seq<nat>, centers: seq<real>)

  predicate ValidClustering(c: Clustering, n: nat) {
    && |c.labels| == n
    && (forall p :: 0 <= p < n ==> c.labels[p] < |c.centers|)
    && (forall k :: 0 <= k < |c.centers| ==> 0.0 <= c.centers[k] <= 255.0)
  }

  /** True iff `v` is the truncated representative value of one of the clusters of `c`. */
  predicate IsRepresentative(c: Clustering, v: int) {
    exists k :: 0 <= k < |c.centers| && 0.0 <= c.centers[k] < 256.0 && v == ToByte(c.centers[k])
  }

  /** The cluster raster: pixel (i, j) holds the truncated representative value
      of the cluster of pixel i * w + j. */
  function Rasterise(c: Clustering, h: nat, w: nat): (out: seq<seq<int>>)
    requires ValidClustering(c, h * w)
    ensures HasShape(out, h, w) && IsByteGrid(out)
    ensures forall i, j :: 0 <= i < h && 0 <= j < w ==> IsRepresentative(c, out[i][j])
  {
    seq(h, i requires 0 <= i < h => RasterRow(c, h, w, i))
  }

  /** Row `i` of the cluster raster. */
  function RasterRow(c: Clustering, h: nat, w: nat, i: nat): (row: seq<int>)
    requires ValidClustering(c, h * w) && i < h
    ensures |row| == w
    ensures forall j :: 0 <= j < w ==> IsByte(row[j]) && IsRepresentative(c, row[j])
  {
    seq(w, j requires 0 <= j < w => RasterCell(c, h, w, i, j))
  }

  function RasterCell(c: Clustering, h: nat, w: nat, i: nat, j: nat): (v: int)
    requires ValidClustering(c, h * w) && i < h && j < w
    ensures IsByte(v) && IsRepresentative(c, v)
  {
    RowMajorInRange(h, w, i, j);
    var p := i * w + j;
    assert c.labels[p] < |c.centers|;
    ToByte(c.centers[c.labels[p]])
  }

  /** Reading the cluster raster back in row-major order (`reshape(-1)`) gives
      each pixel's representative value in label order: rasterisation is
      undone by flattening. */
  lemma RasteriseFlattens(c: Clustering, h: nat, w: nat)
    requires ValidClustering(c, h * w)
    ensures Flatten(Rasterise(c, h, w)) == seq(h * w, p requires 0 <= p < h * w => ToByte(c.centers[c.labels[p]]))
  {
    var g := Rasterise(c, h, w);
    FlattenLength(g, h, w);
    forall p | 0 <= p < h * w
      ensures Flatten(g)[p] == ToByte(c.centers[c.labels[p]])
    {
      FlattenPosition(g, h, w, p);
      RasterAtPosition(c, h, w, p);
    }
  }

  /** Cell (i, j) of the cluster raster holds the value of pixel i * w + j. */
  lemma RasterAt(c: Clustering, h: nat, w: nat, i: nat, j: nat)
    requires ValidClustering(c, h * w) && i < h && j < w
    ensures i * w + j < h * w
    ensures Rasterise(c, h, w)[i][j] == ToByte(c.centers[c.labels[i * w + j]])
  {
    RowMajorInRange(h, w, i, j);
    assert Rasterise(c, h, w)[i] == RasterRow(c, h, w, i);
    assert RasterRow(c, h, w, i)[j] == RasterCell(c, h, w, i, j);
  }

  /** Position p of the pixel order lands on cell (p / w, p % w) of the raster. */
  lemma RasterAtPosition(c: Clustering, h: nat, w: nat, p: nat)
    requires ValidClustering(c, h * w) && p < h * w
    ensures w > 0 && p / w < h && p % w < w
    ensures Rasterise(c, h, w)[p / w][p % w] == ToByte(c.centers[c.labels[p]])
  {
    RowMajorSplit(h, w, p);
    RasterAt(c, h, w, p / w, p % w);
  }

  /** The nested loops of the source, row by row and column by column. */
  method RasteriseLoop(c: Clustering, h: nat, w: nat) returns (out: seq<seq<int>>)
    requires ValidClustering(c, h * w)
    ensures out == Rasterise(c, h, w)
  {
    out := [];
    var i := 0;
    while i < h
      invariant 0 <= i <= h
      invariant |out| == i
      invariant forall a :: 0 <= a < i ==> out[a] == RasterRow(c, h, w, a)
    {
      var row := RasterRowLoop(c, h, w, i);
      out := out + [row];
      i := i + 1;
    }
    assert out == Rasterise(c, h, w);
  }

  /** The inner loop of the source: one row, column by column. */
  method RasterRowLoop(c: Clustering, h: nat, w: nat, i: nat) returns (row: seq<int>)
    requires ValidClustering(c, h * w) && i < h
    ensures |row| == w
    ensures row == RasterRow(c, h, w, i)
  {
    row := [];
    var j := 0;
    while j < w
      invariant 0 <= j <= w
      invariant |row| == j
      invariant forall b :: 0 <= b < j ==> row[b] == RasterCell(c, h, w, i, b)
    {
      RowMajorInRange(h, w, i, j);
      var v := ToByte(c.centers[c.labels[i * w + j]]);
      assert v == RasterCell(c, h, w, i, j);
      row := row + [v];
      j := j + 1;
    }
    assert row == RasterRow(c, h, w, i);
  }

  /** `image['fusion']`: the pixelwise sum clipped to 255. */
  function SaturatingSum(k: seq<seq<int>>, g: seq<seq<int>>): (f: seq<seq<int>>)
    requires IsRect(k) && IsByteGrid(k) && HasShape(g, |k|, Width(k)) && IsByteGrid(g)
    ensures HasShape(f, |k|, Width(k)) && IsByteGrid(f)
    ensures forall i, j :: 0 <= i < |k| && 0 <= j < Width(k) ==>
              && f[i][j] >= k[i][j] && f[i][j] >= g[i][j]
              && (f[i][j] == 255 <==> k[i][j] + g[i][j] >= 255)
              && (f[i][j] < 255 ==> f[i][j] == k[i][j] + g[i][j])
  {
    seq(|k|, i requires 0 <= i < |k| =>
      seq(Width(k), j requires 0 <= j < Width(k) =>
        var s := k[i][j] + g[i][j];
        if s < 0 then 0 else if s > 255 then 255 else s))
  }

  /** `K_blur.astype(int) + G_blur.astype(int)`: the unclipped sum, the raster
      the normalisation actually reads. */
  function RawSum(k: seq<seq<int>>, g: seq<seq<int>>): (f: seq<seq<int>>)
    requires IsRect(k) && HasShape(g, |k|, Width(k))
    ensures HasShape(f, |k|, Width(k))
    ensures forall i, j :: 0 <= i < |k| && 0 <= j < Width(k) ==> f[i][j] - g[i][j] == k[i][j]
  {
    seq(|k|, i requires 0 <= i < |k| => seq(Width(k), j requires 0 <= j < Width(k) => k[i][j] + g[i][j]))
  }

  /** The stored `image['fusion']` is the raw sum clipped at 255: the two sums
      agree wherever the raw sum is at most 255. */
  lemma SaturatingIsClippedRaw(k: seq<seq<int>>, g: seq<seq<int>>, i: nat, j: nat)
    requires IsRect(k) && IsByteGrid(k) && HasShape(g, |k|, Width(k)) && IsByteGrid(g)
    requires i < |k| && j < Width(k)
    ensures var raw := RawSum(k, g)[i][j];
            SaturatingSum(k, g)[i][j] == if raw > 255 then 255 else raw
  {
  }

  predicate NonEmpty(f: seq<seq<int>>) {
    IsRect(f) && |f| > 0 && Width(f) > 0
  }

  /** `f.max()`. */
  function GridMax(f: seq<seq<int>>): (m: int)
    requires NonEmpty(f)
    ensures Occurs(f, m)
    ensures forall i, j :: 0 <= i < |f| && 0 <= j < Width(f) ==> f[i][j] <= m
  {
    var s := Flatten(f);
    FlattenLength(f, |f|, Width(f));
    var m := Statistics.Max(s);
    FlattenedOccurs(f, m);
    forall i, j | 0 <= i < |f| && 0 <= j < Width(f)
      ensures f[i][j] <= m
    {
      CellFlattened(f, i, j);
    }
    m
  }

  /** `f.min()`. */
  function GridMin(f: seq<seq<int>>): (m: int)
    requires NonEmpty(f)
    ensures Occurs(f, m)
    ensures forall i, j :: 0 <= i < |f| && 0 <= j < Width(f) ==> m <= f[i][j]
  {
    var s := Flatten(f);
    FlattenLength(f, |f|, Width(f));
    var m := Statistics.Min(s);
    FlattenedOccurs(f, m);
    forall i, j | 0 <= i < |f| && 0 <= j < Width(f)
      ensures m <= f[i][j]
    {
      CellFlattened(f, i, j);
    }
    m
  }

  /** (x - lo) / (hi - lo) * 255 for lo <= x <= hi, the real value before truncation. */
  function Scale(x: int, lo: int, hi: int): (y: real)
    requires lo <= x <= hi && lo < hi
    ensures 0.0 <= y <= 255.0
    ensures x == lo ==> y == 0.0
    ensures x == hi ==> y == 255.0
  {
    var d := (hi - lo) as real;
    var q := (x - lo) as real / d;
    assert q <= 1.0 by {
      assert (x - lo) as real <= d;
    }
    q * 255.0
  }

  /** Scaling keeps the order of its inputs. */
  lemma ScaleMonotone(x: int, y: int, lo: int, hi: int)
    requires lo <= x <= y <= hi && lo < hi
    ensures Scale(x, lo, hi) <= Scale(y, lo, hi)
  {
    var d := (hi - lo) as real;
    assert (x - lo) as real / d <= (y - lo) as real / d;
  }

  /** The min-max normalisation `((f - min) / (max - min) * 255).astype(uint8)`,
      for a raster that is not constant. */
  function Normalise(f: seq<seq<int>>): (n: seq<seq<int>>)
    requires NonEmpty(f) && GridMin(f) < GridMax(f)
    ensures HasShape(n, |f|, Width(f)) && IsByteGrid(n)
    ensures forall i, j :: 0 <= i < |f| && 0 <= j < Width(f) && f[i][j] == GridMin(f) ==> n[i][j] == 0
    ensures forall i, j :: 0 <= i < |f| && 0 <= j < Width(f) && f[i][j] == GridMax(f) ==> n[i][j] == 255
  {
    var lo, hi := GridMin(f), GridMax(f);
    seq(|f|, i requires 0 <= i < |f| =>
      seq(Width(f), j requires 0 <= j < Width(f) => ToByte(Scale(f[i][j], lo, hi))))
  }

  /** Normalisation preserves the order of pixels. */
  lemma NormaliseMonotone(f: seq<seq<int>>, i: nat, j: nat, i': nat, j': nat)
    requires NonEmpty(f) && GridMin(f) < GridMax(f)
    requires i < |f| && j < Width(f) && i' < |f| && j' < Width(f)
    requires f[i][j] <= f[i'][j']
    ensures Normalise(f)[i][j] <= Normalise(f)[i'][j']
  {
    ScaleMonotone(f[i][j], f[i'][j'], GridMin(f), GridMax(f));
  }

  /** `f.mean()`; the mean of an empty raster is never read. */
  function Mean(f: seq<seq<int>>): real {
    var n := |f| * Width(f);
    if n == 0 then 0.0 else Statistics.Sum(Flatten(f)) as real / n as real
  }

  /** `np.where(f > f.mean(), f, 0)`: a pixel survives iff it exceeds the
      mean, that is iff its value times the pixel count exceeds the sum. */
  function MeanMask(f: seq<seq<int>>): (m: seq<seq<int>>)
    requires IsRect(f)
    ensures HasShape(m, |f|, Width(f))
    ensures forall i, j :: 0 <= i < |f| && 0 <= j < Width(f) ==>
              m[i][j] == if f[i][j] * (|f| * Width(f)) > Statistics.Sum(Flatten(f)) then f[i][j] else 0
  {
    var mean := Mean(f);
    var m := seq(|f|, i requires 0 <= i < |f| =>
               seq(Width(f), j requires 0 <= j < Width(f) => if f[i][j] as real > mean then f[i][j] else 0));
    assert forall i, j :: 0 <= i < |f| && 0 <= j < Width(f) ==>
             m[i][j] == if f[i][j] * (|f| * Width(f)) > Statistics.Sum(Flatten(f)) then f[i][j] else 0 by {
      forall i, j | 0 <= i < |f| && 0 <= j < Width(f)
        ensures m[i][j] == if f[i][j] * (|f| * Width(f)) > Statistics.Sum(Flatten(f)) then f[i][j] else 0
      {
        AboveMean(f[i][j], Statistics.Sum(Flatten(f)), |f| * Width(f));
      }
    }
    m
  }

  /** x exceeds total / n exactly when x * n exceeds total. */
  lemma AboveMean(x: int, total: int, n: nat)
    requires n > 0
    ensures (x as real > total as real / n as real) <==> x * n > total
  {
    var q := total as real / n as real;
    assert q * n as real == total as real;
    if x as real > q {
      assert x as real * n as real > q * n as real;
    } else {
      assert x as real * n as real <= q * n as real;
    }
  }

  /** On a raster that is not constant, the pixels holding the maximum survive the mean mask. */
  lemma MeanMaskKeepsMax(f: seq<seq<int>>, i: nat, j: nat)
    requires NonEmpty(f) && GridMin(f) < GridMax(f)
    requires i < |f| && j < Width(f) && f[i][j] == GridMax(f)
    ensures MeanMask(f)[i][j] == GridMax(f)
  {
    var s, m := Flatten(f), GridMax(f);
    var h, w := |f|, Width(f);
    FlattenLength(f, h, w);
    assert forall p :: 0 <= p < |s| ==> s[p] <= m by {
      forall p | 0 <= p < |s|
        ensures s[p] <= m
      {
        FlattenPosition(f, h, w, p);
      }
    }
    var a, b :| 0 <= a < h && 0 <= b < w && f[a][b] == GridMin(f);
    FlattenIndex(f, h, w, a, b);
    Statistics.SumBelowBound(s, m);
    assert Statistics.Sum(s) < (h * w) * m;
  }

  /** `sorted(np.unique(F))[-1:]`: the largest value of the raster as a
      one-element list, or the empty list for a raster without pixels. */
  function ForegroundLevels(g: seq<seq<int>>): (mask: seq<int>)
    requires IsRect(g)
    ensures |mask| <= 1
    ensures |mask| == 1 <==> |g| > 0 && Width(g) > 0
    ensures |mask| == 1 ==> Occurs(g, mask[0])
    ensures |mask| == 1 ==> forall i, j :: 0 <= i < |g| && 0 <= j < Width(g) ==> g[i][j] <= mask[0]
  {
    var values := Flatten(g);
    FlattenLength(g, |g|, Width(g));
    var gv := Statistics.Unique(values);
    var mask := if |gv| == 0 then [] else gv[|gv| - 1..];
    assert |mask| == 1 ==> NonEmpty(g) && mask[0] == GridMax(g) by {
      if |mask| == 1 {
        Statistics.UniqueLastIsMax(values);
      }
    }
    mask
  }

  /** For a raster with pixels, the selected level is exactly its maximum. */
  lemma ForegroundIsMax(g: seq<seq<int>>)
    requires NonEmpty(g)
    ensures ForegroundLevels(g) == [GridMax(g)]
  {
  }

  /** Everything `postprocess` records for one crop. */
  datatype CropFusion = CropFusion(
    kBlur: seq<seq<int>>,
    gBlur: seq<seq<int>>,
    fusion: seq<seq<int>>,
    normalizedFusion: seq<seq<int>>,
    fusionMeanMasking: seq<seq<int>>,
    fKMean: seq<seq<int>>,
    fGmm: seq<seq<int>>,
    fKMeanMask: seq<int>,
    fGmmMask: seq<int>)

  /** `Model.median` applied to a first-stage cluster raster. */
  function Smoothed(c: Clustering, h: nat, w: nat): (b: seq<seq<int>>)
    requires ValidClustering(c, h * w)
    ensures HasShape(b, h, w) && IsByteGrid(b)
  {
    HybridMedian.MedianFilter(Rasterise(c, h, w))
  }

  /** The unclipped sum of the two smoothed first-stage cluster rasters. */
  function BlurSum(kFirst: Clustering, gFirst: Clustering, h: nat, w: nat): (f: seq<seq<int>>)
    requires ValidClustering(kFirst, h * w) && ValidClustering(gFirst, h * w)
    ensures HasShape(f, h, w)
  {
    RawSum(Smoothed(kFirst, h, w), Smoothed(gFirst, h, w))
  }

  /** A crop at most two rows high or two columns wide smooths to all 0, so
      its blurred sum is constant 0 and the min-max normalisation has no
      range. `Postprocess`'s requirement max > min rules out every such crop. */
  lemma ThinCropConstant(kFirst: Clustering, gFirst: Clustering, h: nat, w: nat)
    requires h > 0 && w > 0 && (h <= 2 || w <= 2)
    requires ValidClustering(kFirst, h * w) && ValidClustering(gFirst, h * w)
    ensures GridMin(BlurSum(kFirst, gFirst, h, w)) == 0 == GridMax(BlurSum(kFirst, gFirst, h, w))
  {
    var kBlur, gBlur := Smoothed(kFirst, h, w), Smoothed(gFirst, h, w);
    HybridMedian.ThinFiltersToZero(Rasterise(kFirst, h, w), h, w);
    HybridMedian.ThinFiltersToZero(Rasterise(gFirst, h, w), h, w);
    var f := BlurSum(kFirst, gFirst, h, w);
    assert forall i, j :: 0 <= i < h && 0 <= j < w ==> f[i][j] == 0;
  }

  /** One crop of `postprocess`, from its four fitted clusterings: the
      first-stage KMeans and mixture fits of the colour pixels, and the
      second-stage fits of the depth-blended raster. */
  function Postprocess(h: nat, w: nat, kFirst: Clustering, gFirst: Clustering,
                       kSecond: Clustering, gSecond: Clustering): (r: CropFusion)
    requires h > 0 && w > 0
    requires ValidClustering(kFirst, h * w) && ValidClustering(gFirst, h * w)
    requires ValidClustering(kSecond, h * w) && ValidClustering(gSecond, h * w)
    requires var f := BlurSum(kFirst, gFirst, h, w); GridMin(f) < GridMax(f)
    ensures HasShape(r.fKMean, h, w) && HasShape(r.fGmm, h, w)
    ensures r.fKMeanMask == [GridMax(r.fKMean)] && r.fGmmMask == [GridMax(r.fGmm)]
    ensures HasShape(r.fusionMeanMasking, h, w) && Occurs(r.fusionMeanMasking, 255)
  {
    var first := FirstStage(h, w, kFirst, gFirst);
    var fK := Foreground(kSecond, h, w);
    var fG := Foreground(gSecond, h, w);
    CropFusion(first.0, first.1, first.2, first.3, first.4, fK.0, fG.0, fK.1, fG.1)
  }

  /** The first stage of `postprocess`: the two smoothed cluster rasters,
      their clipped sum, the normalised unclipped sum and its mean mask. */
  function FirstStage(h: nat, w: nat, kFirst: Clustering, gFirst: Clustering)
    : (r: (seq<seq<int>>, seq<seq<int>>, seq<seq<int>>, seq<seq<int>>, seq<seq<int>>))
    requires h > 0 && w > 0
    requires ValidClustering(kFirst, h * w) && ValidClustering(gFirst, h * w)
    requires var f := BlurSum(kFirst, gFirst, h, w); GridMin(f) < GridMax(f)
    ensures HasShape(r.4, h, w) && Occurs(r.4, 255)
  {
    var kBlur := Smoothed(kFirst, h, w);
    var gBlur := Smoothed(gFirst, h, w);
    var sum := BlurSum(kFirst, gFirst, h, w);
    (kBlur, gBlur, SaturatingSum(kBlur, gBlur), Normalise(sum), MaskedFusion(sum, h, w))
  }

  /** `fusion_mean_masking`: the normalised sum with the pixels at or below
      its mean zeroed. It keeps a pixel at 255. */
  function MaskedFusion(sum: seq<seq<int>>, h: nat, w: nat): (m: seq<seq<int>>)
    requires h > 0 && w > 0 && HasShape(sum, h, w) && GridMin(sum) < GridMax(sum)
    ensures HasShape(m, h, w) && Occurs(m, 255)
  {
    MaskedTopSurvives(sum);
    MeanMask(Normalise(sum))
  }

  /** A second-stage cluster raster with its foreground level list, which
      holds exactly the raster's maximum. */
  function Foreground(c: Clustering, h: nat, w: nat): (r: (seq<seq<int>>, seq<int>))
    requires h > 0 && w > 0 && ValidClustering(c, h * w)
    ensures HasShape(r.0, h, w) && r.1 == [GridMax(r.0)]
  {
    var f := Rasterise(c, h, w);
    ForegroundIsMax(f);
    (f, ForegroundLevels(f))
  }

  /** After normalising a raster that is not constant, the mean mask keeps at
      least one pixel at full intensity 255. */
  lemma MaskedTopSurvives(f: seq<seq<int>>)
    requires NonEmpty(f) && GridMin(f) < GridMax(f)
    ensures Occurs(MeanMask(Normalise(f)), 255)
  {
    var n := Normalise(f);
    var a, b :| 0 <= a < |f| && 0 <= b < Width(f) && f[a][b] == GridMax(f);
    var c, d :| 0 <= c < |f| && 0 <= d < Width(f) && f[c][d] == GridMin(f);
    assert n[a][b] == 255 && n[c][d] == 0;
    assert GridMax(n) == 255;
    assert GridMin(n) == 0;
    MeanMaskKeepsMax(n, a, b);
    assert MeanMask(n)[a][b] == 255;
  }
}
