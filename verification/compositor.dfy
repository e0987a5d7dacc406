/** The mask painting of `Model.ordered_paint`.

    Two black canvases the size of the frame -- one for the KMeans result,
    one for the Gaussian-mixture result -- are painted crop by crop in
    depth order. For each crop, the pixels inside its box whose second-stage
    cluster value is one of the selected foreground levels take the crop's
    class colour; every other pixel keeps what the canvas already held, so a
    later crop overwrites an earlier one only where it matches.
 */
module Compositor {
  import opened Rasters
  import CropExtractor
  import Fusion
  import HybridMedian

  type Pixel = seq<int>
  type Canvas = seq<seq<Pixel>>

  /** One pass of the loop body for one canvas: the crop's box, its cluster
      raster (box-sized), the levels to paint and the class colour. */
  datatype PaintJob<T> = PaintJob(box: CropExtractor.Box, cluster: seq<seq<int>>, levels: seq<int>, color: T)

  predicate InBox(bx: CropExtractor.Box, i: int, j: int) {
    bx.t <= i < bx.b && bx.l <= j < bx.r
  }

  /** The box lies in an h-by-w canvas and the cluster raster has the box's size. */
  predicate ValidJob<T>(job: PaintJob<T>, h: nat, w: nat) {
    && 0 <= job.box.l <= job.box.r <= w
    && 0 <= job.box.t <= job.box.b <= h
    && HasShape(job.cluster, job.box.b - job.box.t, job.box.r - job.box.l)
  }

  /** Pixel (i, j) is one `job` paints: inside the box, with a cluster
      value among the selected levels. */
  predicate Hits<T>(job: PaintJob<T>, i: int, j: int) {
    && InBox(job.box, i, j)
    && i - job.box.t < |job.cluster|
    && j - job.box.l < |job.cluster[i - job.box.t]|
    && job.cluster[i - job.box.t][j - job.box.l] in job.levels
  }

  /** `box[cluster == v] = color` on a box-sized view. */
  function MaskAssign<T>(box: seq<seq<T>>, cluster: seq<seq<int>>, v: int, color: T): (out: seq<seq<T>>)
    requires IsRect(box) && HasShape(cluster, |box|, Width(box))
    ensures HasShape(out, |box|, Width(box))
    ensures forall i, j :: 0 <= i < |box| && 0 <= j < Width(box) ==>
              out[i][j] == if cluster[i][j] == v then color else box[i][j]
  {
    seq(|box|, i requires 0 <= i < |box| =>
      seq(Width(box), j requires 0 <= j < Width(box) => if cluster[i][j] == v then color else box[i][j]))
  }

  /** The inner loop `for g_max in mask: box[cluster == g_max] = color`: a
      cell takes the colour iff its cluster value is one of the levels. */
  function AssignLevels<T>(box: seq<seq<T>>, cluster: seq<seq<int>>, levels: seq<int>, color: T): (out: seq<seq<T>>)
    requires IsRect(box) && HasShape(cluster, |box|, Width(box))
    ensures HasShape(out, |box|, Width(box))
    ensures forall i, j :: 0 <= i < |box| && 0 <= j < Width(box) ==>
              out[i][j] == if cluster[i][j] in levels then color else box[i][j]
    decreases |levels|
  {
    if |levels| == 0 then box
    else AssignLevels(MaskAssign(box, cluster, levels[0], color), cluster, levels[1..], color)
  }

  /** `canvas[t:t+|box|, l:l+width] = box`: each row is spliced around the box row. */
  function WriteBack<T>(canvas: seq<seq<T>>, t: nat, l: nat, box: seq<seq<T>>): (out: seq<seq<T>>)
    requires IsRect(canvas) && IsRect(box)
    requires t + |box| <= |canvas| && l + Width(box) <= Width(canvas)
    ensures HasShape(out, |canvas|, Width(canvas))
    ensures forall i, j :: 0 <= i < |canvas| && 0 <= j < Width(canvas) ==>
              out[i][j] == if t <= i < t + |box| && l <= j < l + Width(box) then box[i - t][j - l] else canvas[i][j]
  {
    seq(|canvas|, i requires 0 <= i < |canvas| =>
      if t <= i < t + |box| then canvas[i][..l] + box[i - t] + canvas[i][l + Width(box)..] else canvas[i])
  }

  /** Writing back an unmodified view of the canvas changes nothing. */
  lemma WriteBackOwnView<T>(canvas: seq<seq<T>>, t: nat, b: nat, l: nat, r: nat)
    requires IsRect(canvas) && t <= b <= |canvas| && l <= r <= Width(canvas)
    ensures var view := SubRect(canvas, t, b, l, r);
            IsRect(view) && WriteBack(canvas, t, l, view) == canvas
  {
    var view := SubRect(canvas, t, b, l, r);
    if t < b {
      assert Width(view) == r - l;
    }
    var out := WriteBack(canvas, t, l, view);
    forall i | 0 <= i < |canvas|
      ensures out[i] == canvas[i]
    {
      forall j | 0 <= j < Width(canvas)
        ensures out[i][j] == canvas[i][j]
      {
      }
    }
  }

  /** One crop painting one canvas: take the box view, paint the matching
      cells, store the view back; nothing happens when there are no levels. */
  function Paint<T>(canvas: seq<seq<T>>, job: PaintJob<T>): (out: seq<seq<T>>)
    requires IsRect(canvas) && ValidJob(job, |canvas|, Width(canvas))
    ensures HasShape(out, |canvas|, Width(canvas))
    ensures forall i, j :: 0 <= i < |canvas| && 0 <= j < Width(canvas) ==>
              out[i][j] == if Hits(job, i, j) then job.color else canvas[i][j]
    ensures |job.levels| == 0 ==> out == canvas
  {
    if |job.levels| == 0 then canvas
    else
      var out := PaintRect(canvas, job.box.t as nat, job.box.b as nat, job.box.l as nat, job.box.r as nat,
                           job.cluster, job.levels, job.color);
      assert forall i, j :: 0 <= i < |canvas| && 0 <= j < Width(canvas) ==>
               out[i][j] == if Hits(job, i, j) then job.color else canvas[i][j] by {
        forall i, j | 0 <= i < |canvas| && 0 <= j < Width(canvas)
          ensures out[i][j] == if Hits(job, i, j) then job.color else canvas[i][j]
        {
          PaintJobCell(canvas, job, i, j);
        }
      }
      out
  }

  /** Cell (i, j) of the painted rectangle of a job: the job's colour iff the job hits it. */
  lemma PaintJobCell<T>(canvas: seq<seq<T>>, job: PaintJob<T>, i: nat, j: nat)
    requires IsRect(canvas) && ValidJob(job, |canvas|, Width(canvas))
    requires i < |canvas| && j < Width(canvas)
    ensures PaintRect(canvas, job.box.t as nat, job.box.b as nat, job.box.l as nat, job.box.r as nat,
                      job.cluster, job.levels, job.color)[i][j] ==
            if Hits(job, i, j) then job.color else canvas[i][j]
  {
    var t, b, l, r := job.box.t as nat, job.box.b as nat, job.box.l as nat, job.box.r as nat;
    var out := PaintRect(canvas, t, b, l, r, job.cluster, job.levels, job.color);
    if InBox(job.box, i, j) {
      assert t <= i < b && l <= j < r;
      assert out[i][j] == if job.cluster[i - t][j - l] in job.levels then job.color else canvas[i][j];
      HitsInside(job, |canvas|, Width(canvas), i, j);
    } else {
      assert !(t <= i < b && l <= j < r);
      assert out[i][j] == canvas[i][j];
    }
  }

  /** Inside the box, a job hits exactly the cells whose cluster value is a level. */
  lemma HitsInside<T>(job: PaintJob<T>, h: nat, w: nat, i: int, j: int)
    requires ValidJob(job, h, w) && InBox(job.box, i, j)
    ensures Hits(job, i, j) <==> job.cluster[i - job.box.t][j - job.box.l] in job.levels
  {
  }

  /** The three steps of one paint on rows t..b-1 and columns l..r-1: view,
      assignment, store. */
  function PaintRect<T>(canvas: seq<seq<T>>, t: nat, b: nat, l: nat, r: nat,
                        cluster: seq<seq<int>>, levels: seq<int>, color: T): (out: seq<seq<T>>)
    requires IsRect(canvas) && t <= b <= |canvas| && l <= r <= Width(canvas)
    requires HasShape(cluster, b - t, r - l)
    ensures HasShape(out, |canvas|, Width(canvas))
    ensures forall i, j :: 0 <= i < |canvas| && 0 <= j < Width(canvas) ==>
              out[i][j] == if t <= i < b && l <= j < r && cluster[i - t][j - l] in levels then color else canvas[i][j]
  {
    var view := SubRect(canvas, t, b, l, r);
    assert t < b ==> Width(view) == r - l;
    var out := WriteBack(canvas, t, l, AssignLevels(view, cluster, levels, color));
    assert forall i, j :: 0 <= i < |canvas| && 0 <= j < Width(canvas) ==>
             out[i][j] == if t <= i < b && l <= j < r && cluster[i - t][j - l] in levels then color else canvas[i][j] by {
      forall i: nat, j: nat | i < |canvas| && j < Width(canvas)
        ensures out[i][j] == if t <= i < b && l <= j < r && cluster[i - t][j - l] in levels then color else canvas[i][j]
      {
        if t <= i < b && l <= j < r {
          PaintRectInside(canvas, t, b, l, r, cluster, levels, color, i, j);
        } else {
          PaintRectOutside(canvas, t, b, l, r, cluster, levels, color, i, j);
        }
      }
    }
    out
  }

  /** A cell inside the rectangle takes the colour iff its cluster value is a level. */
  lemma PaintRectInside<T>(canvas: seq<seq<T>>, t: nat, b: nat, l: nat, r: nat,
                           cluster: seq<seq<int>>, levels: seq<int>, color: T, i: nat, j: nat)
    requires IsRect(canvas) && t <= b <= |canvas| && l <= r <= Width(canvas)
    requires HasShape(cluster, b - t, r - l)
    requires t <= i < b && l <= j < r
    ensures var view := SubRect(canvas, t, b, l, r);
            IsRect(view) && HasShape(cluster, |view|, Width(view)) &&
            WriteBack(canvas, t, l, AssignLevels(view, cluster, levels, color))[i][j] ==
              if cluster[i - t][j - l] in levels then color else canvas[i][j]
  {
    var view := SubRect(canvas, t, b, l, r);
    assert Width(view) == r - l;
    assert view[i - t][j - l] == canvas[i][j];
    var painted := AssignLevels(view, cluster, levels, color);
    assert painted[i - t][j - l] == if cluster[i - t][j - l] in levels then color else view[i - t][j - l];
    assert WriteBack(canvas, t, l, painted)[i][j] == painted[i - t][j - l];
  }

  /** A cell outside the rectangle keeps its value. */
  lemma PaintRectOutside<T>(canvas: seq<seq<T>>, t: nat, b: nat, l: nat, r: nat,
                            cluster: seq<seq<int>>, levels: seq<int>, color: T, i: nat, j: nat)
    requires IsRect(canvas) && t <= b <= |canvas| && l <= r <= Width(canvas)
    requires HasShape(cluster, b - t, r - l)
    requires i < |canvas| && j < Width(canvas) && !(t <= i < b && l <= j < r)
    ensures var view := SubRect(canvas, t, b, l, r);
            IsRect(view) && HasShape(cluster, |view|, Width(view)) &&
            WriteBack(canvas, t, l, AssignLevels(view, cluster, levels, color))[i][j] == canvas[i][j]
  {
    var view := SubRect(canvas, t, b, l, r);
    assert t < b ==> Width(view) == r - l;
  }

  /** Painting the same crop twice is the same as painting it once. */
  lemma PaintIdempotent<T>(canvas: seq<seq<T>>, job: PaintJob<T>)
    requires IsRect(canvas) && ValidJob(job, |canvas|, Width(canvas))
    ensures var once := Paint(canvas, job);
            IsRect(once) && Paint(once, job) == once
  {
    var once := Paint(canvas, job);
    var twice := Paint(once, job);
    forall i | 0 <= i < |canvas|
      ensures twice[i] == once[i]
    {
      forall j | 0 <= j < Width(canvas)
        ensures twice[i][j] == once[i][j]
      {
      }
    }
  }

  predicate AllValid<T>(jobs: seq<PaintJob<T>>, h: nat, w: nat) {
    forall k :: 0 <= k < |jobs| ==> ValidJob(jobs[k], h, w)
  }

  /** The loop over the crops, first crop first. */
  function OrderedPaint<T>(canvas: seq<seq<T>>, jobs: seq<PaintJob<T>>): (out: seq<seq<T>>)
    requires IsRect(canvas) && AllValid(jobs, |canvas|, Width(canvas))
    ensures HasShape(out, |canvas|, Width(canvas))
    decreases |jobs|
  {
    if |jobs| == 0 then canvas
    else OrderedPaint(Paint(canvas, jobs[0]), jobs[1..])
  }

  /** After the first crop is painted, the remaining crops still fit the canvas. */
  lemma RestValid<T>(canvas: seq<seq<T>>, jobs: seq<PaintJob<T>>)
    requires IsRect(canvas) && AllValid(jobs, |canvas|, Width(canvas)) && |jobs| > 0
    ensures var first := Paint(canvas, jobs[0]);
            IsRect(first) && AllValid(jobs[1..], |first|, Width(first))
  {
    var rest, first := jobs[1..], Paint(canvas, jobs[0]);
    forall k | 0 <= k < |rest|
      ensures ValidJob(rest[k], |first|, Width(first))
    {
      assert rest[k] == jobs[k + 1];
    }
  }

  /** No crop after position `from` paints (i, j), restated for the remaining crops. */
  lemma RestMisses<T>(jobs: seq<PaintJob<T>>, i: int, j: int, from: int)
    requires |jobs| > 0
    requires forall k :: from < k < |jobs| && 0 <= k ==> !Hits(jobs[k], i, j)
    ensures forall k :: from - 1 < k < |jobs| - 1 && 0 <= k ==> !Hits(jobs[1..][k], i, j)
  {
    forall k | from - 1 < k < |jobs| - 1 && 0 <= k
      ensures !Hits(jobs[1..][k], i, j)
    {
      assert jobs[1..][k] == jobs[k + 1];
    }
  }

  /** The value one pixel ends with, followed through the jobs one by one:
      each job that hits it replaces it with the job's colour. */
  function PixelAfter<T>(v: T, jobs: seq<PaintJob<T>>, i: int, j: int): T
    decreases |jobs|
  {
    if |jobs| == 0 then v
    else PixelAfter(if Hits(jobs[0], i, j) then jobs[0].color else v, jobs[1..], i, j)
  }

  /** Painting the whole canvas agrees, pixel by pixel, with following that
      pixel alone through the jobs. */
  lemma {:induction false} OrderedPaintPixel<T>(canvas: seq<seq<T>>, jobs: seq<PaintJob<T>>, i: nat, j: nat)
    requires IsRect(canvas) && AllValid(jobs, |canvas|, Width(canvas))
    requires i < |canvas| && j < Width(canvas)
    ensures OrderedPaint(canvas, jobs)[i][j] == PixelAfter(canvas[i][j], jobs, i, j)
    decreases |jobs|
  {
    if |jobs| > 0 {
      var first := Paint(canvas, jobs[0]);
      RestValid(canvas, jobs);
      assert OrderedPaint(canvas, jobs) == OrderedPaint(first, jobs[1..]);
      OrderedPaintPixel(first, jobs[1..], i, j);
    }
  }

  /** A value no job hits is left as it is. */
  lemma {:induction false} UnpaintedAfter<T>(v: T, jobs: seq<PaintJob<T>>, i: int, j: int)
    requires forall k :: 0 <= k < |jobs| ==> !Hits(jobs[k], i, j)
    ensures PixelAfter(v, jobs, i, j) == v
    decreases |jobs|
  {
    if |jobs| > 0 {
      RestMisses(jobs, i, j, -1);
      UnpaintedAfter(v, jobs[1..], i, j);
    }
  }

  /** A value hit by job `k` and by no later job ends in job `k`'s colour. */
  lemma {:induction false} LastHitAfter<T>(v: T, jobs: seq<PaintJob<T>>, i: int, j: int, k: nat)
    requires k < |jobs| && Hits(jobs[k], i, j)
    requires forall k' :: k < k' < |jobs| ==> !Hits(jobs[k'], i, j)
    ensures PixelAfter(v, jobs, i, j) == jobs[k].color
    decreases k
  {
    var rest := jobs[1..];
    RestMisses(jobs, i, j, k);
    if k == 0 {
      UnpaintedAfter(jobs[0].color, rest, i, j);
    } else {
      assert rest[k - 1] == jobs[k];
      LastHitAfter(if Hits(jobs[0], i, j) then jobs[0].color else v, rest, i, j, k - 1);
    }
  }

  /** A pixel no crop paints keeps its starting value. */
  lemma UnpaintedPixel<T>(canvas: seq<seq<T>>, jobs: seq<PaintJob<T>>, i: nat, j: nat)
    requires IsRect(canvas) && AllValid(jobs, |canvas|, Width(canvas))
    requires i < |canvas| && j < Width(canvas)
    requires forall k :: 0 <= k < |jobs| ==> !Hits(jobs[k], i, j)
    ensures OrderedPaint(canvas, jobs)[i][j] == canvas[i][j]
  {
    OrderedPaintPixel(canvas, jobs, i, j);
    UnpaintedAfter(canvas[i][j], jobs, i, j);
  }

  /** A pixel painted by crop `k` and by no later crop ends up in crop `k`'s
      colour: later crops overwrite earlier ones exactly where they match. */
  lemma LastPainterWins<T>(canvas: seq<seq<T>>, jobs: seq<PaintJob<T>>, i: nat, j: nat, k: nat)
    requires IsRect(canvas) && AllValid(jobs, |canvas|, Width(canvas))
    requires i < |canvas| && j < Width(canvas)
    requires k < |jobs| && Hits(jobs[k], i, j)
    requires forall k' :: k < k' < |jobs| ==> !Hits(jobs[k'], i, j)
    ensures OrderedPaint(canvas, jobs)[i][j] == jobs[k].color
  {
    OrderedPaintPixel(canvas, jobs, i, j);
    LastHitAfter(canvas[i][j], jobs, i, j, k);
  }

  /** The `np.zeros(canvas.shape)` start: an h-by-w canvas of black pixels. */
  function Blank(h: nat, w: nat): (c: Canvas)
    ensures HasShape(c, h, w)
    ensures forall i, j :: 0 <= i < h && 0 <= j < w ==> c[i][j] == [0, 0, 0]
  {
    seq(h, _ => seq(w, _ => [0, 0, 0]))
  }

  /** A BGR colour of three byte channels, as the palette hands out. */
  predicate IsColor(c: Pixel) {
    |c| == 3 && forall k :: 0 <= k < 3 ==> IsByte(c[k])
  }

  /** The jobs the loop performs on the KMeans canvas: crop `k`'s box, its
      `F_KMean` raster and `F_KMean_mask` levels, in colour `colors[k]`. */
  function KMeansJobs(crops: seq<CropExtractor.Crop>, fusions: seq<Fusion.CropFusion>, colors: seq<Pixel>): (jobs: seq<PaintJob<Pixel>>)
    requires |fusions| == |crops| && |colors| == |crops|
    ensures |jobs| == |crops|
    ensures forall k :: 0 <= k < |jobs| ==>
              jobs[k].box == crops[k].box && jobs[k].cluster == fusions[k].fKMean &&
              jobs[k].levels == fusions[k].fKMeanMask && jobs[k].color == colors[k]
  {
    seq(|crops|, k requires 0 <= k < |crops| => PaintJob(crops[k].box, fusions[k].fKMean, fusions[k].fKMeanMask, colors[k]))
  }

  /** The same for the mixture canvas, with `F_GMM` and `F_GMM_mask`. */
  function GmmJobs(crops: seq<CropExtractor.Crop>, fusions: seq<Fusion.CropFusion>, colors: seq<Pixel>): (jobs: seq<PaintJob<Pixel>>)
    requires |fusions| == |crops| && |colors| == |crops|
    ensures |jobs| == |crops|
    ensures forall k :: 0 <= k < |jobs| ==>
              jobs[k].box == crops[k].box && jobs[k].cluster == fusions[k].fGmm &&
              jobs[k].levels == fusions[k].fGmmMask && jobs[k].color == colors[k]
  {
    seq(|crops|, k requires 0 <= k < |crops| => PaintJob(crops[k].box, fusions[k].fGmm, fusions[k].fGmmMask, colors[k]))
  }

  /** What `ordered_paint` needs of its inputs: one fusion record and one
      colour per crop, boxes inside the h-by-w frame and box-sized rasters. */
  predicate ValidScene(h: nat, w: nat, crops: seq<CropExtractor.Crop>, fusions: seq<Fusion.CropFusion>, colors: seq<Pixel>) {
    && h > 0
    && |fusions| == |crops| && |colors| == |crops|
    && (forall k :: 0 <= k < |colors| ==> IsColor(colors[k]))
    && forall k :: 0 <= k < |crops| ==>
         && 0 <= crops[k].box.l <= crops[k].box.r <= w
         && 0 <= crops[k].box.t <= crops[k].box.b <= h
         && HasShape(fusions[k].fKMean, crops[k].box.b - crops[k].box.t, crops[k].box.r - crops[k].box.l)
         && HasShape(fusions[k].fGmm, crops[k].box.b - crops[k].box.t, crops[k].box.r - crops[k].box.l)
  }

  /** One mask canvas: the jobs painted in order onto a black h-by-w canvas.
      Each pixel ends black or in the colour of a job that paints it. */
  function MaskCanvas(h: nat, w: nat, jobs: seq<PaintJob<Pixel>>): (out: Canvas)
    requires h > 0 && AllValid(jobs, h, w)
    requires forall k :: 0 <= k < |jobs| ==> IsColor(jobs[k].color)
    ensures HasShape(out, h, w) && IsImage(out, 3) && IsByteImage(out)
    ensures forall i, j :: 0 <= i < h && 0 <= j < w ==>
              (out[i][j] == [0, 0, 0] || exists k :: 0 <= k < |jobs| && Hits(jobs[k], i, j) && out[i][j] == jobs[k].color)
  {
    BlankPaintingCells(h, w, jobs);
    BlankPaintingColors(h, w, jobs);
    OrderedPaint(Blank(h, w), jobs)
  }

  /** Painted onto a blank canvas, each pixel ends black or in the colour
      of a job that paints it. */
  lemma BlankPaintingCells(h: nat, w: nat, jobs: seq<PaintJob<Pixel>>)
    requires h > 0 && AllValid(jobs, h, w)
    ensures |Blank(h, w)| == h && Width(Blank(h, w)) == w
    ensures var out := OrderedPaint(Blank(h, w), jobs);
            forall i, j :: 0 <= i < h && 0 <= j < w ==>
              (out[i][j] == [0, 0, 0] || exists k :: 0 <= k < |jobs| && Hits(jobs[k], i, j) && out[i][j] == jobs[k].color)
  {
    var blank := Blank(h, w);
    assert |blank| == h && Width(blank) == w;
    forall i, j | 0 <= i < h && 0 <= j < w
      ensures var out := OrderedPaint(blank, jobs);
              out[i][j] == [0, 0, 0] || exists k :: 0 <= k < |jobs| && Hits(jobs[k], i, j) && out[i][j] == jobs[k].color
    {
      PaintedBy(blank, jobs, i, j);
    }
  }

  /** Painted onto a blank canvas in byte colours, the canvas stays a byte image. */
  lemma BlankPaintingColors(h: nat, w: nat, jobs: seq<PaintJob<Pixel>>)
    requires h > 0 && AllValid(jobs, h, w)
    requires forall k :: 0 <= k < |jobs| ==> IsColor(jobs[k].color)
    ensures |Blank(h, w)| == h && Width(Blank(h, w)) == w
    ensures var out := OrderedPaint(Blank(h, w), jobs);
            IsImage(out, 3) && IsByteImage(out)
  {
    var blank := Blank(h, w);
    assert |blank| == h && Width(blank) == w;
    var out := OrderedPaint(blank, jobs);
    assert IsColorCanvas(out) by {
      BlankIsColorCanvas(h, w);
      OrderedPaintKeepsColors(blank, jobs);
    }
    ColorCanvasIsByteImage(out);
  }

  /** The blank canvas is black in every pixel, a byte colour. */
  lemma BlankIsColorCanvas(h: nat, w: nat)
    ensures IsColorCanvas(Blank(h, w))
  {
    var c := Blank(h, w);
    forall i, j | 0 <= i < |c| && 0 <= j < |c[i]|
      ensures IsColor(c[i][j])
    {
      assert c[i][j] == [0, 0, 0];
    }
  }

  /** `ordered_paint`'s two mask canvases: each pixel is black or the colour
      of a crop that paints it on that canvas. */
  function MaskCanvases(h: nat, w: nat, crops: seq<CropExtractor.Crop>, fusions: seq<Fusion.CropFusion>,
                        colors: seq<Pixel>): (r: (Canvas, Canvas))
    requires ValidScene(h, w, crops, fusions, colors)
    ensures HasShape(r.0, h, w) && HasShape(r.1, h, w)
    ensures IsImage(r.0, 3) && IsByteImage(r.0) && IsImage(r.1, 3) && IsByteImage(r.1)
    ensures var jobs := KMeansJobs(crops, fusions, colors);
            forall i, j :: 0 <= i < h && 0 <= j < w ==>
              (r.0[i][j] == [0, 0, 0] || exists k :: 0 <= k < |jobs| && Hits(jobs[k], i, j) && r.0[i][j] == colors[k])
    ensures var jobs := GmmJobs(crops, fusions, colors);
            forall i, j :: 0 <= i < h && 0 <= j < w ==>
              (r.1[i][j] == [0, 0, 0] || exists k :: 0 <= k < |jobs| && Hits(jobs[k], i, j) && r.1[i][j] == colors[k])
  {
    var kJobs, gJobs := KMeansJobs(crops, fusions, colors), GmmJobs(crops, fusions, colors);
    (MaskCanvas(h, w, kJobs), MaskCanvas(h, w, gJobs))
  }

  /** Every pixel of the painted canvas is its starting value or the colour
      of some job that paints it. */
  lemma PaintedBy<T>(canvas: seq<seq<T>>, jobs: seq<PaintJob<T>>, i: nat, j: nat)
    requires IsRect(canvas) && AllValid(jobs, |canvas|, Width(canvas))
    requires i < |canvas| && j < Width(canvas)
    ensures var out := OrderedPaint(canvas, jobs);
            out[i][j] == canvas[i][j] || exists k :: 0 <= k < |jobs| && Hits(jobs[k], i, j) && out[i][j] == jobs[k].color
  {
    if exists k :: 0 <= k < |jobs| && Hits(jobs[k], i, j) {
      var k := LastHit(jobs, i, j);
      LastPainterWins(canvas, jobs, i, j, k);
    } else {
      UnpaintedPixel(canvas, jobs, i, j);
    }
  }

  /** The index of the last job that paints pixel (i, j), given there is one. */
  function LastHit<T>(jobs: seq<PaintJob<T>>, i: int, j: int): (k: nat)
    requires exists k :: 0 <= k < |jobs| && Hits(jobs[k], i, j)
    ensures k < |jobs| && Hits(jobs[k], i, j)
    ensures forall k' :: k < k' < |jobs| ==> !Hits(jobs[k'], i, j)
    decreases |jobs|
  {
    var n := |jobs| - 1;
    if Hits(jobs[n], i, j) then n
    else
      assert exists k :: 0 <= k < |jobs[..n]| && Hits(jobs[..n][k], i, j) by {
        var k :| 0 <= k < |jobs| && Hits(jobs[k], i, j);
        assert jobs[..n][k] == jobs[k];
      }
      LastHit(jobs[..n], i, j)
  }

  /** A canvas every pixel of which is a three-channel byte colour. */
  predicate IsColorCanvas(c: Canvas) {
    IsRect(c) && forall i, j :: 0 <= i < |c| && 0 <= j < |c[i]| ==> IsColor(c[i][j])
  }

  /** Painting in a byte colour keeps a canvas of byte colours one. */
  lemma PaintKeepsColors(canvas: Canvas, job: PaintJob<Pixel>)
    requires IsColorCanvas(canvas) && ValidJob(job, |canvas|, Width(canvas)) && IsColor(job.color)
    ensures IsColorCanvas(Paint(canvas, job))
  {
    var out := Paint(canvas, job);
    forall i, j | 0 <= i < |out| && 0 <= j < |out[i]|
      ensures IsColor(out[i][j])
    {
      assert out[i][j] == job.color || out[i][j] == canvas[i][j];
    }
  }

  /** The loop over the crops keeps a canvas of byte colours one. */
  lemma {:induction false} OrderedPaintKeepsColors(canvas: Canvas, jobs: seq<PaintJob<Pixel>>)
    requires IsColorCanvas(canvas) && AllValid(jobs, |canvas|, Width(canvas))
    requires forall k :: 0 <= k < |jobs| ==> IsColor(jobs[k].color)
    ensures IsColorCanvas(OrderedPaint(canvas, jobs))
    decreases |jobs|
  {
    if |jobs| > 0 {
      PaintKeepsColors(canvas, jobs[0]);
      RestValid(canvas, jobs);
      assert forall k :: 0 <= k < |jobs| - 1 ==> jobs[1..][k] == jobs[k + 1];
      OrderedPaintKeepsColors(Paint(canvas, jobs[0]), jobs[1..]);
    }
  }

  /** A canvas of byte colours is a three-channel byte image. */
  lemma ColorCanvasIsByteImage(c: Canvas)
    requires IsColorCanvas(c)
    ensures IsImage(c, 3) && IsByteImage(c)
  {
    forall i, j | 0 <= i < |c| && 0 <= j < |c[i]|
      ensures |c[i][j]| == 3 && forall k :: 0 <= k < 3 ==> IsByte(c[i][j][k])
    {
      assert IsColor(c[i][j]);
    }
  }

  /** `final_filter`: the hybrid median filter applied channel by channel to
      both mask canvases (as `MaskCanvases` produces them). */
  function FinalFilter(h: nat, w: nat, kMask: Canvas, gMask: Canvas): (r: (Canvas, Canvas))
    requires HasShape(kMask, h, w) && IsImage(kMask, 3) && IsByteImage(kMask)
    requires HasShape(gMask, h, w) && IsImage(gMask, 3) && IsByteImage(gMask)
    ensures IsImage(r.0, 3) && HasShape(r.0, h, w) && IsImage(r.1, 3) && HasShape(r.1, h, w)
    ensures forall c :: 0 <= c < 3 ==> Channel(r.0, 3, c) == HybridMedian.MedianFilter(Channel(kMask, 3, c))
    ensures forall c :: 0 <= c < 3 ==> Channel(r.1, 3, c) == HybridMedian.MedianFilter(Channel(gMask, 3, c))
  {
    (FilterCanvas(kMask, h, w), FilterCanvas(gMask, h, w))
  }

  /** One mask canvas through the channel-wise hybrid median filter. */
  function FilterCanvas(m: Canvas, h: nat, w: nat): (f: Canvas)
    requires HasShape(m, h, w) && IsImage(m, 3) && IsByteImage(m)
    ensures IsImage(f, 3) && HasShape(f, h, w)
    ensures forall c :: 0 <= c < 3 ==> Channel(f, 3, c) == HybridMedian.MedianFilter(Channel(m, 3, c))
  {
    var f := HybridMedian.FinalMedian(m, 3);
    forall c | 0 <= c < 3
      ensures Channel(f, 3, c) == HybridMedian.MedianFilter(Channel(m, 3, c))
    {
      HybridMedian.FinalMedianChannel(m, 3, c);
    }
    f
  }
}
