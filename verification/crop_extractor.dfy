/** `Model.crop`: turning the detector's boxes into per-object crops.

    A detection row is (left, top, right, bottom, conf, cls), all floats. Rows
    with `conf < 0.6` are dropped. For the others the box corners are truncated
    to ints, the centroid is ((t + b) // 2, (l + r) // 2), the normalised depth
    at the centroid becomes the crop's representative depth, and the box's
    sub-rectangles of the colour image and of the normalised depth are copied.
    The crops are finally stable-sorted by representative depth.
 */
module CropExtractor {
  import opened Rasters

  /** Detections below this confidence yield no crop. */
  const MinConfidence: real := 0.6

  datatype Detection = Detection(left: real, top: real, right: real, bottom: real, conf: real, cls: real)

  /** A box with integer corners: columns l..r-1, rows t..b-1. */
  datatype Box = Box(l: int, t: int, r: int, b: int)

  datatype Crop = Crop(
    cls: int,
    conf: real,
    depthValue: real,
    box: Box,
    centroid: (int, int),
    pixels: seq<seq<seq<int>>>,
    depth: seq<seq<real>>)

  /** `crop` either yields its crops or stops at a kept detection (given by
      its position in the input). Reading the depth at a centroid outside the
      depth raster raises numpy's `IndexError`. Converting the empty copy of
      a zero-area box to grey raises OpenCV's `cv2.error`; the depth read
      comes first, since the crop record's fields are built in order. */
  datatype Outcome = Ok(crops: seq<Crop>) | CentroidOutOfFrame(index: nat) | EmptyBox(index: nat)

  /** Python's `int()` on a float: truncation toward zero. */
  function Trunc(x: real): (n: int)
    ensures x >= 0.0 ==> n as real <= x < n as real + 1.0
    ensures x < 0.0 ==> n as real - 1.0 < x <= n as real
  {
    if x >= 0.0 then x.Floor else -((-x).Floor)
  }

  /** Truncation never moves a value past another one. */
  lemma TruncMonotone(x: real, y: real)
    requires x <= y
    ensures Trunc(x) <= Trunc(y)
  {
  }

  function BoxOf(d: Detection): Box {
    Box(Trunc(d.left), Trunc(d.top), Trunc(d.right), Trunc(d.bottom))
  }

  /** `((t + b) // 2, (l + r) // 2)`: the floor-halved corner sums. Dafny's
      division by the positive divisor 2 rounds down, as Python's `//` does. */
  function Centroid(bx: Box): (c: (int, int))
    ensures 2 * c.0 <= bx.t + bx.b < 2 * c.0 + 2
    ensures 2 * c.1 <= bx.l + bx.r < 2 * c.1 + 2
    ensures bx.t <= bx.b ==> bx.t <= c.0 <= bx.b
    ensures bx.l <= bx.r ==> bx.l <= c.1 <= bx.r
  {
    ((bx.t + bx.b) / 2, (bx.l + bx.r) / 2)
  }

  /** The detector reports boxes inside the frame with left <= right and top <= bottom. */
  predicate InFrame(d: Detection, h: nat, w: nat) {
    0.0 <= d.left <= d.right <= w as real && 0.0 <= d.top <= d.bottom <= h as real
  }

  /** The inputs `crop` reads: the colour image and the normalised depth of one
      frame, of equal height and width, and boxes inside the frame for every
      detection that is kept. */
  predicate ValidFrame(dets: seq<Detection>, image: seq<seq<seq<int>>>, depth: seq<seq<real>>) {
    && IsImage(image, 3)
    && HasShape(depth, |image|, Width(image))
    && forall k :: 0 <= k < |dets| && dets[k].conf >= MinConfidence ==> InFrame(dets[k], |image|, Width(image))
  }

  /** True iff the centroid of `d`'s box indexes a cell of an h-by-w raster. */
  predicate CentroidInside(d: Detection, h: nat, w: nat) {
    var c := Centroid(BoxOf(d));
    0 <= c.0 < h && 0 <= c.1 < w
  }

  /** True iff the truncated box of `d` covers at least one pixel. */
  predicate PositiveArea(d: Detection) {
    var bx := BoxOf(d);
    bx.t < bx.b && bx.l < bx.r
  }

  /** A box in the frame that covers a pixel has its centroid inside the
      frame, so every centroid outside the frame belongs to a zero-area box. */
  lemma PositiveAreaCentroidInside(d: Detection, h: nat, w: nat)
    requires InFrame(d, h, w) && PositiveArea(d)
    ensures CentroidInside(d, h, w)
  {
    BoxInFrame(d, h, w);
  }

  /** The detections that yield a crop, in input order. */
  function Kept(dets: seq<Detection>): (ks: seq<Detection>)
    ensures |ks| <= |dets|
  {
    if |dets| == 0 then []
    else if dets[0].conf < MinConfidence then Kept(dets[1..])
    else [dets[0]] + Kept(dets[1..])
  }

  /** The kept detections are exactly those that reach the threshold. */
  lemma {:induction false} KeptMembers(dets: seq<Detection>)
    ensures forall d :: d in Kept(dets) <==> d in dets && d.conf >= MinConfidence
  {
    if |dets| > 0 {
      KeptMembers(dets[1..]);
      assert dets == [dets[0]] + dets[1..];
    }
  }

  /** Keeping commutes with concatenation, so the kept detections stay in input order. */
  lemma {:induction false} KeptConcat(a: seq<Detection>, b: seq<Detection>)
    ensures Kept(a + b) == Kept(a) + Kept(b)
  {
    if |a| == 0 {
      assert a + b == b;
    } else {
      assert (a + b)[0] == a[0] && (a + b)[1..] == a[1..] + b;
      KeptConcat(a[1..], b);
    }
  }

  /** Each detection is kept exactly as many times as it occurs, when its
      confidence reaches the threshold, and never otherwise. */
  lemma {:induction false} KeptCount(dets: seq<Detection>, d: Detection)
    ensures multiset(Kept(dets))[d] == if d.conf >= MinConfidence then multiset(dets)[d] else 0
  {
    if |dets| > 0 {
      assert dets == [dets[0]] + dets[1..];
      KeptCount(dets[1..], d);
    }
  }

  /** Confidences 0.9, 0.3 and 0.6 against the threshold 0.6: the first and
      the last detection are kept, the boundary value included. */
  lemma ThresholdIsInclusive(a: Detection, b: Detection, c: Detection)
    requires a.conf == 0.9 && b.conf == 0.3 && c.conf == 0.6
    ensures Kept([a, b, c]) == [a, c]
  {
    assert [a, b, c][1..] == [b, c];
    assert [b, c][1..] == [c];
    assert Kept([c]) == [c] + Kept([c][1..]);
    assert Kept([b, c]) == Kept([c]);
  }

  /** A detection inside the frame truncates to a box inside the frame,
      with its corners in order. */
  lemma BoxInFrame(d: Detection, h: nat, w: nat)
    requires InFrame(d, h, w)
    ensures var bx := BoxOf(d); 0 <= bx.l <= bx.r <= w && 0 <= bx.t <= bx.b <= h
  {
    TruncMonotone(d.left, d.right);
    TruncMonotone(d.top, d.bottom);
    TruncMonotone(d.right, w as real);
    TruncMonotone(d.bottom, h as real);
  }

  /** The crop of one kept detection whose box covers a pixel. */
  function MakeCrop(d: Detection, image: seq<seq<seq<int>>>, depth: seq<seq<real>>): (c: Crop)
    requires IsImage(image, 3) && HasShape(depth, |image|, Width(image))
    requires InFrame(d, |image|, Width(image)) && PositiveArea(d)
    ensures c.conf == d.conf && c.box == BoxOf(d)
    ensures 0 <= c.box.l < c.box.r <= Width(image) && 0 <= c.box.t < c.box.b <= |image|
    ensures c.centroid == Centroid(c.box)
    ensures c.depthValue == depth[c.centroid.0][c.centroid.1]
    ensures HasShape(c.pixels, c.box.b - c.box.t, c.box.r - c.box.l)
    ensures HasShape(c.depth, c.box.b - c.box.t, c.box.r - c.box.l)
  {
    var bx := BoxOf(d);
    BoxInFrame(d, |image|, Width(image));
    PositiveAreaCentroidInside(d, |image|, Width(image));
    var ctr := Centroid(bx);
    Crop(Trunc(d.cls), d.conf, depth[ctr.0][ctr.1], bx, ctr,
         SubRect(image, bx.t, bx.b, bx.l, bx.r), SubRect(depth, bx.t, bx.b, bx.l, bx.r))
  }

  /** Cell (i, j) of a crop's pixels and depth is cell (t + i, l + j) of the
      frame: the crop is the box's view of the image and the depth raster. */
  lemma CropCell(d: Detection, image: seq<seq<seq<int>>>, depth: seq<seq<real>>, i: nat, j: nat)
    requires IsImage(image, 3) && HasShape(depth, |image|, Width(image))
    requires InFrame(d, |image|, Width(image)) && PositiveArea(d)
    requires var bx := BoxOf(d); i < bx.b - bx.t && j < bx.r - bx.l
    ensures var c := MakeCrop(d, image, depth);
            && c.box.t + i < |image| && c.box.l + j < |image[c.box.t + i]|
            && c.pixels[i][j] == image[c.box.t + i][c.box.l + j]
            && c.depth[i][j] == depth[c.box.t + i][c.box.l + j]
  {
  }

  /** The crops of the detections from position `from` on, in input order. */
  function Select(dets: seq<Detection>, from: nat, image: seq<seq<seq<int>>>, depth: seq<seq<real>>): (o: Outcome)
    requires from <= |dets| && ValidFrame(dets, image, depth)
    ensures o.Ok? <==> forall k :: from <= k < |dets| && dets[k].conf >= MinConfidence ==> PositiveArea(dets[k])
    ensures o.Ok? ==> |o.crops| == |Kept(dets[from..])|
    ensures !o.Ok? ==>
              && from <= o.index < |dets|
              && dets[o.index].conf >= MinConfidence
              && !PositiveArea(dets[o.index])
              && forall k :: from <= k < o.index && dets[k].conf >= MinConfidence ==> PositiveArea(dets[k])
    ensures o.CentroidOutOfFrame? ==> !CentroidInside(dets[o.index], |image|, Width(image))
    ensures o.EmptyBox? ==> CentroidInside(dets[o.index], |image|, Width(image))
    decreases |dets| - from
  {
    if from == |dets| then Ok([])
    else
      assert dets[from..] == [dets[from]] + dets[from + 1..];
      if dets[from].conf < MinConfidence then Select(dets, from + 1, image, depth)
      else if !CentroidInside(dets[from], |image|, Width(image)) then
        assert !PositiveArea(dets[from]) by {
          if PositiveArea(dets[from]) {
            PositiveAreaCentroidInside(dets[from], |image|, Width(image));
          }
        }
        CentroidOutOfFrame(from)
      else if !PositiveArea(dets[from]) then EmptyBox(from)
      else
        match Select(dets, from + 1, image, depth)
        case Ok(cs) => Ok([MakeCrop(dets[from], image, depth)] + cs)
        case CentroidOutOfFrame(k) => CentroidOutOfFrame(k)
        case EmptyBox(k) => EmptyBox(k)
  }

  /** On success, the selection is the crop of each kept detection, in input order. */
  lemma {:induction false} SelectCrops(dets: seq<Detection>, from: nat, image: seq<seq<seq<int>>>, depth: seq<seq<real>>, i: nat)
    requires from <= |dets| && ValidFrame(dets, image, depth) && Select(dets, from, image, depth).Ok?
    requires i < |Select(dets, from, image, depth).crops|
    ensures i < |Kept(dets[from..])|
    ensures InFrame(Kept(dets[from..])[i], |image|, Width(image))
    ensures PositiveArea(Kept(dets[from..])[i])
    ensures Select(dets, from, image, depth).crops[i] == MakeCrop(Kept(dets[from..])[i], image, depth)
    decreases |dets| - from
  {
    var rest := dets[from + 1..];
    var ks := Kept(dets[from..]);
    KeptFrom(dets, from);
    if dets[from].conf < MinConfidence {
      SelectSkip(dets, from, image, depth);
      SelectCrops(dets, from + 1, image, depth, i);
      assert ks[i] == Kept(rest)[i];
    } else {
      SelectTake(dets, from, image, depth);
      if i == 0 {
        assert ks[0] == dets[from];
      } else {
        SelectCrops(dets, from + 1, image, depth, i - 1);
        assert ks[i] == Kept(rest)[i - 1];
      }
    }
  }

  /** Keeping the detections from position `from` on looks at that one first. */
  lemma KeptFrom(dets: seq<Detection>, from: nat)
    requires from < |dets|
    ensures Kept(dets[from..]) == if dets[from].conf < MinConfidence then Kept(dets[from + 1..])
                                  else [dets[from]] + Kept(dets[from + 1..])
  {
    assert dets[from..] == [dets[from]] + dets[from + 1..];
  }

  /** A detection below the threshold contributes nothing. */
  lemma SelectSkip(dets: seq<Detection>, from: nat, image: seq<seq<seq<int>>>, depth: seq<seq<real>>)
    requires from < |dets| && ValidFrame(dets, image, depth) && dets[from].conf < MinConfidence
    ensures Select(dets, from, image, depth) == Select(dets, from + 1, image, depth)
  {
  }

  /** A kept detection contributes its crop ahead of the crops of the later ones. */
  lemma SelectTake(dets: seq<Detection>, from: nat, image: seq<seq<seq<int>>>, depth: seq<seq<real>>)
    requires from < |dets| && ValidFrame(dets, image, depth) && dets[from].conf >= MinConfidence
    requires Select(dets, from, image, depth).Ok?
    ensures InFrame(dets[from], |image|, Width(image)) && PositiveArea(dets[from])
    ensures Select(dets, from + 1, image, depth).Ok?
    ensures Select(dets, from, image, depth).crops ==
            [MakeCrop(dets[from], image, depth)] + Select(dets, from + 1, image, depth).crops
  {
  }

  predicate SortedByDepth(cs: seq<Crop>) {
    forall i, j :: 0 <= i < j < |cs| ==> cs[i].depthValue <= cs[j].depthValue
  }

  /** Inserts `c` ahead of every crop at least as deep, after every shallower one. */
  function InsertByDepth(c: Crop, cs: seq<Crop>): (r: seq<Crop>)
    requires SortedByDepth(cs)
    ensures SortedByDepth(r)
    ensures |r| == |cs| + 1
    ensures r[0] == c || (|cs| > 0 && r[0] == cs[0])
  {
    if |cs| == 0 || c.depthValue <= cs[0].depthValue then [c] + cs
    else [cs[0]] + InsertByDepth(c, cs[1..])
  }

  /** `sorted(crops, key=lambda x: x['depth_value'])`. */
  function SortByDepth(cs: seq<Crop>): (r: seq<Crop>)
    ensures SortedByDepth(r)
    ensures |r| == |cs|
  {
    if |cs| == 0 then [] else InsertByDepth(cs[0], SortByDepth(cs[1..]))
  }

  /** The crops whose representative depth is exactly `v`, in sequence order. */
  function WithDepth(cs: seq<Crop>, v: real): seq<Crop> {
    if |cs| == 0 then []
    else if cs[0].depthValue == v then [cs[0]] + WithDepth(cs[1..], v)
    else WithDepth(cs[1..], v)
  }

  lemma {:induction false} WithDepthConcat(a: seq<Crop>, b: seq<Crop>, v: real)
    ensures WithDepth(a + b, v) == WithDepth(a, v) + WithDepth(b, v)
  {
    if |a| == 0 {
      assert a + b == b;
    } else {
      assert (a + b)[0] == a[0] && (a + b)[1..] == a[1..] + b;
      WithDepthConcat(a[1..], b, v);
    }
  }

  lemma {:induction false} InsertByDepthStable(c: Crop, cs: seq<Crop>, v: real)
    requires SortedByDepth(cs)
    ensures WithDepth(InsertByDepth(c, cs), v) == WithDepth([c], v) + WithDepth(cs, v)
  {
    if |cs| == 0 || c.depthValue <= cs[0].depthValue {
      WithDepthConcat([c], cs, v);
    } else {
      InsertByDepthStable(c, cs[1..], v);
      WithDepthConcat([cs[0]], InsertByDepth(c, cs[1..]), v);
      WithDepthConcat([cs[0]], cs[1..], v);
      assert [cs[0]] + cs[1..] == cs;
    }
  }

  /** Stability: among crops of equal depth the sort keeps the input order,
      and crops of that depth are neither lost nor duplicated. */
  lemma {:induction false} SortByDepthStable(cs: seq<Crop>, v: real)
    ensures WithDepth(SortByDepth(cs), v) == WithDepth(cs, v)
  {
    if |cs| > 0 {
      SortByDepthStable(cs[1..], v);
      InsertByDepthStable(cs[0], SortByDepth(cs[1..]), v);
      WithDepthConcat([cs[0]], cs[1..], v);
      assert [cs[0]] + cs[1..] == cs;
    }
  }

  /** A non-empty sequence holds its head and the elements of its tail. */
  lemma HeadTailMultiset<T>(s: seq<T>)
    requires |s| > 0
    ensures multiset(s) == multiset{s[0]} + multiset(s[1..])
  {
    assert s == [s[0]] + s[1..];
  }

  lemma {:induction false} InsertByDepthPermutes(c: Crop, cs: seq<Crop>)
    requires SortedByDepth(cs)
    ensures multiset(InsertByDepth(c, cs)) == multiset(cs) + multiset{c}
  {
    if |cs| > 0 && c.depthValue > cs[0].depthValue {
      InsertByDepthPermutes(c, cs[1..]);
      HeadTailMultiset(cs);
      HeadTailMultiset(InsertByDepth(c, cs));
    }
  }

  /** The sort only rearranges the crops. */
  lemma {:induction false} SortByDepthPermutes(cs: seq<Crop>)
    ensures multiset(SortByDepth(cs)) == multiset(cs)
  {
    if |cs| > 0 {
      SortByDepthPermutes(cs[1..]);
      InsertByDepthPermutes(cs[0], SortByDepth(cs[1..]));
      HeadTailMultiset(cs);
    }
  }

  /** Every selected crop comes from a detection that reached the threshold. */
  lemma SelectConfident(dets: seq<Detection>, image: seq<seq<seq<int>>>, depth: seq<seq<real>>)
    requires ValidFrame(dets, image, depth) && Select(dets, 0, image, depth).Ok?
    ensures forall i :: 0 <= i < |Select(dets, 0, image, depth).crops| ==>
              Select(dets, 0, image, depth).crops[i].conf >= MinConfidence
  {
    var cs := Select(dets, 0, image, depth).crops;
    forall i | 0 <= i < |cs|
      ensures cs[i].conf >= MinConfidence
    {
      SelectCrops(dets, 0, image, depth, i);
      KeptMembers(dets[0..]);
      assert Kept(dets[0..])[i] in Kept(dets[0..]);
    }
  }

  /** Sorting keeps a lower bound on the confidences, since it only rearranges. */
  lemma SortKeepsConfidence(cs: seq<Crop>)
    requires forall i :: 0 <= i < |cs| ==> cs[i].conf >= MinConfidence
    ensures forall i :: 0 <= i < |SortByDepth(cs)| ==> SortByDepth(cs)[i].conf >= MinConfidence
  {
    var sorted := SortByDepth(cs);
    SortByDepthPermutes(cs);
    forall i | 0 <= i < |sorted|
      ensures sorted[i].conf >= MinConfidence
    {
      assert sorted[i] in multiset(cs);
    }
  }

  /** `Model.crop`: the kept detections' crops, stable-sorted by representative depth. */
  function ExtractCrops(dets: seq<Detection>, image: seq<seq<seq<int>>>, depth: seq<seq<real>>): (o: Outcome)
    requires ValidFrame(dets, image, depth)
    ensures o.Ok? <==> forall k :: 0 <= k < |dets| && dets[k].conf >= MinConfidence ==> PositiveArea(dets[k])
    ensures !o.Ok? ==> o == Select(dets, 0, image, depth)
    ensures o.Ok? ==> SortedByDepth(o.crops) && |o.crops| == |Kept(dets)|
    ensures o.Ok? ==> forall i :: 0 <= i < |o.crops| ==> o.crops[i].conf >= MinConfidence
    ensures |dets| == 0 ==> o == Ok([])
  {
    match Select(dets, 0, image, depth)
    case Ok(cs) =>
      assert dets[0..] == dets;
      SelectConfident(dets, image, depth);
      SortKeepsConfidence(cs);
      var sorted := SortByDepth(cs);
      Ok(sorted)
    case CentroidOutOfFrame(k) => CentroidOutOfFrame(k)
    case EmptyBox(k) => EmptyBox(k)
  }

  /** A confident detection (1.0, 5.0, 4.0, 5.0) in a 10x10 frame has
      top == bottom: its centroid (5, 2) is read, but the empty box stops
      the crop. */
  lemma ZeroHeightBoxFails(image: seq<seq<seq<int>>>, depth: seq<seq<real>>, d: Detection)
    requires IsImage(image, 3) && |image| == 10 && Width(image) == 10 && HasShape(depth, 10, 10)
    requires d == Detection(1.0, 5.0, 4.0, 5.0, 0.9, 0.0)
    ensures ValidFrame([d], image, depth)
    ensures ExtractCrops([d], image, depth) == EmptyBox(0)
  {
    assert BoxOf(d) == Box(1, 5, 4, 5);
  }

  /** The sorted crops are exactly the kept detections' crops: a stable
      permutation of them, in which crops of equal depth keep input order. */
  lemma ExtractCropsArePermutedSelection(dets: seq<Detection>, image: seq<seq<seq<int>>>, depth: seq<seq<real>>, v: real)
    requires ValidFrame(dets, image, depth)
    requires Select(dets, 0, image, depth).Ok?
    ensures var selected := Select(dets, 0, image, depth).crops;
            && ExtractCrops(dets, image, depth) == Ok(SortByDepth(selected))
            && multiset(ExtractCrops(dets, image, depth).crops) == multiset(selected)
            && WithDepth(ExtractCrops(dets, image, depth).crops, v) == WithDepth(selected, v)
  {
    var selected := Select(dets, 0, image, depth).crops;
    SortByDepthPermutes(selected);
    SortByDepthStable(selected, v);
  }
}
