/** Two-dimensional rasters as sequences of rows, and the few shape and
    value notions every stage of the pipeline shares.

    A numpy `uint8` array of shape (h, w) is a `seq<seq<int>>` of `h` rows of
    `w` values each, every value in 0..255; a colour image of shape (h, w, c)
    is a `seq<seq<seq<int>>>` whose pixels are sequences of `c` channel values.
 */
module Rasters {

  /** True iff `g` has `h` rows of exactly `w` cells each. */
  predicate HasShape<T>(g: seq<seq<T>>, h: nat, w: nat) {
    |g| == h && forall i :: 0 <= i < |g| ==> |g[i]| == w
  }

  /** Width of a raster, read off its first row (0 for a raster with no rows). */
  function Width<T>(g: seq<seq<T>>): nat {
    if |g| == 0 then 0 else |g[0]|
  }

  /** True iff every row of `g` is as long as the first one. */
  predicate IsRect<T>(g: seq<seq<T>>) {
    HasShape(g, |g|, Width(g))
  }

  predicate IsByte(x: int) {
    0 <= x <= 255
  }

  /** True iff every cell of `g` holds a value of numpy's `uint8` range. */
  predicate IsByteGrid(g: seq<seq<int>>) {
    forall i, j :: 0 <= i < |g| && 0 <= j < |g[i]| ==> IsByte(g[i][j])
  }

  /** True iff `img` is a rectangular colour image whose pixels have `c` channels. */
  predicate IsImage(img: seq<seq<seq<int>>>, c: nat) {
    IsRect(img) && forall i, j :: 0 <= i < |img| && 0 <= j < |img[i]| ==> |img[i][j]| == c
  }

  predicate IsByteImage(img: seq<seq<seq<int>>>) {
    forall i, j, k :: 0 <= i < |img| && 0 <= j < |img[i]| && 0 <= k < |img[i][j]| ==> IsByte(img[i][j][k])
  }

  /** Two rasters of the same shape that agree cell by cell are equal. */
  lemma SameCells<T>(a: seq<seq<T>>, b: seq<seq<T>>, h: nat, w: nat)
    requires HasShape(a, h, w) && HasShape(b, h, w)
    requires forall i, j :: 0 <= i < h && 0 <= j < w ==> a[i][j] == b[i][j]
    ensures a == b
  {
    forall i | 0 <= i < h
      ensures a[i] == b[i]
    {
      assert |a[i]| == |b[i]|;
    }
  }

  /** True iff `v` occurs somewhere in `g`. */
  predicate Occurs(g: seq<seq<int>>, v: int) {
    exists i, j :: 0 <= i < |g| && 0 <= j < |g[i]| && g[i][j] == v
  }

  /** The rows of `g` laid end to end: numpy's row-major `reshape(-1)`. */
  function Flatten<T>(g: seq<seq<T>>): seq<T> {
    if |g| == 0 then [] else g[0] + Flatten(g[1..])
  }

  /** Cell (i, j) of an (h, w) raster sits at position i * w + j of its flattening. */
  lemma {:induction false} FlattenIndex<T>(g: seq<seq<T>>, h: nat, w: nat, i: nat, j: nat)
    requires HasShape(g, h, w)
    requires i < h && j < w
    ensures |Flatten(g)| == h * w
    ensures i * w + j < h * w
    ensures Flatten(g)[i * w + j] == g[i][j]
  {
    FlattenLength(g, h, w);
    if i == 0 {
    } else {
      FlattenIndex(g[1..], h - 1, w, i - 1, j);
      assert (i - 1) * w + j == i * w + j - w;
    }
    RowMajorInRange(h, w, i, j);
  }

  /** Row-major position i * w + j of an (h, w) raster lies below h * w. */
  lemma RowMajorInRange(h: nat, w: nat, i: nat, j: nat)
    requires i < h && j < w
    ensures i * w + j < h * w
  {
    assert i * w + j < i * w + w == (i + 1) * w;
    MulLe(i + 1, h, w);
  }

  lemma {:induction false} FlattenLength<T>(g: seq<seq<T>>, h: nat, w: nat)
    requires HasShape(g, h, w)
    ensures |Flatten(g)| == h * w
  {
    if h > 0 {
      FlattenLength(g[1..], h - 1, w);
      assert (h - 1) * w + w == h * w;
    }
  }

  lemma MulLe(a: nat, b: nat, w: nat)
    requires a <= b
    ensures a * w <= b * w
  {
  }

  /** Every position of a flattened (h, w) raster comes from exactly the cell
      (n / w, n % w), so a flattened value occurs in the raster. */
  lemma FlattenPosition<T>(g: seq<seq<T>>, h: nat, w: nat, n: nat)
    requires HasShape(g, h, w)
    requires n < |Flatten(g)|
    ensures w > 0 && n / w < h && n % w < w
    ensures Flatten(g)[n] == g[n / w][n % w]
  {
    FlattenLength(g, h, w);
    RowMajorSplit(h, w, n);
    FlattenIndex(g, h, w, n / w, n % w);
  }

  /** A value of the flattening occurs in the raster. */
  lemma FlattenedOccurs(g: seq<seq<int>>, v: int)
    requires IsRect(g) && v in Flatten(g)
    ensures Occurs(g, v)
  {
    var p :| 0 <= p < |Flatten(g)| && Flatten(g)[p] == v;
    FlattenPosition(g, |g|, Width(g), p);
  }

  /** Every cell of the raster appears in the flattening, at row-major position i * w + j. */
  lemma CellFlattened(g: seq<seq<int>>, i: nat, j: nat)
    requires IsRect(g) && i < |g| && j < Width(g)
    ensures i * Width(g) + j < |Flatten(g)|
    ensures Flatten(g)[i * Width(g) + j] == g[i][j]
  {
    FlattenIndex(g, |g|, Width(g), i, j);
  }

  /** A row-major position below h * w splits into a row below h and a column below w. */
  lemma RowMajorSplit(h: nat, w: nat, n: nat)
    requires n < h * w
    ensures w > 0 && n / w < h && n % w < w && (n / w) * w + n % w == n
  {
    assert w > 0;
    var i, j := n / w, n % w;
    assert n == i * w + j;
    assert i < h by {
      if i >= h {
        MulLe(h, i, w);
        assert false;
      }
    }
  }

  /** The sub-rectangle rows t..b-1, columns l..r-1 of `g`, copied: numpy's
      `g[t:b, l:r].copy()` for a box inside the raster. */
  function SubRect<T>(g: seq<seq<T>>, t: nat, b: nat, l: nat, r: nat): (s: seq<seq<T>>)
    requires t <= b <= |g| && l <= r
    requires forall i :: t <= i < b ==> r <= |g[i]|
    ensures HasShape(s, b - t, r - l)
    ensures forall i, j :: 0 <= i < b - t && 0 <= j < r - l ==> s[i][j] == g[t + i][l + j]
  {
    seq(b - t, i requires 0 <= i < b - t => g[t + i][l..r])
  }

  /** Channel `k` of a colour image as a single-channel raster: numpy's `img[:, :, k]`. */
  function Channel(img: seq<seq<seq<int>>>, c: nat, k: nat): (g: seq<seq<int>>)
    requires IsImage(img, c) && k < c
    ensures HasShape(g, |img|, Width(img))
    ensures forall i, j :: 0 <= i < |img| && 0 <= j < Width(img) ==> g[i][j] == img[i][j][k]
  {
    seq(|img|, i requires 0 <= i < |img| => seq(Width(img), j requires 0 <= j < Width(img) => img[i][j][k]))
  }
}
