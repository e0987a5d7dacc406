/** The depth-gradient part of `Model.preprocess`.

    The grey depth raster (bytes) has a vertical ramp subtracted from it: row
    `r` of an `h`-row raster loses the `r`-th entry of `np.linspace(0, 255, h)`,
    which is 255 * r / (h - 1), or 0 when h == 1. The difference is clipped to
    [0, 255] and kept as floating point (modelled as exact reals).
 */
module DepthNormalizer {
  import opened Rasters

  /** Entry `r` of `np.linspace(0, 255, h)`. */
  function Ramp(h: nat, r: nat): (x: real)
    ensures h <= 1 ==> x == 0.0
    ensures r < h ==> 0.0 <= x <= 255.0
    ensures h > 1 && r == h - 1 ==> x == 255.0
  {
    if h <= 1 then 0.0 else 255.0 * (r as real) / ((h - 1) as real)
  }

  /** The ramp grows strictly from row to row. */
  lemma RampIncreasing(h: nat, r: nat, r': nat)
    requires h > 1 && r < r'
    ensures Ramp(h, r) < Ramp(h, r')
  {
    var d := (h - 1) as real;
    assert 255.0 * (r as real) < 255.0 * (r' as real);
    assert 255.0 * (r as real) / d < 255.0 * (r' as real) / d;
  }

  /** `np.linspace(0, 255, n)`. */
  function Linspace(n: nat): (x: seq<real>)
    ensures |x| == n
  {
    seq(n, r requires 0 <= r < n => Ramp(n, r))
  }

  /** `np.full((rows, |v|), v)`: `v` broadcast into every row. */
  function Full(rows: nat, v: seq<real>): (m: seq<seq<real>>)
    ensures HasShape(m, rows, |v|)
  {
    seq(rows, _ => v)
  }

  /** `.transpose()` of a rows-by-cols raster. */
  function Transpose(m: seq<seq<real>>, rows: nat, cols: nat): (t: seq<seq<real>>)
    requires HasShape(m, rows, cols)
    ensures HasShape(t, cols, rows)
  {
    seq(cols, i requires 0 <= i < cols => seq(rows, j requires 0 <= j < rows => m[j][i]))
  }

  /** `np.zeros((h, w))`. */
  function Zeros(h: nat, w: nat): (z: seq<seq<real>>)
    ensures HasShape(z, h, w)
  {
    seq(h, _ => seq(w, _ => 0.0))
  }

  /** `z[from:, :] = x`: the rows from `from` on replaced by those of `x`. */
  function StoreRows(z: seq<seq<real>>, from: nat, x: seq<seq<real>>): (k: seq<seq<real>>)
    requires IsRect(z) && from <= |z| && HasShape(x, |z| - from, Width(z))
    ensures HasShape(k, |z|, Width(z))
  {
    seq(|z|, r requires 0 <= r < |z| => if r < from then z[r] else x[r - from])
  }

  /** The bias raster `kernel` as the source builds it: with `th = int(h * 1)`,
      i.e. `th == h`, the linspace is broadcast to a w-by-th raster,
      transposed, and stored into the rows `h - th` on of a zero raster. */
  function Kernel(h: nat, w: nat): (k: seq<seq<real>>)
    ensures HasShape(k, h, w)
  {
    var th := h;
    var x := Transpose(Full(w, Linspace(th)), w, th);
    StoreRows(Zeros(h, w), h - th, x)
  }

  /** The construction puts the gradient of row r into every column of row r. */
  lemma KernelIsRamp(h: nat, w: nat)
    ensures forall r, c :: 0 <= r < h && 0 <= c < w ==> Kernel(h, w)[r][c] == Ramp(h, r)
  {
    var x := Transpose(Full(w, Linspace(h)), w, h);
    forall r, c | 0 <= r < h && 0 <= c < w
      ensures Kernel(h, w)[r][c] == Ramp(h, r)
    {
      assert Kernel(h, w)[r] == x[r];
      assert x[r][c] == Full(w, Linspace(h))[c][r] == Linspace(h)[r];
    }
  }

  function Clip(x: real, lo: real, hi: real): real
    requires lo <= hi
  {
    if x < lo then lo else if x > hi then hi else x
  }

  /** `(depth - kernel).clip(0, 255)` for a kernel of the raster's shape
      whose entries lie in [0, 255]. */
  function ClipDifference(d: seq<seq<int>>, k: seq<seq<real>>): (n: seq<seq<real>>)
    requires IsRect(d) && IsByteGrid(d) && HasShape(k, |d|, Width(d))
    requires forall r, c :: 0 <= r < |d| && 0 <= c < Width(d) ==> 0.0 <= k[r][c]
    ensures HasShape(n, |d|, Width(d))
    ensures forall r, c :: 0 <= r < |d| && 0 <= c < Width(d) ==> 0.0 <= n[r][c] <= d[r][c] as real
    ensures forall r, c :: 0 <= r < |d| && 0 <= c < Width(d) && k[r][c] == 0.0 ==> n[r][c] == d[r][c] as real
  {
    seq(|d|, r requires 0 <= r < |d| =>
      seq(Width(d), c requires 0 <= c < Width(d) => Clip(d[r][c] as real - k[r][c], 0.0, 255.0)))
  }

  /** `(depth - kernel).clip(0, 255)`: the normalised depth raster. */
  function Normalize(d: seq<seq<int>>): (n: seq<seq<real>>)
    requires IsRect(d) && IsByteGrid(d)
    ensures HasShape(n, |d|, Width(d))
    ensures forall r, c :: 0 <= r < |d| && 0 <= c < Width(d) ==> 0.0 <= n[r][c] <= d[r][c] as real
    ensures |d| > 0 ==> forall c :: 0 <= c < Width(d) ==> n[0][c] == d[0][c] as real
  {
    KernelIsRamp(|d|, Width(d));
    ClipDifference(d, Kernel(|d|, Width(d)))
  }

  /** Row `r` of the result is the input minus the ramp, floored at 0; the
      upper clip never acts on byte input. */
  lemma NormalizeRow(d: seq<seq<int>>, r: nat, c: nat)
    requires IsRect(d) && IsByteGrid(d)
    requires r < |d| && c < Width(d)
    ensures var x := d[r][c] as real - Ramp(|d|, r);
            Normalize(d)[r][c] == if x < 0.0 then 0.0 else x
  {
    KernelIsRamp(|d|, Width(d));
  }

  /** A single-row raster is left as it is. */
  lemma SingleRowUnchanged(d: seq<seq<int>>)
    requires IsRect(d) && IsByteGrid(d) && |d| == 1
    ensures forall c :: 0 <= c < Width(d) ==> Normalize(d)[0][c] == d[0][c] as real
  {
  }

  /** On a raster of two or more rows, the bottom row always comes out as 0. */
  lemma BottomRowZero(d: seq<seq<int>>)
    requires IsRect(d) && IsByteGrid(d) && |d| > 1
    ensures var bottom := Normalize(d)[|d| - 1];
            |bottom| == Width(d) && forall c :: 0 <= c < |bottom| ==> bottom[c] == 0.0
  {
    var bottom := Normalize(d)[|d| - 1];
    forall c | 0 <= c < |bottom|
      ensures bottom[c] == 0.0
    {
      NormalizeRow(d, |d| - 1, c);
    }
  }

  /** Going down a column whose input is constant, the output never grows,
      and it shrinks strictly as long as it is still above 0. */
  lemma DownColumnDecreasing(d: seq<seq<int>>, c: nat, r: nat, r': nat)
    requires IsRect(d) && IsByteGrid(d)
    requires c < Width(d) && r < r' < |d|
    requires d[r][c] == d[r'][c]
    ensures Normalize(d)[r'][c] <= Normalize(d)[r][c]
    ensures Normalize(d)[r][c] > 0.0 ==> Normalize(d)[r'][c] < Normalize(d)[r][c]
  {
    RampIncreasing(|d|, r, r');
    NormalizeRow(d, r, c);
    NormalizeRow(d, r', c);
  }
}
