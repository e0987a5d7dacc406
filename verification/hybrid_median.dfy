/** The hybrid median filter of `Model.median` and its per-channel form
    `Model.final_median`.

    The raster is copied into a zero frame two cells wide. For every pixel the
    filter takes three medians over that padded copy -- of the five cells on
    the diagonal through the pixel, of the five cells on the anti-diagonal, and
    of the 25 cells of the 5x5 block around it -- and outputs the median of the
    three. Reads only ever touch the padded copy, so every output pixel depends
    on the input alone.
 */
module HybridMedian {
  import opened Rasters
  import opened Statistics

  /** The input copied into the centre of a zero frame two cells wide on every side. */
  function Pad(g: seq<seq<int>>): (p: seq<seq<int>>)
    requires IsRect(g)
    ensures HasShape(p, |g| + 4, Width(g) + 4)
    ensures forall i, j :: 0 <= i < |g| && 0 <= j < Width(g) ==> p[i + 2][j + 2] == g[i][j]
    ensures forall r, c :: 0 <= r < |g| + 4 && 0 <= c < Width(g) + 4 && !(2 <= r < |g| + 2 && 2 <= c < Width(g) + 2)
                           ==> p[r][c] == 0
  {
    var h, w := |g|, Width(g);
    seq(h + 4, r requires 0 <= r < h + 4 =>
      seq(w + 4, c requires 0 <= c < w + 4 =>
        if 2 <= r < h + 2 && 2 <= c < w + 2 then g[r - 2][c - 2] else 0))
  }

  /** Cutting the centre back out of the padded copy (`out2[2:2 + height,
      2:2 + width]`) gives the input back: the final crop undoes the padding. */
  lemma PadInterior(g: seq<seq<int>>)
    requires IsRect(g)
    ensures SubRect(Pad(g), 2, |g| + 2, 2, Width(g) + 2) == g
  {
    var p := Pad(g);
    SameCells(SubRect(p, 2, |g| + 2, 2, Width(g) + 2), g, |g|, Width(g));
  }

  /** True iff the 5x5 window whose top-left cell is (i, j) lies inside `p`. */
  predicate WindowInside(p: seq<seq<int>>, i: nat, j: nat) {
    IsRect(p) && i + 5 <= |p| && j + 5 <= Width(p)
  }

  /** The five cells running down-right from (i, j). */
  function Diagonal(p: seq<seq<int>>, i: nat, j: nat): seq<int>
    requires WindowInside(p, i, j)
  {
    [p[i][j], p[i + 1][j + 1], p[i + 2][j + 2], p[i + 3][j + 3], p[i + 4][j + 4]]
  }

  /** The five cells running up-right from (i + 4, j). */
  function AntiDiagonal(p: seq<seq<int>>, i: nat, j: nat): seq<int>
    requires WindowInside(p, i, j)
  {
    [p[i + 4][j], p[i + 3][j + 1], p[i + 2][j + 2], p[i + 1][j + 3], p[i][j + 4]]
  }

  /** The 25 cells of the 5x5 window, row by row. */
  function Block(p: seq<seq<int>>, i: nat, j: nat): (s: seq<int>)
    requires WindowInside(p, i, j)
    ensures |s| == 25
  {
    p[i][j..j + 5] + p[i + 1][j..j + 5] + p[i + 2][j..j + 5] + p[i + 3][j..j + 5] + p[i + 4][j..j + 5]
  }

  /** The median of the diagonal, anti-diagonal and block medians of the
      window whose top-left cell is (i, j). */
  function HybridAt(p: seq<seq<int>>, i: nat, j: nat): int
    requires WindowInside(p, i, j)
  {
    Median([Median(Diagonal(p, i, j)), Median(AntiDiagonal(p, i, j)), Median(Block(p, i, j))])
  }

  /** True iff `v` is one of the cells of the window whose top-left cell is (i, j). */
  predicate InWindow(p: seq<seq<int>>, i: nat, j: nat, v: int)
    requires WindowInside(p, i, j)
  {
    exists r, c :: i <= r < i + 5 && j <= c < j + 5 && p[r][c] == v
  }

  /** Whatever the filter outputs is one of the 25 cells of the window. */
  lemma HybridAtInWindow(p: seq<seq<int>>, i: nat, j: nat)
    requires WindowInside(p, i, j)
    ensures InWindow(p, i, j, HybridAt(p, i, j))
  {
    var d, a, b := Median(Diagonal(p, i, j)), Median(AntiDiagonal(p, i, j)), Median(Block(p, i, j));
    DiagonalInWindow(p, i, j, d);
    AntiDiagonalInWindow(p, i, j, a);
    BlockInWindow(p, i, j, b);
    assert HybridAt(p, i, j) in [d, a, b];
  }

  lemma DiagonalInWindow(p: seq<seq<int>>, i: nat, j: nat, v: int)
    requires WindowInside(p, i, j) && v in Diagonal(p, i, j)
    ensures InWindow(p, i, j, v)
  {
    var k :| 0 <= k < 5 && Diagonal(p, i, j)[k] == v;
    assert p[i + k][j + k] == v;
  }

  lemma AntiDiagonalInWindow(p: seq<seq<int>>, i: nat, j: nat, v: int)
    requires WindowInside(p, i, j) && v in AntiDiagonal(p, i, j)
    ensures InWindow(p, i, j, v)
  {
    var k :| 0 <= k < 5 && AntiDiagonal(p, i, j)[k] == v;
    assert p[i + 4 - k][j + k] == v;
  }

  lemma BlockInWindow(p: seq<seq<int>>, i: nat, j: nat, v: int)
    requires WindowInside(p, i, j) && v in Block(p, i, j)
    ensures InWindow(p, i, j, v)
  {
    var r :| i <= r < i + 5 && v in p[r][j..j + 5];
    var k :| 0 <= k < 5 && p[r][j..j + 5][k] == v;
    assert p[r][j + k] == v;
  }

  /** The hybrid median at an in-range pixel of the padded copy is either
      frame (0) or some cell of the input. */
  lemma HybridOrigin(g: seq<seq<int>>, i: nat, j: nat)
    requires IsRect(g) && i < |g| && j < Width(g)
    ensures WindowInside(Pad(g), i, j)
    ensures HybridAt(Pad(g), i, j) == 0 || Occurs(g, HybridAt(Pad(g), i, j))
  {
    var p := Pad(g);
    var v := HybridAt(p, i, j);
    HybridAtInWindow(p, i, j);
    var r, c :| i <= r < i + 5 && j <= c < j + 5 && p[r][c] == v;
    if 2 <= r < |g| + 2 && 2 <= c < Width(g) + 2 {
      assert g[r - 2][c - 2] == v;
    }
  }

  /** `Model.median`: every pixel replaced by its hybrid median over the padded copy. */
  function MedianFilter(g: seq<seq<int>>): (out: seq<seq<int>>)
    requires IsRect(g) && IsByteGrid(g)
    ensures HasShape(out, |g|, Width(g))
    ensures IsByteGrid(out)
    ensures forall i, j :: 0 <= i < |g| && 0 <= j < Width(g) ==> out[i][j] == 0 || Occurs(g, out[i][j])
  {
    var p := Pad(g);
    var out := seq(|g|, i requires 0 <= i < |g| =>
                 seq(Width(g), j requires 0 <= j < Width(g) => HybridAt(p, i, j)));
    forall i, j | 0 <= i < |g| && 0 <= j < Width(g)
      ensures out[i][j] == 0 || Occurs(g, out[i][j])
    {
      HybridOrigin(g, i, j);
    }
    out
  }

  /** A pixel whose 5x5 neighbourhood lies wholly inside a raster of constant
      value `v` keeps the value `v`. */
  lemma UniformInterior(g: seq<seq<int>>, v: int, i: nat, j: nat)
    requires IsRect(g) && IsByteGrid(g)
    requires forall a, b :: 0 <= a < |g| && 0 <= b < Width(g) ==> g[a][b] == v
    requires 2 <= i && i + 2 < |g| && 2 <= j && j + 2 < Width(g)
    ensures MedianFilter(g)[i][j] == v
  {
    var p := Pad(g);
    assert forall r, c :: i <= r < i + 5 && j <= c < j + 5 ==> p[r][c] == g[r - 2][c - 2];
    HybridAtInWindow(p, i, j);
  }

  /** A window whose block holds at least 13 zeros and one of whose two
      diagonals holds at least 3 zeros yields 0. */
  lemma ZeroMajority(p: seq<seq<int>>, i: nat, j: nat)
    requires WindowInside(p, i, j)
    requires multiset(Block(p, i, j))[0] >= 13
    requires multiset(Diagonal(p, i, j))[0] >= 3 || multiset(AntiDiagonal(p, i, j))[0] >= 3
    ensures HybridAt(p, i, j) == 0
  {
    HybridOfMajorities(Diagonal(p, i, j), AntiDiagonal(p, i, j), Block(p, i, j));
  }

  /** The median of three medians is 0 when the last list and one of the
      first two are more than half zeros. */
  lemma HybridOfMajorities(dg: seq<int>, ad: seq<int>, bl: seq<int>)
    requires |dg| == 5 && |ad| == 5 && |bl| == 25
    requires multiset(bl)[0] >= 13
    requires multiset(dg)[0] >= 3 || multiset(ad)[0] >= 3
    ensures Median([Median(dg), Median(ad), Median(bl)]) == 0
  {
    MedianOfMajority(bl, 0);
    if multiset(dg)[0] >= 3 {
      MedianOfMajority(dg, 0);
    } else {
      MedianOfMajority(ad, 0);
    }
    MedianOfTwoZeros(Median(dg), Median(ad), Median(bl));
  }

  /** Of three values of which the third and one other are 0, the median is 0. */
  lemma MedianOfTwoZeros(d: int, a: int, b: int)
    requires b == 0 && (d == 0 || a == 0)
    ensures Median([d, a, b]) == 0
  {
    assert multiset([d, a, b])[0] >= 2;
    MedianOfMajority([d, a, b], 0);
  }

  /** Row `r` of the window whose top-left cell is (i, j) contributes its
      zero cells, columns j + lo .. j + hi - 1, to the zero count of the block. */
  lemma BlockRowZeros(p: seq<seq<int>>, i: nat, j: nat, r: nat, lo: nat, hi: nat)
    requires WindowInside(p, i, j) && i <= r < i + 5 && lo <= hi <= 5
    requires forall c :: j + lo <= c < j + hi ==> p[r][c] == 0
    ensures multiset(p[r][j..j + 5])[0] >= hi - lo
  {
    var row := p[r][j..j + 5];
    assert forall k :: lo <= k < hi ==> row[k] == p[r][j + k];
    CountAtLeast(row, 0, lo, hi);
  }

  /** The zero count of the block is the sum of the zero counts of its five rows. */
  lemma BlockZeroCount(p: seq<seq<int>>, i: nat, j: nat)
    requires WindowInside(p, i, j)
    ensures multiset(Block(p, i, j))[0] ==
            multiset(p[i][j..j + 5])[0] + multiset(p[i + 1][j..j + 5])[0] + multiset(p[i + 2][j..j + 5])[0] +
            multiset(p[i + 3][j..j + 5])[0] + multiset(p[i + 4][j..j + 5])[0]
  {
  }

  /** The filter's output at (i, j) is the hybrid median of the padded window there. */
  lemma FilterAt(g: seq<seq<int>>, i: nat, j: nat)
    requires IsRect(g) && IsByteGrid(g) && i < |g| && j < Width(g)
    ensures WindowInside(Pad(g), i, j) && MedianFilter(g)[i][j] == HybridAt(Pad(g), i, j)
  {
  }

  /** True iff (r, c) lies in the two rows at the top (or bottom) or the two
      columns at the left (or right) of the window whose top-left cell is (i, j). */
  predicate CornerFrame(i: nat, j: nat, top: bool, left: bool, r: nat, c: nat) {
    (if top then r < i + 2 else r >= i + 3) || (if left then c < j + 2 else c >= j + 3)
  }

  /** A window whose two outer rows and two outer columns towards one corner
      are all 0 yields 0: the block holds 16 zeros, and the diagonal through
      the opposite corners holds 4. */
  lemma CornerWindowZero(p: seq<seq<int>>, i: nat, j: nat, top: bool, left: bool)
    requires WindowInside(p, i, j)
    requires forall r, c :: i <= r < i + 5 && j <= c < j + 5 && CornerFrame(i, j, top, left, r, c) ==> p[r][c] == 0
    ensures HybridAt(p, i, j) == 0
  {
    CornerBlockZeros(p, i, j, top, left);
    if top == left {
      AntiDiagonalZeros(p, i, j);
    } else {
      DiagonalZeros(p, i, j);
    }
    ZeroMajority(p, i, j);
  }

  /** The two frame rows give 5 zeros each and the other three rows 2 each. */
  lemma CornerBlockZeros(p: seq<seq<int>>, i: nat, j: nat, top: bool, left: bool)
    requires WindowInside(p, i, j)
    requires forall r, c :: i <= r < i + 5 && j <= c < j + 5 && CornerFrame(i, j, top, left, r, c) ==> p[r][c] == 0
    ensures multiset(Block(p, i, j))[0] >= 16
  {
    var lo := if left then 0 else 3;
    if top {
      BlockRowZeros(p, i, j, i, 0, 5);
      BlockRowZeros(p, i, j, i + 1, 0, 5);
      BlockRowZeros(p, i, j, i + 2, lo, lo + 2);
      BlockRowZeros(p, i, j, i + 3, lo, lo + 2);
      BlockRowZeros(p, i, j, i + 4, lo, lo + 2);
    } else {
      BlockRowZeros(p, i, j, i, lo, lo + 2);
      BlockRowZeros(p, i, j, i + 1, lo, lo + 2);
      BlockRowZeros(p, i, j, i + 2, lo, lo + 2);
      BlockRowZeros(p, i, j, i + 3, 0, 5);
      BlockRowZeros(p, i, j, i + 4, 0, 5);
    }
    BlockZeroCount(p, i, j);
  }

  lemma DiagonalZeros(p: seq<seq<int>>, i: nat, j: nat)
    requires WindowInside(p, i, j)
    requires p[i][j] == 0 && p[i + 1][j + 1] == 0 && p[i + 3][j + 3] == 0
    ensures multiset(Diagonal(p, i, j))[0] >= 3
  {
  }

  lemma AntiDiagonalZeros(p: seq<seq<int>>, i: nat, j: nat)
    requires WindowInside(p, i, j)
    requires p[i + 4][j] == 0 && p[i + 3][j + 1] == 0 && p[i + 1][j + 3] == 0
    ensures multiset(AntiDiagonal(p, i, j))[0] >= 3
  {
  }

  /** At a corner pixel of the raster, the two outer rows and columns of its
      padded window are frame. */
  lemma CornerPadFrame(g: seq<seq<int>>, i: nat, j: nat, top: bool, left: bool)
    requires IsRect(g) && i < |g| && j < Width(g)
    requires (if top then i == 0 else i == |g| - 1) && (if left then j == 0 else j == Width(g) - 1)
    ensures WindowInside(Pad(g), i, j)
    ensures forall r, c :: i <= r < i + 5 && j <= c < j + 5 && CornerFrame(i, j, top, left, r, c) ==> Pad(g)[r][c] == 0
  {
  }

  /** The corner pixel (i, j) of the raster, towards the given corner, comes out as 0. */
  lemma CornerVanishes(g: seq<seq<int>>, i: nat, j: nat, top: bool, left: bool)
    requires IsRect(g) && IsByteGrid(g) && i < |g| && j < Width(g)
    requires (if top then i == 0 else i == |g| - 1) && (if left then j == 0 else j == Width(g) - 1)
    ensures MedianFilter(g)[i][j] == 0
  {
    CornerPadFrame(g, i, j, top, left);
    CornerWindowZero(Pad(g), i, j, top, left);
    FilterAt(g, i, j);
  }

  /** Because of the zero frame, the four corner pixels of any byte raster
      come out as 0: a 1x1 raster is wiped to 0, and so are the corners of a
      uniform raster, whatever its value. */
  lemma CornersVanish(g: seq<seq<int>>, h: nat, w: nat)
    requires HasShape(g, h, w) && IsByteGrid(g) && h > 0 && w > 0
    ensures MedianFilter(g)[0][0] == 0
    ensures MedianFilter(g)[0][w - 1] == 0
    ensures MedianFilter(g)[h - 1][0] == 0
    ensures MedianFilter(g)[h - 1][w - 1] == 0
  {
    CornerVanishes(g, 0, 0, true, true);
    CornerVanishes(g, 0, w - 1, true, false);
    CornerVanishes(g, h - 1, 0, false, true);
    CornerVanishes(g, h - 1, w - 1, false, false);
  }

  /** True iff (r, c) lies outside the two adjacent rows (when `rows`) or the
      two adjacent columns (otherwise) at offset `a` of the window whose
      top-left cell is (i, j). */
  predicate OutsideStrip(i: nat, j: nat, a: nat, rows: bool, r: nat, c: nat) {
    if rows then r != i + a && r != i + a + 1 else c != j + a && c != j + a + 1
  }

  /** A window row that is 0 outside two adjacent columns holds at least 3 zeros. */
  lemma RowZerosOutside(p: seq<seq<int>>, i: nat, j: nat, r: nat, a: nat)
    requires WindowInside(p, i, j) && i <= r < i + 5 && a <= 3
    requires forall c :: j <= c < j + 5 && c != j + a && c != j + a + 1 ==> p[r][c] == 0
    ensures multiset(p[r][j..j + 5])[0] >= 3
  {
    var row := p[r][j..j + 5];
    assert forall k :: 0 <= k < 5 ==> row[k] == p[r][j + k];
    ZerosOutsidePair(row, a);
  }

  /** Five values that are 0 outside positions a and a + 1 hold at least 3 zeros. */
  lemma ZerosOutsidePair(s: seq<int>, a: nat)
    requires |s| == 5 && a <= 3
    requires forall k :: 0 <= k < 5 && k != a && k != a + 1 ==> s[k] == 0
    ensures multiset(s)[0] >= 3
  {
    CountAtLeast(s[..a], 0, 0, a);
    CountAtLeast(s[a..], 0, 2, 5 - a);
    assert s == s[..a] + s[a..];
  }

  /** A window that is 0 outside a strip two rows (or two columns) wide
      yields 0: the block holds at least 15 zeros and the diagonal 3. */
  lemma StripWindowZero(p: seq<seq<int>>, i: nat, j: nat, a: nat, rows: bool)
    requires WindowInside(p, i, j) && a <= 3
    requires forall r, c :: i <= r < i + 5 && j <= c < j + 5 && OutsideStrip(i, j, a, rows, r, c) ==> p[r][c] == 0
    ensures HybridAt(p, i, j) == 0
  {
    StripBlockZeros(p, i, j, a, rows);
    StripDiagonalZeros(p, i, j, a, rows);
    ZeroMajority(p, i, j);
  }

  lemma StripBlockZeros(p: seq<seq<int>>, i: nat, j: nat, a: nat, rows: bool)
    requires WindowInside(p, i, j) && a <= 3
    requires forall r, c :: i <= r < i + 5 && j <= c < j + 5 && OutsideStrip(i, j, a, rows, r, c) ==> p[r][c] == 0
    ensures multiset(Block(p, i, j))[0] >= 15
  {
    if rows {
      forall r | i <= r < i + 5
        ensures multiset(p[r][j..j + 5])[0] >= if r == i + a || r == i + a + 1 then 0 else 5
      {
        if r != i + a && r != i + a + 1 {
          BlockRowZeros(p, i, j, r, 0, 5);
        }
      }
    } else {
      forall r | i <= r < i + 5
        ensures multiset(p[r][j..j + 5])[0] >= 3
      {
        RowZerosOutside(p, i, j, r, a);
      }
    }
    BlockZeroCount(p, i, j);
  }

  lemma StripDiagonalZeros(p: seq<seq<int>>, i: nat, j: nat, a: nat, rows: bool)
    requires WindowInside(p, i, j) && a <= 3
    requires forall r, c :: i <= r < i + 5 && j <= c < j + 5 && OutsideStrip(i, j, a, rows, r, c) ==> p[r][c] == 0
    ensures multiset(Diagonal(p, i, j))[0] >= 3
  {
    var dg := Diagonal(p, i, j);
    forall k | 0 <= k < 5 && k != a && k != a + 1
      ensures dg[k] == 0
    {
      assert OutsideStrip(i, j, a, rows, i + k, j + k);
    }
    ZerosOutsidePair(dg, a);
  }

  /** At a pixel of a raster at most two rows high (or two columns wide) the
      padded window is frame outside the strip of rows (or columns) 2 and 3
      of the padded copy. */
  lemma ThinPadFrame(g: seq<seq<int>>, i: nat, j: nat, rows: bool)
    requires IsRect(g) && i < |g| && j < Width(g) && (if rows then |g| <= 2 else Width(g) <= 2)
    ensures WindowInside(Pad(g), i, j)
    ensures var a := if rows then 2 - i else 2 - j;
            forall r, c :: i <= r < i + 5 && j <= c < j + 5 && OutsideStrip(i, j, a, rows, r, c) ==> Pad(g)[r][c] == 0
  {
  }

  /** A pixel of a raster at most two rows high or two columns wide comes out as 0. */
  lemma ThinPixelZero(g: seq<seq<int>>, i: nat, j: nat, rows: bool)
    requires IsRect(g) && IsByteGrid(g) && i < |g| && j < Width(g) && (if rows then |g| <= 2 else Width(g) <= 2)
    ensures MedianFilter(g)[i][j] == 0
  {
    ThinPadFrame(g, i, j, rows);
    StripWindowZero(Pad(g), i, j, if rows then 2 - i else 2 - j, rows);
    FilterAt(g, i, j);
  }

  /** On a raster at most two rows high or two columns wide every pixel comes
      out of the filter as 0: each window then lies mostly in the zero frame. */
  lemma ThinFiltersToZero(g: seq<seq<int>>, h: nat, w: nat)
    requires HasShape(g, h, w) && IsByteGrid(g) && (h <= 2 || w <= 2)
    ensures forall i, j :: 0 <= i < h && 0 <= j < w ==> MedianFilter(g)[i][j] == 0
  {
    forall i, j | 0 <= i < h && 0 <= j < w
      ensures MedianFilter(g)[i][j] == 0
    {
      ThinPixelZero(g, i, j, h <= 2);
    }
  }

  /** The colour image copied into a zero frame two pixels wide, all channels at once. */
  function Pad3(img: seq<seq<seq<int>>>, c: nat): (p: seq<seq<seq<int>>>)
    requires IsImage(img, c)
    ensures IsImage(p, c) && |p| == |img| + 4 && Width(p) == Width(img) + 4
  {
    var h, w := |img|, Width(img);
    var zero := seq(c, _ => 0);
    seq(h + 4, r requires 0 <= r < h + 4 =>
      seq(w + 4, col requires 0 <= col < w + 4 =>
        if 2 <= r < h + 2 && 2 <= col < w + 2 then img[r - 2][col - 2] else zero))
  }

  /** Padding all channels at once pads each channel on its own. */
  lemma PadChannel(img: seq<seq<seq<int>>>, c: nat, k: nat)
    requires IsImage(img, c) && k < c
    ensures Channel(Pad3(img, c), c, k) == Pad(Channel(img, c, k))
  {
    var lhs, rhs := Channel(Pad3(img, c), c, k), Pad(Channel(img, c, k));
    assert |lhs| == |rhs|;
    forall r | 0 <= r < |lhs|
      ensures lhs[r] == rhs[r]
    {
      assert |lhs[r]| == |rhs[r]|;
    }
  }

  /** The output pixel at (i, j): the hybrid median of each channel in turn. */
  function PixelMedians(p: seq<seq<seq<int>>>, c: nat, i: nat, j: nat): (px: seq<int>)
    requires IsImage(p, c) && i + 5 <= |p| && j + 5 <= Width(p)
    ensures |px| == c
    ensures forall k :: 0 <= k < c ==> WindowInside(Channel(p, c, k), i, j) && px[k] == HybridAt(Channel(p, c, k), i, j)
  {
    seq(c, k requires 0 <= k < c => HybridAt(Channel(p, c, k), i, j))
  }

  /** The hybrid median of one channel of the padded colour image is the
      single-channel filter's output for that channel. */
  lemma FinalMedianPixel(img: seq<seq<seq<int>>>, c: nat, k: nat, i: nat, j: nat)
    requires IsImage(img, c) && IsByteImage(img) && k < c && i < |img| && j < Width(img)
    ensures WindowInside(Channel(Pad3(img, c), c, k), i, j)
    ensures HybridAt(Channel(Pad3(img, c), c, k), i, j) == MedianFilter(Channel(img, c, k))[i][j]
  {
    PadChannel(img, c, k);
    FilterAt(Channel(img, c, k), i, j);
  }

  /** `Model.final_median`: the hybrid median taken pixel by pixel and
      channel by channel over the zero-framed colour image. */
  function FinalMedian(img: seq<seq<seq<int>>>, c: nat): (out: seq<seq<seq<int>>>)
    requires IsImage(img, c) && IsByteImage(img)
    ensures IsImage(out, c) && |out| == |img| && Width(out) == Width(img)
  {
    var p := Pad3(img, c);
    seq(|img|, i requires 0 <= i < |img| =>
      seq(Width(img), j requires 0 <= j < Width(img) => PixelMedians(p, c, i, j)))
  }

  /** Channel k of the per-channel filter is the single-channel filter applied
      to channel k of the input. */
  lemma FinalMedianChannel(img: seq<seq<seq<int>>>, c: nat, k: nat)
    requires IsImage(img, c) && IsByteImage(img) && k < c
    ensures Channel(FinalMedian(img, c), c, k) == MedianFilter(Channel(img, c, k))
  {
    var out := FinalMedian(img, c);
    forall i, j | 0 <= i < |img| && 0 <= j < Width(img)
      ensures Channel(out, c, k)[i][j] == MedianFilter(Channel(img, c, k))[i][j]
    {
      assert out[i][j] == PixelMedians(Pad3(img, c), c, i, j);
      FinalMedianPixel(img, c, k, i, j);
    }
    SameCells(Channel(out, c, k), MedianFilter(Channel(img, c, k)), |img|, Width(img));
  }
}
