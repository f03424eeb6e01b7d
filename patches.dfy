/** Image patches and byte histograms shared by orientation assignment and the
    keypoint descriptor (computer_vision.py): cells of a square window picked by
    a boolean mask in row-major order (numpy boolean indexing), the disk mask
    `binary_dilation` of a centred pixel with `morphology.disk`, and
    `np.histogram(..., bins=nbins, range=(0,256))` on byte values. */
module Patches {
  import opened Common

  /** A cell of a window: row offset and column offset from its top-left corner. */
  datatype Cell = Cell(row: int, col: int)

  /** The dilation of the centre (c, c) by `disk(r)`: cells at Euclidean distance at most r. */
  predicate InDisk(c: int, r: int, cell: Cell)
  {
    (cell.row - c) * (cell.row - c) + (cell.col - c) * (cell.col - c) <= r * r
  }

  /** Cells of row `row` with column in [c0, c1) that the mask keeps, left to right. */
  function RowCells(row: int, c0: int, c1: int, keep: Cell -> bool): (cs: seq<Cell>)
    ensures forall cell :: cell in cs <==> cell.row == row && c0 <= cell.col < c1 && keep(cell)
    decreases c1 - c0
  {
    if c1 <= c0 then []
    else (if keep(Cell(row, c0)) then [Cell(row, c0)] else []) + RowCells(row, c0 + 1, c1, keep)
  }

  /** `window[r0:r1, c0:c1][mask]`: the kept cells of a rectangle in row-major order. */
  function RegionCells(r0: int, r1: int, c0: int, c1: int, keep: Cell -> bool): (cs: seq<Cell>)
    ensures forall cell :: cell in cs <==> r0 <= cell.row < r1 && c0 <= cell.col < c1 && keep(cell)
    decreases r1 - r0
  {
    if r1 <= r0 then []
    else RowCells(r0, c0, c1, keep) + RegionCells(r0 + 1, r1, c0, c1, keep)
  }

  /** A byte image of h rows and w columns. */
  predicate IsImage(img: seq<seq<Byte>>, h: nat, w: nat)
  {
    |img| == h && forall i :: 0 <= i < h ==> |img[i]| == w
  }

  /** The window of half-size r centred on column x, row y lies inside the image,
      so `img[y-r:y+r, x-r:x+r]` has the full 2r×2r shape. */
  predicate WindowInside(h: nat, w: nat, x: int, y: int, r: int)
  {
    0 <= y - r && y + r <= h && 0 <= x - r && x + r <= w
  }

  /** The image values under the given window cells (rows from y-r, columns from x-r). */
  function Crop(img: seq<seq<Byte>>, h: nat, w: nat, x: int, y: int, r: int, cells: seq<Cell>): (vs: seq<Byte>)
    requires IsImage(img, h, w) && WindowInside(h, w, x, y, r)
    requires forall cell :: cell in cells ==> 0 <= cell.row < 2 * r && 0 <= cell.col < 2 * r
    ensures |vs| == |cells|
    ensures forall k :: 0 <= k < |cells| ==> vs[k] == img[y - r + cells[k].row][x - r + cells[k].col]
  {
    seq(|cells|, k requires 0 <= k < |cells| => img[y - r + cells[k].row][x - r + cells[k].col])
  }

  /** The bin of byte v among nbins equal bins of [0, 256). */
  function Bin(v: Byte, nbins: nat): (b: nat)
    requires nbins >= 1
    ensures b < nbins
    ensures b * 256 <= v * nbins < (b + 1) * 256
  {
    v * nbins / 256
  }

  /** The unweighted histogram of byte values. */
  function CountHistogram(vs: seq<Byte>, nbins: nat): (hist: seq<int>)
    requires nbins >= 1
    ensures |hist| == nbins
    ensures forall k :: 0 <= k < nbins ==> hist[k] >= 0
    ensures SumInt(hist) == |vs|
  {
    if vs == [] then
      assert SumInt(seq(nbins, _ => 0)) == 0 by { ZeroSumInt(nbins); }
      seq(nbins, _ => 0)
    else
      var h := CountHistogram(vs[..|vs| - 1], nbins);
      var b := Bin(vs[|vs| - 1], nbins);
      SumIntUpdate(h, b, 1);
      h[b := h[b] + 1]
  }

  /** Bin k of the histogram counts exactly the values that fall in bin k. */
  lemma {:induction false} CountHistogramBin(vs: seq<Byte>, nbins: nat, k: nat)
    requires nbins >= 1 && k < nbins
    ensures CountHistogram(vs, nbins)[k] ==
      SumInt(seq(|vs|, i requires 0 <= i < |vs| => if Bin(vs[i], nbins) == k then 1 else 0))
  {
    var n := |vs|;
    var sel := seq(n, i requires 0 <= i < n => if Bin(vs[i], nbins) == k then 1 else 0);
    if n == 0 {
      assert sel == [];
    } else {
      CountHistogramBin(vs[..n - 1], nbins, k);
      assert sel[..n - 1] == seq(n - 1, i requires 0 <= i < n - 1 =>
        if Bin(vs[..n - 1][i], nbins) == k then 1 else 0);
    }
  }

  lemma {:induction false} ZeroSumInt(n: nat)
    ensures SumInt(seq(n, _ => 0)) == 0
  {
    if n > 0 {
      assert seq(n, _ => 0)[..n - 1] == seq(n - 1, _ => 0);
      ZeroSumInt(n - 1);
    }
  }

  lemma {:induction false} ZeroSum(n: nat)
    ensures Sum(seq(n, _ => 0.0)) == 0.0
  {
    if n > 0 {
      assert seq(n, _ => 0.0)[..n - 1] == seq(n - 1, _ => 0.0);
      ZeroSum(n - 1);
    }
  }

  /** The histogram of byte values with one weight per value. */
  function WeightedHistogram(vs: seq<Byte>, ws: seq<real>, nbins: nat): (hist: seq<real>)
    requires nbins >= 1 && |ws| == |vs|
    ensures |hist| == nbins
    ensures Sum(hist) == Sum(ws)
  {
    if vs == [] then
      assert Sum(seq(nbins, _ => 0.0)) == 0.0 by { ZeroSum(nbins); }
      seq(nbins, _ => 0.0)
    else
      var n := |vs|;
      var h := WeightedHistogram(vs[..n - 1], ws[..n - 1], nbins);
      var b := Bin(vs[n - 1], nbins);
      SumUpdate(h, b, ws[n - 1]);
      h[b := h[b] + ws[n - 1]]
  }

  /** Bin k of the weighted histogram holds the weights of exactly the values that fall in bin k. */
  lemma {:induction false} WeightedHistogramBin(vs: seq<Byte>, ws: seq<real>, nbins: nat, k: nat)
    requires nbins >= 1 && |ws| == |vs| && k < nbins
    ensures WeightedHistogram(vs, ws, nbins)[k] ==
      Sum(seq(|vs|, i requires 0 <= i < |vs| => if Bin(vs[i], nbins) == k then ws[i] else 0.0))
  {
    var n := |vs|;
    var sel := seq(n, i requires 0 <= i < n => if Bin(vs[i], nbins) == k then ws[i] else 0.0);
    if n == 0 {
      assert sel == [];
    } else {
      WeightedHistogramBin(vs[..n - 1], ws[..n - 1], nbins, k);
      assert sel[..n - 1] == seq(n - 1, i requires 0 <= i < n - 1 =>
        if Bin(vs[..n - 1][i], nbins) == k then ws[..n - 1][i] else 0.0);
    }
  }
}
