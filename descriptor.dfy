/** The keypoint descriptor: `getFeatureVector` in computer_vision.py and the
    descriptor loop of get-keypoint-descriptors.py. Around each oriented
    keypoint the orientation field is rotated by the keypoint's orientation and
    binned in eight regions, the four quadrants of an inner disk and the four
    quadrants of the surrounding annulus, each histogram weighted by a Gaussian
    grid that is given as an input. */
module Descriptor {
  import opened Common
  import opened Patches
  import opened Persistence
  import KO = KeypointOrientation
  import KT = KeypointTable

  /** The constants of get-keypoint-descriptors.py. */
  const KeypointRadius := 11
  const KeypointBins := 19
  const KeypointPeakFactor := 0.8
  const FeatureRadius := 20
  const FeatureBins := 12
  const InnerRadiusFactor := 0.5
  const BoundaryMargin := 30
  /** The first column `assignOrientations` appends to the ten keypoint columns: the bin. */
  const OrientationColumn := 10

  // ---------------------------------------------------------------- geometry

  /** `int(_radius*_inner_radius_factor)`. */
  function InnerRadius(R: nat, factor: real): (r: int)
    ensures factor >= 0.0 ==> 0 <= r && r as real <= R as real * factor < r as real + 1.0
  {
    TruncToInt(R as real * factor)
  }

  lemma ScriptInnerRadius()
    ensures InnerRadius(FeatureRadius, InnerRadiusFactor) == 10
  {
  }

  /** Scale a byte to degrees, add the rotation, scale back, truncate and wrap
      into a byte (lines 137 and 160), in exact arithmetic. */
  function Rotate(v: Byte, rotation: real): Byte
  {
    TruncToInt((v as real * (180.0 / 255.0) + rotation) * (255.0 / 180.0)) % 256
  }

  /** The rotation is a shift by `rotation` degrees expressed in byte units, wrapped modulo 256. */
  lemma RotateIsShift(v: Byte, rotation: real)
    ensures Rotate(v, rotation) == TruncToInt(v as real + rotation * (255.0 / 180.0)) % 256
  {
    assert (v as real * (180.0 / 255.0) + rotation) * (255.0 / 180.0) == v as real + rotation * (255.0 / 180.0);
  }

  /** A zero rotation leaves every value as it is. */
  lemma RotateZero(v: Byte)
    ensures Rotate(v, 0.0) == v
  {
    RotateIsShift(v, 0.0);
    assert TruncToInt(v as real) == v;
  }

  /** A half turn moves every value down by one modulo 256: 180 degrees is 255
      byte units while the wrap is at 256. */
  lemma RotateHalfTurn(v: Byte)
    ensures Rotate(v, 180.0) == (v + 255) % 256
  {
    RotateIsShift(v, 180.0);
    assert v as real + 180.0 * (255.0 / 180.0) == (v + 255) as real;
    assert TruncToInt((v + 255) as real) == v + 255;
  }

  function RotatedValues(vs: seq<Byte>, rotation: real): (rs: seq<Byte>)
    ensures |rs| == |vs|
    ensures forall k :: 0 <= k < |vs| ==> rs[k] == Rotate(vs[k], rotation)
  {
    seq(|vs|, k requires 0 <= k < |vs| => Rotate(vs[k], rotation))
  }

  datatype Quadrant = UpperLeft | UpperRight | LowerLeft | LowerRight

  /** The quadrants of a 2r×2r window: rows and columns [0, r) or [r+1, 2r). */
  predicate InQuadrant(q: Quadrant, r: int, c: Cell)
  {
    && (if q == UpperLeft || q == UpperRight then 0 <= c.row < r else r + 1 <= c.row < 2 * r)
    && (if q == UpperLeft || q == LowerLeft then 0 <= c.col < r else r + 1 <= c.col < 2 * r)
  }

  /** `a[rows, cols][mask[rows, cols]]` for the quadrant's slices: its kept cells in row-major order. */
  function QuadrantCells(q: Quadrant, r: int, keep: Cell -> bool): (cs: seq<Cell>)
    ensures forall c :: c in cs <==> InQuadrant(q, r, c) && keep(c)
  {
    var top := q == UpperLeft || q == UpperRight;
    var left := q == UpperLeft || q == LowerLeft;
    RegionCells(if top then 0 else r + 1, if top then r else 2 * r,
                if left then 0 else r + 1, if left then r else 2 * r, keep)
  }

  /** The quadrants cover the window except its centre row and centre column r,
      and no cell lies in two of them. */
  lemma QuadrantsSkipCentreCross(r: int, c: Cell)
    requires 0 <= c.row < 2 * r && 0 <= c.col < 2 * r
    ensures (exists q :: InQuadrant(q, r, c)) <==> c.row != r && c.col != r
    ensures forall q1, q2 :: InQuadrant(q1, r, c) && InQuadrant(q2, r, c) ==> q1 == q2
  {
    if c.row != r && c.col != r {
      var q := if c.row < r then (if c.col < r then UpperLeft else UpperRight)
               else (if c.col < r then LowerLeft else LowerRight);
      assert InQuadrant(q, r, c);
    }
  }

  /** The eight histogram regions: inner or outer, and a quadrant. */
  datatype Region = Region(inner: bool, quadrant: Quadrant)

  /** Line 172: inner UL, UR, LL, LR, then outer UL, UR, LL, LR. */
  const Layout: seq<Region> := [
    Region(true, UpperLeft), Region(true, UpperRight), Region(true, LowerLeft), Region(true, LowerRight),
    Region(false, UpperLeft), Region(false, UpperRight), Region(false, LowerLeft), Region(false, LowerRight)]

  /** The disk of radius r in the inner 2r window (lines 129-131); the outer
      disk of radius R XOR the disk of radius r, both centred in the 2R window
      (lines 148-154). */
  function Mask(inner: bool, R: int, r: int): Cell -> bool
  {
    if inner then c => InDisk(r, r, c) else c => InDisk(R, R, c) != InDisk(R, r, c)
  }

  /** The outer mask is the annulus r < distance <= R around the centre (R, R). */
  lemma OuterMaskIsAnnulus(R: int, r: int, c: Cell)
    requires 0 < r <= R
    ensures Mask(false, R, r)(c) <==>
      r * r < (c.row - R) * (c.row - R) + (c.col - R) * (c.col - R) <= R * R
  {
    assert r * r <= R * r <= R * R;
  }

  /** Half the side of a region's window. */
  function Half(reg: Region, R: int, r: int): int
  {
    if reg.inner then r else R
  }

  function Cells(reg: Region, R: int, r: int): (cs: seq<Cell>)
    ensures forall k :: 0 <= k < |cs| ==> 0 <= cs[k].row < 2 * Half(reg, R, r) && 0 <= cs[k].col < 2 * Half(reg, R, r)
  {
    var cs := QuadrantCells(reg.quadrant, Half(reg, R, r), Mask(reg.inner, R, r));
    assert forall k :: 0 <= k < |cs| ==> cs[k] in cs;
    cs
  }

  predicate IsGrid(g: seq<seq<real>>, n: nat)
  {
    |g| == n && forall i :: 0 <= i < n ==> |g[i]| == n
  }

  /** The inner window and the outer window lie inside the field. */
  predicate Fits(h: nat, w: nat, x: int, y: int, R: int, r: int)
  {
    0 < r <= R && WindowInside(h, w, x, y, R)
  }

  /** The rotated field values under a region's cells. */
  function RegionValues(field: seq<seq<Byte>>, h: nat, w: nat, rotation: real, x: int, y: int,
                        R: int, r: int, reg: Region): (vs: seq<Byte>)
    requires IsImage(field, h, w) && Fits(h, w, x, y, R, r)
    ensures |vs| == |Cells(reg, R, r)|
  {
    RotatedValues(Crop(field, h, w, x, y, Half(reg, R, r), Cells(reg, R, r)), rotation)
  }

  /** The weights under a region's cells: the outer regions read the 2R grid,
      the inner ones its central 2r window (line 125). */
  function RegionWeights(weights: seq<seq<real>>, R: nat, r: int, reg: Region): (ws: seq<real>)
    requires IsGrid(weights, 2 * R) && 0 < r <= R
    ensures |ws| == |Cells(reg, R, r)|
    ensures forall k :: 0 <= k < |ws| ==>
      var c := Cells(reg, R, r)[k];
      ws[k] == if reg.inner then weights[R - r + c.row][R - r + c.col] else weights[c.row][c.col]
  {
    var cs := Cells(reg, R, r);
    var off := if reg.inner then R - r else 0;
    seq(|cs|, k requires 0 <= k < |cs| => weights[off + cs[k].row][off + cs[k].col])
  }


  function RegionHistogram(field: seq<seq<Byte>>, h: nat, w: nat, weights: seq<seq<real>>, rotation: real,
                           x: int, y: int, R: nat, r: int, nbins: nat, reg: Region): (hist: seq<real>)
    requires IsImage(field, h, w) && IsGrid(weights, 2 * R) && Fits(h, w, x, y, R, r) && nbins >= 1
    ensures |hist| == nbins
    ensures Sum(hist) == Sum(RegionWeights(weights, R, r, reg))
  {
    WeightedHistogram(RegionValues(field, h, w, rotation, x, y, R, r, reg), RegionWeights(weights, R, r, reg), nbins)
  }

  function Concat(bs: seq<seq<real>>): seq<real>
  {
    if bs == [] then [] else bs[0] + Concat(bs[1..])
  }

  /** Blocks of equal length n concatenate to n·|bs| values. */
  lemma {:induction false} ConcatLength(bs: seq<seq<real>>, n: nat)
    requires forall i :: 0 <= i < |bs| ==> |bs[i]| == n
    ensures |Concat(bs)| == n * |bs|
  {
    if bs != [] {
      ConcatLength(bs[1..], n);
      assert n * |bs| == n + n * (|bs| - 1);
    }
  }

  /** Blocks of equal length n sit side by side: block j occupies [j·n, (j+1)·n). */
  lemma {:induction false} ConcatBlock(bs: seq<seq<real>>, n: nat, j: nat)
    requires forall i :: 0 <= i < |bs| ==> |bs[i]| == n
    requires j < |bs|
    ensures |Concat(bs)| == n * |bs|
    ensures (j + 1) * n <= |Concat(bs)| && Concat(bs)[j * n..(j + 1) * n] == bs[j]
  {
    ConcatLength(bs, n);
    var rest := Concat(bs[1..]);
    assert Concat(bs) == bs[0] + rest;
    if j == 0 {
      assert Concat(bs)[..n] == bs[0];
    } else {
      ConcatBlock(bs[1..], n, j - 1);
      assert j * n == n + (j - 1) * n;
      assert (j + 1) * n == n + j * n;
      assert Concat(bs)[j * n..(j + 1) * n] == rest[(j - 1) * n..j * n];
    }
  }

  /** `getFeatureVector`: the eight region histograms in layout order. It fails
      when the inner radius is not positive or exceeds R, or when the outer
      window leaves the field. */
  function FeatureVector(field: seq<seq<Byte>>, h: nat, w: nat, weights: seq<seq<real>>, rotation: real,
                         x: int, y: int, R: nat, factor: real, nbins: nat): (fv: Option<seq<real>>)
    requires IsImage(field, h, w) && IsGrid(weights, 2 * R) && nbins >= 1
    ensures fv.Some? <==> Fits(h, w, x, y, R, InnerRadius(R, factor))
    ensures fv.Some? ==> |fv.value| == 8 * nbins
  {
    var r := InnerRadius(R, factor);
    if !Fits(h, w, x, y, R, r) then None
    else
      var bs := seq(8, j requires 0 <= j < 8 => RegionHistogram(field, h, w, weights, rotation, x, y, R, r, nbins, Layout[j]));
      ConcatBlock(bs, nbins, 0);
      Some(Concat(bs))
  }

  /** Block j of a vector of eight blocks of n values. */
  function Block(fv: seq<real>, n: nat, j: nat): seq<real>
    requires j < 8 && |fv| == 8 * n
  {
    BlockBounds(n, j);
    fv[j * n..(j + 1) * n]
  }

  lemma BlockBounds(n: nat, j: nat)
    requires j < 8
    ensures 0 <= j * n <= (j + 1) * n <= 8 * n
  {
    assert (j + 1) * n == j * n + n;
    assert 8 * n == (j + 1) * n + (7 - j) * n;
  }

  /** Slice j of the feature vector is region j's histogram, and its total is
      the summed weight of that region's masked cells. */
  lemma FeatureVectorLayout(field: seq<seq<Byte>>, h: nat, w: nat, weights: seq<seq<real>>, rotation: real,
                            x: int, y: int, R: nat, factor: real, nbins: nat, j: nat)
    requires IsImage(field, h, w) && IsGrid(weights, 2 * R) && nbins >= 1 && j < 8
    requires FeatureVector(field, h, w, weights, rotation, x, y, R, factor, nbins).Some?
    ensures var fv := FeatureVector(field, h, w, weights, rotation, x, y, R, factor, nbins).value;
      var r := InnerRadius(R, factor);
      && Block(fv, nbins, j) == RegionHistogram(field, h, w, weights, rotation, x, y, R, r, nbins, Layout[j])
      && Sum(Block(fv, nbins, j)) == Sum(RegionWeights(weights, R, r, Layout[j]))
  {
    var r := InnerRadius(R, factor);
    var bs := seq(8, i requires 0 <= i < 8 => RegionHistogram(field, h, w, weights, rotation, x, y, R, r, nbins, Layout[i]));
    ConcatBlock(bs, nbins, j);
  }

  // ---------------------------------------------------------------- the descriptor loop

  /** Line 162: the bin is turned into degrees and negated. */
  function Rotation(bin: int): real
  {
    -(bin as real) * (180.0 / KeypointBins as real)
  }

  function AsReals(row: seq<int>): (rs: seq<real>)
    ensures |rs| == |row|
    ensures forall k :: 0 <= k < |row| ==> rs[k] == row[k] as real
  {
    seq(|row|, k requires 0 <= k < |row| => row[k] as real)
  }

  /** Lines 158-166: the oriented keypoint, its bitmap intensity and its
      feature vector. A missing orientation column, indexing the bitmap outside
      its bounds and cropping outside the field all fail. */
  function DescriptorRow(s: KO.Setup, weights: seq<seq<real>>, row: seq<int>): Option<seq<real>>
    requires IsImage(s.field, s.h, s.w) && IsImage(s.bmp, s.bh, s.bw) && IsGrid(weights, 2 * FeatureRadius)
  {
    if |row| <= OrientationColumn then None
    else
      var x, y := row[0], row[1];
      var fv := FeatureVector(s.field, s.h, s.w, weights, Rotation(row[OrientationColumn]), x, y,
                              FeatureRadius, InnerRadiusFactor, FeatureBins);
      if !(0 <= y < s.bh && 0 <= x < s.bw) || fv.None? then None
      else Some(Join(row, s.bmp[y][x], fv.value))
  }

  /** A row is described exactly when it has an orientation column, its pixel
      lies in the bitmap and both windows lie in the field; its descriptor then
      starts with the row itself and adds the intensity and the eight histograms. */
  lemma DescriptorRowShape(s: KO.Setup, weights: seq<seq<real>>, row: seq<int>)
    requires IsImage(s.field, s.h, s.w) && IsImage(s.bmp, s.bh, s.bw) && IsGrid(weights, 2 * FeatureRadius)
    ensures var d := DescriptorRow(s, weights, row);
      && (d.Some? <==> |row| > OrientationColumn && 0 <= row[1] < s.bh && 0 <= row[0] < s.bw
                       && Fits(s.h, s.w, row[0], row[1], FeatureRadius, InnerRadius(FeatureRadius, InnerRadiusFactor)))
      && (d.Some? ==> |d.value| == |row| + 1 + 8 * FeatureBins && d.value[..|row|] == AsReals(row))
  {
  }

  /** The keypoint's columns, then the intensity, then the features. */
  function Join(row: seq<int>, intensity: Byte, features: seq<real>): (d: seq<real>)
    ensures |d| == |row| + 1 + |features|
    ensures d[..|row|] == AsReals(row) && d[|row|] == intensity as real && d[|row| + 1..] == features
  {
    var d := AsReals(row) + [intensity as real] + features;
    assert d[..|row|] == AsReals(row);
    assert d[|row| + 1..] == features;
    d
  }

  /** Line 165: the keypoint lies within the crop radius of the bitmap's centre. */
  predicate InCircleRow(s: KO.Setup, row: seq<int>)
  {
    |row| >= 2 && KO.InCircle(s, row)
  }

  /** The boundary test as a row mask. */
  function InCircleMask(s: KO.Setup): seq<int> -> bool
  {
    row => InCircleRow(s, row)
  }

  /** Under the script's crop radius, half the bitmap's height less 30, the
      corner (0, 0) of a bitmap of at least 32 rows lies outside the circle. */
  lemma OriginOutsideCircle(s: KO.Setup, row: seq<int>)
    requires ScriptSetup(s) && s.bh >= 32
    requires |row| >= 2 && row[0] == 0 && row[1] == 0
    ensures !InCircleRow(s, row)
  {
    var cx, cy, r := s.bh / 2, s.bw / 2, s.cropRadius;
    assert cx >= 16 && r == cx - 30;
    assert r * r == cx * cx - 60 * cx + 900;
    assert cy * cy >= 0;
    assert (row[0] - cx) * (row[0] - cx) == cx * cx;
    assert (row[1] - cy) * (row[1] - cy) == cy * cy;
  }

  /** Every row of the script's upper-saddle block reads as (0, 0), so it lies
      outside the crop circle: the orientation step gives it no run and the
      descriptor loop skips it and every row that extends it. */
  lemma ScriptUpperSaddlesOutsideCircle(s: KO.Setup, sub: seq<Pair>, sup: seq<Pair>, td: seq<KT.Defect>,
                                        j: int, row: seq<int>)
    requires ScriptSetup(s) && s.bh >= 32
    requires 0 <= j < |KT.LowerSaddles(sub)| + |Select(sup, KT.UpperSaddleBirth)|
    requires |row| >= 2 && row[..2] == KT.Columns(KT.ScriptKeypoints(sub, sup, td)[|KT.LowerSaddles(sub)| + j])[..2]
    ensures !InCircleRow(s, row)
  {
    var n := |KT.LowerSaddles(sub)|;
    var k := KT.ScriptKeypoints(sub, sup, td)[n + j];
    KT.ScriptUpperSaddleBlock(sub, sup, td, j);
    assert k.x == 0 && k.y == 0;
    assert row[0] == row[..2][0] == KT.Columns(k)[0];
    assert row[1] == row[..2][1] == KT.Columns(k)[1];
    OriginOutsideCircle(s, row);
  }

  predicate Describable(s: KO.Setup, weights: seq<seq<real>>)
  {
    IsImage(s.field, s.h, s.w) && IsImage(s.bmp, s.bh, s.bw) && IsGrid(weights, 2 * FeatureRadius)
  }

  /** The descriptor of one row as a fallible step. */
  function DescriptorStep(s: KO.Setup, weights: seq<seq<real>>): seq<int> --> Option<seq<real>>
  {
    row requires Describable(s, weights) => DescriptorRow(s, weights, row)
  }

  /** The descriptor rows of a table in table order: rows outside the circle are
      skipped and the first in-circle row that cannot be described makes the
      run fail. */
  function Described(s: KO.Setup, weights: seq<seq<real>>, table: seq<seq<int>>): Option<seq<seq<real>>>
    requires Describable(s, weights)
  {
    MapAll(Select(table, InCircleMask(s)), DescriptorStep(s, weights))
  }

  /** The loop shape of lines 156-170 for any mask and any fallible step: one
      more row leaves the run unchanged when the mask rejects it, and otherwise
      appends the row's value or makes the run fail. */
  lemma FilteredStep<T(!new), U>(t: seq<T>, x: T, keep: T -> bool, f: T --> Option<U>)
    requires forall x :: f.requires(x)
    ensures MapAll(Select(t + [x], keep), f) ==
      match MapAll(Select(t, keep), f)
      case None => None
      case Some(vs) => if !keep(x) then Some(vs) else if f(x).None? then None else Some(vs + [f(x).value])
  {
    SelectAppend(t, [x], keep);
    assert [x][1..] == [];
    if keep(x) {
      MapAllSnoc(Select(t, keep), x, f);
    } else {
      assert Select(t + [x], keep) == Select(t, keep);
    }
  }

  /** Once a prefix fails, the whole table fails. */
  lemma {:induction false} FilteredFailureSticks<T(!new), U>(t: seq<T>, n: nat, keep: T -> bool, f: T --> Option<U>)
    requires forall x :: f.requires(x)
    requires n <= |t| && MapAll(Select(t[..n], keep), f).None?
    ensures MapAll(Select(t, keep), f).None?
    decreases |t| - n
  {
    if n < |t| {
      assert t[..n + 1] == t[..n] + [t[n]];
      FilteredStep(t[..n], t[n], keep, f);
      FilteredFailureSticks(t, n + 1, keep, f);
    } else {
      assert t[..n] == t;
    }
  }

  /** The loop of lines 156-170 for any mask and any fallible step: the value
      of every row the mask keeps, in table order, or `None` at the first
      failure. */
  method CollectKept<T(!new), U>(table: seq<T>, keep: T -> bool, f: T --> Option<U>) returns (out: Option<seq<U>>)
    requires forall x :: f.requires(x)
    ensures out == MapAll(Select(table, keep), f)
  {
    var values: seq<U> := [];
    var i := 0;
    while i < |table|
      invariant 0 <= i <= |table|
      invariant MapAll(Select(table[..i], keep), f) == Some(values)
    {
      var row := table[i];
      assert table[..i + 1] == table[..i] + [row];
      FilteredStep(table[..i], row, keep, f);
      if keep(row) {
        var d := f(row);
        if d.None? {
          FilteredFailureSticks(table, i + 1, keep, f);
          return None;
        }
        values := values + [d.value];
      }
      i := i + 1;
    }
    assert table[..|table|] == table;
    return Some(values);
  }

  /** The orientation setup the script uses: radius 11, 19 bins, peak factor
      0.8 and a crop radius 30 short of the bitmap's half height. */
  predicate ScriptSetup(s: KO.Setup)
  {
    s.radius == KeypointRadius && s.nbins == KeypointBins && s.maxFactor == KeypointPeakFactor
    && s.cropRadius == s.bh / 2 - BoundaryMargin
  }

  /** get-keypoint-descriptors.py lines 150-170 on the ten-column keypoint
      table: orient it, then describe every in-circle row. The run fails when
      some keypoint inside the crop circle has a window that leaves the
      field; otherwise the output is the
      descriptor rows of the oriented table, in table order, and each has 109
      values and starts with one of the input keypoints. */
  method KeypointDescriptors(s: KO.Setup, kps: seq<seq<int>>, weights: seq<seq<real>>)
    returns (out: Option<seq<seq<real>>>)
    requires KO.ValidSetup(s) && ScriptSetup(s) && IsGrid(weights, 2 * FeatureRadius)
    requires forall i :: 0 <= i < |kps| ==> |kps[i]| == 10
    ensures (exists i :: 0 <= i < |kps| && KO.Fails(s, kps[i])) ==> out.None?
    ensures (forall i :: 0 <= i < |kps| ==> !KO.Fails(s, kps[i])) ==>
      out == Described(s, weights, KO.OrientedTable(s, kps))
    ensures out.Some? ==> forall k :: 0 <= k < |out.value| ==>
      |out.value[k]| == 109 && exists i :: 0 <= i < |kps| && out.value[k][..10] == AsReals(kps[i])
  {
    var table := OrientedRows(s, kps);
    if table.None? {
      return None;
    }
    var rows := table.value;
    DescriptorRowsExtendKeypoints(s, weights, kps, rows);
    out := CollectKept(rows, InCircleMask(s), DescriptorStep(s, weights));
  }

  /** Line 153, seen from the descriptor loop: the oriented table, whose rows all
      extend the keypoints. */
  method OrientedRows(s: KO.Setup, kps: seq<seq<int>>) returns (table: Option<seq<seq<int>>>)
    requires KO.ValidSetup(s) && KO.Keypoints(kps)
    ensures table.None? <==> exists i :: 0 <= i < |kps| && KO.Fails(s, kps[i])
    ensures table.Some? ==> table.value == KO.OrientedTable(s, kps)
    ensures table.Some? ==> forall j :: 0 <= j < |table.value| ==> KO.Extends(table.value[j], kps)
  {
    table := KO.AssignOrientations(s, kps);
    if table.Some? {
      KO.AssignedIsOrientedTable(s, kps, table.value);
    }
  }

  /** The descriptor of a keypoint with two new columns has 109 values and
      starts with that keypoint. */
  lemma DescriptorExtendsKeypoint(s: KO.Setup, weights: seq<seq<real>>, kps: seq<seq<int>>, row: seq<int>)
    requires Describable(s, weights)
    requires forall i :: 0 <= i < |kps| ==> |kps[i]| == 10
    requires KO.Extends(row, kps) && DescriptorRow(s, weights, row).Some?
    ensures var d := DescriptorRow(s, weights, row).value;
      |d| == 109 && exists i :: 0 <= i < |kps| && d[..10] == AsReals(kps[i])
  {
    var i :| 0 <= i < |kps| && |row| == |kps[i]| + 2 && row[..|kps[i]|] == kps[i];
    DescriptorRowShape(s, weights, row);
    var d := DescriptorRow(s, weights, row).value;
    assert d[..12] == AsReals(row);
    assert d[..10] == AsReals(row)[..10] == AsReals(kps[i]);
  }

  /** When every oriented row is a ten-column keypoint with two new columns,
      every descriptor row has 109 values and starts with one of those keypoints. */
  lemma DescriptorRowsExtendKeypoints(s: KO.Setup, weights: seq<seq<real>>, kps: seq<seq<int>>, rows: seq<seq<int>>)
    requires Describable(s, weights)
    requires forall i :: 0 <= i < |kps| ==> |kps[i]| == 10
    requires forall j :: 0 <= j < |rows| ==> KO.Extends(rows[j], kps)
    ensures var out := Described(s, weights, rows);
      out.Some? ==> forall k :: 0 <= k < |out.value| ==>
        |out.value[k]| == 109 && exists i :: 0 <= i < |kps| && out.value[k][..10] == AsReals(kps[i])
  {
    var sel, f := Select(rows, InCircleMask(s)), DescriptorStep(s, weights);
    MapAllValues(sel, f);
    var out := MapAll(sel, f);
    if out.Some? {
      forall k | 0 <= k < |out.value|
        ensures |out.value[k]| == 109
        ensures exists i :: 0 <= i < |kps| && out.value[k][..10] == AsReals(kps[i])
      {
        assert sel[k] in sel;
        var j :| 0 <= j < |rows| && rows[j] == sel[k];
        DescriptorExtendsKeypoint(s, weights, kps, rows[j]);
      }
    }
  }
}
