/** `assignOrientations` (computer_vision.py): for every keypoint inside the
    crop circle, a histogram of the byte orientation field under a disk mask,
    smoothed, and its peak runs; the first run's (bin, weight) goes into the
    keypoint's own row and every further run appends a copy of the keypoint.
    The Gaussian smoothing is a parameter `smooth`. */
module KeypointOrientation {
  import opened Common
  import opened Patches

  // ---------------------------------------------------------------- peaks and their runs

  function MaxOf(s: seq<int>): (m: int)
    requires |s| > 0
    ensures forall k :: 0 <= k < |s| ==> s[k] <= m
    ensures exists k :: 0 <= k < |s| && s[k] == m
    decreases |s|
  {
    if |s| == 1 then s[0]
    else
      var m := MaxOf(s[..|s| - 1]);
      assert forall k :: 0 <= k < |s| - 1 ==> s[..|s| - 1][k] == s[k];
      if s[|s| - 1] > m then s[|s| - 1] else m
  }

  /** `hist >= max_factor*float(maxpeak)`. */
  function Peaks(hist: seq<int>, maxFactor: real): (p: seq<bool>)
    requires |hist| > 0
    ensures |p| == |hist|
  {
    var top := MaxOf(hist);
    seq(|hist|, k requires 0 <= k < |hist| => hist[k] as real >= maxFactor * top as real)
  }

  predicate IsRunStart(p: seq<bool>, k: int)
  {
    0 <= k < |p| && p[k] && (k == 0 || !p[k - 1])
  }

  /** The number of runs of peak bins that start below k. */
  function RunsUpTo(p: seq<bool>, k: nat): nat
    requires k <= |p|
  {
    if k == 0 then 0 else RunsUpTo(p, k - 1) + (if IsRunStart(p, k - 1) then 1 else 0)
  }

  function RunCount(p: seq<bool>): nat
  {
    RunsUpTo(p, |p|)
  }

  /** `measure.label(peaks, background=0)` on a 1-D array: 0 off the peaks, and
      runs of consecutive peak bins numbered 1, 2, ... from the left. */
  function Label(p: seq<bool>, k: nat): nat
    requires k < |p|
  {
    if p[k] then RunsUpTo(p, k + 1) else 0
  }

  /** Both end bins are peaks of different runs, so the last run is relabelled as the first. */
  predicate WrapMerged(p: seq<bool>)
  {
    |p| > 0 && p[0] && p[|p| - 1] && RunCount(p) >= 2
  }

  /** The labels after line 76. */
  function MergedLabel(p: seq<bool>, k: nat): nat
    requires k < |p|
  {
    var l := Label(p, k);
    if WrapMerged(p) && l == RunCount(p) then 1 else l
  }

  /** The number of runs after merging; `max(peak_components)`. */
  function ComponentCount(p: seq<bool>): nat
  {
    if WrapMerged(p) then RunCount(p) - 1 else RunCount(p)
  }

  lemma {:induction false} RunsUpToMonotone(p: seq<bool>, j: nat, k: nat)
    requires j <= k <= |p|
    ensures RunsUpTo(p, j) <= RunsUpTo(p, k)
    decreases k
  {
    if j < k {
      RunsUpToMonotone(p, j, k - 1);
    }
  }

  lemma {:induction false} PeakHasLabel(p: seq<bool>, k: nat)
    requires k < |p| && p[k]
    ensures Label(p, k) >= 1
  {
    if !IsRunStart(p, k) {
      PeakHasLabel(p, k - 1);
    }
  }

  /** Exactly the peak bins are labelled, and every merged label lies in 1..ComponentCount. */
  lemma LabelsOfPeaks(p: seq<bool>, k: nat)
    requires k < |p|
    ensures Label(p, k) == 0 <==> !p[k]
    ensures p[k] ==> 1 <= MergedLabel(p, k) <= ComponentCount(p)
  {
    if p[k] {
      PeakHasLabel(p, k);
      RunsUpToMonotone(p, k + 1, |p|);
    }
  }

  /** Neighbouring peak bins belong to the same run. */
  lemma AdjacentPeaksShareLabel(p: seq<bool>, k: nat)
    requires 0 < k < |p| && p[k] && p[k - 1]
    ensures MergedLabel(p, k) == MergedLabel(p, k - 1)
  {
  }

  /** A run touching the last bin and a run touching bin 0 are one run. */
  lemma WrapJoinsRuns(p: seq<bool>)
    requires |p| > 0 && p[0] && p[|p| - 1]
    ensures MergedLabel(p, 0) == MergedLabel(p, |p| - 1)
  {
    assert RunsUpTo(p, 1) == 1;
    RunsUpToMonotone(p, 1, |p|);
  }

  lemma {:induction false} NoGapWithinRun(p: seq<bool>, j: nat, k: nat)
    requires j <= k < |p| && p[j] && p[k]
    requires RunsUpTo(p, k + 1) == RunsUpTo(p, j + 1)
    ensures forall m :: j <= m <= k ==> p[m]
    decreases k
  {
    if j < k {
      RunsUpToMonotone(p, j + 1, k);
      assert !IsRunStart(p, k);
      NoGapWithinRun(p, j, k - 1);
    }
  }

  /** Bins with the same (unmerged) label are joined by peak bins: runs are maximal blocks. */
  lemma SameLabelIsOneBlock(p: seq<bool>, j: nat, k: nat)
    requires j <= k < |p| && p[j] && p[k] && Label(p, j) == Label(p, k)
    ensures forall m :: j <= m <= k ==> p[m]
  {
    NoGapWithinRun(p, j, k);
  }

  lemma {:induction false} RunStartNumbered(p: seq<bool>, n: nat, l: nat)
    requires n <= |p| && 1 <= l <= RunsUpTo(p, n)
    ensures exists k :: 0 <= k < n && IsRunStart(p, k) && RunsUpTo(p, k + 1) == l
    decreases n
  {
    if l <= RunsUpTo(p, n - 1) {
      RunStartNumbered(p, n - 1, l);
    } else {
      assert IsRunStart(p, n - 1) && RunsUpTo(p, n) == l;
    }
  }

  /** Every label 1..ComponentCount is carried by some bin. */
  lemma ComponentNonempty(p: seq<bool>, l: nat)
    requires 1 <= l <= ComponentCount(p)
    ensures exists k :: 0 <= k < |p| && MergedLabel(p, k) == l
  {
    RunStartNumbered(p, |p|, l);
    var k :| 0 <= k < |p| && IsRunStart(p, k) && RunsUpTo(p, k + 1) == l;
    assert Label(p, k) == l;
    assert MergedLabel(p, k) == l;
  }

  /** When every bin is a peak there is one run, labelled 1. */
  lemma {:induction false} AllPeaksOneRun(p: seq<bool>, n: nat)
    requires 0 < n <= |p| && forall k :: 0 <= k < |p| ==> p[k]
    ensures RunsUpTo(p, n) == 1
    decreases n
  {
    if n > 1 {
      AllPeaksOneRun(p, n - 1);
    }
  }

  // ---------------------------------------------------------------- one entry per run

  /** `np.argmax`: the lowest index of a maximum. */
  function ArgMax(s: seq<int>): (a: nat)
    requires |s| > 0
    ensures a < |s|
    ensures forall k :: 0 <= k < |s| ==> s[k] <= s[a]
    ensures forall k :: 0 <= k < a ==> s[k] < s[a]
    decreases |s|
  {
    if |s| == 1 then 0
    else
      var a := ArgMax(s[..|s| - 1]);
      assert forall k :: 0 <= k < |s| - 1 ==> s[..|s| - 1][k] == s[k];
      if s[|s| - 1] > s[a] then |s| - 1 else a
  }

  /** `peak_values`: the histogram on run l, zero elsewhere. */
  function RunValues(hist: seq<int>, p: seq<bool>, l: nat): (v: seq<int>)
    requires |p| == |hist|
    ensures |v| == |hist|
  {
    seq(|hist|, k requires 0 <= k < |hist| => if MergedLabel(p, k) == l then hist[k] else 0)
  }

  /** One row of `maxorientations`: the run's bin and its summed weight. */
  datatype Orientation = Orientation(bin: int, weight: int)

  function RunEntry(hist: seq<int>, p: seq<bool>, l: nat): Orientation
    requires |p| == |hist| > 0
  {
    var v := RunValues(hist, p, l);
    Orientation(ArgMax(v), SumInt(v))
  }

  /** `maxorientations` for a smoothed histogram: one entry per run, in label order. */
  function PeakEntries(hist: seq<int>, maxFactor: real): (es: seq<Orientation>)
    requires |hist| > 0
    ensures |es| == ComponentCount(Peaks(hist, maxFactor))
  {
    var p := Peaks(hist, maxFactor);
    seq(ComponentCount(p), j requires 0 <= j < ComponentCount(p) => RunEntry(hist, p, j + 1))
  }

  /** `peak_components` after the merge of line 76. */
  function Labels(p: seq<bool>): (ls: seq<nat>)
    ensures |ls| == |p|
    ensures forall k :: 0 <= k < |p| ==> ls[k] == MergedLabel(p, k)
  {
    seq(|p|, k requires 0 <= k < |p| => MergedLabel(p, k))
  }

  /** `max(peak_components)` is the number of runs after merging. */
  lemma TopLabelIsComponentCount(p: seq<bool>)
    requires |p| > 0
    ensures MaxOf(Labels(p)) == ComponentCount(p)
  {
    var ls := Labels(p);
    forall k | 0 <= k < |p| ensures ls[k] <= ComponentCount(p) {
      LabelsOfPeaks(p, k);
    }
    if ComponentCount(p) >= 1 {
      ComponentNonempty(p, ComponentCount(p));
      var k :| 0 <= k < |p| && MergedLabel(p, k) == ComponentCount(p);
      assert ls[k] == ComponentCount(p);
    } else {
      var k :| 0 <= k < |ls| && ls[k] == MaxOf(ls);
    }
  }

  /** A list holding the entry of every run, in label order, is `maxorientations`. */
  lemma PeakEntriesAre(hist: seq<int>, maxFactor: real, entries: seq<Orientation>)
    requires |hist| > 0 && |entries| == ComponentCount(Peaks(hist, maxFactor))
    requires forall j :: 0 <= j < |entries| ==> entries[j] == RunEntry(hist, Peaks(hist, maxFactor), j + 1)
    ensures entries == PeakEntries(hist, maxFactor)
  {
  }

  /** Lines 70-84 for a given peak mask: the labels, and the loop over labels
      1..max that collects one entry per run, in label order. */
  method LabelEntries(hist: seq<int>, p: seq<bool>) returns (entries: seq<Orientation>)
    requires |p| == |hist| > 0
    ensures |entries| == ComponentCount(p)
    ensures forall j :: 0 <= j < |entries| ==> entries[j] == RunEntry(hist, p, j + 1)
  {
    var top := MaxOf(Labels(p));
    TopLabelIsComponentCount(p);
    entries := [];
    var l := 1;
    while l <= top
      invariant 1 <= l <= top + 1
      invariant |entries| == l - 1
      invariant forall j :: 0 <= j < l - 1 ==> entries[j] == RunEntry(hist, p, j + 1)
    {
      var values := RunValues(hist, p, l);
      entries := entries + [Orientation(ArgMax(values), SumInt(values))];
      l := l + 1;
    }
  }

  /** Lines 66-84: the peaks of the histogram and their entries. */
  method PeakOrientations(hist: seq<int>, maxFactor: real) returns (entries: seq<Orientation>)
    requires |hist| > 0
    ensures entries == PeakEntries(hist, maxFactor)
  {
    var p := Peaks(hist, maxFactor);
    entries := LabelEntries(hist, p);
    PeakEntriesAre(hist, maxFactor, entries);
  }

  /** A zero bin that clears the threshold puts the threshold at or below zero,
      so every bin of a nonnegative histogram is a peak. */
  lemma ZeroPeakMakesAllPeaks(hist: seq<int>, maxFactor: real, k0: nat)
    requires |hist| > 0 && forall k :: 0 <= k < |hist| ==> hist[k] >= 0
    requires k0 < |hist| && hist[k0] == 0 && Peaks(hist, maxFactor)[k0]
    ensures forall k :: 0 <= k < |hist| ==> Peaks(hist, maxFactor)[k]
  {
    var top := MaxOf(hist);
    assert maxFactor * top as real <= 0.0;
  }

  /** When every bin is a peak, every bin carries label 1. */
  lemma AllPeaksLabelOne(p: seq<bool>, k: nat)
    requires k < |p| && forall j :: 0 <= j < |p| ==> p[j]
    ensures MergedLabel(p, k) == 1
  {
    AllPeaksOneRun(p, |p|);
    AllPeaksOneRun(p, k + 1);
  }

  /** Each run's bin lies inside its run, so the run's summed weight counts the
      bin's own value and is at least that value. */
  lemma RunBinInRun(hist: seq<int>, maxFactor: real, l: nat)
    requires |hist| > 0 && forall k :: 0 <= k < |hist| ==> hist[k] >= 0
    requires 1 <= l <= ComponentCount(Peaks(hist, maxFactor))
    ensures MergedLabel(Peaks(hist, maxFactor), RunEntry(hist, Peaks(hist, maxFactor), l).bin) == l
    ensures RunEntry(hist, Peaks(hist, maxFactor), l).weight >= hist[RunEntry(hist, Peaks(hist, maxFactor), l).bin]
  {
    var p := Peaks(hist, maxFactor);
    var v := RunValues(hist, p, l);
    var a := ArgMax(v);
    assert RunEntry(hist, p, l).bin == a;
    assert forall k :: 0 <= k < |v| ==> v[k] >= 0;
    SumIntAtLeastEntry(v, a);
    if v[a] == 0 {
      // the run holds only zeros, so every bin clears the threshold and there is one run
      ComponentNonempty(p, l);
      var k0 :| 0 <= k0 < |p| && MergedLabel(p, k0) == l;
      LabelsOfPeaks(p, k0);
      assert v[k0] == hist[k0] <= v[a];
      ZeroPeakMakesAllPeaks(hist, maxFactor, k0);
      AllPeaksLabelOne(p, a);
      AllPeaksLabelOne(p, k0);
    }
  }

  lemma ScaledDown(f: real, t: real)
    requires f <= 1.0 && t >= 0.0
    ensures f * t <= t
  {
    assert t - f * t == (1.0 - f) * t;
  }

  /** With a nonnegative histogram and a factor of at most 1, the highest bin is a peak, so there is a run. */
  lemma SomeRunExists(hist: seq<int>, maxFactor: real)
    requires |hist| > 0 && forall k :: 0 <= k < |hist| ==> hist[k] >= 0
    requires maxFactor <= 1.0
    ensures ComponentCount(Peaks(hist, maxFactor)) >= 1
  {
    var p := Peaks(hist, maxFactor);
    var top := MaxOf(hist);
    var k :| 0 <= k < |hist| && hist[k] == top;
    ScaledDown(maxFactor, top as real);
    assert p[k];
    PeakHasLabel(p, k);
    RunsUpToMonotone(p, k + 1, |p|);
  }

  // ---------------------------------------------------------------- the keypoint table

  /** The inputs every keypoint shares: the orientation field of h rows and w
      columns, the intensity bitmap of bh rows and bw columns (only its shape is
      used here), the mask radius, the number of bins, the peak factor, the crop
      radius and the smoothing filter. */
  datatype Setup = Setup(field: seq<seq<Byte>>, h: nat, w: nat, bmp: seq<seq<Byte>>, bh: nat, bw: nat,
                         radius: nat, nbins: nat, maxFactor: real, cropRadius: int,
                         smooth: seq<int> -> seq<int>)

  predicate NonNegative(v: seq<int>)
  {
    forall k :: 0 <= k < |v| ==> v[k] >= 0
  }

  /** The smoothing filter keeps the histogram's length. */
  ghost predicate ValidSetup(s: Setup)
  {
    IsImage(s.field, s.h, s.w) && IsImage(s.bmp, s.bh, s.bw) && s.radius >= 1 && s.nbins >= 1
    && forall v: seq<int> :: |s.smooth(v)| == |v|
  }

  /** The Gaussian filter has non-negative weights, so it keeps a non-negative
      histogram non-negative. */
  ghost predicate SmoothingKeepsSign(s: Setup)
  {
    forall v: seq<int>, k :: NonNegative(v) && 0 <= k < |s.smooth(v)| ==> s.smooth(v)[k] >= 0
  }

  /** The disk mask of lines 49-51, as window cells in row-major order. */
  function DiskMask(r: nat): (cs: seq<Cell>)
    ensures forall c :: c in cs <==> 0 <= c.row < 2 * r && 0 <= c.col < 2 * r && InDisk(r, r, c)
  {
    RegionCells(0, 2 * r, 0, 2 * r, c => InDisk(r, r, c))
  }

  /** Line 58: the centre is (rows/2, columns/2) of the bitmap, compared against (x, y). */
  predicate InCircle(s: Setup, row: seq<int>)
    requires |row| >= 2
  {
    var cx, cy := s.bh / 2, s.bw / 2;
    (row[0] - cx) * (row[0] - cx) + (row[1] - cy) * (row[1] - cy) <= s.cropRadius * s.cropRadius
  }

  /** A keypoint inside the crop circle whose window leaves the field makes the
      boolean mask fail; one outside the circle is never cropped. */
  predicate Fails(s: Setup, row: seq<int>)
    requires |row| >= 2
  {
    InCircle(s, row) && !WindowInside(s.h, s.w, row[0], row[1], s.radius)
  }

  /** Lines 61-65: the masked values, their histogram and its smoothing. */
  function SmoothedHistogram(s: Setup, x: int, y: int): (hist: seq<int>)
    requires ValidSetup(s) && WindowInside(s.h, s.w, x, y, s.radius)
    ensures |hist| == s.nbins
  {
    s.smooth(CountHistogram(Crop(s.field, s.h, s.w, x, y, s.radius, DiskMask(s.radius)), s.nbins))
  }

  /** The smoothed histogram of a keypoint whose window fits is non-negative. */
  lemma SmoothedHistogramNonNegative(s: Setup, x: int, y: int)
    requires ValidSetup(s) && SmoothingKeepsSign(s) && WindowInside(s.h, s.w, x, y, s.radius)
    ensures NonNegative(SmoothedHistogram(s, x, y))
  {
    var counts := CountHistogram(Crop(s.field, s.h, s.w, x, y, s.radius, DiskMask(s.radius)), s.nbins);
    assert NonNegative(counts);
  }

  /** The runs found for a keypoint; none outside the crop circle. */
  function EntriesFor(s: Setup, row: seq<int>): seq<Orientation>
    requires ValidSetup(s) && |row| >= 2 && !Fails(s, row)
  {
    if InCircle(s, row) then PeakEntries(SmoothedHistogram(s, row[0], row[1]), s.maxFactor) else []
  }

  function Columns(e: Orientation): seq<int>
  {
    [e.bin, e.weight]
  }

  /** With a peak factor of at most 1, every keypoint inside the circle whose
      window fits has at least one run, so its own row gets the first run's entry. */
  lemma InCircleKeypointHasRun(s: Setup, row: seq<int>)
    requires ValidSetup(s) && SmoothingKeepsSign(s) && |row| >= 2 && InCircle(s, row) && !Fails(s, row)
    requires s.maxFactor <= 1.0
    ensures |EntriesFor(s, row)| >= 1
  {
    var hist := SmoothedHistogram(s, row[0], row[1]);
    SmoothedHistogramNonNegative(s, row[0], row[1]);
    SomeRunExists(hist, s.maxFactor);
  }

  /** The two new columns of a keypoint's own row: the first run's entry, or (0, 0). */
  function FirstColumns(es: seq<Orientation>): (cs: seq<int>)
    ensures |cs| == 2
  {
    if |es| > 0 then Columns(es[0]) else [0, 0]
  }

  /** The rows appended for the second and later runs of a keypoint. */
  function Copies(row: seq<int>, es: seq<Orientation>): (rs: seq<seq<int>>)
    ensures |rs| == if |es| <= 1 then 0 else |es| - 1
  {
    if |es| <= 1 then [] else seq(|es| - 1, j requires 0 <= j < |es| - 1 => row + Columns(es[j + 1]))
  }

  function OwnRow(s: Setup, row: seq<int>): seq<int>
    requires ValidSetup(s) && |row| >= 2 && !Fails(s, row)
  {
    row + FirstColumns(EntriesFor(s, row))
  }

  predicate Keypoints(kps: seq<seq<int>>)
  {
    forall i :: 0 <= i < |kps| ==> |kps[i]| >= 2
  }

  /** The runs of every keypoint, in table order. */
  function AllEntries(s: Setup, kps: seq<seq<int>>): (ess: seq<seq<Orientation>>)
    requires ValidSetup(s) && Keypoints(kps)
    requires forall i :: 0 <= i < |kps| ==> !Fails(s, kps[i])
    ensures |ess| == |kps|
  {
    seq(|kps|, i requires 0 <= i < |kps| => EntriesFor(s, kps[i]))
  }

  /** The rows appended for the first |ess| keypoints, whose runs are ess, in order. */
  function ExtraRows(kps: seq<seq<int>>, ess: seq<seq<Orientation>>): seq<seq<int>>
    requires |ess| <= |kps|
  {
    if ess == [] then []
    else ExtraRows(kps, ess[..|ess| - 1]) + Copies(kps[|ess| - 1], ess[|ess| - 1])
  }

  /** r copies a keypoint's columns and carries one of its later runs. */
  predicate IsCopy(kps: seq<seq<int>>, ess: seq<seq<Orientation>>, r: seq<int>)
    requires |ess| <= |kps|
  {
    exists i, j :: 0 <= i < |ess| && 1 <= j < |ess[i]| && r == kps[i] + Columns(ess[i][j])
  }

  /** Every appended row copies some keypoint and carries one of that keypoint's later runs. */
  lemma {:induction false} ExtraRowsCopyKeypoints(kps: seq<seq<int>>, ess: seq<seq<Orientation>>)
    requires |ess| <= |kps|
    ensures forall r :: r in ExtraRows(kps, ess) ==> IsCopy(kps, ess, r)
  {
    if ess != [] {
      var n := |ess|;
      var init := ess[..n - 1];
      ExtraRowsCopyKeypoints(kps, init);
      var cs := Copies(kps[n - 1], ess[n - 1]);
      assert ExtraRows(kps, ess) == ExtraRows(kps, init) + cs;
      forall r | r in ExtraRows(kps, ess)
        ensures IsCopy(kps, ess, r)
      {
        if r in ExtraRows(kps, init) {
          IsCopyExtend(kps, ess, r);
        } else {
          LastCopiesAreCopies(kps, ess, r);
        }
      }
    }
  }

  /** A copy made for the first keypoints is still a copy once more keypoints are done. */
  lemma IsCopyExtend(kps: seq<seq<int>>, ess: seq<seq<Orientation>>, r: seq<int>)
    requires 0 < |ess| <= |kps| && IsCopy(kps, ess[..|ess| - 1], r)
    ensures IsCopy(kps, ess, r)
  {
    var init := ess[..|ess| - 1];
    var i, j :| 0 <= i < |init| && 1 <= j < |init[i]| && r == kps[i] + Columns(init[i][j]);
    assert ess[i] == init[i];
  }

  /** The copies appended for the last keypoint done are copies. */
  lemma LastCopiesAreCopies(kps: seq<seq<int>>, ess: seq<seq<Orientation>>, r: seq<int>)
    requires 0 < |ess| <= |kps| && r in Copies(kps[|ess| - 1], ess[|ess| - 1])
    ensures IsCopy(kps, ess, r)
  {
    var n := |ess|;
    var cs := Copies(kps[n - 1], ess[n - 1]);
    var k :| 0 <= k < |cs| && cs[k] == r;
    assert 0 <= n - 1 < |ess| && 1 <= k + 1 < |ess[n - 1]| && r == kps[n - 1] + Columns(ess[n - 1][k + 1]);
  }

  /** Lines 89-96 for keypoint i: the first entry overwrites the two new columns
      of row i, the others are appended as copies. */
  method WriteOrientations(table: seq<seq<int>>, i: nat, row: seq<int>, entries: seq<Orientation>)
    returns (table': seq<seq<int>>)
    requires i < |table| && table[i] == row + [0, 0]
    ensures table' == table[i := row + FirstColumns(entries)] + Copies(row, entries)
  {
    table' := table;
    var j := 0;
    while j < |entries|
      invariant 0 <= j <= |entries|
      invariant j == 0 ==> table' == table
      invariant j > 0 ==> table' == table[i := row + Columns(entries[0])]
                                   + seq(j - 1, k requires 0 <= k < j - 1 => row + Columns(entries[k + 1]))
    {
      if j == 0 {
        var current := table'[i];
        table' := table'[i := current[..|current| - 2] + Columns(entries[0])];
        assert current[..|current| - 2] == row;
      } else {
        table' := table' + [row + Columns(entries[j])];
      }
      j := j + 1;
    }
    if |entries| == 0 {
      assert table[i := row + [0, 0]] == table;
    }
  }

  /** Lines 58-84 for one keypoint: its runs when it lies in the crop circle, none
      outside it, and a failure when it lies in the circle and its window
      leaves the field. */
  method KeypointEntries(s: Setup, row: seq<int>) returns (entries: Option<seq<Orientation>>)
    requires ValidSetup(s) && |row| >= 2
    ensures entries.None? <==> Fails(s, row)
    ensures entries.Some? ==> entries.value == EntriesFor(s, row)
  {
    var x, y := row[0], row[1];
    if !InCircle(s, row) {
      return Some([]);
    }
    if !WindowInside(s.h, s.w, x, y, s.radius) {
      return None;
    }
    var orig := CountHistogram(Crop(s.field, s.h, s.w, x, y, s.radius, DiskMask(s.radius)), s.nbins);
    var hist := s.smooth(orig);
    var found := PeakOrientations(hist, s.maxFactor);
    return Some(found);
  }

  /** The table after the first |ess| keypoints: their own rows carry their first
      runs, the later rows are untouched, and the copies follow the original rows. */
  predicate TableAfter(kps: seq<seq<int>>, ess: seq<seq<Orientation>>, all: seq<seq<int>>)
    requires |ess| <= |kps|
  {
    && |all| >= |kps|
    && (forall k {:trigger all[k]} :: 0 <= k < |ess| ==> all[k] == kps[k] + FirstColumns(ess[k]))
    && (forall k {:trigger all[k]} :: |ess| <= k < |kps| ==> all[k] == kps[k] + [0, 0])
    && all[|kps|..] == ExtraRows(kps, ess)
  }

  /** Overwriting a row before position n leaves everything from n on as it was. */
  lemma SuffixAfterUpdate<T>(all: seq<T>, i: nat, v: T, extra: seq<T>, n: nat)
    requires i < n <= |all|
    ensures (all[i := v] + extra)[n..] == all[n..] + extra
  {
    var t := all[i := v] + extra;
    forall k | 0 <= k < |t| - n ensures t[n..][k] == (all[n..] + extra)[k] {
      if k < |all| - n {
        assert t[n + k] == all[n + k];
      }
    }
  }

  /** Writing keypoint i's runs extends the table by one keypoint. */
  lemma TableStep(kps: seq<seq<int>>, ess: seq<seq<Orientation>>, all: seq<seq<int>>, es: seq<Orientation>)
    requires |ess| < |kps| && TableAfter(kps, ess, all)
    ensures TableAfter(kps, ess + [es],
                       all[|ess| := kps[|ess|] + FirstColumns(es)] + Copies(kps[|ess|], es))
  {
    var i := |ess|;
    var ess' := ess + [es];
    assert ess'[..|ess'| - 1] == ess;
    SuffixAfterUpdate(all, i, kps[i] + FirstColumns(es), Copies(kps[i], es), |kps|);
  }

  /** r is one of the keypoints followed by two new columns. */
  predicate Extends(r: seq<int>, kps: seq<seq<int>>)
  {
    exists i :: 0 <= i < |kps| && |r| == |kps[i]| + 2 && r[..|kps[i]|] == kps[i]
  }

  /** Once every keypoint is written, every row of the table is a keypoint with two new columns. */
  lemma RowsExtendKeypoints(kps: seq<seq<int>>, ess: seq<seq<Orientation>>, all: seq<seq<int>>)
    requires |ess| == |kps| && TableAfter(kps, ess, all)
    ensures forall j :: 0 <= j < |all| ==> Extends(all[j], kps)
  {
    ExtraRowsCopyKeypoints(kps, ess);
    forall j | 0 <= j < |all| ensures Extends(all[j], kps) {
      if j < |kps| {
        assert all[j][..|kps[j]|] == kps[j];
      } else {
        var r := all[j];
        assert r == all[|kps|..][j - |kps|];
        assert r in ExtraRows(kps, ess);
        assert IsCopy(kps, ess, r);
        var i, k :| 0 <= i < |ess| && 1 <= k < |ess[i]| && r == kps[i] + Columns(ess[i][k]);
        assert r[..|kps[i]|] == kps[i];
      }
    }
  }

  /** The table after the first |ess| keypoints, row by row: their own rows with
      their first runs, the later keypoints with two zero columns, then the copies. */
  function TableOf(kps: seq<seq<int>>, ess: seq<seq<Orientation>>): seq<seq<int>>
    requires |ess| <= |kps|
  {
    seq(|kps|, k requires 0 <= k < |kps| => kps[k] + (if k < |ess| then FirstColumns(ess[k]) else [0, 0]))
      + ExtraRows(kps, ess)
  }

  lemma TableOfIsTableAfter(kps: seq<seq<int>>, ess: seq<seq<Orientation>>)
    requires |ess| <= |kps|
    ensures TableAfter(kps, ess, TableOf(kps, ess))
  {
    var own := seq(|kps|, k requires 0 <= k < |kps| => kps[k] + (if k < |ess| then FirstColumns(ess[k]) else [0, 0]));
    assert TableOf(kps, ess) == own + ExtraRows(kps, ess);
    assert (own + ExtraRows(kps, ess))[|kps|..] == ExtraRows(kps, ess);
  }

  /** TableAfter fixes every row of the table. */
  lemma TableAfterUnique(kps: seq<seq<int>>, ess: seq<seq<Orientation>>, a: seq<seq<int>>, b: seq<seq<int>>)
    requires |ess| <= |kps| && TableAfter(kps, ess, a) && TableAfter(kps, ess, b)
    ensures a == b
  {
    var n := |kps|;
    assert a[n..] == b[n..];
    forall k | 0 <= k < |a| ensures a[k] == b[k] {
      if k >= n {
        assert a[k] == a[n..][k - n];
      }
    }
  }

  /** The keypoint-width table with two zero columns is the table before any keypoint. */
  lemma BlankTable(kps: seq<seq<int>>, all: seq<seq<int>>)
    requires |all| == |kps| && forall k :: 0 <= k < |kps| ==> all[k] == kps[k] + [0, 0]
    ensures all == TableOf(kps, [])
  {
    TableOfIsTableAfter(kps, []);
    assert all[|kps|..] == [];
    TableAfterUnique(kps, [], all, TableOf(kps, []));
  }

  /** The row of the next keypoint still has its two zero columns. */
  lemma NextRowBlank(kps: seq<seq<int>>, ess: seq<seq<Orientation>>)
    requires |ess| < |kps|
    ensures |ess| < |TableOf(kps, ess)| && TableOf(kps, ess)[|ess|] == kps[|ess|] + [0, 0]
  {
    TableOfIsTableAfter(kps, ess);
  }

  /** The outcome for one keypoint: a failure, or its runs. */
  ghost function KeypointStep(s: Setup): seq<int> --> Option<seq<Orientation>>
  {
    row requires ValidSetup(s) =>
      if |row| < 2 || Fails(s, row) then None else Some(EntriesFor(s, row))
  }

  /** The finished table: no keypoint fails, row i is keypoint i with its first
      run's columns, and the copies for later runs follow the original rows, in
      keypoint order; so every row is a keypoint with two new columns. */
  ghost predicate Assigned(s: Setup, kps: seq<seq<int>>, table: seq<seq<int>>)
    requires ValidSetup(s) && Keypoints(kps)
  {
    && (forall i :: 0 <= i < |kps| ==> !Fails(s, kps[i]))
    && |table| >= |kps|
    && (forall i :: 0 <= i < |kps| ==> table[i] == OwnRow(s, kps[i]))
    && table[|kps|..] == ExtraRows(kps, AllEntries(s, kps))
    && (forall j :: 0 <= j < |table| ==> Extends(table[j], kps))
  }

  /** When every keypoint has an outcome, none fails and the outcomes are their runs. */
  lemma OutcomesAreEntries(s: Setup, kps: seq<seq<int>>, ess: seq<seq<Orientation>>)
    requires ValidSetup(s) && Keypoints(kps) && MapAll(kps, KeypointStep(s)) == Some(ess)
    ensures forall i :: 0 <= i < |kps| ==> !Fails(s, kps[i])
    ensures ess == AllEntries(s, kps)
  {
    MapAllValues(kps, KeypointStep(s));
    forall i | 0 <= i < |kps| ensures !Fails(s, kps[i]) && ess[i] == EntriesFor(s, kps[i]) {
      assert KeypointStep(s)(kps[i]).Some?;
    }
  }

  /** A table holding the runs of every keypoint is the finished table. */
  lemma AssignedTable(s: Setup, kps: seq<seq<int>>, all: seq<seq<int>>)
    requires ValidSetup(s) && Keypoints(kps) && forall i :: 0 <= i < |kps| ==> !Fails(s, kps[i])
    requires TableAfter(kps, AllEntries(s, kps), all)
    ensures Assigned(s, kps, all)
  {
    var ess := AllEntries(s, kps);
    forall i | 0 <= i < |kps| ensures all[i] == OwnRow(s, kps[i]) {
      assert ess[i] == EntriesFor(s, kps[i]);
    }
    RowsExtendKeypoints(kps, ess, all);
  }

  /** The finished table of keypoints none of which lies in the crop circle with
      a window that leaves the field. */
  ghost function OrientedTable(s: Setup, kps: seq<seq<int>>): seq<seq<int>>
    requires ValidSetup(s) && Keypoints(kps) && forall i :: 0 <= i < |kps| ==> !Fails(s, kps[i])
  {
    TableOf(kps, AllEntries(s, kps))
  }

  /** `Assigned` describes exactly one table, `OrientedTable`. */
  lemma AssignedIsOrientedTable(s: Setup, kps: seq<seq<int>>, t: seq<seq<int>>)
    requires ValidSetup(s) && Keypoints(kps) && forall i :: 0 <= i < |kps| ==> !Fails(s, kps[i])
    ensures Assigned(s, kps, OrientedTable(s, kps))
    ensures Assigned(s, kps, t) ==> t == OrientedTable(s, kps)
  {
    var ess := AllEntries(s, kps);
    TableOfIsTableAfter(kps, ess);
    AssignedTable(s, kps, TableOf(kps, ess));
    if Assigned(s, kps, t) {
      AssignedIsTableAfter(s, kps, t);
      TableAfterUnique(kps, ess, t, TableOf(kps, ess));
    }
  }

  lemma AssignedIsTableAfter(s: Setup, kps: seq<seq<int>>, t: seq<seq<int>>)
    requires ValidSetup(s) && Keypoints(kps) && Assigned(s, kps, t)
    ensures TableAfter(kps, AllEntries(s, kps), t)
  {
    var ess := AllEntries(s, kps);
    forall k | 0 <= k < |kps|
      ensures t[k] == kps[k] + FirstColumns(ess[k])
    {
      assert ess[k] == EntriesFor(s, kps[k]);
    }
  }

  lemma FinishedTable(s: Setup, kps: seq<seq<int>>, ess: seq<seq<Orientation>>, all: seq<seq<int>>)
    requires ValidSetup(s) && Keypoints(kps)
    requires MapAll(kps, KeypointStep(s)) == Some(ess) && |ess| == |kps| && all == TableOf(kps, ess)
    ensures Assigned(s, kps, all)
  {
    OutcomesAreEntries(s, kps, ess);
    TableOfIsTableAfter(kps, ess);
    AssignedTable(s, kps, all);
  }

  /** One iteration of the loop: a keypoint that does not fail adds its runs
      to the outcomes so far and its rows to the table. */
  lemma AssignStep(s: Setup, kps: seq<seq<int>>, ess: seq<seq<Orientation>>, all: seq<seq<int>>,
                   entries: seq<Orientation>, next: seq<seq<int>>)
    requires ValidSetup(s) && Keypoints(kps) && |ess| < |kps|
    requires MapAll(kps[..|ess|], KeypointStep(s)) == Some(ess) && all == TableOf(kps, ess)
    requires !Fails(s, kps[|ess|]) && entries == EntriesFor(s, kps[|ess|])
    requires next == all[|ess| := kps[|ess|] + FirstColumns(entries)] + Copies(kps[|ess|], entries)
    ensures MapAll(kps[..|ess| + 1], KeypointStep(s)) == Some(ess + [entries])
    ensures next == TableOf(kps, ess + [entries])
  {
    assert KeypointStep(s)(kps[|ess|]) == Some(entries);
    MapAllPrefix(kps, |ess|, KeypointStep(s));
    TableOfIsTableAfter(kps, ess);
    TableStep(kps, ess, all, entries);
    TableOfIsTableAfter(kps, ess + [entries]);
    TableAfterUnique(kps, ess + [entries], next, TableOf(kps, ess + [entries]));
  }

  /** `assignOrientations`: every keypoint row gains the two columns (bin, weight),
      and copies for further runs are appended after all original rows. */
  method AssignOrientations(s: Setup, kps: seq<seq<int>>) returns (table: Option<seq<seq<int>>>)
    requires ValidSetup(s) && Keypoints(kps)
    ensures table.None? <==> exists i :: 0 <= i < |kps| && Fails(s, kps[i])
    ensures table.Some? ==> Assigned(s, kps, table.value)
  {
    var all := seq(|kps|, i requires 0 <= i < |kps| => kps[i] + [0, 0]);
    BlankTable(kps, all);
    ghost var ess: seq<seq<Orientation>> := [];
    var i := 0;
    while i < |kps|
      invariant 0 <= i <= |kps| && |ess| == i
      invariant MapAll(kps[..i], KeypointStep(s)) == Some(ess)
      invariant all == TableOf(kps, ess)
    {
      var row := kps[i];
      var found := KeypointEntries(s, row);
      if found.None? {
        return None;
      }
      var entries := found.value;
      NextRowBlank(kps, ess);
      var next := WriteOrientations(all, i, row, entries);
      AssignStep(s, kps, ess, all, entries, next);
      all := next;
      ess := ess + [entries];
      i := i + 1;
    }
    assert kps[..i] == kps;
    FinishedTable(s, kps, ess, all);
    return Some(all);
  }
}
