/** The persistence-diagram matching cascade of match-pd-forward.py. The
    sublevel and superlevel diagrams of frame 1 are matched against those of
    frame 2 row by row: a source row is paired only when exactly one still
    unmatched target row of the same dimension satisfies the pass's predicate.
    Matched rows are frozen. The passes run once each: stable generator,
    pinch-off, roll, bottleneck. */
module PdMatching {
  import opened Common
  import opened Persistence

  /** Pixel tolerance of the coordinate-based passes. */
  const Radius := 5
  /** Death level separating pinch-off from roll generators. */
  const PinchOffLevel := 170

  /** The predicate a pass applies between a source row and a candidate target row. */
  datatype Criterion = StableGenerator | PinchOff | Roll | Bottleneck(maxError: int)

  predicate Near(c: Criterion, pt: Pair, q: Pair)
  {
    match c
    case StableGenerator =>
      Abs(q.birthX - pt.birthX) <= Radius && Abs(q.birthY - pt.birthY) <= Radius
      && Abs(q.deathX - pt.deathX) <= Radius && Abs(q.deathY - pt.deathY) <= Radius
    case PinchOff =>
      Abs(q.deathX - pt.deathX) <= Radius && Abs(q.deathY - pt.deathY) <= Radius
    case Roll =>
      Abs(q.birthX - pt.birthX) <= Radius && Abs(q.birthY - pt.birthY) <= Radius
    case Bottleneck(e) =>
      Abs(q.birth - pt.birth) <= e && Abs(q.death - pt.death) <= e
  }

  /** The guard of the pass loop on the source row (besides being unmatched). */
  predicate Eligible(c: Criterion, pt: Pair)
  {
    match c
    case PinchOff => pt.dim == 0 && pt.death < PinchOffLevel
    case Roll => pt.dim == 0 && pt.death >= PinchOffLevel
    case _ => true
  }

  /** Target row j is offered to pt: unmatched (flag −1), same dimension, predicate holds. */
  predicate IsCandidate(c: Criterion, pt: Pair, tgt: seq<Pair>, tflags: seq<int>, j: int)
  {
    0 <= j < |tgt| && j < |tflags| && tflags[j] == -1 && tgt[j].dim == pt.dim && Near(c, pt, tgt[j])
  }

  /** The index list of the mask selection `data.loc[...]`, from lo on. */
  function CandidatesFrom(c: Criterion, pt: Pair, tgt: seq<Pair>, tflags: seq<int>, lo: nat): (r: seq<int>)
    requires |tflags| == |tgt| && lo <= |tgt|
    ensures forall j :: j in r <==> lo <= j && IsCandidate(c, pt, tgt, tflags, j)
    ensures forall a, b :: 0 <= a < b < |r| ==> r[a] < r[b]
    decreases |tgt| - lo
  {
    if lo == |tgt| then []
    else
      var rest := CandidatesFrom(c, pt, tgt, tflags, lo + 1);
      assert forall a :: 0 <= a < |rest| ==> rest[a] in rest;
      (if IsCandidate(c, pt, tgt, tflags, lo) then [lo] else []) + rest
  }

  /** `bottleneckMatches`, `stableGeneratorMatches`, `stablePinchOffMatches`,
      `stableRollMatches`: the single candidate's index, or −1 when there are
      none or several. */
  function UniqueMatch(c: Criterion, pt: Pair, tgt: seq<Pair>, tflags: seq<int>): (m: int)
    requires |tflags| == |tgt|
    ensures m != -1 ==> IsCandidate(c, pt, tgt, tflags, m)
                        && forall j :: IsCandidate(c, pt, tgt, tflags, j) ==> j == m
    ensures m == -1 ==> (forall j :: !IsCandidate(c, pt, tgt, tflags, j))
                        || exists j, k :: j < k && IsCandidate(c, pt, tgt, tflags, j) && IsCandidate(c, pt, tgt, tflags, k)
  {
    var cs := CandidatesFrom(c, pt, tgt, tflags, 0);
    if |cs| == 1 then cs[0]
    else
      assert |cs| >= 2 ==> cs[0] < cs[1] && cs[0] in cs && cs[1] in cs;
      -1
  }

  /** The isMatched columns of a source table and its target table. */
  datatype Flags = Flags(source: seq<int>, target: seq<int>)

  predicate Fits(src: seq<Pair>, tgt: seq<Pair>, f: Flags)
  {
    |f.source| == |src| && |f.target| == |tgt|
  }

  /** One iteration of a `find*` loop on source row i. */
  function Step(c: Criterion, src: seq<Pair>, tgt: seq<Pair>, i: nat, f: Flags): (g: Flags)
    requires Fits(src, tgt, f) && i < |src|
    ensures Fits(src, tgt, g)
  {
    if f.source[i] == -1 && Eligible(c, src[i]) then
      var m := UniqueMatch(c, src[i], tgt, f.target);
      Flags(f.source[i := m], if m > -1 then f.target[m := 1] else f.target)
    else f
  }

  /** Rows i, i+1, ... of one `find*` loop, in index order. */
  function PassFrom(c: Criterion, src: seq<Pair>, tgt: seq<Pair>, i: nat, f: Flags): (g: Flags)
    requires Fits(src, tgt, f) && i <= |src|
    ensures Fits(src, tgt, g)
    decreases |src| - i
  {
    if i == |src| then f
    else PassFrom(c, src, tgt, i + 1, Step(c, src, tgt, i, f))
  }

  /** One `find*` loop over a source table against its target table. */
  method MatchPass(c: Criterion, src: seq<Pair>, tgt: seq<Pair>, f0: Flags) returns (f: Flags)
    requires Fits(src, tgt, f0)
    ensures Fits(src, tgt, f)
    ensures f == PassFrom(c, src, tgt, 0, f0)
  {
    f := f0;
    var i := 0;
    while i < |src|
      invariant 0 <= i <= |src| && Fits(src, tgt, f)
      invariant PassFrom(c, src, tgt, i, f) == PassFrom(c, src, tgt, 0, f0)
    {
      ghost var before := f;
      if f.source[i] == -1 && Eligible(c, src[i]) {
        var m := UniqueMatch(c, src[i], tgt, f.target);
        f := Flags(f.source[i := m], if m > -1 then f.target[m := 1] else f.target);
      }
      assert f == Step(c, src, tgt, i, before);
      i := i + 1;
    }
  }

  // ---------------------------------------------------------------- invariants of a pass

  /** The bookkeeping every pass keeps: target flags are −1 or 1, every matched
      source row points at a flagged target, and no two source rows share a target. */
  predicate Consistent(f: Flags)
  {
    && (forall j :: 0 <= j < |f.target| ==> f.target[j] == -1 || f.target[j] == 1)
    && (forall i :: 0 <= i < |f.source| ==>
          f.source[i] == -1 || (0 <= f.source[i] < |f.target| && f.target[f.source[i]] == 1))
    && (forall i, k :: 0 <= i < |f.source| && 0 <= k < |f.source| && i != k && f.source[i] != -1 ==>
          f.source[i] != f.source[k])
  }

  /** Source row i went from −1 to a target that was unmatched before, is flagged
      now, has the same dimension and satisfies the predicate. */
  predicate NewMatch(c: Criterion, src: seq<Pair>, tgt: seq<Pair>, f: Flags, g: Flags, i: int)
    requires Fits(src, tgt, f) && Fits(src, tgt, g) && 0 <= i < |src|
  {
    var m := g.source[i];
    Eligible(c, src[i]) && 0 <= m < |tgt| && f.target[m] == -1 && g.target[m] == 1
    && tgt[m].dim == src[i].dim && Near(c, src[i], tgt[m])
  }

  /** Matched source rows are frozen and rows the pass does not look at are untouched. */
  predicate SourcesKept(c: Criterion, src: seq<Pair>, tgt: seq<Pair>, f: Flags, g: Flags)
    requires Fits(src, tgt, f) && Fits(src, tgt, g)
  {
    forall i :: 0 <= i < |src| && (f.source[i] != -1 || !Eligible(c, src[i])) ==> g.source[i] == f.source[i]
  }

  /** Every new pairing satisfies the pass's predicate. */
  predicate NewMatchesSound(c: Criterion, src: seq<Pair>, tgt: seq<Pair>, f: Flags, g: Flags)
    requires Fits(src, tgt, f) && Fits(src, tgt, g)
  {
    forall i :: 0 <= i < |src| && f.source[i] == -1 && g.source[i] != -1 ==> NewMatch(c, src, tgt, f, g, i)
  }

  /** Target flags only move from −1 to 1, each because a source row was newly paired with it. */
  predicate TargetsJustified(src: seq<Pair>, tgt: seq<Pair>, f: Flags, g: Flags)
    requires Fits(src, tgt, f) && Fits(src, tgt, g)
  {
    && (forall j :: 0 <= j < |tgt| ==> g.target[j] == f.target[j] || g.target[j] == 1)
    && (forall j :: 0 <= j < |tgt| && g.target[j] != f.target[j] ==>
          exists i :: 0 <= i < |src| && f.source[i] == -1 && g.source[i] == j)
  }

  /** How the flags may change over part of a pass. */
  predicate Evolves(c: Criterion, src: seq<Pair>, tgt: seq<Pair>, f: Flags, g: Flags)
  {
    && Fits(src, tgt, f) && Fits(src, tgt, g)
    && SourcesKept(c, src, tgt, f, g)
    && NewMatchesSound(c, src, tgt, f, g)
    && TargetsJustified(src, tgt, f, g)
  }

  /** Pairing an unmatched source row with an unmatched target keeps the bookkeeping consistent. */
  lemma ConsistentAfterMatch(f: Flags, i: nat, m: nat)
    requires Consistent(f) && i < |f.source| && f.source[i] == -1 && m < |f.target| && f.target[m] == -1
    ensures Consistent(Flags(f.source[i := m], f.target[m := 1]))
  {
    forall k | 0 <= k < |f.source| && f.source[k] != -1
      ensures f.source[k] != m
    {
    }
  }

  lemma StepConsistent(c: Criterion, src: seq<Pair>, tgt: seq<Pair>, i: nat, f: Flags)
    requires Fits(src, tgt, f) && i < |src| && Consistent(f)
    ensures Consistent(Step(c, src, tgt, i, f))
  {
    if f.source[i] == -1 && Eligible(c, src[i]) {
      var m := UniqueMatch(c, src[i], tgt, f.target);
      if m > -1 {
        ConsistentAfterMatch(f, i, m);
      } else {
        assert f.source[i := m] == f.source;
      }
    }
  }

  lemma StepEvolves(c: Criterion, src: seq<Pair>, tgt: seq<Pair>, i: nat, f: Flags)
    requires Fits(src, tgt, f) && i < |src|
    ensures Evolves(c, src, tgt, f, Step(c, src, tgt, i, f))
  {
    var g := Step(c, src, tgt, i, f);
    if f.source[i] == -1 && Eligible(c, src[i]) {
      var m := UniqueMatch(c, src[i], tgt, f.target);
      if m > -1 {
        assert g.source == f.source[i := m] && g.target == f.target[m := 1];
        assert NewMatch(c, src, tgt, f, g, i);
        forall j | 0 <= j < |tgt| && g.target[j] != f.target[j]
          ensures exists k :: 0 <= k < |src| && f.source[k] == -1 && g.source[k] == j
        {
          assert j == m && g.source[i] == j;
        }
      } else {
        assert g.source == f.source[i := -1] && g.target == f.target;
      }
    }
  }

  lemma EvolvesTransitive(c: Criterion, src: seq<Pair>, tgt: seq<Pair>, f: Flags, g: Flags, h: Flags)
    requires Evolves(c, src, tgt, f, g) && Evolves(c, src, tgt, g, h)
    ensures Evolves(c, src, tgt, f, h)
  {
    forall i | 0 <= i < |src| && f.source[i] == -1 && h.source[i] != -1
      ensures NewMatch(c, src, tgt, f, h, i)
    {
      if g.source[i] != -1 {
        assert NewMatch(c, src, tgt, f, g, i);
      } else {
        assert NewMatch(c, src, tgt, g, h, i);
      }
    }
    forall j | 0 <= j < |tgt| && h.target[j] != f.target[j]
      ensures exists i :: 0 <= i < |src| && f.source[i] == -1 && h.source[i] == j
    {
      if g.target[j] != f.target[j] {
        var i :| 0 <= i < |src| && f.source[i] == -1 && g.source[i] == j;
        assert h.source[i] == j;
      } else {
        var i :| 0 <= i < |src| && g.source[i] == -1 && h.source[i] == j;
        assert f.source[i] == -1;
      }
    }
  }

  /** A whole pass keeps the bookkeeping consistent and changes flags only as `Evolves` allows. */
  lemma {:induction false} PassEvolves(c: Criterion, src: seq<Pair>, tgt: seq<Pair>, i: nat, f: Flags)
    requires Fits(src, tgt, f) && i <= |src| && Consistent(f)
    ensures Evolves(c, src, tgt, f, PassFrom(c, src, tgt, i, f))
    ensures Consistent(PassFrom(c, src, tgt, i, f))
    decreases |src| - i
  {
    if i < |src| {
      var g := Step(c, src, tgt, i, f);
      StepEvolves(c, src, tgt, i, f);
      StepConsistent(c, src, tgt, i, f);
      PassEvolves(c, src, tgt, i + 1, g);
      EvolvesTransitive(c, src, tgt, f, g, PassFrom(c, src, tgt, i + 1, g));
    }
  }

  /** When source row i is reached, it is paired exactly when one target is on offer. */
  lemma PassDecidesRow(c: Criterion, src: seq<Pair>, tgt: seq<Pair>, i: nat, f: Flags)
    requires Fits(src, tgt, f) && i < |src|
    requires f.source[i] == -1 && Eligible(c, src[i])
    ensures PassFrom(c, src, tgt, i, f).source[i] == UniqueMatch(c, src[i], tgt, f.target)
  {
    var g := Step(c, src, tgt, i, f);
    var m := UniqueMatch(c, src[i], tgt, f.target);
    assert g.source[i] == m;
    RowsBeforeUntouched(c, src, tgt, i + 1, g, i);
  }

  /** A pass started at row i never writes the flag of an earlier row. */
  lemma {:induction false} RowsBeforeUntouched(c: Criterion, src: seq<Pair>, tgt: seq<Pair>, i: nat, f: Flags, k: nat)
    requires Fits(src, tgt, f) && i <= |src| && k < i
    ensures PassFrom(c, src, tgt, i, f).source[k] == f.source[k]
    decreases |src| - i
  {
    if i < |src| {
      RowsBeforeUntouched(c, src, tgt, i + 1, Step(c, src, tgt, i, f), k);
    }
  }

  /** Number of source rows still unmatched (flag −1). */
  function CountUnmatched(s: seq<int>): (n: nat)
    ensures n <= |s|
  {
    if s == [] then 0 else (if s[0] == -1 then 1 else 0) + CountUnmatched(s[1..])
  }

  lemma {:induction false} CountUnmatchedMonotone(s: seq<int>, t: seq<int>)
    requires |s| == |t|
    requires forall i :: 0 <= i < |s| && s[i] != -1 ==> t[i] != -1
    ensures CountUnmatched(t) <= CountUnmatched(s)
  {
    if s != [] {
      CountUnmatchedMonotone(s[1..], t[1..]);
    }
  }

  /** The unmatched count of the source table never increases over a pass. */
  lemma PassNeverUnmatches(c: Criterion, src: seq<Pair>, tgt: seq<Pair>, f: Flags)
    requires Fits(src, tgt, f) && Consistent(f)
    ensures CountUnmatched(PassFrom(c, src, tgt, 0, f).source) <= CountUnmatched(f.source)
  {
    PassEvolves(c, src, tgt, 0, f);
    CountUnmatchedMonotone(f.source, PassFrom(c, src, tgt, 0, f).source);
  }

  // ---------------------------------------------------------------- the script's state

  /** `np.absolute(np.subtract(bmp1, bmp2)).max()` over the pixels in row-major order. */
  function MaxError(img1: seq<int>, img2: seq<int>): (e: int)
    requires |img1| == |img2| > 0
    ensures e >= 0
    ensures forall k :: 0 <= k < |img1| ==> Abs(img1[k] - img2[k]) <= e
    ensures exists k :: 0 <= k < |img1| && Abs(img1[k] - img2[k]) == e
  {
    var n := |img1|;
    var d := Abs(img1[n - 1] - img2[n - 1]);
    if n == 1 then d
    else
      var e := MaxError(img1[..n - 1], img2[..n - 1]);
      assert forall k :: 0 <= k < n - 1 ==> img1[..n - 1][k] == img1[k] && img2[..n - 1][k] == img2[k];
      if e < d then d else e
  }

  /** All flags −1 except row 0, the point at infinity: source row 0 is paired
      with target row 0 and target row 0 is marked matched. */
  function InitialSourceFlags(n: nat): (s: seq<int>)
    requires n > 0
    ensures |s| == n && s[0] == 0 && forall i :: 1 <= i < n ==> s[i] == -1
  {
    [0] + seq(n - 1, _ => -1)
  }

  function InitialTargetFlags(n: nat): (s: seq<int>)
    requires n > 0
    ensures |s| == n && s[0] == 1 && forall i :: 1 <= i < n ==> s[i] == -1
  {
    [1] + seq(n - 1, _ => -1)
  }

  lemma InitialConsistent(n1: nat, n2: nat)
    requires n1 > 0 && n2 > 0
    ensures Consistent(Flags(InitialSourceFlags(n1), InitialTargetFlags(n2)))
  {
  }

  /** The rows whose flag is still −1 (`df.loc[df['isMatched'] == -1]`), in order. */
  function UnmatchedRows(rows: seq<Pair>, flags: seq<int>): (r: seq<Pair>)
    requires |flags| == |rows|
    ensures |r| == CountUnmatched(flags)
    ensures forall i :: 0 <= i < |rows| && flags[i] == -1 ==> rows[i] in r
  {
    if rows == [] then []
    else
      var rest := UnmatchedRows(rows[1..], flags[1..]);
      assert forall i :: 1 <= i < |rows| ==> rows[1..][i - 1] == rows[i] && flags[1..][i - 1] == flags[i];
      (if flags[0] == -1 then [rows[0]] else []) + rest
  }

  /** The source table with its isMatched column alongside, row by row. */
  function Tagged(rows: seq<Pair>, flags: seq<int>): seq<(Pair, int)>
    requires |flags| == |rows|
  {
    seq(|rows|, i requires 0 <= i < |rows| => (rows[i], flags[i]))
  }

  /** The row part of a tagged table. */
  function RowsOf(ts: seq<(Pair, int)>): seq<Pair>
  {
    seq(|ts|, i requires 0 <= i < |ts| => ts[i].0)
  }

  /** The mask `df['isMatched'] == -1`. */
  predicate IsUnmatched(t: (Pair, int))
  {
    t.1 == -1
  }

  /** `UnmatchedRows` is the mask selection on the tagged table: exactly the rows
      flagged −1, each as often as it occurs, in table order. */
  lemma {:induction false} UnmatchedRowsIsSelection(rows: seq<Pair>, flags: seq<int>)
    requires |flags| == |rows|
    ensures UnmatchedRows(rows, flags) == RowsOf(Select(Tagged(rows, flags), IsUnmatched))
  {
    if rows != [] {
      var t := Tagged(rows, flags);
      assert t[1..] == Tagged(rows[1..], flags[1..]);
      UnmatchedRowsIsSelection(rows[1..], flags[1..]);
      var rest := Select(t[1..], IsUnmatched);
      assert t[0] == (rows[0], flags[0]);
      if flags[0] == -1 {
        assert Select(t, IsUnmatched) == [t[0]] + rest;
        assert RowsOf([t[0]] + rest) == [rows[0]] + RowsOf(rest);
      } else {
        assert Select(t, IsUnmatched) == rest;
      }
    }
  }

  /** The four diagrams and their isMatched columns, as the script keeps them. */
  class Cascade {
    const sub1: seq<Pair>
    const sup1: seq<Pair>
    const sub2: seq<Pair>
    const sup2: seq<Pair>
    const maxError: int
    var subFlags: Flags
    var supFlags: Flags

    ghost predicate Valid()
      reads this
    {
      Fits(sub1, sub2, subFlags) && Fits(sup1, sup2, supFlags)
      && Consistent(subFlags) && Consistent(supFlags)
    }

    /** Reads the two frames, computes max_error and pre-matches the points at
        infinity. Each diagram holds its essential class in row 0. */
    constructor (img1: seq<int>, img2: seq<int>, sub1: seq<Pair>, sup1: seq<Pair>, sub2: seq<Pair>, sup2: seq<Pair>)
      requires |img1| == |img2| > 0
      requires |sub1| > 0 && |sup1| > 0 && |sub2| > 0 && |sup2| > 0
      ensures Valid()
      ensures this.sub1 == sub1 && this.sup1 == sup1 && this.sub2 == sub2 && this.sup2 == sup2
      ensures maxError == MaxError(img1, img2)
      ensures subFlags == Flags(InitialSourceFlags(|sub1|), InitialTargetFlags(|sub2|))
      ensures supFlags == Flags(InitialSourceFlags(|sup1|), InitialTargetFlags(|sup2|))
    {
      this.sub1, this.sup1, this.sub2, this.sup2 := sub1, sup1, sub2, sup2;
      maxError := MaxError(img1, img2);
      subFlags := Flags(InitialSourceFlags(|sub1|), InitialTargetFlags(|sub2|));
      supFlags := Flags(InitialSourceFlags(|sup1|), InitialTargetFlags(|sup2|));
      InitialConsistent(|sub1|, |sub2|);
      InitialConsistent(|sup1|, |sup2|);
    }

    /** `findStableGeneratorMatches`: both birth and death cells within 5 pixels. */
    method FindStableGeneratorMatches()
      requires Valid()
      modifies this
      ensures Valid()
      ensures subFlags == PassFrom(StableGenerator, sub1, sub2, 0, old(subFlags))
      ensures supFlags == PassFrom(StableGenerator, sup1, sup2, 0, old(supFlags))
      ensures Evolves(StableGenerator, sub1, sub2, old(subFlags), subFlags)
      ensures Evolves(StableGenerator, sup1, sup2, old(supFlags), supFlags)
    {
      PassEvolves(StableGenerator, sub1, sub2, 0, subFlags);
      PassEvolves(StableGenerator, sup1, sup2, 0, supFlags);
      subFlags := MatchPass(StableGenerator, sub1, sub2, subFlags);
      supFlags := MatchPass(StableGenerator, sup1, sup2, supFlags);
    }

    /** `findStablePinchOffMatches`: sublevel dimension-0 rows dying below 170,
        death cells within 5 pixels; the superlevel tables are not touched. */
    method FindStablePinchOffMatches()
      requires Valid()
      modifies this
      ensures Valid()
      ensures subFlags == PassFrom(PinchOff, sub1, sub2, 0, old(subFlags))
      ensures supFlags == old(supFlags)
      ensures Evolves(PinchOff, sub1, sub2, old(subFlags), subFlags)
    {
      PassEvolves(PinchOff, sub1, sub2, 0, subFlags);
      subFlags := MatchPass(PinchOff, sub1, sub2, subFlags);
    }

    /** `findStableRollMatches`: sublevel dimension-0 rows dying at 170 or above,
        birth cells within 5 pixels; the superlevel tables are not touched. */
    method FindStableRollMatches()
      requires Valid()
      modifies this
      ensures Valid()
      ensures subFlags == PassFrom(Roll, sub1, sub2, 0, old(subFlags))
      ensures supFlags == old(supFlags)
      ensures Evolves(Roll, sub1, sub2, old(subFlags), subFlags)
    {
      PassEvolves(Roll, sub1, sub2, 0, subFlags);
      subFlags := MatchPass(Roll, sub1, sub2, subFlags);
    }

    /** `findBottleneckMatches`: birth and death values within max_error. */
    method FindBottleneckMatches()
      requires Valid()
      modifies this
      ensures Valid()
      ensures subFlags == PassFrom(Bottleneck(maxError), sub1, sub2, 0, old(subFlags))
      ensures supFlags == PassFrom(Bottleneck(maxError), sup1, sup2, 0, old(supFlags))
      ensures Evolves(Bottleneck(maxError), sub1, sub2, old(subFlags), subFlags)
      ensures Evolves(Bottleneck(maxError), sup1, sup2, old(supFlags), supFlags)
    {
      PassEvolves(Bottleneck(maxError), sub1, sub2, 0, subFlags);
      PassEvolves(Bottleneck(maxError), sup1, sup2, 0, supFlags);
      subFlags := MatchPass(Bottleneck(maxError), sub1, sub2, subFlags);
      supFlags := MatchPass(Bottleneck(maxError), sup1, sup2, supFlags);
    }

    /** The matching procedure: the four passes once each, in order; the output
        is the frame-1 rows left unmatched. */
    method Run() returns (subUnmatched: seq<Pair>, supUnmatched: seq<Pair>)
      requires Valid()
      modifies this
      ensures Valid()
      ensures subFlags == PassFrom(Bottleneck(maxError), sub1, sub2, 0,
                            PassFrom(Roll, sub1, sub2, 0,
                              PassFrom(PinchOff, sub1, sub2, 0,
                                PassFrom(StableGenerator, sub1, sub2, 0, old(subFlags)))))
      ensures supFlags == PassFrom(Bottleneck(maxError), sup1, sup2, 0,
                            PassFrom(StableGenerator, sup1, sup2, 0, old(supFlags)))
      ensures subUnmatched == UnmatchedRows(sub1, subFlags.source)
      ensures supUnmatched == UnmatchedRows(sup1, supFlags.source)
      ensures CountUnmatched(subFlags.source) <= CountUnmatched(old(subFlags).source)
      ensures CountUnmatched(supFlags.source) <= CountUnmatched(old(supFlags).source)
    {
      ghost var sub0, sup0 := subFlags, supFlags;
      FindStableGeneratorMatches();
      ghost var sub1f, sup1f := subFlags, supFlags;
      FindStablePinchOffMatches();
      ghost var sub2f := subFlags;
      FindStableRollMatches();
      ghost var sub3f := subFlags;
      FindBottleneckMatches();
      CountUnmatchedMonotone(sub0.source, sub1f.source);
      CountUnmatchedMonotone(sub1f.source, sub2f.source);
      CountUnmatchedMonotone(sub2f.source, sub3f.source);
      CountUnmatchedMonotone(sub3f.source, subFlags.source);
      CountUnmatchedMonotone(sup0.source, sup1f.source);
      CountUnmatchedMonotone(sup1f.source, supFlags.source);
      subUnmatched := UnmatchedRows(sub1, subFlags.source);
      supUnmatched := UnmatchedRows(sup1, supFlags.source);
    }
  }
}
