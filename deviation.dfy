/** Transitive match chains over a sequence of per-frame matching tables and
    the deviations measured along them (get-deviation-from-actual.py and
    get-deviation-from-linear.py). Table k holds the rows of frame
    index+k+1, the frame the starting rows' matches name; a row's `matchedIdx` names a row of the next frame's table, −1 when it has
    none. The Euclidean distance the scripts take of a (birth, death)
    difference is a parameter `dist`. */
module ChainDeviation {
  import opened Common

  /** A row of a matching file: its own index, the persistence pair, and its match in the next frame. */
  datatype MatchRow = MatchRow(idx: int, birth: int, death: int, birthX: int, birthY: int,
                               deathX: int, deathY: int, matchedIdx: int)

  /** The step-k columns idx_k, birth_k, death_k, b_x_k, b_y_k, d_x_k, d_y_k of a tracked row. */
  datatype StepRecord = StepRecord(idx: int, birth: int, death: int, birthX: int, birthY: int,
                                   deathX: int, deathY: int)

  /** The value every step column starts with. */
  const Missing: StepRecord := StepRecord(-1, -1, -1, -1, -1, -1, -1)

  function RecordOf(t: MatchRow): StepRecord
  {
    StepRecord(t.idx, t.birth, t.death, t.birthX, t.birthY, t.deathX, t.deathY)
  }

  /** The final `finalmatch` of a row and its step columns. */
  datatype Chain<R> = Chain(finalMatch: int, records: seq<R>)

  /** The inner merge on `finalmatch` keeps a row exactly when it names a row of the table. */
  predicate Names(fm: int, t: seq<MatchRow>)
  {
    0 <= fm < |t|
  }

  /** The chain reaches a row of every table. */
  predicate FollowedThrough(fm: int, tables: seq<seq<MatchRow>>)
    decreases |tables|
  {
    tables == [] || (Names(fm, tables[0]) && FollowedThrough(tables[0][fm].matchedIdx, tables[1..]))
  }

  // ---------------------------------------------------------------- get-deviation-from-actual.py

  /** One row followed through the tables: each step records the row it names,
      `finalmatch` advances on every step but the last, and a row that names
      nothing is set to −1 and records nothing from then on. */
  function ActualChain(fm: int, tables: seq<seq<MatchRow>>): (c: Chain<StepRecord>)
    ensures |c.records| == |tables|
    decreases |tables|
  {
    if tables == [] then Chain(fm, [])
    else if Names(fm, tables[0]) then
      var row := tables[0][fm];
      var rest := ActualChain(if |tables| > 1 then row.matchedIdx else fm, tables[1..]);
      Chain(rest.finalMatch, [RecordOf(row)] + rest.records)
    else Chain(-1, seq(|tables|, _ => Missing))
  }

  /** After at least one step, a row is still matched exactly when the chain was
      followed through every table, and then it names a row of the last table. */
  lemma {:induction false} ActualMatchedThrough(fm: int, tables: seq<seq<MatchRow>>)
    requires |tables| > 0
    ensures ActualChain(fm, tables).finalMatch != -1 <==> FollowedThrough(fm, tables)
    ensures ActualChain(fm, tables).finalMatch != -1 ==> Names(ActualChain(fm, tables).finalMatch, tables[|tables| - 1])
    decreases |tables|
  {
    if Names(fm, tables[0]) && |tables| > 1 {
      ActualMatchedThrough(tables[0][fm].matchedIdx, tables[1..]);
      assert tables[1..][|tables| - 2] == tables[|tables| - 1];
    }
  }

  /** A chain followed through records, at step k, the row its predecessor named. */
  lemma {:induction false} ActualRecordsFollowChain(fm: int, tables: seq<seq<MatchRow>>)
    requires |tables| > 0 && FollowedThrough(fm, tables)
    ensures ActualChain(fm, tables).records[0] == RecordOf(tables[0][fm])
    ensures |tables| > 1 ==> ActualChain(fm, tables).records[1..] == ActualChain(tables[0][fm].matchedIdx, tables[1..]).records
  {
  }

  /** The two table loops (lines 70-94 and 100-125): every row's chain, one step per iteration. */
  method FollowActualChains(starts: seq<int>, tables: seq<seq<MatchRow>>) returns (fms: seq<int>, recs: seq<seq<StepRecord>>)
    ensures |fms| == |starts| && |recs| == |starts|
    ensures forall r :: 0 <= r < |starts| ==> Chain(fms[r], recs[r]) == ActualChain(starts[r], tables)
  {
    fms := starts;
    recs := seq(|starts|, _ => []);
    var k := 0;
    while k < |tables|
      invariant 0 <= k <= |tables|
      invariant |fms| == |starts| && |recs| == |starts|
      invariant forall r :: 0 <= r < |starts| ==>
        var c := ActualChain(fms[r], tables[k..]);
        ActualChain(starts[r], tables) == Chain(c.finalMatch, recs[r] + c.records)
    {
      var t := tables[k];
      var last := k == |tables| - 1;
      var fms', recs' :=
        seq(|starts|, r requires 0 <= r < |starts| =>
          if Names(fms[r], t) then (if last then fms[r] else t[fms[r]].matchedIdx) else -1),
        seq(|starts|, r requires 0 <= r < |starts| =>
          recs[r] + [if Names(fms[r], t) then RecordOf(t[fms[r]]) else Missing]);
      forall r | 0 <= r < |starts|
        ensures var c := ActualChain(fms'[r], tables[k + 1..]);
          ActualChain(starts[r], tables) == Chain(c.finalMatch, recs'[r] + c.records)
      {
        assert tables[k..][0] == t && tables[k..][1..] == tables[k + 1..];
        var c := ActualChain(fms'[r], tables[k + 1..]);
        if !Names(fms[r], t) {
          assert seq(|tables[k..]|, _ => Missing) == [Missing] + seq(|tables[k + 1..]|, _ => Missing);
          assert c == ActualChain(-1, tables[k + 1..]);
          assert c.records == seq(|tables[k + 1..]|, _ => Missing);
        }
        assert recs'[r] + c.records == recs[r] + ([recs'[r][k]] + c.records);
      }
      fms, recs := fms', recs';
      k := k + 1;
    }
  }

  /** The step-i distance between the two chains' records. */
  function StepDistance(dist: (real, real) -> real, a: StepRecord, b: StepRecord): real
  {
    dist((a.birth - b.birth) as real, (a.death - b.death) as real)
  }

  function Distances(dist: (real, real) -> real, a: seq<StepRecord>, b: seq<StepRecord>): (ds: seq<real>)
    requires |a| == |b|
    ensures |ds| == |a| && forall i :: 0 <= i < |a| ==> ds[i] == StepDistance(dist, a[i], b[i])
  {
    seq(|a|, i requires 0 <= i < |a| => StepDistance(dist, a[i], b[i]))
  }

  /** `D.max(axis=1)` applied once per value: the running maximum, from init. */
  function RunningMax(init: real, ds: seq<real>): (m: real)
    ensures m >= init
    ensures forall i :: 0 <= i < |ds| ==> m >= ds[i]
    ensures m == init || exists i :: 0 <= i < |ds| && m == ds[i]
    decreases |ds|
  {
    if ds == [] then init
    else
      var m := RunningMax(Max(init, ds[0]), ds[1..]);
      assert forall i :: 1 <= i < |ds| ==> ds[1..][i - 1] == ds[i];
      m
  }

  lemma {:induction false} RunningMaxStep(init: real, ds: seq<real>, k: nat)
    requires k < |ds|
    ensures RunningMax(init, ds) == RunningMax(RunningMax(init, ds[..k]), ds[k..])
    decreases k
  {
    if k > 0 {
      assert ds[..k][1..] == ds[1..][..k - 1];
      assert ds[k..] == ds[1..][k - 1..];
      RunningMaxStep(Max(init, ds[0]), ds[1..], k - 1);
    } else {
      assert ds[..0] == [];
    }
  }

  /** One more value extends the running maximum by one `max`. */
  lemma RunningMaxExtend(init: real, ds: seq<real>, i: nat)
    requires i < |ds|
    ensures RunningMax(init, ds[..i + 1]) == Max(RunningMax(init, ds[..i]), ds[i])
  {
    var ps := ds[..i + 1];
    RunningMaxStep(init, ps, i);
    assert ps[..i] == ds[..i];
    assert ps[i..] == [ds[i]];
    assert RunningMax(Max(RunningMax(init, ds[..i]), ds[i]), []) == Max(RunningMax(init, ds[..i]), ds[i]);
  }

  /** Lines 130-151: rows followed through in both chains get the running maximum
      of −1 and each step's distance; all others keep −1. Both tables receive
      the same values. Tables of different lengths cannot be aligned. */
  method ActualDeviation(dist: (real, real) -> real, steps: nat,
                         fms1: seq<int>, recs1: seq<seq<StepRecord>>,
                         fms2: seq<int>, recs2: seq<seq<StepRecord>>) returns (dev: Option<seq<real>>)
    requires |recs1| == |fms1| && |recs2| == |fms2|
    requires forall r :: 0 <= r < |recs1| ==> |recs1[r]| == steps
    requires forall r :: 0 <= r < |recs2| ==> |recs2[r]| == steps
    ensures dev.None? <==> |fms1| != |fms2|
    ensures dev.Some? ==> |dev.value| == |fms1| && forall r :: 0 <= r < |fms1| ==>
      dev.value[r] == if fms1[r] != -1 && fms2[r] != -1
                      then RunningMax(-1.0, Distances(dist, recs1[r], recs2[r])) else -1.0
  {
    if |fms1| != |fms2| {
      return None;
    }
    var n := |fms1|;
    var d := seq(n, _ => -1.0);
    var i := 0;
    while i < steps
      invariant 0 <= i <= steps && |d| == n
      invariant forall r :: 0 <= r < n ==>
        d[r] == if fms1[r] != -1 && fms2[r] != -1
                then RunningMax(-1.0, Distances(dist, recs1[r], recs2[r])[..i]) else -1.0
    {
      d := seq(n, r requires 0 <= r < n && |d| == n =>
        if fms1[r] != -1 && fms2[r] != -1 then Max(d[r], StepDistance(dist, recs1[r][i], recs2[r][i])) else d[r]);
      forall r | 0 <= r < n && fms1[r] != -1 && fms2[r] != -1
        ensures d[r] == RunningMax(-1.0, Distances(dist, recs1[r], recs2[r])[..i + 1])
      {
        RunningMaxExtend(-1.0, Distances(dist, recs1[r], recs2[r]), i);
      }
      i := i + 1;
    }
    assert forall r :: 0 <= r < n ==> Distances(dist, recs1[r], recs2[r])[..steps] == Distances(dist, recs1[r], recs2[r]);
    return Some(d);
  }

  /** With a nonnegative distance and at least one step, every row matched through
      both chains gets a deviation of at least 0 that bounds every step's distance. */
  lemma ActualDeviationBounds(dist: (real, real) -> real, a: seq<StepRecord>, b: seq<StepRecord>)
    requires |a| == |b| > 0
    requires forall x, y :: dist(x, y) >= 0.0
    ensures RunningMax(-1.0, Distances(dist, a, b)) >= 0.0
    ensures forall i :: 0 <= i < |a| ==> StepDistance(dist, a[i], b[i]) <= RunningMax(-1.0, Distances(dist, a, b))
  {
    var ds := Distances(dist, a, b);
    assert ds[0] >= 0.0;
  }

  // ---------------------------------------------------------------- get-deviation-from-linear.py

  /** The birth_k and death_k columns of the linear script. */
  datatype Values = Values(birth: int, death: int)

  const MissingValues: Values := Values(-1, -1)

  /** One row followed through the tables: unlike `ActualChain`, `finalmatch`
      advances on the last step too. */
  function LinearChain(fm: int, tables: seq<seq<MatchRow>>): (c: Chain<Values>)
    ensures |c.records| == |tables|
    decreases |tables|
  {
    if tables == [] then Chain(fm, [])
    else if Names(fm, tables[0]) then
      var row := tables[0][fm];
      var rest := LinearChain(row.matchedIdx, tables[1..]);
      Chain(rest.finalMatch, [Values(row.birth, row.death)] + rest.records)
    else Chain(-1, seq(|tables|, _ => MissingValues))
  }

  /** A chain followed through every table still counts as matched only when the
      terminal row is itself matched onward: its `finalmatch` ends as that row's
      `isMatched`, where the actual-path script stops at the terminal row. */
  lemma {:induction false} LinearNeedsOnwardMatch(fm: int, tables: seq<seq<MatchRow>>)
    requires |tables| > 0 && FollowedThrough(fm, tables)
    ensures Names(ActualChain(fm, tables).finalMatch, tables[|tables| - 1])
    ensures LinearChain(fm, tables).finalMatch == tables[|tables| - 1][ActualChain(fm, tables).finalMatch].matchedIdx
    decreases |tables|
  {
    if |tables| > 1 {
      LinearNeedsOnwardMatch(tables[0][fm].matchedIdx, tables[1..]);
      assert tables[1..][|tables| - 2] == tables[|tables| - 1];
    }
  }

  /** One step of the loop of lines 42-59 keeps the row's chain on course. */
  lemma LinearChainStep(start: int, fm: int, rec: seq<Values>, tables: seq<seq<MatchRow>>, k: nat)
    requires k < |tables|
    requires var c := LinearChain(fm, tables[k..]);
      LinearChain(start, tables) == Chain(c.finalMatch, rec + c.records)
    ensures var t := tables[k];
      var fm' := if Names(fm, t) then t[fm].matchedIdx else -1;
      var rec' := rec + [if Names(fm, t) then Values(t[fm].birth, t[fm].death) else MissingValues];
      var c := LinearChain(fm', tables[k + 1..]);
      LinearChain(start, tables) == Chain(c.finalMatch, rec' + c.records)
  {
    var t := tables[k];
    assert tables[k..][0] == t && tables[k..][1..] == tables[k + 1..];
    var fm' := if Names(fm, t) then t[fm].matchedIdx else -1;
    var v := if Names(fm, t) then Values(t[fm].birth, t[fm].death) else MissingValues;
    var c := LinearChain(fm', tables[k + 1..]);
    if !Names(fm, t) {
      assert seq(|tables[k..]|, _ => MissingValues) == [MissingValues] + seq(|tables[k + 1..]|, _ => MissingValues);
      assert c == LinearChain(-1, tables[k + 1..]);
      assert c.records == seq(|tables[k + 1..]|, _ => MissingValues);
    }
    assert rec + [v] + c.records == rec + ([v] + c.records);
  }

  /** The step loop of lines 42-59. */
  method FollowLinearChains(starts: seq<int>, tables: seq<seq<MatchRow>>) returns (fms: seq<int>, recs: seq<seq<Values>>)
    ensures |fms| == |starts| && |recs| == |starts|
    ensures forall r :: 0 <= r < |starts| ==> Chain(fms[r], recs[r]) == LinearChain(starts[r], tables)
  {
    fms := starts;
    recs := seq(|starts|, _ => []);
    var k := 0;
    while k < |tables|
      invariant 0 <= k <= |tables|
      invariant |fms| == |starts| && |recs| == |starts|
      invariant forall r :: 0 <= r < |starts| ==>
        var c := LinearChain(fms[r], tables[k..]);
        LinearChain(starts[r], tables) == Chain(c.finalMatch, recs[r] + c.records)
    {
      var t := tables[k];
      var fms', recs' :=
        seq(|starts|, r requires 0 <= r < |starts| =>
          if Names(fms[r], t) then t[fms[r]].matchedIdx else -1),
        seq(|starts|, r requires 0 <= r < |starts| =>
          recs[r] + [if Names(fms[r], t) then Values(t[fms[r]].birth, t[fms[r]].death) else MissingValues]);
      forall r | 0 <= r < |starts|
        ensures var c := LinearChain(fms'[r], tables[k + 1..]);
          LinearChain(starts[r], tables) == Chain(c.finalMatch, recs'[r] + c.records)
      {
        LinearChainStep(starts[r], fms[r], recs[r], tables, k);
      }
      fms, recs := fms', recs';
      k := k + 1;
    }
  }

  /** Lines 69-74 as written: L_i moves from the start towards the step-i value
      itself, and the distance is taken from L_i back to the start. */
  function AsWrittenOffset(dist: (real, real) -> real, start: Values, recs: seq<Values>, i: nat): real
    requires 1 <= i <= |recs|
  {
    var frac := i as real / |recs| as real;
    var lb := start.birth as real + frac * (recs[i - 1].birth - start.birth) as real;
    var ld := start.death as real + frac * (recs[i - 1].death - start.death) as real;
    dist(lb - start.birth as real, ld - start.death as real)
  }

  function AsWrittenOffsets(dist: (real, real) -> real, start: Values, recs: seq<Values>): (ds: seq<real>)
    ensures |ds| == |recs| && forall i :: 0 <= i < |recs| ==> ds[i] == AsWrittenOffset(dist, start, recs, i + 1)
  {
    seq(|recs|, i requires 0 <= i < |recs| => AsWrittenOffset(dist, start, recs, i + 1))
  }

  /** The deviation the comments describe: the distance at step i between the
      actual value and the point i/steps of the way along the line from the
      start to the terminal value. */
  function LinearOffset(dist: (real, real) -> real, start: Values, recs: seq<Values>, i: nat): real
    requires 1 <= i <= |recs|
  {
    var frac := i as real / |recs| as real;
    var last := recs[|recs| - 1];
    var lb := start.birth as real + frac * (last.birth - start.birth) as real;
    var ld := start.death as real + frac * (last.death - start.death) as real;
    dist(lb - recs[i - 1].birth as real, ld - recs[i - 1].death as real)
  }

  function LinearOffsets(dist: (real, real) -> real, start: Values, recs: seq<Values>): (ds: seq<real>)
    ensures |ds| == |recs| && forall i :: 0 <= i < |recs| ==> ds[i] == LinearOffset(dist, start, recs, i + 1)
  {
    seq(|recs|, i requires 0 <= i < |recs| => LinearOffset(dist, start, recs, i + 1))
  }

  /** Row r of `dev` holds the running maximum of the first i values of `offs[r]`
      when the row is active, and -1 otherwise. */
  ghost predicate RowsRunningMax(dev: seq<real>, active: seq<bool>, offs: seq<seq<real>>, i: nat)
  {
    |dev| == |active| == |offs| &&
    forall r :: 0 <= r < |dev| ==>
      i <= |offs[r]| && dev[r] == if active[r] then RunningMax(-1.0, offs[r][..i]) else -1.0
  }

  /** Taking the maximum with each active row's next value advances every running maximum. */
  lemma RowsRunningMaxStep(dev: seq<real>, next: seq<real>, active: seq<bool>, offs: seq<seq<real>>, i: nat)
    requires RowsRunningMax(dev, active, offs, i) && |next| == |dev|
    requires forall r :: 0 <= r < |dev| ==>
      i < |offs[r]| && next[r] == if active[r] then Max(dev[r], offs[r][i]) else dev[r]
    ensures RowsRunningMax(next, active, offs, i + 1)
  {
    forall r | 0 <= r < |dev| && active[r]
      ensures next[r] == RunningMax(-1.0, offs[r][..i + 1])
    {
      RunningMaxExtend(-1.0, offs[r], i);
    }
  }

  /** Once every value has been taken, each row holds its whole running maximum. */
  lemma RowsRunningMaxWhole(dev: seq<real>, active: seq<bool>, offs: seq<seq<real>>, steps: nat)
    requires RowsRunningMax(dev, active, offs, steps)
    requires forall r :: 0 <= r < |offs| ==> |offs[r]| == steps
    ensures |dev| == |active| == |offs|
    ensures forall r :: 0 <= r < |dev| ==> dev[r] == if active[r] then RunningMax(-1.0, offs[r]) else -1.0
  {
    forall r | 0 <= r < |dev|
      ensures offs[r][..steps] == offs[r]
    {
    }
  }

  /** Lines 61-78 with the offsets of `LinearOffset`: the running maximum
      over the steps, for rows whose `finalmatch` is not −1; the other rows
      keep −1. */
  method LinearDeviation(dist: (real, real) -> real, starts: seq<Values>, fms: seq<int>, recs: seq<seq<Values>>, steps: nat)
    returns (dev: seq<real>)
    requires |fms| == |starts| && |recs| == |starts|
    requires forall r :: 0 <= r < |recs| ==> |recs[r]| == steps
    ensures |dev| == |starts|
    ensures forall r :: 0 <= r < |starts| ==>
      dev[r] == if fms[r] != -1 then RunningMax(-1.0, LinearOffsets(dist, starts[r], recs[r])) else -1.0
  {
    var n := |starts|;
    ghost var active := seq(n, r requires 0 <= r < n => fms[r] != -1);
    ghost var offs := seq(n, r requires 0 <= r < n => LinearOffsets(dist, starts[r], recs[r]));
    dev := seq(n, _ => -1.0);
    var i := 0;
    while i < steps
      invariant 0 <= i <= steps && |dev| == n
      invariant RowsRunningMax(dev, active, offs, i)
    {
      var next := seq(n, r requires 0 <= r < n && |dev| == n =>
        if fms[r] != -1 then Max(dev[r], LinearOffset(dist, starts[r], recs[r], i + 1)) else dev[r]);
      RowsRunningMaxStep(dev, next, active, offs, i);
      dev := next;
      i := i + 1;
    }
    RowsRunningMaxWhole(dev, active, offs, steps);
  }

  /** The path moves along the straight line from start to its terminal value at constant speed. */
  predicate OnStraightPath(start: Values, recs: seq<Values>)
  {
    |recs| > 0 &&
    forall i :: 0 <= i < |recs| ==>
      var frac := (i + 1) as real / |recs| as real;
      recs[i].birth as real == start.birth as real + frac * (recs[|recs| - 1].birth - start.birth) as real
      && recs[i].death as real == start.death as real + frac * (recs[|recs| - 1].death - start.death) as real
  }

  /** A path lying on its interpolation line deviates by 0 from it. */
  lemma StraightPathHasNoLinearDeviation(dist: (real, real) -> real, start: Values, recs: seq<Values>)
    requires dist(0.0, 0.0) == 0.0
    requires OnStraightPath(start, recs)
    ensures RunningMax(-1.0, LinearOffsets(dist, start, recs)) == 0.0
  {
    var ds := LinearOffsets(dist, start, recs);
    forall i | 0 <= i < |ds| ensures ds[i] == 0.0 {
      var frac := (i + 1) as real / |recs| as real;
      var last := recs[|recs| - 1];
      var lb := start.birth as real + frac * (last.birth - start.birth) as real;
      var ld := start.death as real + frac * (last.death - start.death) as real;
      assert lb - recs[i].birth as real == 0.0 && ld - recs[i].death as real == 0.0;
      assert ds[i] == dist(lb - recs[i].birth as real, ld - recs[i].death as real);
    }
    assert ds[0] == 0.0;
  }

  /** A one-step path is trivially straight, yet lines 69-74 report the whole
      displacement as its deviation. */
  lemma AsWrittenFlagsStraightPath()
    ensures var dist := (x: real, y: real) => x * x + y * y;
      var start, recs := Values(10, 20), [Values(13, 24)];
      OnStraightPath(start, recs)
      && RunningMax(-1.0, AsWrittenOffsets(dist, start, recs)) == 25.0
      && RunningMax(-1.0, LinearOffsets(dist, start, recs)) == 0.0
  {
    var dist := (x: real, y: real) => x * x + y * y;
    var start, recs := Values(10, 20), [Values(13, 24)];
    assert dist(3.0, 4.0) == 25.0;
    assert AsWrittenOffset(dist, start, recs, 1) == 25.0;
    assert AsWrittenOffsets(dist, start, recs) == [25.0];
    assert RunningMax(-1.0, [25.0]) == RunningMax(25.0, []);
    SingleStepIsStraight(start, recs[0]);
    StraightPathHasNoLinearDeviation(dist, start, recs);
  }

  /** A path of one step lies on the line from its start to its terminal value. */
  lemma SingleStepIsStraight(start: Values, v: Values)
    ensures OnStraightPath(start, [v])
  {
    assert (0 + 1) as real / 1 as real == 1.0;
  }
}
