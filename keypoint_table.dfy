/** Keypoint table assembly: `loadKeypoints` in data_access.py and its copy at
    the top level of get-keypoint-descriptors.py. Critical cells of the two
    persistence diagrams and the topological defects become rows
    (x, y, eight type flags). */
module KeypointTable {
  import opened Persistence

  /** Lifespan threshold and intensity cut-offs shared by both copies. */
  const Delta := 10
  const LowerCutoff := 45
  const UpperCutoff := 200
  const MidLevel := 127

  /** The eight type flags in column order:
      ph_sub_0, ph_sub_1, ph_sup_0, ph_sup_1, td_p1, td_m1, td_p2, td_m2. */
  datatype KeypointType = PhSub0 | PhSub1 | PhSup0 | PhSup1 | TdP1 | TdM1 | TdP2 | TdM2

  function FlagIndex(t: KeypointType): (k: nat)
    ensures k < 8
  {
    match t
    case PhSub0 => 0 case PhSub1 => 1 case PhSup0 => 2 case PhSup1 => 3
    case TdP1 => 4 case TdM1 => 5 case TdP2 => 6 case TdM2 => 7
  }

  /** A row of the keypoint table: location then the eight 0/1 flags. */
  datatype Keypoint = Keypoint(x: int, y: int, flags: seq<int>)

  /** The row as the ten numeric columns the table stores. */
  function Columns(k: Keypoint): seq<int>
  {
    [k.x, k.y] + k.flags
  }

  function OneHot(t: KeypointType): (f: seq<int>)
    ensures |f| == 8
  {
    seq(8, j => if j == FlagIndex(t) then 1 else 0)
  }

  /** Exactly one of the eight flags is 1, the others are 0. */
  predicate IsOneHot(f: seq<int>)
  {
    |f| == 8 && exists k :: 0 <= k < 8 && f[k] == 1 && forall j :: 0 <= j < 8 && j != k ==> f[j] == 0
  }

  lemma OneHotIsOneHot(t: KeypointType)
    ensures IsOneHot(OneHot(t))
    ensures OneHot(t)[FlagIndex(t)] == 1
  {
    var f := OneHot(t);
    assert f[FlagIndex(t)] == 1;
  }

  /** A defect triple as read from the singular-point file: (y, x, charge). */
  datatype Defect = Defect(y: int, x: int, charge: int)

  /** td_p1, td_m1, td_p2, td_m2 from the charge; any other charge sets no flag. */
  function DefectFlags(charge: int): (f: seq<int>)
    ensures |f| == 8
  {
    [0, 0, 0, 0,
     if charge == 1 then 1 else 0, if charge == -1 then 1 else 0,
     if charge == 2 then 1 else 0, if charge == -2 then 1 else 0]
  }

  function DefectType(charge: int): KeypointType
    requires charge in {1, -1, 2, -2}
  {
    if charge == 1 then TdP1 else if charge == -1 then TdM1 else if charge == 2 then TdP2 else TdM2
  }

  lemma DefectFlagsMeaning(charge: int)
    ensures charge in {1, -1, 2, -2} ==> DefectFlags(charge) == OneHot(DefectType(charge))
    ensures charge !in {1, -1, 2, -2} ==> DefectFlags(charge) == [0, 0, 0, 0, 0, 0, 0, 0]
  {
    if charge in {1, -1, 2, -2} {
      var f, g := DefectFlags(charge), OneHot(DefectType(charge));
      assert forall j :: 0 <= j < 8 ==> f[j] == g[j];
    }
  }

  // ---------------------------------------------------------------- group predicates

  predicate LowerSaddleDeath(r: Pair)
  {
    r.dim == 0 && r.death - r.birth >= Delta && LowerCutoff <= r.death <= MidLevel
  }

  predicate LowerSaddleBirth(r: Pair)
  {
    r.dim == 1 && r.death - r.birth >= Delta && LowerCutoff <= r.birth <= MidLevel
  }

  predicate UpperSaddleDeath(r: Pair)
  {
    r.dim == 0 && r.birth - r.death >= Delta && MidLevel <= r.death <= UpperCutoff
  }

  predicate UpperSaddleBirth(r: Pair)
  {
    r.dim == 1 && r.birth - r.death >= Delta && MidLevel <= r.birth <= UpperCutoff
  }

  predicate LowerPlume(r: Pair)
  {
    r.dim == 1 && r.death - r.birth >= Delta && r.birth <= MidLevel && r.death <= UpperCutoff
  }

  predicate UpperPlume(r: Pair)
  {
    r.dim == 1 && r.birth - r.death >= Delta && r.birth >= MidLevel && r.death >= LowerCutoff
  }

  /** The death cells (`[['d_x','d_y']]`) of the given rows, typed t. */
  function DeathCells(rows: seq<Pair>, t: KeypointType): (ks: seq<Keypoint>)
    ensures |ks| == |rows|
    ensures TenColumns(ks)
  {
    seq(|rows|, i requires 0 <= i < |rows| => Keypoint(rows[i].deathX, rows[i].deathY, OneHot(t)))
  }

  /** The birth cells (`[['b_x','b_y']]`) of the given rows, typed t. */
  function BirthCells(rows: seq<Pair>, t: KeypointType): (ks: seq<Keypoint>)
    ensures |ks| == |rows|
    ensures TenColumns(ks)
  {
    seq(|rows|, i requires 0 <= i < |rows| => Keypoint(rows[i].birthX, rows[i].birthY, OneHot(t)))
  }

  function LowerSaddles(sub: seq<Pair>): (ks: seq<Keypoint>)
    ensures TenColumns(ks)
  {
    var deaths, births := DeathCells(Select(sub, LowerSaddleDeath), PhSub0), BirthCells(Select(sub, LowerSaddleBirth), PhSub0);
    TenColumnsAppend(deaths, births);
    deaths + births
  }

  function UpperSaddles(sup: seq<Pair>): (ks: seq<Keypoint>)
    ensures TenColumns(ks)
  {
    var deaths, births := DeathCells(Select(sup, UpperSaddleDeath), PhSup0), BirthCells(Select(sup, UpperSaddleBirth), PhSup0);
    TenColumnsAppend(deaths, births);
    deaths + births
  }

  function LowerPlumes(sub: seq<Pair>): (ks: seq<Keypoint>)
    ensures TenColumns(ks)
  {
    DeathCells(Select(sub, LowerPlume), PhSub1)
  }

  function UpperPlumes(sup: seq<Pair>): (ks: seq<Keypoint>)
    ensures TenColumns(ks)
  {
    DeathCells(Select(sup, UpperPlume), PhSup1)
  }

  /** The defect rows: columns swapped from (y, x) to (x, y), charge turned into flags. */
  function Defects(td: seq<Defect>): (ks: seq<Keypoint>)
    ensures |ks| == |td|
    ensures TenColumns(ks)
  {
    seq(|td|, i requires 0 <= i < |td| => Keypoint(td[i].x, td[i].y, DefectFlags(td[i].charge)))
  }

  /** The persistence part of the table, in group order. */
  function PersistenceKeypoints(sub: seq<Pair>, sup: seq<Pair>): seq<Keypoint>
  {
    LowerSaddles(sub) + UpperSaddles(sup) + LowerPlumes(sub) + UpperPlumes(sup)
  }

  /** `loadKeypoints` without the CSV read: lower saddles, upper saddles, lower
      plumes, upper plumes, then the defects, each group in input order. */
  function LoadKeypoints(sub: seq<Pair>, sup: seq<Pair>, td: seq<Defect>): (ks: seq<Keypoint>)
    ensures |ks| == |PersistenceKeypoints(sub, sup)| + |td|
    ensures forall i :: 0 <= i < |ks| ==> |Columns(ks[i])| == 10
  {
    var lower, upper := LowerSaddles(sub), UpperSaddles(sup);
    var plumes := LowerPlumes(sub) + UpperPlumes(sup);
    var defects := Defects(td);
    TenColumnsAppend(LowerPlumes(sub), UpperPlumes(sup));
    TenColumnsAppend(lower, upper);
    TenColumnsAppend(lower + upper, plumes);
    TenColumnsAppend(lower + upper + plumes, defects);
    assert PersistenceKeypoints(sub, sup) == lower + upper + plumes;
    lower + upper + plumes + defects
  }

  /** The table is laid out group by group: lower saddles, upper saddles, lower
      plumes, upper plumes, then the defects, each group a contiguous block. */
  lemma LoadKeypointsLayout(sub: seq<Pair>, sup: seq<Pair>, td: seq<Defect>)
    ensures var ks := LoadKeypoints(sub, sup, td);
      var a := |LowerSaddles(sub)|;
      var b := a + |UpperSaddles(sup)|;
      var c := b + |LowerPlumes(sub)|;
      var d := c + |UpperPlumes(sup)|;
      && |ks| == d + |td|
      && ks[..a] == LowerSaddles(sub) && ks[a..b] == UpperSaddles(sup)
      && ks[b..c] == LowerPlumes(sub) && ks[c..d] == UpperPlumes(sup) && ks[d..] == Defects(td)
  {
    var ls, us, lp, up, ds := LowerSaddles(sub), UpperSaddles(sup), LowerPlumes(sub), UpperPlumes(sup), Defects(td);
    AppendAssociative(ls + us, lp, up);
    assert LoadKeypoints(sub, sup, td) == ls + us + lp + up + ds;
    Blocks(ls, us, lp, up, ds);
  }

  /** The blocks of a five-way concatenation are its parts. */
  lemma Blocks<T>(x1: seq<T>, x2: seq<T>, x3: seq<T>, x4: seq<T>, x5: seq<T>)
    ensures var s := x1 + x2 + x3 + x4 + x5;
      var a := |x1|;
      var b := a + |x2|;
      var c := b + |x3|;
      var d := c + |x4|;
      && |s| == d + |x5|
      && s[..a] == x1 && s[a..b] == x2 && s[b..c] == x3 && s[c..d] == x4 && s[d..] == x5
  {
  }

  /** Every row has the ten columns x, y and the eight flags. */
  predicate TenColumns(ks: seq<Keypoint>)
  {
    forall i :: 0 <= i < |ks| ==> |Columns(ks[i])| == 10
  }

  lemma TenColumnsAppend(a: seq<Keypoint>, b: seq<Keypoint>)
    requires TenColumns(a) && TenColumns(b)
    ensures TenColumns(a + b)
  {
    forall i | 0 <= i < |a + b|
      ensures |Columns((a + b)[i])| == 10
    {
      if i < |a| { assert (a + b)[i] == a[i]; } else { assert (a + b)[i] == b[i - |a|]; }
    }
  }

  // ---------------------------------------------------------------- properties

  function NoPairs(): seq<Pair> { [] }

  /** Every persistence keypoint carries exactly one flag, the one of its group. */
  lemma PersistenceKeypointsOneHot(sub: seq<Pair>, sup: seq<Pair>, td: seq<Defect>, i: int)
    requires 0 <= i < |PersistenceKeypoints(sub, sup)|
    ensures IsOneHot(LoadKeypoints(sub, sup, td)[i].flags)
  {
    var ks := LoadKeypoints(sub, sup, td);
    assert ks[i] in PersistenceKeypoints(sub, sup);
    var t :| ks[i].flags == OneHot(t);
    OneHotIsOneHot(t);
  }

  /** The defect rows follow the persistence rows, one per triple, with x and y swapped. */
  lemma DefectRowsAtEnd(sub: seq<Pair>, sup: seq<Pair>, td: seq<Defect>, j: int)
    requires 0 <= j < |td|
    ensures var ks := LoadKeypoints(sub, sup, td);
      var k := ks[|PersistenceKeypoints(sub, sup)| + j];
      k.x == td[j].x && k.y == td[j].y
      && (td[j].charge in {1, -1, 2, -2} ==> IsOneHot(k.flags) && k.flags == OneHot(DefectType(td[j].charge)))
      && (td[j].charge !in {1, -1, 2, -2} ==> forall f :: f in k.flags ==> f == 0)
  {
    DefectFlagsMeaning(td[j].charge);
    if td[j].charge in {1, -1, 2, -2} {
      OneHotIsOneHot(DefectType(td[j].charge));
    }
  }

  /** Each qualifying diagram row contributes its critical cell, typed by its group. */
  lemma LoadKeypointsComplete(sub: seq<Pair>, sup: seq<Pair>, td: seq<Defect>, r: Pair)
    ensures var ks := LoadKeypoints(sub, sup, td);
      && (r in sub && LowerSaddleDeath(r) ==> Keypoint(r.deathX, r.deathY, OneHot(PhSub0)) in ks)
      && (r in sub && LowerSaddleBirth(r) ==> Keypoint(r.birthX, r.birthY, OneHot(PhSub0)) in ks)
      && (r in sup && UpperSaddleDeath(r) ==> Keypoint(r.deathX, r.deathY, OneHot(PhSup0)) in ks)
      && (r in sup && UpperSaddleBirth(r) ==> Keypoint(r.birthX, r.birthY, OneHot(PhSup0)) in ks)
      && (r in sub && LowerPlume(r) ==> Keypoint(r.deathX, r.deathY, OneHot(PhSub1)) in ks)
      && (r in sup && UpperPlume(r) ==> Keypoint(r.deathX, r.deathY, OneHot(PhSup1)) in ks)
  {
    var ks := LoadKeypoints(sub, sup, td);
    if r in sub && LowerSaddleDeath(r) {
      var s := Select(sub, LowerSaddleDeath);
      var i :| 0 <= i < |s| && s[i] == r;
      assert DeathCells(s, PhSub0)[i] in ks;
    }
    if r in sub && LowerSaddleBirth(r) {
      var s := Select(sub, LowerSaddleBirth);
      var i :| 0 <= i < |s| && s[i] == r;
      assert BirthCells(s, PhSub0)[i] in LowerSaddles(sub);
    }
    if r in sup && UpperSaddleDeath(r) {
      var s := Select(sup, UpperSaddleDeath);
      var i :| 0 <= i < |s| && s[i] == r;
      assert DeathCells(s, PhSup0)[i] in UpperSaddles(sup);
    }
    if r in sup && UpperSaddleBirth(r) {
      var s := Select(sup, UpperSaddleBirth);
      var i :| 0 <= i < |s| && s[i] == r;
      assert BirthCells(s, PhSup0)[i] in UpperSaddles(sup);
    }
    if r in sub && LowerPlume(r) {
      var s := Select(sub, LowerPlume);
      var i :| 0 <= i < |s| && s[i] == r;
      assert DeathCells(s, PhSub1)[i] in LowerPlumes(sub);
    }
    if r in sup && UpperPlume(r) {
      var s := Select(sup, UpperPlume);
      var i :| 0 <= i < |s| && s[i] == r;
      assert DeathCells(s, PhSup1)[i] in UpperPlumes(sup);
    }
  }

  /** Conversely, a row flagged ph_sup_0 comes from a qualifying superlevel pair. */
  lemma UpperSaddleRowsSound(sub: seq<Pair>, sup: seq<Pair>, td: seq<Defect>, k: Keypoint)
    requires k in LoadKeypoints(sub, sup, td) && k.flags == OneHot(PhSup0)
    ensures exists r :: r in sup && ((UpperSaddleDeath(r) && k.x == r.deathX && k.y == r.deathY)
                                  || (UpperSaddleBirth(r) && k.x == r.birthX && k.y == r.birthY))
  {
    assert k.flags[2] == 1;
    assert OneHot(PhSub0)[2] == 0 && OneHot(PhSub1)[2] == 0 && OneHot(PhSup1)[2] == 0;
    CellFlags(Select(sub, LowerSaddleDeath), PhSub0, k);
    CellFlags(Select(sub, LowerSaddleBirth), PhSub0, k);
    CellFlags(Select(sub, LowerPlume), PhSub1, k);
    CellFlags(Select(sup, UpperPlume), PhSup1, k);
    DefectFlagsNoDiagramFlag(td, k);
    UpperSaddleSource(sup, k);
  }

  /** A row flagged ph_sub_0 comes from a qualifying sublevel pair: the death cell
      of a dimension-0 saddle or the birth cell of a dimension-1 saddle. */
  lemma LowerSaddleRowsSound(sub: seq<Pair>, sup: seq<Pair>, td: seq<Defect>, k: Keypoint)
    requires k in LoadKeypoints(sub, sup, td) && k.flags == OneHot(PhSub0)
    ensures exists r :: r in sub && ((LowerSaddleDeath(r) && k.x == r.deathX && k.y == r.deathY)
                                  || (LowerSaddleBirth(r) && k.x == r.birthX && k.y == r.birthY))
  {
    assert k.flags[0] == 1;
    assert OneHot(PhSup0)[0] == 0 && OneHot(PhSub1)[0] == 0 && OneHot(PhSup1)[0] == 0;
    CellFlags(Select(sup, UpperSaddleDeath), PhSup0, k);
    CellFlags(Select(sup, UpperSaddleBirth), PhSup0, k);
    CellFlags(Select(sub, LowerPlume), PhSub1, k);
    CellFlags(Select(sup, UpperPlume), PhSup1, k);
    DefectFlagsNoDiagramFlag(td, k);
    var a, b := Select(sub, LowerSaddleDeath), Select(sub, LowerSaddleBirth);
    if k in DeathCells(a, PhSub0) {
      DeathCellSource(sub, LowerSaddleDeath, PhSub0, k);
    } else {
      BirthCellSource(sub, LowerSaddleBirth, PhSub0, k);
    }
  }

  /** A row flagged ph_sub_1 is the death cell of a qualifying sublevel plume. */
  lemma LowerPlumeRowsSound(sub: seq<Pair>, sup: seq<Pair>, td: seq<Defect>, k: Keypoint)
    requires k in LoadKeypoints(sub, sup, td) && k.flags == OneHot(PhSub1)
    ensures exists r :: r in sub && LowerPlume(r) && k.x == r.deathX && k.y == r.deathY
  {
    assert k.flags[1] == 1;
    assert OneHot(PhSub0)[1] == 0 && OneHot(PhSup0)[1] == 0 && OneHot(PhSup1)[1] == 0;
    CellFlags(Select(sub, LowerSaddleDeath), PhSub0, k);
    CellFlags(Select(sub, LowerSaddleBirth), PhSub0, k);
    CellFlags(Select(sup, UpperSaddleDeath), PhSup0, k);
    CellFlags(Select(sup, UpperSaddleBirth), PhSup0, k);
    CellFlags(Select(sup, UpperPlume), PhSup1, k);
    DefectFlagsNoDiagramFlag(td, k);
    DeathCellSource(sub, LowerPlume, PhSub1, k);
  }

  /** A row flagged ph_sup_1 is the death cell of a qualifying superlevel plume. */
  lemma UpperPlumeRowsSound(sub: seq<Pair>, sup: seq<Pair>, td: seq<Defect>, k: Keypoint)
    requires k in LoadKeypoints(sub, sup, td) && k.flags == OneHot(PhSup1)
    ensures exists r :: r in sup && UpperPlume(r) && k.x == r.deathX && k.y == r.deathY
  {
    assert k.flags[3] == 1;
    assert OneHot(PhSub0)[3] == 0 && OneHot(PhSub1)[3] == 0 && OneHot(PhSup0)[3] == 0;
    CellFlags(Select(sub, LowerSaddleDeath), PhSub0, k);
    CellFlags(Select(sub, LowerSaddleBirth), PhSub0, k);
    CellFlags(Select(sup, UpperSaddleDeath), PhSup0, k);
    CellFlags(Select(sup, UpperSaddleBirth), PhSup0, k);
    CellFlags(Select(sub, LowerPlume), PhSub1, k);
    DefectFlagsNoDiagramFlag(td, k);
    DeathCellSource(sup, UpperPlume, PhSup1, k);
  }

  /** A death-cell row of a selection is the death cell of a selected input row. */
  lemma DeathCellSource(rows: seq<Pair>, p: Pair -> bool, t: KeypointType, k: Keypoint)
    requires k in DeathCells(Select(rows, p), t)
    ensures exists r :: r in rows && p(r) && k.x == r.deathX && k.y == r.deathY
  {
    var s := Select(rows, p);
    var i :| 0 <= i < |s| && DeathCells(s, t)[i] == k;
    assert s[i] in s;
  }

  /** A birth-cell row of a selection is the birth cell of a selected input row. */
  lemma BirthCellSource(rows: seq<Pair>, p: Pair -> bool, t: KeypointType, k: Keypoint)
    requires k in BirthCells(Select(rows, p), t)
    ensures exists r :: r in rows && p(r) && k.x == r.birthX && k.y == r.birthY
  {
    var s := Select(rows, p);
    var i :| 0 <= i < |s| && BirthCells(s, t)[i] == k;
    assert s[i] in s;
  }

  /** An upper-saddle row is the death or birth cell of a qualifying superlevel pair. */
  lemma UpperSaddleSource(sup: seq<Pair>, k: Keypoint)
    requires k in UpperSaddles(sup)
    ensures exists r :: r in sup && ((UpperSaddleDeath(r) && k.x == r.deathX && k.y == r.deathY)
                                  || (UpperSaddleBirth(r) && k.x == r.birthX && k.y == r.birthY))
  {
    var a, b := Select(sup, UpperSaddleDeath), Select(sup, UpperSaddleBirth);
    if k in DeathCells(a, PhSup0) {
      var i :| 0 <= i < |a| && DeathCells(a, PhSup0)[i] == k;
      assert a[i] in sup;
    } else {
      var i :| 0 <= i < |b| && BirthCells(b, PhSup0)[i] == k;
      assert b[i] in sup;
    }
  }

  /** No defect row carries any of the four persistence flags. */
  lemma DefectFlagsNoDiagramFlag(td: seq<Defect>, k: Keypoint)
    ensures k in Defects(td) ==> k.flags[0] == 0 && k.flags[1] == 0 && k.flags[2] == 0 && k.flags[3] == 0
  {
    if k in Defects(td) {
      var j :| 0 <= j < |td| && Defects(td)[j] == k;
    }
  }

  /** Death and birth cells carry the flags of their group. */
  lemma CellFlags(rows: seq<Pair>, t: KeypointType, k: Keypoint)
    ensures k in DeathCells(rows, t) ==> k.flags == OneHot(t)
    ensures k in BirthCells(rows, t) ==> k.flags == OneHot(t)
  {
    if k in DeathCells(rows, t) {
      var i :| 0 <= i < |rows| && DeathCells(rows, t)[i] == k;
    }
    if k in BirthCells(rows, t) {
      var i :| 0 <= i < |rows| && BirthCells(rows, t)[i] == k;
    }
  }


  /** A sublevel dimension-1 pair can yield two keypoints: its birth cell as a
      lower saddle and its death cell as a lower plume. */
  lemma GroupsOverlap()
    ensures var r := Pair(1, 50, 100, 1, 2, 3, 4);
      LoadKeypoints([r], [], []) == [Keypoint(1, 2, OneHot(PhSub0)), Keypoint(3, 4, OneHot(PhSub1))]
  {
    var r := Pair(1, 50, 100, 1, 2, 3, 4);
    assert Select([r], LowerSaddleDeath) == [];
    assert Select([r], LowerSaddleBirth) == [r];
    assert Select([r], LowerPlume) == [r];
    assert Select(NoPairs(), UpperSaddleDeath) == [];
    assert Select(NoPairs(), UpperSaddleBirth) == [];
    assert Select(NoPairs(), UpperPlume) == [];
  }

  // ---------------------------------------------------------------- the script's copy

  /** The ten columns of a row in the order pandas before 1.0 gives a `concat`
      of frames whose columns differ: the union of the columns sorted by name,
      ph_sub_0, ph_sub_1, ph_sup_0, ph_sup_1, td_m1, td_m2, td_p1, td_p2, x, y. */
  function SortedColumns(k: Keypoint): (cs: seq<int>)
    requires |k.flags| == 8
    ensures |cs| == 10
  {
    var f := k.flags;
    [f[0], f[1], f[2], f[3], f[5], f[7], f[4], f[6], k.x, k.y]
  }

  /** A row of ten numbers read by position as (x, y, eight flags), as the
      `np.concatenate` of the groups reads it. */
  function FromColumns(cs: seq<int>): Keypoint
    requires |cs| == 10
  {
    Keypoint(cs[0], cs[1], cs[2..])
  }

  /** The script's upper-saddle group: the cells are joined with the ten-column
      lower-saddle frame, so the columns come out sorted; the flags are then set
      by name (ph_sup_0) and the row is read by position. */
  function ScriptUpperSaddles(cells: seq<Keypoint>): (ks: seq<Keypoint>)
    ensures |ks| == |cells|
  {
    seq(|cells|, i requires 0 <= i < |cells| =>
      FromColumns(SortedColumns(Keypoint(cells[i].x, cells[i].y, OneHot(PhSup0)))))
  }

  /** Read by position, a ph_sup_0 row in sorted column order lands at (0, 0)
      with the ph_sub_0 flag set and its coordinates in the td_p2 and td_m2
      flags. */
  lemma ScriptUpperSaddleRow(cells: seq<Keypoint>, i: int)
    requires 0 <= i < |cells|
    ensures ScriptUpperSaddles(cells)[i] == Keypoint(0, 0, [1, 0, 0, 0, 0, 0, cells[i].x, cells[i].y])
  {
    var f := OneHot(PhSup0);
    assert f == [0, 0, 1, 0, 0, 0, 0, 0];
  }

  /** The copy in get-keypoint-descriptors.py as written and as run under the
      pandas it targets: its upper-saddle group takes the lower-saddle group
      followed by the superlevel dimension-1 birth cells, and every row of it
      reads as (0, 0) flagged ph_sub_0 with the cell in td_p2 and td_m2; the
      superlevel dimension-0 death cells it selects are discarded. */
  function ScriptKeypoints(sub: seq<Pair>, sup: seq<Pair>, td: seq<Defect>): (ks: seq<Keypoint>)
    ensures |ks| == 2 * |LowerSaddles(sub)| + |Select(sup, UpperSaddleBirth)|
                    + |LowerPlumes(sub)| + |UpperPlumes(sup)| + |td|
  {
    var upper := ScriptUpperSaddles(LowerSaddles(sub) + BirthCells(Select(sup, UpperSaddleBirth), PhSup0));
    LowerSaddles(sub) + upper + LowerPlumes(sub) + UpperPlumes(sup) + Defects(td)
  }

  /** Every row of the script's upper-saddle block is (0, 0) with ph_sub_0 set
      and the coordinates of a lower saddle or of a superlevel dimension-1
      birth cell in td_p2 and td_m2. */
  lemma ScriptUpperSaddleBlock(sub: seq<Pair>, sup: seq<Pair>, td: seq<Defect>, j: int)
    requires 0 <= j < |LowerSaddles(sub)| + |Select(sup, UpperSaddleBirth)|
    ensures var ks := ScriptKeypoints(sub, sup, td);
      var c := (LowerSaddles(sub) + BirthCells(Select(sup, UpperSaddleBirth), PhSup0))[j];
      ks[|LowerSaddles(sub)| + j] == Keypoint(0, 0, [1, 0, 0, 0, 0, 0, c.x, c.y])
  {
    var ls := LowerSaddles(sub);
    var cells := ls + BirthCells(Select(sup, UpperSaddleBirth), PhSup0);
    var up := ScriptUpperSaddles(cells);
    var ks := ScriptKeypoints(sub, sup, td);
    assert ks[|ls| + j] == (ls + up)[|ls| + j] == up[j];
    ScriptUpperSaddleRow(cells, j);
  }

  /** In the script's table every lower saddle reappears in the next group,
      at (0, 0) with ph_sub_0 set and its own (x, y) in td_p2 and td_m2. */
  lemma ScriptDuplicatesLowerSaddles(sub: seq<Pair>, sup: seq<Pair>, td: seq<Defect>, i: int)
    requires 0 <= i < |LowerSaddles(sub)|
    ensures var ks := ScriptKeypoints(sub, sup, td);
      var n := |LowerSaddles(sub)|;
      ks[i] == LowerSaddles(sub)[i] && ks[i].flags == OneHot(PhSub0)
      && ks[n + i] == Keypoint(0, 0, [1, 0, 0, 0, 0, 0, ks[i].x, ks[i].y])
  {
    var ls := LowerSaddles(sub);
    var n := |ls|;
    var cells := ls + BirthCells(Select(sup, UpperSaddleBirth), PhSup0);
    var up := ScriptUpperSaddles(cells);
    var ks := ScriptKeypoints(sub, sup, td);
    assert ks[i] == (ls + up)[i] == ls[i];
    assert cells[i] == ls[i];
    ScriptUpperSaddleBlock(sub, sup, td, i);
    var a, b := Select(sub, LowerSaddleDeath), Select(sub, LowerSaddleBirth);
    if i < |a| {
      assert ls[i] == DeathCells(a, PhSub0)[i];
    } else {
      assert ls[i] == BirthCells(b, PhSub0)[i - |a|];
    }
  }

  /** The discrepancy: one qualifying superlevel saddle, no other input. The
      library keeps its death cell as an upper saddle, the script drops it. */
  lemma ScriptDropsUpperSaddleDeathCells()
    ensures var r := Pair(0, 150, 130, 0, 0, 7, 8);
      && LoadKeypoints([], [r], []) == [Keypoint(7, 8, OneHot(PhSup0))]
      && ScriptKeypoints([], [r], []) == []
  {
    var r := Pair(0, 150, 130, 0, 0, 7, 8);
    assert UpperSaddleDeath(r) && !UpperSaddleBirth(r) && !UpperPlume(r);
    assert Select([r], UpperSaddleDeath) == [r];
    assert Select([r], UpperSaddleBirth) == [];
    assert Select([r], UpperPlume) == [];
    assert Select(NoPairs(), LowerSaddleDeath) == [];
    assert Select(NoPairs(), LowerSaddleBirth) == [];
    assert Select(NoPairs(), LowerPlume) == [];
  }
}
