/** Forward matching of singular points (match-singular-points-forward.py):
    every point of frame 1 is paired with its nearest frame-2 point of the
    same type, and the result is ordered by type and distance. Distances are
    kept squared; the script's Euclidean distance is its square root, which
    orders points the same way. */
module SingularPointMatching {
  import opened Common

  datatype SingularPoint = SingularPoint(x: int, y: int, kind: int)

  /** A row of the per-type table: the frame-2 row number and the point's coordinates. */
  datatype Candidate = Candidate(index: int, x: int, y: int)

  /** A frame-1 point with its match columns. */
  datatype Matched = Matched(x: int, y: int, kind: int, matchedIdx: int, matchedDist2: int,
                             matchedX: int, matchedY: int)

  function SqDist(x1: int, y1: int, x2: int, y2: int): (d: nat)
    ensures d == 0 <==> x1 == x2 && y1 == y2
  {
    (x1 - x2) * (x1 - x2) + (y1 - y2) * (y1 - y2)
  }

  /** `sp1['type'].unique()`: each type once, in order of first appearance. */
  function Types(pts: seq<SingularPoint>): (ts: seq<int>)
    ensures forall t :: t in ts <==> exists i :: 0 <= i < |pts| && pts[i].kind == t
    ensures forall a, b :: 0 <= a < b < |ts| ==> ts[a] != ts[b]
    decreases |pts|
  {
    if pts == [] then []
    else
      var rest := Types(pts[..|pts| - 1]);
      var t := pts[|pts| - 1].kind;
      assert forall i :: 0 <= i < |pts| - 1 ==> pts[..|pts| - 1][i] == pts[i];
      if t in rest then rest else rest + [t]
  }

  /** The frame-2 rows of type t with their original row numbers, in order. */
  function TypeRows(sp2: seq<SingularPoint>, t: int, lo: nat): (r: seq<Candidate>)
    requires lo <= |sp2|
    ensures forall c :: c in r ==> lo <= c.index < |sp2| && sp2[c.index] == SingularPoint(c.x, c.y, t)
    ensures forall j :: lo <= j < |sp2| && sp2[j].kind == t ==> Candidate(j, sp2[j].x, sp2[j].y) in r
    decreases |sp2| - lo
  {
    if lo == |sp2| then []
    else (if sp2[lo].kind == t then [Candidate(lo, sp2[lo].x, sp2[lo].y)] else []) + TypeRows(sp2, t, lo + 1)
  }

  /** `buildKDTrees`: one table per frame-1 type. */
  method BuildPartition(sp2: seq<SingularPoint>, types: seq<int>) returns (data: map<int, seq<Candidate>>)
    ensures forall t :: t in data <==> t in types
    ensures forall t :: t in data ==> data[t] == TypeRows(sp2, t, 0)
  {
    data := map[];
    var k := 0;
    while k < |types|
      invariant 0 <= k <= |types|
      invariant forall t :: t in data <==> t in types[..k]
      invariant forall t :: t in data ==> data[t] == TypeRows(sp2, t, 0)
    {
      data := data[types[k] := TypeRows(sp2, types[k], 0)];
      assert types[..k + 1] == types[..k] + [types[k]];
      k := k + 1;
    }
    assert types[..|types|] == types;
  }

  /** The KD-tree query: an index of a candidate nearest to (x, y) (the first one among ties). */
  function Nearest(cands: seq<Candidate>, x: int, y: int): (k: nat)
    requires |cands| > 0
    ensures k < |cands|
    ensures forall j :: 0 <= j < |cands| ==>
      SqDist(cands[k].x, cands[k].y, x, y) <= SqDist(cands[j].x, cands[j].y, x, y)
    decreases |cands|
  {
    if |cands| == 1 then 0
    else
      var k := Nearest(cands[..|cands| - 1], x, y);
      assert forall j :: 0 <= j < |cands| - 1 ==> cands[..|cands| - 1][j] == cands[j];
      var last := cands[|cands| - 1];
      if SqDist(last.x, last.y, x, y) < SqDist(cands[k].x, cands[k].y, x, y) then |cands| - 1 else k
  }

  /** m is p with its match columns naming a frame-2 point of the same type
      that no other same-type frame-2 point is closer than. */
  predicate IsNearestMatch(sp2: seq<SingularPoint>, p: SingularPoint, m: Matched)
  {
    && m.x == p.x && m.y == p.y && m.kind == p.kind
    && 0 <= m.matchedIdx < |sp2|
    && sp2[m.matchedIdx] == SingularPoint(m.matchedX, m.matchedY, p.kind)
    && m.matchedDist2 == SqDist(m.matchedX, m.matchedY, p.x, p.y)
    && forall j :: 0 <= j < |sp2| && sp2[j].kind == p.kind ==> m.matchedDist2 <= SqDist(sp2[j].x, sp2[j].y, p.x, p.y)
  }

  predicate HasType(sp2: seq<SingularPoint>, t: int)
  {
    exists j :: 0 <= j < |sp2| && sp2[j].kind == t
  }

  /** A type's table is empty exactly when frame 2 has no point of that type. */
  lemma TypeRowsEmpty(sp2: seq<SingularPoint>, t: int)
    ensures TypeRows(sp2, t, 0) == [] <==> !HasType(sp2, t)
  {
    if HasType(sp2, t) {
      var j :| 0 <= j < |sp2| && sp2[j].kind == t;
      assert Candidate(j, sp2[j].x, sp2[j].y) in TypeRows(sp2, t, 0);
    }
    if TypeRows(sp2, t, 0) != [] {
      var c := TypeRows(sp2, t, 0)[0];
      assert c in TypeRows(sp2, t, 0);
      assert sp2[c.index].kind == t;
    }
  }

  /** One iteration of `matchSingularPointsForward`: the query result written into p's match columns. */
  function MatchPoint(sp2: seq<SingularPoint>, p: SingularPoint, cands: seq<Candidate>): (m: Matched)
    requires cands == TypeRows(sp2, p.kind, 0) && |cands| > 0
    ensures IsNearestMatch(sp2, p, m)
  {
    var c := cands[Nearest(cands, p.x, p.y)];
    assert c in cands;
    assert forall j :: 0 <= j < |sp2| && sp2[j].kind == p.kind ==>
      Candidate(j, sp2[j].x, sp2[j].y) in cands;
    Matched(p.x, p.y, p.kind, c.index, SqDist(c.x, c.y, p.x, p.y), c.x, c.y)
  }

  /** `matchSingularPointsForward`: fills the match columns of every frame-1 row.
      A type with no frame-2 point has no tree to query, and the script stops. */
  method MatchForward(sp1: seq<SingularPoint>, sp2: seq<SingularPoint>, data: map<int, seq<Candidate>>)
    returns (out: Option<seq<Matched>>)
    requires forall i :: 0 <= i < |sp1| ==> sp1[i].kind in data
    requires forall t :: t in data ==> data[t] == TypeRows(sp2, t, 0)
    ensures out.None? <==> exists i :: 0 <= i < |sp1| && !HasType(sp2, sp1[i].kind)
    ensures out.Some? ==>
      (|out.value| == |sp1| && forall i :: 0 <= i < |sp1| ==> IsNearestMatch(sp2, sp1[i], out.value[i]))
  {
    var rows: seq<Matched> := [];
    var i := 0;
    while i < |sp1|
      invariant 0 <= i <= |sp1| && |rows| == i
      invariant forall k :: 0 <= k < i ==> HasType(sp2, sp1[k].kind) && IsNearestMatch(sp2, sp1[k], rows[k])
    {
      var p := sp1[i];
      var cands := data[p.kind];
      TypeRowsEmpty(sp2, p.kind);
      if |cands| == 0 {
        return None;
      }
      rows := rows + [MatchPoint(sp2, p, cands)];
      i := i + 1;
    }
    return Some(rows);
  }

  // ---------------------------------------------------------------- ordering of the output

  /** `sort_values(['type', 'matcheddist'])`: by type, then by distance. */
  predicate KeyLe(a: Matched, b: Matched)
  {
    a.kind < b.kind || (a.kind == b.kind && a.matchedDist2 <= b.matchedDist2)
  }

  predicate SortedByKey(s: seq<Matched>)
  {
    forall a, b :: 0 <= a < b < |s| ==> KeyLe(s[a], s[b])
  }

  /** A head that sorts before every element of t and before m sorts before
      every element of a reordering of t with m added. */
  lemma HeadBelowAll(h: Matched, m: Matched, t: seq<Matched>, rest: seq<Matched>)
    requires KeyLe(h, m) && forall b :: 0 <= b < |t| ==> KeyLe(h, t[b])
    requires multiset(rest) == multiset(t) + multiset{m}
    ensures forall b :: 0 <= b < |rest| ==> KeyLe(h, rest[b])
  {
    forall b | 0 <= b < |rest| ensures KeyLe(h, rest[b]) {
      assert rest[b] in multiset(rest);
      if rest[b] != m {
        assert rest[b] in multiset(t);
        var j :| 0 <= j < |t| && t[j] == rest[b];
      }
    }
  }

  function Insert(m: Matched, s: seq<Matched>): (r: seq<Matched>)
    requires SortedByKey(s)
    ensures SortedByKey(r)
    ensures multiset(r) == multiset(s) + multiset{m}
  {
    if s == [] then [m]
    else if KeyLe(m, s[0]) then [m] + s
    else
      var rest := Insert(m, s[1..]);
      assert s == [s[0]] + s[1..];
      HeadBelowAll(s[0], m, s[1..], rest);
      [s[0]] + rest
  }

  function SortByTypeAndDistance(s: seq<Matched>): (r: seq<Matched>)
    ensures SortedByKey(r)
    ensures multiset(r) == multiset(s)
  {
    if s == [] then []
    else
      assert s == [s[0]] + s[1..];
      Insert(s[0], SortByTypeAndDistance(s[1..]))
  }

  /** Row i of the table is a nearest match of frame-1 point i. */
  predicate IsMatchTable(sp1: seq<SingularPoint>, sp2: seq<SingularPoint>, rows: seq<Matched>)
  {
    |rows| == |sp1| && forall i :: 0 <= i < |sp1| ==> IsNearestMatch(sp2, sp1[i], rows[i])
  }

  /** A reordering of the per-point matches keeps every frame-1 point's row and
      pairs each of its rows with a nearest match of some frame-1 point. */
  lemma ReorderedMatches(sp1: seq<SingularPoint>, sp2: seq<SingularPoint>, rows: seq<Matched>, sorted: seq<Matched>)
    requires IsMatchTable(sp1, sp2, rows)
    requires multiset(sorted) == multiset(rows)
    ensures |sorted| == |sp1|
    ensures forall i :: 0 <= i < |sp1| ==> rows[i] in sorted
    ensures forall m :: m in sorted ==> exists i :: 0 <= i < |sp1| && IsNearestMatch(sp2, sp1[i], m)
  {
    assert |sorted| == |multiset(sorted)| == |multiset(rows)| == |rows|;
    forall i | 0 <= i < |sp1|
      ensures rows[i] in sorted
    {
      assert rows[i] in multiset(rows);
    }
    forall m | m in sorted
      ensures exists i :: 0 <= i < |sp1| && IsNearestMatch(sp2, sp1[i], m)
    {
      assert m in multiset(rows);
      var i :| 0 <= i < |rows| && rows[i] == m;
    }
  }

  /** The script as a whole: types of frame 1, the per-type tables, the
      matching, and the final ordering. */
  method MatchSingularPoints(sp1: seq<SingularPoint>, sp2: seq<SingularPoint>) returns (out: Option<seq<Matched>>)
    ensures out.None? <==> exists i :: 0 <= i < |sp1| && !HasType(sp2, sp1[i].kind)
    ensures out.Some? ==>
      (SortedByKey(out.value) && |out.value| == |sp1|
       && forall m :: m in out.value ==> exists i :: 0 <= i < |sp1| && IsNearestMatch(sp2, sp1[i], m))
    ensures out.Some? ==> exists rows :: IsMatchTable(sp1, sp2, rows) && multiset(out.value) == multiset(rows)
  {
    var types := Types(sp1);
    var data := BuildPartition(sp2, types);
    assert forall i :: 0 <= i < |sp1| ==> sp1[i].kind in types;
    var matched := MatchForward(sp1, sp2, data);
    if matched.None? {
      return None;
    }
    var rows := matched.value;
    var sorted := SortByTypeAndDistance(rows);
    ReorderedMatches(sp1, sp2, rows, sorted);
    assert IsMatchTable(sp1, sp2, rows) && multiset(sorted) == multiset(rows);
    return Some(sorted);
  }

  /** Nothing keeps two frame-1 points from sharing a frame-2 match: both points
      of type 1 nearest to the single frame-2 point of that type are paired with it. */
  lemma MatchesNeedNotBeUnique(out: seq<Matched>)
    requires |out| == 2
    requires IsNearestMatch([SingularPoint(1, 0, 1)], SingularPoint(0, 0, 1), out[0])
    requires IsNearestMatch([SingularPoint(1, 0, 1)], SingularPoint(2, 0, 1), out[1])
    ensures out[0].matchedIdx == out[1].matchedIdx == 0
  {
  }
}
