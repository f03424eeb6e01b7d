/** The singular-point (winding-number) detector `singular_points` of
    numerical_analysis.py, in exact real arithmetic. The director field holds
    angles of unoriented lines, so a first difference is brought back by ±π
    when it jumps by more than π/2; the discrete curl of the corrected
    differences, divided by π and rounded, is the topological charge of each
    2×2 cell block. */
module SingularPoints {

  /** `math.pi`, written as the shortest decimal of the double it holds. */
  const PI: real := 3.141592653589793

  /** A director field: rows indexed by the first array axis. */
  type Field = seq<seq<real>>

  predicate IsRectangular(d: Field, width: nat)
  {
    forall i :: 0 <= i < |d| ==> |d[i]| == width
  }

  /** The ±π correction added to a first difference: +π below −π/2, −π above π/2. */
  function Correction(delta: real): (c: real)
    ensures c == PI <==> delta < -PI / 2.0
    ensures c == -PI <==> delta > PI / 2.0
    ensures c == 0.0 <==> -PI / 2.0 <= delta <= PI / 2.0
  {
    (if delta < -PI / 2.0 then PI else 0.0) - (if delta > PI / 2.0 then PI else 0.0)
  }

  /** The correction counted in units of π. */
  function CorrectionUnits(delta: real): int
  {
    if delta < -PI / 2.0 then 1 else if delta > PI / 2.0 then -1 else 0
  }

  function Wrap(delta: real): real
  {
    delta + Correction(delta)
  }

  /** A difference of two angles of [−π/2, π/2] lies in [−π, π] and wraps into [−π/2, π/2]. */
  lemma WrapInRange(delta: real)
    requires -PI <= delta <= PI
    ensures -PI / 2.0 <= Wrap(delta) <= PI / 2.0
  {
  }

  /** `np.diff(DF, axis=0)` at (i, j). */
  function DiffX(d: Field, width: nat, i: nat, j: nat): real
    requires IsRectangular(d, width) && i + 1 < |d| && j < width
  {
    d[i + 1][j] - d[i][j]
  }

  /** `np.diff(DF, axis=1)` at (i, j). */
  function DiffY(d: Field, width: nat, i: nat, j: nat): real
    requires IsRectangular(d, width) && i < |d| && j + 1 < width
  {
    d[i][j + 1] - d[i][j]
  }

  /** The value handed to `rint`: the discrete curl of the corrected differences over π. */
  function CurlOverPi(d: Field, width: nat, i: nat, j: nat): real
    requires IsRectangular(d, width) && i + 1 < |d| && j + 1 < width
  {
    ((Wrap(DiffY(d, width, i + 1, j)) - Wrap(DiffY(d, width, i, j)))
      - (Wrap(DiffX(d, width, i, j + 1)) - Wrap(DiffX(d, width, i, j)))) / PI
  }

  /** `np.rint`: nearest integer, halves to the even neighbour. */
  function Rint(r: real): (n: int)
    ensures n as real - 0.5 <= r <= n as real + 0.5
    ensures r == r.Floor as real ==> n == r.Floor
  {
    var f := r.Floor;
    var frac := r - f as real;
    if frac < 0.5 then f
    else if frac > 0.5 then f + 1
    else if f % 2 == 0 then f else f + 1
  }

  function Charge(d: Field, width: nat, i: nat, j: nat): int
    requires IsRectangular(d, width) && i + 1 < |d| && j + 1 < width
  {
    Rint(CurlOverPi(d, width, i, j))
  }

  function Pred(n: nat): nat
  {
    if n == 0 then 0 else n - 1
  }

  /** `singular_points(DF)`: the charge of every 2×2 block, one row and one column
      fewer than the field. */
  function SingularPointGrid(d: Field, width: nat): (r: seq<seq<int>>)
    requires IsRectangular(d, width)
    ensures |r| == Pred(|d|)
    ensures forall i :: 0 <= i < |r| ==> |r[i]| == Pred(width)
  {
    seq(Pred(|d|), i requires 0 <= i < Pred(|d|) =>
      seq(Pred(width), j requires 0 <= j < Pred(width) => Charge(d, width, i, j)))
  }

  // ---------------------------------------------------------------- properties

  /** The sum of the four corrections in units of π. */
  function WindingUnits(d: Field, width: nat, i: nat, j: nat): int
    requires IsRectangular(d, width) && i + 1 < |d| && j + 1 < width
  {
    (CorrectionUnits(DiffY(d, width, i + 1, j)) - CorrectionUnits(DiffY(d, width, i, j)))
    - (CorrectionUnits(DiffX(d, width, i, j + 1)) - CorrectionUnits(DiffX(d, width, i, j)))
  }

  /** The raw differences around a block telescope to zero, so the value handed to
      `rint` is exactly the integer count of corrections, and the charge is that count. */
  lemma CurlIsInteger(d: Field, width: nat, i: nat, j: nat)
    requires IsRectangular(d, width) && i + 1 < |d| && j + 1 < width
    ensures CurlOverPi(d, width, i, j) == WindingUnits(d, width, i, j) as real
    ensures Charge(d, width, i, j) == WindingUnits(d, width, i, j)
  {
    var a, b, c, e := d[i][j], d[i][j + 1], d[i + 1][j], d[i + 1][j + 1];
    var y1, y0, x1, x0 := e - c, b - a, e - b, c - a;
    assert (y1 - y0) - (x1 - x0) == 0.0;
    forall t: real ensures Correction(t) == CorrectionUnits(t) as real * PI {
    }
    var u1, u0, v1, v0 := CorrectionUnits(y1), CorrectionUnits(y0), CorrectionUnits(x1), CorrectionUnits(x0);
    assert Wrap(y1) == y1 + u1 as real * PI && Wrap(y0) == y0 + u0 as real * PI;
    assert Wrap(x1) == x1 + v1 as real * PI && Wrap(x0) == x0 + v0 as real * PI;
    UnitsOfPi(u1, u0, v1, v0);
    assert (Wrap(y1) - Wrap(y0)) - (Wrap(x1) - Wrap(x0)) == ((u1 - u0) - (v1 - v0)) as real * PI;
  }

  lemma UnitsOfPi(a: int, b: int, c: int, e: int)
    ensures (a as real * PI - b as real * PI) - (c as real * PI - e as real * PI) == ((a - b) - (c - e)) as real * PI
  {
  }

  /** Where the four field values of a block lie in [−π/2, π/2] (the range the
      orientation field promises), the charge is one of −2, −1, 0, 1, 2. */
  lemma ChargeBounded(d: Field, width: nat, i: nat, j: nat)
    requires IsRectangular(d, width) && i + 1 < |d| && j + 1 < width
    requires -PI / 2.0 <= d[i][j] <= PI / 2.0 && -PI / 2.0 <= d[i][j + 1] <= PI / 2.0
    requires -PI / 2.0 <= d[i + 1][j] <= PI / 2.0 && -PI / 2.0 <= d[i + 1][j + 1] <= PI / 2.0
    ensures -2 <= Charge(d, width, i, j) <= 2
  {
    CurlIsInteger(d, width, i, j);
    WrapInRange(DiffY(d, width, i + 1, j));
    WrapInRange(DiffY(d, width, i, j));
    WrapInRange(DiffX(d, width, i, j + 1));
    WrapInRange(DiffX(d, width, i, j));
    var k := WindingUnits(d, width, i, j);
    var s := (Wrap(DiffY(d, width, i + 1, j)) - Wrap(DiffY(d, width, i, j)))
      - (Wrap(DiffX(d, width, i, j + 1)) - Wrap(DiffX(d, width, i, j)));
    assert -2.0 * PI <= s <= 2.0 * PI;
    assert s / PI == k as real;
    assert s == k as real * PI;
  }

  /** A block none of whose four differences jumps by more than π/2 carries no charge. */
  lemma SmoothBlockHasNoCharge(d: Field, width: nat, i: nat, j: nat)
    requires IsRectangular(d, width) && i + 1 < |d| && j + 1 < width
    requires -PI / 2.0 <= DiffX(d, width, i, j) <= PI / 2.0
    requires -PI / 2.0 <= DiffX(d, width, i, j + 1) <= PI / 2.0
    requires -PI / 2.0 <= DiffY(d, width, i, j) <= PI / 2.0
    requires -PI / 2.0 <= DiffY(d, width, i + 1, j) <= PI / 2.0
    ensures Charge(d, width, i, j) == 0
  {
    CurlIsInteger(d, width, i, j);
  }

  /** The charge at (i, j) reads only the block d[i..i+1][j..j+1]. */
  lemma ChargeIsLocal(d: Field, e: Field, width: nat, i: nat, j: nat)
    requires IsRectangular(d, width) && IsRectangular(e, width)
    requires i + 1 < |d| && i + 1 < |e| && j + 1 < width
    requires d[i][j] == e[i][j] && d[i][j + 1] == e[i][j + 1]
    requires d[i + 1][j] == e[i + 1][j] && d[i + 1][j + 1] == e[i + 1][j + 1]
    ensures Charge(d, width, i, j) == Charge(e, width, i, j)
  {
    assert DiffX(d, width, i, j) == DiffX(e, width, i, j);
    assert DiffX(d, width, i, j + 1) == DiffX(e, width, i, j + 1);
    assert DiffY(d, width, i, j) == DiffY(e, width, i, j);
    assert DiffY(d, width, i + 1, j) == DiffY(e, width, i + 1, j);
    assert CurlOverPi(d, width, i, j) == CurlOverPi(e, width, i, j);
  }

  /** A +1 defect: the angle turns once around the block. */
  lemma PlusOneDefect()
    ensures SingularPointGrid([[0.0, -1.0], [1.0, -1.0]], 2) == [[1]]
  {
    var d: Field := [[0.0, -1.0], [1.0, -1.0]];
    CurlIsInteger(d, 2, 0, 0);
    assert WindingUnits(d, 2, 0, 0) == 1;
    var g := SingularPointGrid(d, 2);
    assert |g| == 1 && |g[0]| == 1 && g[0][0] == 1;
    assert g[0] == [1];
  }
}
