/**
  The double-and-add replay in Jacobian coordinates with two batched
  inversions, against the affine textbook run of the same schedule.
 */
module Replay {
  import opened Modular
  import opened Curve
  import opened Outcomes
  import opened Schedule

  /** (X : Y : Z) stands for the affine point (X/Z^2, Y/Z^3). */
  datatype Jac = Jac(x: int, y: int, z: int)

  /** One row of the replay at point level. */
  datatype Step = Step(a: Point, g: Point, round: nat, op: nat, nextOp: nat, r: Point, lambda: int)

  // ---------------------------------------------------------------------
  // The affine reference run
  // ---------------------------------------------------------------------

  function Den(p: Modulus, g: Point, a: Point, op: nat): int {
    if op == 1 then ChordDen(p, a, g) else TangentDen(p, a)
  }

  function Num(p: Modulus, g: Point, a: Point, op: nat): int {
    if op == 1 then ChordNum(p, a, g) else TangentNum(p, a)
  }

  function RefLambda(p: Modulus, g: Point, a: Point, op: nat): int {
    Slope(p, Num(p, g, a, op), Den(p, g, a, op))
  }

  function RefStep(p: Modulus, g: Point, a: Point, op: nat): Point {
    if op == 1 then ChordSum(p, a, g) else TangentSum(p, a)
  }

  function RefPoint(p: Modulus, g: Point, rows: seq<Row>, i: nat): Point
    requires i <= |rows|
  {
    if i == 0 then g else RefStep(p, g, RefPoint(p, g, rows, i - 1), rows[i - 1].op)
  }

  /** No slope denominator vanishes in the first `n` rows of the textbook run. */
  predicate RegularUpTo(p: Modulus, g: Point, rows: seq<Row>, n: nat)
    requires n <= |rows|
  {
    forall i | 0 <= i < n :: Den(p, g, RefPoint(p, g, rows, i), rows[i].op) != 0
  }

  predicate Regular(p: Modulus, g: Point, rows: seq<Row>) {
    RegularUpTo(p, g, rows, |rows|)
  }

  function RefRow(p: Modulus, g: Point, rows: seq<Row>, i: nat): Step
    requires i < |rows|
  {
    var a := RefPoint(p, g, rows, i);
    Step(a, g, rows[i].round, rows[i].op, rows[i].nextOp,
         RefPoint(p, g, rows, i + 1), RefLambda(p, g, a, rows[i].op))
  }

  function RefSteps(p: Modulus, g: Point, rows: seq<Row>): seq<Step> {
    seq(|rows|, i requires 0 <= i < |rows| => RefRow(p, g, rows, i))
  }

  // ---------------------------------------------------------------------
  // Jacobian formulas
  // ---------------------------------------------------------------------

  function JacDouble(p: Modulus, j: Jac): Jac {
    var a := FMul(p, j.x, j.x);
    var b := FMul(p, j.y, j.y);
    var c := FMul(p, b, b);
    var xb := FAdd(p, j.x, b);
    var t := FSub(p, FSub(p, FMul(p, xb, xb), a), c);
    var d := FAdd(p, t, t);
    var e := FAdd(p, FAdd(p, a, a), a);
    var f := FMul(p, e, e);
    var x3 := FSub(p, FSub(p, f, d), d);
    var c8 := FMul(p, R(p, 8), c);
    var y3 := FSub(p, FMul(p, e, FSub(p, d, x3)), c8);
    var yz := FMul(p, j.y, j.z);
    Jac(x3, y3, FAdd(p, yz, yz))
  }

  function JacMadd(p: Modulus, j: Jac, g: Point): Jac {
    var zz := FMul(p, j.z, j.z);
    var u2 := FMul(p, g.x, zz);
    var s2 := FMul(p, FMul(p, g.y, j.z), zz);
    var h := FSub(p, u2, j.x);
    var r := FSub(p, s2, j.y);
    var hh := FMul(p, h, h);
    var hhh := FMul(p, h, hh);
    var xhh := FMul(p, j.x, hh);
    var x3 := FSub(p, FSub(p, FSub(p, FMul(p, r, r), hhh), xhh), xhh);
    var y3 := FSub(p, FMul(p, r, FSub(p, xhh, x3)), FMul(p, j.y, hhh));
    Jac(x3, y3, FMul(p, h, j.z))
  }

  predicate JacResidues(p: Modulus, j: Jac) {
    IsResidue(p, j.x) && IsResidue(p, j.y) && IsResidue(p, j.z)
  }

  /** `j` stands for the affine point `a`. */
  predicate Represents(p: Modulus, j: Jac, a: Point) {
    && JacResidues(p, j) && j.z != 0
    && R(p, j.x) == R(p, a.x * (j.z * j.z))
    && R(p, j.y) == R(p, a.y * (j.z * j.z * j.z))
  }

  /** If E = l*s, D = x*s^2 and C = y*s^3, then (E^2 - T, E*(D - X3) - C, s) stands for the third point. */
  lemma {:induction false} ScaledThirdPoint(p: Modulus, l: int, s: int, a: Point, x2: int,
                                            e: int, d: int, c: int, t: int, x3: int, y3: int)
    requires R(p, e) == R(p, l * s)
    requires R(p, d) == R(p, a.x * (s * s))
    requires R(p, c) == R(p, a.y * (s * s * s))
    requires R(p, t) == R(p, (a.x + x2) * (s * s))
    requires R(p, x3) == R(p, e * e - t)
    requires R(p, y3) == R(p, e * (d - x3) - c)
    ensures R(p, x3) == R(p, ThirdPoint(p, l, a, x2).x * (s * s))
    ensures R(p, y3) == R(p, ThirdPoint(p, l, a, x2).y * (s * s * s))
  {
    hide R;
    ScaledAbscissa(p, l, s, a.x + x2, e, t, x3);
    var xr := R(p, l * l - a.x - x2);
    ScaledOrdinate(p, l, s, a.x - xr, a.y, e, d - x3, c, y3) by {
      CongAdd(p, d, a.x * (s * s), x3, xr * (s * s));
      Distribute(a.x, xr, s * s);
    }
  }

  lemma {:induction false} Distribute(a: int, b: int, c: int)
    ensures a * c - b * c == (a - b) * c
  {}

  lemma {:induction false} ScaledAbscissa(p: Modulus, l: int, s: int, u: int, e: int, t: int, x3: int)
    requires R(p, e) == R(p, l * s) && R(p, t) == R(p, u * (s * s)) && R(p, x3) == R(p, e * e - t)
    ensures R(p, x3) == R(p, R(p, l * l - u) * (s * s))
  {
    hide R;
    CongMul(p, e, l * s, e, l * s);
    MulSquares(l, s);
    CongAdd(p, e * e, (l * l) * (s * s), t, u * (s * s));
    Distribute(l * l, u, s * s);
    Idempotent(p, l * l - u);
    CongScale(p, R(p, l * l - u), l * l - u, s * s);
  }

  lemma {:induction false} ScaledOrdinate(p: Modulus, l: int, s: int, w: int, y: int, e: int, d: int, c: int, y3: int)
    requires R(p, e) == R(p, l * s) && R(p, d) == R(p, w * (s * s)) && R(p, c) == R(p, y * (s * s * s))
    requires R(p, y3) == R(p, e * d - c)
    ensures R(p, y3) == R(p, R(p, l * w - y) * (s * s * s))
  {
    hide R;
    CongMul(p, e, l * s, d, w * (s * s));
    MulCubes(l, w, s);
    CongAdd(p, e * d, (l * w) * (s * s * s), c, y * (s * s * s));
    Distribute(l * w, y, s * s * s);
    Idempotent(p, l * w - y);
    CongScale(p, R(p, l * w - y), l * w - y, s * s * s);
  }

  lemma {:induction false} MulSquares(a: int, b: int)
    ensures (a * b) * (a * b) == (a * a) * (b * b)
  {
    hide R;
    MulAssoc(a, b, a * b);
    MulAssoc(a, a, b * b);
  }

  lemma {:induction false} MulCubes(l: int, w: int, s: int)
    ensures (l * s) * (w * (s * s)) == (l * w) * (s * s * s)
  {
    hide R;
    MulAssoc(l, s, w * (s * s));
    MulAssoc(w, s, s * s);
    MulAssoc(l, w, s * (s * s));
    assert s * (w * (s * s)) == w * (s * (s * s));
    assert s * (s * s) == s * s * s;
  }

  // ---------------------------------------------------------------------
  // Doubling
  // ---------------------------------------------------------------------

  lemma {:induction false} JacDoubleValue(p: Modulus, j: Jac)
    requires JacResidues(p, j)
    ensures var e := 3 * (j.x * j.x);
            var d := 4 * (j.x * (j.y * j.y));
            var c := 8 * ((j.y * j.y) * (j.y * j.y));
            var x3 := R(p, e * e - 2 * d);
            JacDouble(p, j) == Jac(x3, R(p, e * (d - x3) - c), R(p, 2 * (j.y * j.z)))
  {
    hide R, FAdd, FSub, FMul;
    var b := j.y * j.y;
    Small(p, j.x);
    Small(p, j.y);
    Small(p, j.z);
    HomAt(p, j.x, j.x);
    HomAt(p, j.y, j.y);
    HomAt(p, b, b);
    JacDoubleHead(p, j.x, b);
    JacDoubleTail(p, 3 * (j.x * j.x), 4 * (j.x * b), b * b);
    HomAt(p, j.y, j.z);
    HomAt(p, j.y * j.z, j.y * j.z);
  }

  lemma {:induction false} JacDoubleHead(p: Modulus, x: int, b: int)
    ensures var a, c, xb := R(p, x * x), R(p, b * b), FAdd(p, R(p, x), R(p, b));
            var t := FSub(p, FSub(p, FMul(p, xb, xb), a), c);
            FAdd(p, t, t) == R(p, 4 * (x * b)) && FAdd(p, FAdd(p, a, a), a) == R(p, 3 * (x * x))
  {
    hide R, FAdd, FSub, FMul;
    HomAt(p, x, b);
    HomAt(p, x + b, x + b);
    SquareOfSum(x, b);
    DoubleCross(p, (x + b) * (x + b), x * x, b * b, x * b);
    Triple(p, x * x);
  }

  lemma {:induction false} SquareOfSum(x: int, b: int)
    ensures (x + b) * (x + b) == x * x + b * b + 2 * (x * b)
  {}

  /** Twice the cross term of a square, by field operations. */
  lemma {:induction false} DoubleCross(p: Modulus, q: int, xx: int, bb: int, m: int)
    requires q == xx + bb + 2 * m
    ensures var t := FSub(p, FSub(p, R(p, q), R(p, xx)), R(p, bb)); FAdd(p, t, t) == R(p, 4 * m)
  {
    hide R, FAdd, FSub;
    HomAt(p, q, xx);
    HomAt(p, q - xx, bb);
    HomAt(p, 2 * m, 2 * m);
  }

  lemma {:induction false} Triple(p: Modulus, xx: int)
    ensures FAdd(p, FAdd(p, R(p, xx), R(p, xx)), R(p, xx)) == R(p, 3 * xx)
  {
    hide R, FAdd;
    HomAt(p, xx, xx);
    HomAt(p, xx + xx, xx);
  }

  lemma {:induction false} JacDoubleTail(p: Modulus, e: int, d: int, c: int)
    ensures var x3 := FSub(p, FSub(p, FMul(p, R(p, e), R(p, e)), R(p, d)), R(p, d));
            && x3 == R(p, e * e - 2 * d)
            && FSub(p, FMul(p, R(p, e), FSub(p, R(p, d), x3)), FMul(p, R(p, 8), R(p, c))) == R(p, e * (d - x3) - 8 * c)
  {
    hide R, FAdd, FSub, FMul;
    HomAt(p, e, e);
    HomAt(p, e * e, d);
    HomAt(p, e * e - d, d);
    var x3 := R(p, e * e - d - d);
    Idempotent(p, e * e - d - d);
    HomAt(p, d, x3);
    HomAt(p, e, d - x3);
    HomAt(p, 8, c);
    HomAt(p, e * (d - x3), 8 * c);
  }

  lemma {:induction false} JacDoubleRepresents(p: Modulus, j: Jac, a: Point)
    requires OddPrime(p) && OnCurve(p, a) && Represents(p, j, a)
    ensures JacDouble(p, j).z == 0 <==> TangentDen(p, a) == 0
    ensures TangentDen(p, a) != 0 ==>
              Represents(p, JacDouble(p, j), TangentSum(p, a)) && OnCurve(p, TangentSum(p, a))
  {
    hide R, JacDouble, TangentSum;
    JacDoubleValue(p, j);
    DoubleNonzero(p, a.y);
    JacDoubleZ(p, j, a);
    if a.y != 0 {
      TangentOnCurve(p, a);
      JacDoubleScaled(p, j, a);
    }
  }

  lemma {:induction false} JacDoubleScaled(p: Modulus, j: Jac, a: Point)
    requires OddPrime(p) && OnCurve(p, a) && Represents(p, j, a) && a.y != 0
    requires JacDouble(p, j).z != 0
    ensures Represents(p, JacDouble(p, j), TangentSum(p, a))
  {
    hide R, JacDouble, ThirdPoint, OnCurve, Slope;
    var l := Slope(p, TangentNum(p, a), TangentDen(p, a));
    TangentSlope(p, a);
    JacDoubleValue(p, j);
    var e := 3 * (j.x * j.x);
    var d := 4 * (j.x * (j.y * j.y));
    var c := 8 * ((j.y * j.y) * (j.y * j.y));
    var s := R(p, 2 * (j.y * j.z));
    DoubleScales(p, j, a, l, s);
    CongScale(p, d, a.x * (s * s), 2);
    assert (a.x + a.x) * (s * s) == 2 * (a.x * (s * s));
    var k := JacDouble(p, j);
    Idempotent(p, e * e - 2 * d);
    Idempotent(p, e * (d - k.x) - c);
    ScaledThirdPoint(p, l, s, a, a.x, e, d, c, 2 * d, k.x, k.y);
  }

  lemma {:induction false} JacDoubleZ(p: Modulus, j: Jac, a: Point)
    requires OddPrime(p) && OnCurve(p, a) && Represents(p, j, a)
    ensures R(p, 2 * (j.y * j.z)) == 0 <==> a.y == 0
  {
    hide R;
    var z := j.z;
    NoZeroDivisors(p, 2, j.y * z);
    NoZeroDivisors(p, j.y, z);
    NoZeroDivisors(p, a.y, z * z * z);
    NoZeroDivisors(p, z * z, z);
    NoZeroDivisors(p, z, z);
    Small(p, 2);
    Small(p, z);
    Small(p, a.y);
  }

  /** With s = 2*Y*Z: 3*X^2 = l*s, 4*X*Y^2 = x*s^2, 8*Y^4 = y*s^3. */
  lemma {:induction false} DoubleScales(p: Modulus, j: Jac, a: Point, l: int, s: int)
    requires Represents(p, j, a)
    requires R(p, l * (2 * a.y)) == R(p, 3 * (a.x * a.x))
    requires s == R(p, 2 * (j.y * j.z))
    ensures R(p, 3 * (j.x * j.x)) == R(p, l * s)
    ensures R(p, 4 * (j.x * (j.y * j.y))) == R(p, a.x * (s * s))
    ensures R(p, 8 * ((j.y * j.y) * (j.y * j.y))) == R(p, a.y * (s * s * s))
  {
    hide R;
    var s0 := 2 * (j.y * j.z);
    Idempotent(p, s0);
    CongScale(p, s, s0, l);
    DoubleScaleE(p, j, a, l);
    CongMul(p, s, s0, s, s0);
    CongScale(p, s * s, s0 * s0, a.x);
    DoubleScaleD(p, j, a);
    CongMul(p, s * s, s0 * s0, s, s0);
    CongScale(p, s * s * s, s0 * s0 * s0, a.y);
    DoubleScaleC(p, j, a);
  }

  lemma {:induction false} DoubleScaleE(p: Modulus, j: Jac, a: Point, l: int)
    requires Represents(p, j, a)
    requires R(p, l * (2 * a.y)) == R(p, 3 * (a.x * a.x))
    ensures R(p, 3 * (j.x * j.x)) == R(p, l * (2 * (j.y * j.z)))
  {
    hide R;
    var z := j.z;
    var w := (z * z) * (z * z);
    CongMul(p, j.x, a.x * (z * z), j.x, a.x * (z * z));
    MulSquares(a.x, z * z);
    CongScale(p, j.x * j.x, (a.x * a.x) * w, 3);
    assert 3 * ((a.x * a.x) * w) == (3 * (a.x * a.x)) * w;
    CongScale(p, l * (2 * a.y), 3 * (a.x * a.x), w);
    CongScale(p, j.y, a.y * (z * z * z), z);
    CongScale(p, j.y * z, a.y * (z * z * z) * z, 2 * l);
    Regroup(l, a.y, z);
    assert (2 * l) * (j.y * z) == l * (2 * (j.y * z));
  }

  lemma {:induction false} Regroup(l: int, y: int, z: int)
    ensures (2 * l) * (y * (z * z * z) * z) == (l * (2 * y)) * ((z * z) * (z * z))
  {
    hide R;
    var w := (z * z) * (z * z);
    assert (z * z * z) * z == w;
    MulAssoc(y, z * z * z, z);
    MulAssoc(l, 2 * y, w);
    MulAssoc(2 * l, y, w);
  }

  lemma {:induction false} DoubleScaleD(p: Modulus, j: Jac, a: Point)
    requires Represents(p, j, a)
    ensures var s := 2 * (j.y * j.z);
            R(p, 4 * (j.x * (j.y * j.y))) == R(p, a.x * (s * s))
  {
    hide R;
    var y, z := j.y, j.z;
    var s := 2 * (y * z);
    CongScale(p, j.x, a.x * (z * z), 4 * (y * y));
    MulSquares(y, z);
    assert s * s == 4 * ((y * y) * (z * z)) by { MulSquares(2, y * z); }
    MulAssoc(a.x, z * z, 4 * (y * y));
    assert (z * z) * (4 * (y * y)) == s * s;
    assert j.x * (4 * (y * y)) == 4 * (j.x * (y * y));
  }

  lemma {:induction false} DoubleScaleC(p: Modulus, j: Jac, a: Point)
    requires Represents(p, j, a)
    ensures var s := 2 * (j.y * j.z);
            R(p, 8 * ((j.y * j.y) * (j.y * j.y))) == R(p, a.y * (s * s * s))
  {
    hide R;
    var y, z := j.y, j.z;
    var s := 2 * (y * z);
    var y3 := 8 * (y * y * y);
    CongScale(p, y, a.y * (z * z * z), y3);
    CubeOfProduct(y, z);
    MulAssoc(a.y, z * z * z, y3);
    assert (z * z * z) * y3 == s * s * s;
    assert y * y3 == 8 * ((y * y) * (y * y));
  }

  lemma {:induction false} CubeOfProduct(y: int, z: int)
    ensures var s := 2 * (y * z); s * s * s == (z * z * z) * (8 * (y * y * y))
  {
    hide R;
    var m := y * z;
    var s := 2 * m;
    assert s * s * s == 8 * (m * m * m);
    MulSquares(y, z);
    assert m * m == (y * y) * (z * z);
    assert (m * m) * m == ((y * y) * y) * ((z * z) * z) by {
      MulAssoc(y * y, z * z, y * z);
      MulAssoc(z * z, y, z);
      MulAssoc(y, z * z, z);
      MulAssoc(y * y, y, (z * z) * z);
    }
  }

  // ---------------------------------------------------------------------
  // Mixed addition
  // ---------------------------------------------------------------------

  lemma {:induction false} JacMaddValue(p: Modulus, j: Jac, g: Point)
    requires JacResidues(p, j) && IsResidue(p, g.x) && IsResidue(p, g.y)
    ensures var h := R(p, g.x * (j.z * j.z) - j.x);
            var r := R(p, g.y * (j.z * j.z * j.z) - j.y);
            var hh := h * h;
            var x3 := R(p, r * r - (h * hh + 2 * (j.x * hh)));
            JacMadd(p, j, g) == Jac(x3, R(p, r * (j.x * hh - x3) - j.y * (h * hh)), R(p, h * j.z))
  {
    hide R, FAdd, FSub, FMul;
    var zz := j.z * j.z;
    Small(p, j.x);
    Small(p, j.y);
    Small(p, j.z);
    Small(p, g.x);
    Small(p, g.y);
    HomAt(p, j.z, j.z);
    HomAt(p, g.x, zz);
    HomAt(p, g.y, j.z);
    HomAt(p, g.y * j.z, zz);
    var u2, s2 := g.x * zz, g.y * (j.z * j.z * j.z);
    MulAssoc(g.y, j.z, zz);
    assert (g.y * j.z) * zz == s2;
    HomAt(p, u2, j.x);
    HomAt(p, s2, j.y);
    var h := R(p, u2 - j.x);
    JacMaddTail(p, j, h, R(p, s2 - j.y));
    Small(p, h);
    HomAt(p, h, j.z);
  }

  lemma {:induction false} JacMaddTail(p: Modulus, j: Jac, h: int, r: int)
    requires JacResidues(p, j) && IsResidue(p, h) && IsResidue(p, r)
    ensures var hh := FMul(p, h, h);
            var hhh := FMul(p, h, hh);
            var xhh := FMul(p, j.x, hh);
            var x3 := FSub(p, FSub(p, FSub(p, FMul(p, r, r), hhh), xhh), xhh);
            && x3 == R(p, r * r - (h * (h * h) + 2 * (j.x * (h * h))))
            && FSub(p, FMul(p, r, FSub(p, xhh, x3)), FMul(p, j.y, hhh))
               == R(p, r * (j.x * (h * h) - x3) - j.y * (h * (h * h)))
  {
    hide R, FAdd, FSub, FMul;
    Small(p, j.x);
    Small(p, j.y);
    Small(p, h);
    Small(p, r);
    var hh := h * h;
    HomAt(p, h, h);
    HomAt(p, h, hh);
    HomAt(p, j.x, hh);
    JacMaddX(p, r, h * hh, j.x * hh);
    JacMaddY(p, r, j.x * hh, R(p, r * r - (h * hh + 2 * (j.x * hh))), j.y, h * hh);
  }

  lemma {:induction false} JacMaddX(p: Modulus, r: int, hhh: int, xhh: int)
    requires IsResidue(p, r)
    ensures FSub(p, FSub(p, FSub(p, FMul(p, r, r), R(p, hhh)), R(p, xhh)), R(p, xhh)) == R(p, r * r - (hhh + 2 * xhh))
  {
    hide R, FAdd, FSub, FMul;
    Small(p, r);
    HomAt(p, r, r);
    HomAt(p, r * r, hhh);
    HomAt(p, r * r - hhh, xhh);
    HomAt(p, r * r - hhh - xhh, xhh);
  }

  lemma {:induction false} JacMaddY(p: Modulus, r: int, xhh: int, x3: int, y: int, hhh: int)
    requires IsResidue(p, r) && IsResidue(p, x3) && IsResidue(p, y)
    ensures FSub(p, FMul(p, r, FSub(p, R(p, xhh), x3)), FMul(p, y, R(p, hhh))) == R(p, r * (xhh - x3) - y * hhh)
  {
    hide R, FAdd, FSub, FMul;
    Small(p, r);
    Small(p, x3);
    Small(p, y);
    HomAt(p, xhh, x3);
    HomAt(p, r, xhh - x3);
    HomAt(p, y, hhh);
    HomAt(p, r * (xhh - x3), y * hhh);
  }

  lemma {:induction false} JacMaddRepresents(p: Modulus, j: Jac, a: Point, g: Point)
    requires OddPrime(p) && OnCurve(p, a) && OnCurve(p, g) && Represents(p, j, a)
    ensures JacMadd(p, j, g).z == 0 <==> ChordDen(p, a, g) == 0
    ensures ChordDen(p, a, g) != 0 ==>
              Represents(p, JacMadd(p, j, g), ChordSum(p, a, g)) && OnCurve(p, ChordSum(p, a, g))
  {
    hide R, JacMadd, ChordSum;
    JacMaddValue(p, j, g);
    ResidueZero(p, a.x, g.x);
    var h := R(p, g.x * (j.z * j.z) - j.x);
    MaddH(p, j, a, g, h);
    NoZeroDivisors(p, h, j.z);
    Small(p, h);
    Small(p, j.z);
    if a.x != g.x {
      ChordOnCurve(p, a, g);
      JacMaddScaled(p, j, a, g);
    }
  }

  /** h = (x2 - x1)*Z^2, which vanishes exactly when the abscissae agree. */
  lemma {:induction false} MaddH(p: Modulus, j: Jac, a: Point, g: Point, h: int)
    requires IsPrime(p) && OnCurve(p, a) && OnCurve(p, g) && Represents(p, j, a)
    requires h == R(p, g.x * (j.z * j.z) - j.x)
    ensures R(p, h) == R(p, (g.x - a.x) * (j.z * j.z))
    ensures h == 0 <==> a.x == g.x
  {
    hide R;
    var zz := j.z * j.z;
    Idempotent(p, g.x * zz - j.x);
    CongAdd(p, g.x * zz, g.x * zz, j.x, a.x * zz);
    assert g.x * zz - a.x * zz == (g.x - a.x) * zz;
    NoZeroDivisors(p, g.x - a.x, zz);
    NoZeroDivisors(p, j.z, j.z);
    Small(p, j.z);
    Small(p, h);
    ResidueZero(p, a.x, g.x);
  }

  lemma {:induction false} JacMaddScaled(p: Modulus, j: Jac, a: Point, g: Point)
    requires OddPrime(p) && OnCurve(p, a) && OnCurve(p, g) && Represents(p, j, a) && a.x != g.x
    requires JacMadd(p, j, g).z != 0
    ensures Represents(p, JacMadd(p, j, g), ChordSum(p, a, g))
  {
    hide R, JacMadd, ThirdPoint, Slope;
    var l := Slope(p, ChordNum(p, a, g), ChordDen(p, a, g));
    ChordSlope(p, a, g);
    JacMaddValue(p, j, g);
    var h := R(p, g.x * (j.z * j.z) - j.x);
    var r := R(p, g.y * (j.z * j.z * j.z) - j.y);
    var hh := h * h;
    var s := R(p, h * j.z);
    MaddH(p, j, a, g, h);
    MaddScales(p, j, a, g, l, h, r, s);
    var k := JacMadd(p, j, g);
    var t := h * hh + 2 * (j.x * hh);
    Idempotent(p, r * r - t);
    Idempotent(p, r * (j.x * hh - k.x) - j.y * (h * hh));
    ScaledThirdPoint(p, l, s, a, g.x, r, j.x * hh, j.y * (h * hh), t, k.x, k.y);
  }

  /** With s = h*Z: r = l*s, X*h^2 = x*s^2, Y*h^3 = y*s^3, h^3 + 2*X*h^2 = (x1 + x2)*s^2. */
  lemma {:induction false} MaddScales(p: Modulus, j: Jac, a: Point, g: Point, l: int, h: int, r: int, s: int)
    requires Represents(p, j, a)
    requires R(p, l * (g.x - a.x)) == R(p, g.y - a.y)
    requires R(p, h) == R(p, (g.x - a.x) * (j.z * j.z))
    requires r == R(p, g.y * (j.z * j.z * j.z) - j.y)
    requires s == R(p, h * j.z)
    ensures R(p, r) == R(p, l * s)
    ensures R(p, j.x * (h * h)) == R(p, a.x * (s * s))
    ensures R(p, j.y * (h * (h * h))) == R(p, a.y * (s * s * s))
    ensures R(p, h * (h * h) + 2 * (j.x * (h * h))) == R(p, (a.x + g.x) * (s * s))
  {
    hide R;
    var z := j.z;
    var s0 := h * z;
    Idempotent(p, s0);
    CongMul(p, s, s0, s, s0);
    CongMul(p, s * s, s0 * s0, s, s0);
    MaddScaleR(p, j, a, g, l, h, r);
    CongScale(p, s, s0, l);
    MaddScaleX(p, j, a, h);
    CongScale(p, s * s, s0 * s0, a.x);
    MaddScaleY(p, j, a, h);
    CongScale(p, s * s * s, s0 * s0 * s0, a.y);
    // h^3 = (x2 - x1) * s^2
    MulSquares(h, z);
    CongScale(p, h, (g.x - a.x) * (z * z), h * h);
    MulAssoc(g.x - a.x, z * z, h * h);
    CongScale(p, s * s, s0 * s0, g.x - a.x);
    assert R(p, h * (h * h)) == R(p, (g.x - a.x) * (s * s));
    CongAdd(p, j.x * (h * h), a.x * (s * s), j.x * (h * h), a.x * (s * s));
    CongAdd(p, h * (h * h), (g.x - a.x) * (s * s), 2 * (j.x * (h * h)), 2 * (a.x * (s * s)));
    assert (g.x - a.x) * (s * s) + 2 * (a.x * (s * s)) == (a.x + g.x) * (s * s);
  }

  lemma {:induction false} MaddScaleR(p: Modulus, j: Jac, a: Point, g: Point, l: int, h: int, r: int)
    requires Represents(p, j, a)
    requires R(p, l * (g.x - a.x)) == R(p, g.y - a.y)
    requires R(p, h) == R(p, (g.x - a.x) * (j.z * j.z))
    requires r == R(p, g.y * (j.z * j.z * j.z) - j.y)
    ensures R(p, r) == R(p, l * (h * j.z))
  {
    hide R;
    var z := j.z;
    var z3 := z * z * z;
    Idempotent(p, g.y * z3 - j.y);
    CongAdd(p, g.y * z3, g.y * z3, j.y, a.y * z3);
    assert g.y * z3 - a.y * z3 == (g.y - a.y) * z3;
    CongScale(p, l * (g.x - a.x), g.y - a.y, z3);
    var d := g.x - a.x;
    CongScale(p, h, d * (z * z), z);
    CongScale(p, h * z, (d * (z * z)) * z, l);
    assert (d * (z * z)) * z == d * z3 by { MulAssoc(d, z * z, z); }
    MulAssoc(l, d, z3);
  }

  lemma {:induction false} MaddScaleX(p: Modulus, j: Jac, a: Point, h: int)
    requires Represents(p, j, a)
    ensures R(p, j.x * (h * h)) == R(p, a.x * ((h * j.z) * (h * j.z)))
  {
    hide R;
    var z := j.z;
    CongScale(p, j.x, a.x * (z * z), h * h);
    MulAssoc(a.x, z * z, h * h);
    MulSquares(h, z);
  }

  lemma {:induction false} MaddScaleY(p: Modulus, j: Jac, a: Point, h: int)
    requires Represents(p, j, a)
    ensures R(p, j.y * (h * (h * h))) == R(p, a.y * ((h * j.z) * (h * j.z) * (h * j.z)))
  {
    hide R;
    var z := j.z;
    var h3 := h * (h * h);
    CongScale(p, j.y, a.y * (z * z * z), h3);
    MulAssoc(a.y, z * z * z, h3);
    assert (z * z * z) * h3 == (h * z) * (h * z) * (h * z) by { CubeOfPlainProduct(h, z); }
  }

  lemma {:induction false} CubeOfPlainProduct(h: int, z: int)
    ensures (h * z) * (h * z) * (h * z) == (z * z * z) * (h * (h * h))
  {
    hide R;
    MulSquares(h, z);
    var u, v := h * h, z * z;
    MulAssoc(u, v, h * z);
    MulAssoc(v, h, z);
    MulAssoc(h, v, z);
    MulAssoc(u, h, v * z);
  }

  // ---------------------------------------------------------------------
  // Back to affine
  // ---------------------------------------------------------------------

  function ToAffine(p: Modulus, j: Jac, zi: int): Point {
    var zi2 := FMul(p, zi, zi);
    Point(FMul(p, j.x, zi2), FMul(p, FMul(p, j.y, zi2), zi))
  }

  lemma {:induction false} ToAffineCorrect(p: Modulus, j: Jac, a: Point)
    requires OddPrime(p) && OnCurve(p, a) && Represents(p, j, a)
    ensures ToAffine(p, j, Inv(p, j.z)) == a
  {
    hide R, FAdd, FSub, FMul;
    var z, i := j.z, Inv(p, j.z);
    Small(p, z);
    InvCorrect(p, z);
    Small(p, 1);
    Small(p, i);
    Small(p, j.x);
    Small(p, j.y);
    HomAt(p, i, i);
    HomAt(p, j.x, i * i);
    HomAt(p, j.y, i * i);
    HomAt(p, j.y * (i * i), i);
    CongMul(p, z * i, 1, z * i, 1);
    // X * i^2 = x * (z*i)^2 = x
    CongScale(p, j.x, a.x * (z * z), i * i);
    MulAssoc(a.x, z * z, i * i);
    MulSquares(z, i);
    CongScale(p, (z * i) * (z * i), 1, a.x);
    Small(p, a.x);
    // Y * i^3 = y * (z*i)^3 = y
    CongMul(p, (z * i) * (z * i), 1, z * i, 1);
    var i3 := i * (i * i);
    CongScale(p, j.y, a.y * (z * z * z), i3);
    MulAssoc(a.y, z * z * z, i3);
    CubeOfPlainProduct(i, z);
    assert (i * z) == (z * i);
    CongScale(p, (z * i) * (z * i) * (z * i), 1, a.y);
    Small(p, a.y);
    assert (j.y * (i * i)) * i == j.y * i3 by { MulAssoc(j.y, i * i, i); }
  }

  // ---------------------------------------------------------------------
  // Montgomery batch inversion
  // ---------------------------------------------------------------------

  function Product(p: Modulus, xs: seq<int>, n: nat): (r: int)
    requires n <= |xs|
    ensures IsResidue(p, r)
  {
    if n == 0 then 1 else FMul(p, Product(p, xs, n - 1), xs[n - 1])
  }

  predicate AllInvertible(p: Modulus, xs: seq<int>) {
    forall i | 0 <= i < |xs| :: R(p, xs[i]) != 0
  }

  lemma {:induction false} ProductNonzero(p: Modulus, xs: seq<int>, n: nat)
    requires IsPrime(p) && n <= |xs|
    ensures Product(p, xs, n) != 0 <==> forall i | 0 <= i < n :: R(p, xs[i]) != 0
  {
    hide R;
    if n > 0 {
      ProductNonzero(p, xs, n - 1);
      NoZeroDivisors(p, Product(p, xs, n - 1), xs[n - 1]);
      Small(p, Product(p, xs, n - 1));
    }
  }

  /** One inversion for the whole batch. None is the source's panic on a zero denominator. */
  method BatchInvert(p: Modulus, xs: seq<int>) returns (res: Option<seq<int>>)
    requires IsPrime(p)
    ensures res.Some? <==> AllInvertible(p, xs)
    ensures res.Some? ==> |res.value| == |xs| && forall i | 0 <= i < |xs| :: res.value[i] == Inv(p, xs[i])
  {
    var n := |xs|;
    var prefix := [];
    var acc := 1;
    for i := 0 to n
      invariant |prefix| == i && acc == Product(p, xs, i)
      invariant forall j | 0 <= j < i :: prefix[j] == Product(p, xs, j)
    {
      prefix := prefix + [acc];
      acc := FMul(p, acc, xs[i]);
    }
    ProductNonzero(p, xs, n);
    if acc == 0 {
      return None;
    }
    Small(p, acc);
    InvCorrect(p, acc);
    var inv := Inv(p, acc);
    var out := seq(n, _ => 1);
    for i := n downto 0
      invariant |out| == n
      invariant R(p, inv * Product(p, xs, i)) == 1
      invariant forall j | i <= j < n :: out[j] == Inv(p, xs[j])
    {
      BatchStep(p, xs, i, inv);
      out := out[i := FMul(p, prefix[i], inv)];
      inv := FMul(p, inv, xs[i]);
    }
    return Some(out);
  }

  lemma {:induction false} BatchStep(p: Modulus, xs: seq<int>, i: nat, inv: int)
    requires IsPrime(p) && i < |xs|
    requires R(p, inv * Product(p, xs, i + 1)) == 1
    ensures FMul(p, Product(p, xs, i), inv) == Inv(p, xs[i])
    ensures R(p, FMul(p, inv, xs[i]) * Product(p, xs, i)) == 1
  {
    hide R;
    var q, x := Product(p, xs, i), xs[i];
    Idempotent(p, q * x);
    CongScale(p, R(p, q * x), q * x, inv);
    MulAssoc(inv, q, x);
    MulAssoc(inv, x, q);
    // (q*inv) * x = 1
    Idempotent(p, q * inv);
    CongScale(p, R(p, q * inv), q * inv, x);
    assert inv * q == q * inv;
    InvUnique(p, x, FMul(p, q, inv));
    // (inv*x) * q = 1
    Idempotent(p, inv * x);
    CongScale(p, R(p, inv * x), inv * x, q);
  }

  // ---------------------------------------------------------------------
  // The ladder
  // ---------------------------------------------------------------------

  function JacStep(p: Modulus, g: Point, j: Jac, op: nat): Jac {
    if op == 0 then JacDouble(p, j) else JacMadd(p, j, g)
  }

  function JacPoint(p: Modulus, g: Point, rows: seq<Row>, i: nat): Jac
    requires i <= |rows|
  {
    if i == 0 then Jac(g.x, g.y, 1) else JacStep(p, g, JacPoint(p, g, rows, i - 1), rows[i - 1].op)
  }

  predicate OpsOnly(rows: seq<Row>) {
    forall i | 0 <= i < |rows| :: rows[i].op <= 1
  }

  lemma {:induction false} JacStepRepresents(p: Modulus, g: Point, j: Jac, a: Point, op: nat)
    requires OddPrime(p) && OnCurve(p, g) && OnCurve(p, a) && Represents(p, j, a) && op <= 1
    ensures JacStep(p, g, j, op).z == 0 <==> Den(p, g, a, op) == 0
    ensures Den(p, g, a, op) != 0 ==>
              Represents(p, JacStep(p, g, j, op), RefStep(p, g, a, op)) && OnCurve(p, RefStep(p, g, a, op))
  {
    hide R;
    if op == 0 {
      JacDoubleRepresents(p, j, a);
    } else {
      JacMaddRepresents(p, j, a, g);
    }
  }

  /** As long as the textbook run is regular, the ladder stands for it. */
  lemma {:induction false} LadderRepresents(p: Modulus, g: Point, rows: seq<Row>, n: nat)
    requires OddPrime(p) && OnCurve(p, g) && OpsOnly(rows) && n <= |rows|
    requires RegularUpTo(p, g, rows, n)
    ensures OnCurve(p, RefPoint(p, g, rows, n))
    ensures Represents(p, JacPoint(p, g, rows, n), RefPoint(p, g, rows, n))
  {
    hide R, JacStep, RefStep, Den, OnCurve;
    if n == 0 {
      StartRepresents(p, g);
    } else {
      LadderRepresents(p, g, rows, n - 1);
      JacStepRepresents(p, g, JacPoint(p, g, rows, n - 1), RefPoint(p, g, rows, n - 1), rows[n - 1].op);
    }
  }

  predicate NoZeroZ(p: Modulus, g: Point, rows: seq<Row>, n: nat)
    requires n <= |rows|
  {
    forall i | 0 <= i <= n :: JacPoint(p, g, rows, i).z != 0
  }

  lemma {:induction false} StartRepresents(p: Modulus, g: Point)
    requires OnCurve(p, g)
    ensures Represents(p, Jac(g.x, g.y, 1), g)
  {}

  lemma {:induction false} LadderStep(p: Modulus, g: Point, rows: seq<Row>, n: nat)
    requires OddPrime(p) && OnCurve(p, g) && OpsOnly(rows) && n < |rows|
    requires RegularUpTo(p, g, rows, n)
    ensures JacPoint(p, g, rows, n + 1).z == 0 <==> Den(p, g, RefPoint(p, g, rows, n), rows[n].op) == 0
  {
    hide R, JacStep, RefStep, Den, OnCurve;
    LadderRepresents(p, g, rows, n);
    JacStepRepresents(p, g, JacPoint(p, g, rows, n), RefPoint(p, g, rows, n), rows[n].op);
  }

  lemma {:induction false} LadderNonzeroIsRegular(p: Modulus, g: Point, rows: seq<Row>, n: nat)
    requires OddPrime(p) && OnCurve(p, g) && OpsOnly(rows) && n <= |rows|
    requires NoZeroZ(p, g, rows, n)
    ensures RegularUpTo(p, g, rows, n)
  {
    hide R, JacStep, RefStep, Den, OnCurve;
    if n > 0 {
      LadderNonzeroIsRegular(p, g, rows, n - 1);
      LadderStep(p, g, rows, n - 1);
    }
  }

  /** The ladder meets no zero z exactly when the textbook run meets no zero denominator. */
  lemma {:induction false} LadderNonzero(p: Modulus, g: Point, rows: seq<Row>)
    requires OddPrime(p) && OnCurve(p, g) && OpsOnly(rows)
    ensures NoZeroZ(p, g, rows, |rows|) <==> Regular(p, g, rows)
  {
    hide R, JacStep, RefStep, Den, OnCurve;
    if Regular(p, g, rows) {
      forall i | 0 <= i <= |rows|
        ensures JacPoint(p, g, rows, i).z != 0
      {
        LadderRepresents(p, g, rows, i);
      }
    }
    if NoZeroZ(p, g, rows, |rows|) {
      LadderNonzeroIsRegular(p, g, rows, |rows|);
    }
  }

  lemma {:induction false} JacPointResidues(p: Modulus, g: Point, rows: seq<Row>, i: nat)
    requires OnCurve(p, g) && i <= |rows|
    ensures JacResidues(p, JacPoint(p, g, rows, i))
  {
  }

  /** Denominators and numerators as the code computes them from field elements. */
  function DenOps(p: Modulus, g: Point, a: Point, op: nat): int {
    if op == 1 then FSub(p, g.x, a.x) else FAdd(p, a.y, a.y)
  }

  function NumOps(p: Modulus, g: Point, a: Point, op: nat): int {
    if op == 1 then FSub(p, g.y, a.y)
    else var x2 := FMul(p, a.x, a.x); FAdd(p, FAdd(p, x2, x2), x2)
  }

  lemma {:induction false} OpsAgree(p: Modulus, g: Point, a: Point, op: nat)
    ensures DenOps(p, g, a, op) == Den(p, g, a, op)
    ensures NumOps(p, g, a, op) == Num(p, g, a, op)
    ensures R(p, Den(p, g, a, op)) == Den(p, g, a, op)
  {
    hide R;
    var x2 := a.x * a.x;
    HomAt(p, x2, x2);
    HomAt(p, x2 + x2, x2);
    Idempotent(p, 2 * a.y);
    Idempotent(p, g.x - a.x);
  }

  method Ladder(p: Modulus, g: Point, rows: seq<Row>) returns (pts: seq<Jac>)
    ensures |pts| == |rows| + 1
    ensures forall i | 0 <= i <= |rows| :: pts[i] == JacPoint(p, g, rows, i)
  {
    hide JacDouble, JacMadd;
    var j := Jac(g.x, g.y, 1);
    pts := [j];
    for n := 0 to |rows|
      invariant |pts| == n + 1 && j == JacPoint(p, g, rows, n)
      invariant forall i | 0 <= i <= n :: pts[i] == JacPoint(p, g, rows, i)
    {
      j := if rows[n].op == 0 then JacDouble(p, j) else JacMadd(p, j, g);
      pts := pts + [j];
    }
  }

  /** Normalizes every ladder point with one batched inversion of the z coordinates. */
  method NormalizePoints(p: Modulus, g: Point, sched: seq<Row>, pts: seq<Jac>) returns (res: Option<seq<Point>>)
    requires OddPrime(p) && OnCurve(p, g) && OpsOnly(sched)
    requires |pts| == |sched| + 1
    requires forall i | 0 <= i <= |sched| :: pts[i] == JacPoint(p, g, sched, i)
    ensures res.Some? <==> Regular(p, g, sched)
    ensures res.Some? ==> |res.value| == |pts|
                          && forall i | 0 <= i <= |sched| :: res.value[i] == RefPoint(p, g, sched, i)
  {
    var n := |sched|;
    var zs := seq(n + 1, i requires 0 <= i <= n => pts[i].z);
    var zinvs := BatchInvert(p, zs);
    LadderNonzero(p, g, sched);
    ZsResidues(p, g, sched, zs);
    assert forall i | 0 <= i <= n :: JacPoint(p, g, sched, i).z == zs[i];
    if zinvs.None? {
      return None;
    }
    var aff := seq(n + 1, i requires 0 <= i <= n => ToAffine(p, pts[i], zinvs.value[i]));
    forall i | 0 <= i <= n
      ensures aff[i] == RefPoint(p, g, sched, i)
    {
      LadderRepresents(p, g, sched, i);
      ToAffineCorrect(p, pts[i], RefPoint(p, g, sched, i));
    }
    return Some(aff);
  }

  /** Slopes with one batched inversion of the denominators. */
  method BuildSteps(p: Modulus, g: Point, sched: seq<Row>, aff: seq<Point>) returns (res: Option<seq<Step>>)
    requires IsPrime(p) && |aff| == |sched| + 1
    requires forall i | 0 <= i <= |sched| :: aff[i] == RefPoint(p, g, sched, i)
    ensures res == if Regular(p, g, sched) then Some(RefSteps(p, g, sched)) else None
  {
    var n := |sched|;
    var dens := seq(n, i requires 0 <= i < n => DenOps(p, g, aff[i], sched[i].op));
    var inverses := BatchInvert(p, dens);
    forall i | 0 <= i < n
      ensures dens[i] == Den(p, g, RefPoint(p, g, sched, i), sched[i].op) && R(p, dens[i]) == dens[i]
    {
      OpsAgree(p, g, aff[i], sched[i].op);
    }
    if inverses.None? {
      return None;
    }
    var steps := seq(n, i requires 0 <= i < n =>
      Step(aff[i], g, sched[i].round, sched[i].op, sched[i].nextOp, aff[i + 1],
           FMul(p, NumOps(p, g, aff[i], sched[i].op), inverses.value[i])));
    forall i | 0 <= i < n
      ensures steps[i] == RefRow(p, g, sched, i)
    {
      OpsAgree(p, g, aff[i], sched[i].op);
    }
    assert steps == RefSteps(p, g, sched);
    return Some(steps);
  }

  /**
    The replay. It succeeds exactly when the textbook run meets no zero
    denominator, and then it returns that run, step for step.
   */
  method ReplayDoubleAndAdd(p: Modulus, k: nat, g: Point) returns (res: Option<(seq<Step>, Point)>)
    requires OddPrime(p) && OnCurve(p, g) && k >= 1 && Msb(k) < 256
    ensures res == if Regular(p, g, Rows(k))
                   then Some((RefSteps(p, g, Rows(k)), RefPoint(p, g, Rows(k), |Rows(k)|)))
                   else None
  {
    var sched := BuildSchedule(k);
    ScheduleShape(k);
    if sched == [] {
      assert RefSteps(p, g, []) == [];
      return Some(([], g));
    }
    var pts := Ladder(p, g, sched);
    var aff := NormalizePoints(p, g, sched, pts);
    if aff.None? {
      return None;
    }
    var steps := BuildSteps(p, g, sched, aff.value);
    if steps.None? {
      return None;
    }
    return Some((steps.value, aff.value[|sched|]));
  }

  lemma {:induction false} ZsResidues(p: Modulus, g: Point, rows: seq<Row>, zs: seq<int>)
    requires OnCurve(p, g) && |zs| == |rows| + 1
    requires forall i | 0 <= i <= |rows| :: zs[i] == JacPoint(p, g, rows, i).z
    ensures forall i | 0 <= i < |zs| :: R(p, zs[i]) == zs[i]
  {
    hide R;
    forall i | 0 <= i < |zs|
      ensures R(p, zs[i]) == zs[i]
    {
      JacPointResidues(p, g, rows, i);
      Small(p, zs[i]);
    }
  }

  // ---------------------------------------------------------------------
  // What the steps satisfy, and why they exist
  // ---------------------------------------------------------------------

  /** Steps chain, and each satisfies the slope, abscissa and ordinate relations of its op. */
  predicate StepRelations(p: Modulus, s: Step) {
    && OnCurve(p, s.a) && OnCurve(p, s.r) && IsResidue(p, s.lambda) && s.op <= 1
    && (s.op == 1 ==> R(p, s.lambda * (s.g.x - s.a.x)) == R(p, s.g.y - s.a.y))
    && (s.op == 0 ==> R(p, s.lambda * (2 * s.a.y)) == R(p, 3 * (s.a.x * s.a.x)))
    && s.r == ThirdPoint(p, s.lambda, s.a, if s.op == 1 then s.g.x else s.a.x)
  }

  lemma {:induction false} RefStepsSatisfyRelations(p: Modulus, g: Point, rows: seq<Row>, i: nat)
    requires OddPrime(p) && OnCurve(p, g) && OpsOnly(rows) && Regular(p, g, rows) && i < |rows|
    ensures StepRelations(p, RefSteps(p, g, rows)[i])
    ensures RefSteps(p, g, rows)[i].a == if i == 0 then g else RefSteps(p, g, rows)[i - 1].r
  {
    hide R, RefStep, RefLambda, Den, OnCurve;
    LadderRepresents(p, g, rows, i);
    StepSlope(p, g, RefPoint(p, g, rows, i), rows[i].op);
    LadderRepresents(p, g, rows, i + 1);
  }

  lemma {:induction false} StepSlope(p: Modulus, g: Point, a: Point, op: nat)
    requires OddPrime(p) && OnCurve(p, g) && OnCurve(p, a) && op <= 1 && Den(p, g, a, op) != 0
    ensures var l := RefLambda(p, g, a, op);
            && IsResidue(p, l)
            && (op == 1 ==> R(p, l * (g.x - a.x)) == R(p, g.y - a.y))
            && (op == 0 ==> R(p, l * (2 * a.y)) == R(p, 3 * (a.x * a.x)))
            && RefStep(p, g, a, op) == ThirdPoint(p, l, a, if op == 1 then g.x else a.x)
  {
    hide R;
    if op == 1 {
      ResidueZero(p, a.x, g.x);
      ChordSlope(p, a, g);
    } else {
      DoubleNonzero(p, a.y);
      TangentSlope(p, a);
    }
  }

  /** For a point of odd order and a scalar below it, row i meets Accumulator(i) * g. */
  lemma {:induction false} OrbitRun(p: Modulus, g: Point, order: nat, k: nat, n: nat)
    requires OddPrime(p) && OnCurve(p, g) && OrbitLaw(p, Affine(g), order) && order % 2 == 1
    requires 1 <= k < order && n <= |Rows(k)|
    ensures Mul(p, Accumulator(Rows(k), n), Affine(g)) == Affine(RefPoint(p, g, Rows(k), n))
    ensures RegularUpTo(p, g, Rows(k), n)
  {
    hide R, RefStep, Den, Mul, OrbitLaw, OnCurve, Rows, OddPrime;
    if n == 0 {
      MulOne(p, Affine(g));
    } else {
      hide RegularUpTo, StepScalar;
      OrbitRun(p, g, order, k, n - 1);
      AccumulatorRange(k, n - 1);
      OpIsBit(k, n - 1);
      OrbitRunStep(p, g, order, Accumulator(Rows(k), n - 1), RefPoint(p, g, Rows(k), n - 1), Rows(k)[n - 1].op, k);
      RegularNext(p, g, Rows(k), n - 1);
    }
  }

  lemma {:induction false} OpIsBit(k: nat, i: nat)
    requires k >= 1 && i < |Rows(k)|
    ensures Rows(k)[i].op <= 1
  {
    hide Rows, Msb, Popcount;
    ScheduleShape(k);
  }

  lemma {:induction false} RegularNext(p: Modulus, g: Point, rows: seq<Row>, n: nat)
    requires n < |rows| && RegularUpTo(p, g, rows, n) && Den(p, g, RefPoint(p, g, rows, n), rows[n].op) != 0
    ensures RegularUpTo(p, g, rows, n + 1)
  {
    hide Den, RefPoint;
  }

  lemma {:induction false} OrbitRunStep(p: Modulus, g: Point, order: nat, m: nat, a: Point, op: nat, k: nat)
    requires OddPrime(p) && OnCurve(p, g) && OrbitLaw(p, Affine(g), order) && order % 2 == 1
    requires k < order && op <= 1 && 1 <= m
    requires Mul(p, m, Affine(g)) == Affine(a)
    requires op == 0 ==> 2 * m <= k
    requires op == 1 ==> 2 <= m < k
    ensures Den(p, g, a, op) != 0
    ensures Mul(p, StepScalar(m, op), Affine(g)) == Affine(RefStep(p, g, a, op))
  {
    hide R;
    MulClosed(p, m, Affine(g));
    if op == 0 {
      OrbitNoVerticalTangent(p, Affine(g), order, m);
      DoubleNonzero(p, a.y);
    } else {
      OrbitAbscissa(p, Affine(g), order, m);
      ResidueZero(p, a.x, g.x);
    }
  }

  lemma {:induction false} AccumulatorIsFold(rows: seq<Row>)
    ensures Accumulator(rows, |rows|) == Fold(1, rows)
  {
    hide R;
    FoldSplit(rows, |rows|);
    assert rows[|rows|..] == [];
  }

  /** No denominator vanishes below an odd order, and the run ends at k*g. */
  lemma {:induction false} OrbitRunIsRegular(p: Modulus, g: Point, order: nat, k: nat)
    requires OddPrime(p) && OnCurve(p, g) && OrbitLaw(p, Affine(g), order) && order % 2 == 1
    requires 1 <= k < order
    ensures Regular(p, g, Rows(k))
    ensures Mul(p, k, Affine(g)) == Affine(RefPoint(p, g, Rows(k), |Rows(k)|))
  {
    hide R;
    OrbitRun(p, g, order, k, |Rows(k)|);
    AccumulatorIsFold(Rows(k));
    ScheduleComputesScalar(k);
  }
}
