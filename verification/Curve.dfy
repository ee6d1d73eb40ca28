/**
  The curve y^2 = x^3 + 7 over the integers modulo a prime, with the textbook
  chord-and-tangent addition. Scalar multiples are repeated addition.
 */
module Curve {
  import opened Modular

  const B := 7

  /** An affine curve point; the point at infinity is not representable. */
  datatype Point = Point(x: int, y: int)

  datatype Group = Infinity | Affine(pt: Point)

  ghost predicate OddPrime(p: nat) {
    IsPrime(p) && p > 2
  }

  predicate OnCurve(p: Modulus, a: Point) {
    && IsResidue(p, a.x) && IsResidue(p, a.y)
    && R(p, a.y * a.y) == R(p, a.x * a.x * a.x + B)
  }

  predicate InGroup(p: Modulus, a: Group) {
    a.Affine? ==> OnCurve(p, a.pt)
  }

  // ---------------------------------------------------------------------
  // Slopes and the third point of a line
  // ---------------------------------------------------------------------

  function ChordDen(p: Modulus, a: Point, g: Point): int { R(p, g.x - a.x) }

  function ChordNum(p: Modulus, a: Point, g: Point): int { R(p, g.y - a.y) }

  function TangentDen(p: Modulus, a: Point): int { R(p, 2 * a.y) }

  function TangentNum(p: Modulus, a: Point): int { R(p, 3 * (a.x * a.x)) }

  /** `num / den` in the field. */
  function Slope(p: Modulus, num: int, den: int): (l: int)
    ensures IsResidue(p, l)
  {
    FMul(p, num, Inv(p, den))
  }

  /** Reflection of the third intersection of the line of slope `l` through `a` and abscissa `x2`. */
  function ThirdPoint(p: Modulus, l: int, a: Point, x2: int): Point {
    var x3 := R(p, l * l - a.x - x2);
    Point(x3, R(p, l * (a.x - x3) - a.y))
  }

  function ChordSum(p: Modulus, a: Point, g: Point): Point {
    ThirdPoint(p, Slope(p, ChordNum(p, a, g), ChordDen(p, a, g)), a, g.x)
  }

  function TangentSum(p: Modulus, a: Point): Point {
    ThirdPoint(p, Slope(p, TangentNum(p, a), TangentDen(p, a)), a, a.x)
  }

  /** The textbook addition law. */
  function Add(p: Modulus, a: Group, b: Group): Group {
    if a.Infinity? then b
    else if b.Infinity? then a
    else if a.pt.x != b.pt.x then Affine(ChordSum(p, a.pt, b.pt))
    else if a.pt.y == b.pt.y && a.pt.y != 0 then Affine(TangentSum(p, a.pt))
    else Infinity
  }

  /** `k * a` by repeated addition. */
  function Mul(p: Modulus, k: nat, a: Group): Group {
    if k == 0 then Infinity else Add(p, Mul(p, k - 1, a), a)
  }

  // ---------------------------------------------------------------------
  // Slopes solve their defining equation
  // ---------------------------------------------------------------------

  lemma {:induction false} SlopeSolves(p: Modulus, num: int, den: int)
    requires IsPrime(p) && R(p, den) != 0
    ensures R(p, Slope(p, num, den) * den) == R(p, num)
  {
    hide R;
    var i := Inv(p, den);
    InvCorrect(p, den);
    Idempotent(p, num * i);
    CongScale(p, Slope(p, num, den), num * i, den);
    MulAssoc(num, i, den);
    Small(p, 1);
    CongScale(p, i * den, 1, num);
  }

  lemma {:induction false} SlopeUnique(p: Modulus, num: int, den: int, l: int)
    requires IsPrime(p) && R(p, den) != 0 && IsResidue(p, l)
    requires R(p, l * den) == R(p, num)
    ensures l == Slope(p, num, den)
  {
    hide R;
    SlopeSolves(p, num, den);
    CongCancel(p, l, Slope(p, num, den), den);
    Small(p, l);
    Small(p, Slope(p, num, den));
  }

  lemma {:induction false} ResidueZero(p: Modulus, a: int, b: int)
    requires IsResidue(p, a) && IsResidue(p, b)
    ensures R(p, b - a) == 0 <==> a == b
  {
    hide R;
    if R(p, b - a) == 0 {
      Small(p, 0);
      CongAdd(p, b - a, 0, a, a);
      assert (b - a) + a == b;
      Small(p, a);
      Small(p, b);
    } else {
      Small(p, 0);
    }
  }

  lemma {:induction false} DoubleNonzero(p: Modulus, y: int)
    requires OddPrime(p) && IsResidue(p, y)
    ensures R(p, 2 * y) == 0 <==> y == 0
  {
    hide R;
    NoZeroDivisors(p, 2, y);
    Small(p, 2);
    Small(p, y);
  }

  // ---------------------------------------------------------------------
  // The third point is on the curve
  // ---------------------------------------------------------------------

  /**
    The condition shared by chords and tangents: with `x2` the second abscissa,
    x2^2 + x2*x1 + x1^2 = 2*l*y1 + l^2*(x2 - x1).
   */
  predicate LineMeets(p: Modulus, l: int, a: Point, x2: int) {
    R(p, x2 * x2 + x2 * a.x + a.x * a.x) == R(p, 2 * l * a.y + (l * l) * (x2 - a.x))
  }

  lemma {:induction false} CubeDifference(x: int, z: int)
    ensures x * x * x - z * z * z == (x * x + x * z + z * z) * (x - z)
  {}

  lemma {:induction false} SquareOfLine(y: int, l: int, d: int)
    ensures (y + l * d) * (y + l * d) == y * y + (2 * l * y + (l * l) * d) * d
  {
    hide R;
    assert (l * d) * (l * d) == (l * l) * d * d;
  }

  lemma {:induction false} ChordMeets(p: Modulus, l: int, a: Point, g: Point)
    requires IsPrime(p) && OnCurve(p, a) && OnCurve(p, g) && a.x != g.x
    requires R(p, l * (g.x - a.x)) == R(p, g.y - a.y)
    ensures LineMeets(p, l, a, g.x)
  {
    hide R;
    var d := g.x - a.x;
    var s := 2 * l * a.y + (l * l) * d;
    var c := g.x * g.x + g.x * a.x + a.x * a.x;
    // (y1 + l*d)^2 = y2^2, both expanded
    CongAdd(p, a.y, a.y, l * d, g.y - a.y);
    CongMul(p, a.y + l * d, g.y, a.y + l * d, g.y);
    SquareOfLine(a.y, l, d);
    // subtract the curve equations
    CongAdd(p, g.y * g.y, g.x * g.x * g.x + B, a.y * a.y, a.x * a.x * a.x + B);
    CongAdd(p, a.y * a.y + s * d, g.y * g.y, a.y * a.y, a.y * a.y);
    CubeDifference(g.x, a.x);
    assert R(p, s * d) == R(p, c * d);
    ResidueZero(p, a.x, g.x);
    CongCancel(p, c, s, d);
  }

  lemma {:induction false} TangentMeets(p: Modulus, l: int, a: Point)
    requires R(p, l * (2 * a.y)) == R(p, 3 * (a.x * a.x))
    ensures LineMeets(p, l, a, a.x)
  {
    hide R;
    assert 2 * l * a.y == l * (2 * a.y);
    assert (l * l) * (a.x - a.x) == 0;
  }

  lemma {:induction false} ThirdPointMeets(p: Modulus, l: int, a: Point, x2: int, x3: int)
    requires LineMeets(p, l, a, x2)
    requires R(p, x3) == R(p, l * l - a.x - x2)
    ensures LineMeets(p, l, a, x3)
  {
    hide R;
    var e := x3 - x2;
    var c2 := x2 * x2 + x2 * a.x + a.x * a.x;
    var s2 := 2 * l * a.y + (l * l) * (x2 - a.x);
    CongAdd(p, x3, l * l - a.x - x2, a.x + x2, a.x + x2);
    CongScale(p, x3 + (a.x + x2), l * l, e);
    CongAdd(p, c2, s2, (x3 + (a.x + x2)) * e, (l * l) * e);
    ThirdPointExpand(a.x, x2, x3);
    assert s2 + (l * l) * e == 2 * l * a.y + (l * l) * (x3 - a.x);
  }

  lemma {:induction false} ThirdPointExpand(x1: int, x2: int, x3: int)
    ensures x2 * x2 + x2 * x1 + x1 * x1 + (x3 + (x1 + x2)) * (x3 - x2) == x3 * x3 + x3 * x1 + x1 * x1
  {}

  lemma {:induction false} MeetingIsOnCurve(p: Modulus, l: int, a: Point, x3: int, y3: int)
    requires OnCurve(p, a) && LineMeets(p, l, a, x3)
    requires R(p, y3) == R(p, l * (a.x - x3) - a.y)
    ensures R(p, y3 * y3) == R(p, x3 * x3 * x3 + B)
  {
    hide R;
    var d := x3 - a.x;
    var s := 2 * l * a.y + (l * l) * d;
    var c := x3 * x3 + x3 * a.x + a.x * a.x;
    CongMul(p, y3, l * (a.x - x3) - a.y, y3, l * (a.x - x3) - a.y);
    NegatedSquare(a.y, l, a.x, x3);
    SquareOfLine(a.y, l, d);
    CongScale(p, c, s, d);
    CubeDifference(x3, a.x);
    CongAdd(p, a.y * a.y, a.x * a.x * a.x + B, s * d, c * d);
  }

  lemma {:induction false} NegatedSquare(y: int, l: int, x: int, z: int)
    ensures (l * (x - z) - y) * (l * (x - z) - y) == (y + l * (z - x)) * (y + l * (z - x))
  {
    hide R;
    var u := y + l * (z - x);
    assert l * (x - z) - y == -u;
    assert (-u) * (-u) == u * u;
  }

  lemma {:induction false} ThirdPointOnCurve(p: Modulus, l: int, a: Point, x2: int)
    requires OnCurve(p, a) && LineMeets(p, l, a, x2)
    ensures OnCurve(p, ThirdPoint(p, l, a, x2))
  {
    hide R;
    var t := ThirdPoint(p, l, a, x2);
    Idempotent(p, l * l - a.x - x2);
    ThirdPointMeets(p, l, a, x2, t.x);
    Idempotent(p, l * (a.x - t.x) - a.y);
    MeetingIsOnCurve(p, l, a, t.x, t.y);
  }

  // ---------------------------------------------------------------------
  // Closure
  // ---------------------------------------------------------------------

  lemma {:induction false} ChordSlope(p: Modulus, a: Point, g: Point)
    requires IsPrime(p) && OnCurve(p, a) && OnCurve(p, g) && a.x != g.x
    ensures var l := Slope(p, ChordNum(p, a, g), ChordDen(p, a, g));
            R(p, l * (g.x - a.x)) == R(p, g.y - a.y)
  {
    hide R;
    var l := Slope(p, ChordNum(p, a, g), ChordDen(p, a, g));
    ResidueZero(p, a.x, g.x);
    Idempotent(p, g.x - a.x);
    Idempotent(p, g.y - a.y);
    SlopeSolves(p, ChordNum(p, a, g), ChordDen(p, a, g));
    CongScale(p, ChordDen(p, a, g), g.x - a.x, l);
  }

  lemma {:induction false} TangentSlope(p: Modulus, a: Point)
    requires OddPrime(p) && OnCurve(p, a) && a.y != 0
    ensures var l := Slope(p, TangentNum(p, a), TangentDen(p, a));
            R(p, l * (2 * a.y)) == R(p, 3 * (a.x * a.x))
  {
    hide R;
    var l := Slope(p, TangentNum(p, a), TangentDen(p, a));
    DoubleNonzero(p, a.y);
    Idempotent(p, 2 * a.y);
    Idempotent(p, 3 * (a.x * a.x));
    SlopeSolves(p, TangentNum(p, a), TangentDen(p, a));
    CongScale(p, TangentDen(p, a), 2 * a.y, l);
  }

  lemma {:induction false} ChordOnCurve(p: Modulus, a: Point, g: Point)
    requires IsPrime(p) && OnCurve(p, a) && OnCurve(p, g) && a.x != g.x
    ensures OnCurve(p, ChordSum(p, a, g))
  {
    hide R;
    var l := Slope(p, ChordNum(p, a, g), ChordDen(p, a, g));
    ChordSlope(p, a, g);
    ChordMeets(p, l, a, g);
    ThirdPointOnCurve(p, l, a, g.x);
  }

  lemma {:induction false} TangentOnCurve(p: Modulus, a: Point)
    requires OddPrime(p) && OnCurve(p, a) && a.y != 0
    ensures OnCurve(p, TangentSum(p, a))
  {
    hide R;
    var l := Slope(p, TangentNum(p, a), TangentDen(p, a));
    TangentSlope(p, a);
    TangentMeets(p, l, a);
    ThirdPointOnCurve(p, l, a, a.x);
  }

  /** The addition law is closed on the curve. */
  lemma {:induction false} AddClosed(p: Modulus, a: Group, b: Group)
    requires OddPrime(p) && InGroup(p, a) && InGroup(p, b)
    ensures InGroup(p, Add(p, a, b))
  {
    hide R;
    if a.Affine? && b.Affine? {
      if a.pt.x != b.pt.x {
        ChordOnCurve(p, a.pt, b.pt);
      } else if a.pt.y == b.pt.y && a.pt.y != 0 {
        TangentOnCurve(p, a.pt);
      }
    }
  }

  lemma {:induction false} MulClosed(p: Modulus, k: nat, a: Group)
    requires OddPrime(p) && InGroup(p, a)
    ensures InGroup(p, Mul(p, k, a))
  {
    hide R;
    if k > 0 {
      MulClosed(p, k - 1, a);
      AddClosed(p, Mul(p, k - 1, a), a);
    }
  }

  // ---------------------------------------------------------------------
  // Negation is an automorphism, so x(k*P) does not depend on the sign of P
  // ---------------------------------------------------------------------

  function Neg(p: Modulus, a: Group): Group {
    if a.Infinity? then Infinity else Affine(Point(a.pt.x, R(p, -a.pt.y)))
  }

  lemma {:induction false} NegSquare(p: Modulus, y: int)
    ensures R(p, R(p, -y) * R(p, -y)) == R(p, y * y)
  {
    hide R;
    Idempotent(p, -y);
    CongMul(p, R(p, -y), -y, R(p, -y), -y);
    assert (-y) * (-y) == y * y;
  }

  lemma {:induction false} ThirdPointNeg(p: Modulus, l: int, l': int, a: Point, a': Point, x2: int)
    requires R(p, l') == R(p, -l)
    requires a'.x == a.x && R(p, a'.y) == R(p, -a.y)
    ensures Neg(p, Affine(ThirdPoint(p, l, a, x2))) == Affine(ThirdPoint(p, l', a', x2))
  {
    hide R;
    ThirdPointNegX(p, l, l', a.x, x2);
    var x3 := R(p, l * l - a.x - x2);
    ThirdPointNegY(p, l, l', a.x - x3, a.y, a'.y);
  }

  lemma {:induction false} ThirdPointNegX(p: Modulus, l: int, l': int, x1: int, x2: int)
    requires R(p, l') == R(p, -l)
    ensures R(p, l' * l' - x1 - x2) == R(p, l * l - x1 - x2)
  {
    hide R;
    CongMul(p, l', -l, l', -l);
    assert (-l) * (-l) == l * l;
    CongAdd(p, l' * l', l * l, x1 + x2, x1 + x2);
    assert l * l - (x1 + x2) == l * l - x1 - x2;
    assert l' * l' - (x1 + x2) == l' * l' - x1 - x2;
  }

  lemma {:induction false} ThirdPointNegY(p: Modulus, l: int, l': int, d: int, y: int, y': int)
    requires R(p, l') == R(p, -l) && R(p, y') == R(p, -y)
    ensures R(p, -R(p, l * d - y)) == R(p, l' * d - y')
  {
    hide R;
    CongScale(p, l', -l, d);
    CongAdd(p, l' * d, (-l) * d, y', -y);
    Idempotent(p, l * d - y);
    CongAdd(p, 0, 0, R(p, l * d - y), l * d - y);
    assert (-l) * d == -(l * d);
  }

  lemma {:induction false} SlopeNeg(p: Modulus, num: int, den: int, num': int, den': int)
    requires IsPrime(p) && R(p, den) != 0 && R(p, den') != 0
    requires (R(p, num') == R(p, -num) && R(p, den') == R(p, den))
          || (R(p, num') == R(p, num) && R(p, den') == R(p, -den))
    ensures R(p, Slope(p, num', den')) == R(p, -Slope(p, num, den))
  {
    hide R;
    var l, l' := Slope(p, num, den), Slope(p, num', den');
    SlopeSolves(p, num, den);
    SlopeSolves(p, num', den');
    CongAdd(p, 0, 0, l * den, num);
    assert (-l) * den == -(l * den);
    assert l' * (-den) == -(l' * den);
    if R(p, den') == R(p, den) && R(p, num') == R(p, -num) {
      CongScale(p, den', den, l');
    } else {
      CongScale(p, den', -den, l');
      CongAdd(p, 0, 0, -(l' * den), num);
      assert 0 - (-(l' * den)) == l' * den;
    }
    CongCancel(p, l', -l, den);
  }

  lemma {:induction false} NegFlips(p: Modulus, a: Point)
    requires OnCurve(p, a)
    ensures var y' := R(p, -a.y); (y' == 0 <==> a.y == 0) && IsResidue(p, y')
    ensures R(p, R(p, -a.y)) == R(p, -a.y)
  {
    hide R;
    NegResidue(p, a.y);
    Idempotent(p, -a.y);
  }

  lemma {:induction false} NegInjective(p: Modulus, y: int, z: int)
    requires IsResidue(p, y) && IsResidue(p, z)
    ensures R(p, -y) == R(p, -z) <==> y == z
  {
    hide R;
    NegResidue(p, y);
    NegResidue(p, z);
  }

  lemma {:induction false} AddNeg(p: Modulus, a: Group, b: Group)
    requires OddPrime(p) && InGroup(p, a) && InGroup(p, b)
    ensures Add(p, Neg(p, a), Neg(p, b)) == Neg(p, Add(p, a, b))
  {
    hide R;
    if a.Affine? && b.Affine? {
      var u, v := a.pt, b.pt;
      var u', v' := Neg(p, a).pt, Neg(p, b).pt;
      NegFlips(p, u);
      NegFlips(p, v);
      NegInjective(p, u.y, v.y);
      if u.x != v.x {
        AddNegChord(p, u, v, u', v');
      } else if u.y == v.y && u.y != 0 {
        AddNegTangent(p, u, u');
      }
    }
  }

  lemma {:induction false} AddNegChord(p: Modulus, u: Point, v: Point, u': Point, v': Point)
    requires IsPrime(p) && OnCurve(p, u) && OnCurve(p, v) && u.x != v.x
    requires u' == Point(u.x, R(p, -u.y)) && v' == Point(v.x, R(p, -v.y))
    ensures Affine(ChordSum(p, u', v')) == Neg(p, Affine(ChordSum(p, u, v)))
  {
    hide R;
    Idempotent(p, -u.y);
    Idempotent(p, -v.y);
    var n, n', d := ChordNum(p, u, v), ChordNum(p, u', v'), ChordDen(p, u, v);
    CongAdd(p, v'.y, -v.y, u'.y, -u.y);
    Idempotent(p, v.y - u.y);
    Idempotent(p, v'.y - u'.y);
    CongAdd(p, 0, 0, n, v.y - u.y);
    assert -v.y - (-u.y) == 0 - (v.y - u.y);
    ResidueZero(p, u.x, v.x);
    Idempotent(p, v.x - u.x);
    SlopeNeg(p, n, d, n', d);
    ThirdPointNeg(p, Slope(p, n, d), Slope(p, n', d), u, u', v.x);
  }

  lemma {:induction false} AddNegTangent(p: Modulus, u: Point, u': Point)
    requires OddPrime(p) && OnCurve(p, u) && u.y != 0
    requires u' == Point(u.x, R(p, -u.y))
    ensures Affine(TangentSum(p, u')) == Neg(p, Affine(TangentSum(p, u)))
  {
    hide R;
    NegFlips(p, u);
    var n, d, d' := TangentNum(p, u), TangentDen(p, u), TangentDen(p, u');
    CongScale(p, u'.y, -u.y, 2);
    Idempotent(p, 2 * u.y);
    Idempotent(p, 2 * u'.y);
    CongAdd(p, 0, 0, d, 2 * u.y);
    DoubleNonzero(p, u.y);
    DoubleNonzero(p, u'.y);
    SlopeNeg(p, n, d, n, d');
    ThirdPointNeg(p, Slope(p, n, d), Slope(p, n, d'), u, u', u.x);
  }

  /** x-only queries are parity-invariant: k*(-P) = -(k*P). */
  lemma {:induction false} MulNeg(p: Modulus, k: nat, a: Group)
    requires OddPrime(p) && InGroup(p, a)
    ensures Mul(p, k, Neg(p, a)) == Neg(p, Mul(p, k, a))
  {
    hide R;
    if k > 0 {
      MulNeg(p, k - 1, a);
      MulClosed(p, k - 1, a);
      AddNeg(p, Mul(p, k - 1, a), a);
    }
  }

  // ---------------------------------------------------------------------
  // Adding a point and its negation cancels
  // ---------------------------------------------------------------------

  /** The third point S of a line through b satisfies -b.y - S.y = -l*(b.x - S.x). */
  lemma {:induction false} BackSlope(p: Modulus, l: int, a: Point, b: Point)
    requires R(p, l * (b.x - a.x)) == R(p, b.y - a.y)
    ensures var s := ThirdPoint(p, l, a, b.x); R(p, R(p, -b.y) - s.y) == R(p, -l * (b.x - s.x))
  {
    hide R;
    var x := R(p, l * l - a.x - b.x);
    Idempotent(p, -b.y);
    Idempotent(p, l * (a.x - x) - a.y);
    CongAdd(p, R(p, -b.y), -b.y, R(p, l * (a.x - x) - a.y), l * (a.x - x) - a.y);
    CongAdd(p, 0, 0, b.y - a.y, l * (b.x - a.x));
    CongAdd(p, 0 - (b.y - a.y), 0 - l * (b.x - a.x), l * (a.x - x), l * (a.x - x));
    BackSlopeIdentity(l, a.x, b.x, x, a.y, b.y);
  }

  lemma {:induction false} BackSlopeIdentity(l: int, ux: int, vx: int, x: int, uy: int, vy: int)
    ensures -vy - (l * (ux - x) - uy) == (0 - (vy - uy)) - l * (ux - x)
    ensures (0 - l * (vx - ux)) - l * (ux - x) == -l * (vx - x)
  {
    assert l * (vx - ux) + l * (ux - x) == l * (vx - x);
    assert -l * (vx - x) == -(l * (vx - x));
  }

  /** Following the reflected line back from S through -b meets a. */
  lemma {:induction false} BackToStart(p: Modulus, l: int, m: int, a: Point, x2: int)
    requires IsResidue(p, a.x) && IsResidue(p, a.y) && R(p, m) == R(p, -l)
    ensures ThirdPoint(p, m, ThirdPoint(p, l, a, x2), x2) == a
  {
    hide R;
    var s := ThirdPoint(p, l, a, x2);
    BackAbscissa(p, l, m, a.x, x2, s.x);
    BackOrdinate(p, l, m, s.x, a.x, s.y, a.y);
  }

  lemma {:induction false} BackAbscissa(p: Modulus, l: int, m: int, x: int, x2: int, x3: int)
    requires IsResidue(p, x) && R(p, m) == R(p, -l) && x3 == R(p, l * l - x - x2)
    ensures R(p, m * m - x3 - x2) == x
  {
    hide R;
    CongMul(p, m, -l, m, -l);
    assert (-l) * (-l) == l * l;
    Idempotent(p, l * l - x - x2);
    CongAdd(p, m * m, l * l, x3, l * l - x - x2);
    CongAdd(p, m * m - x3, x + x2, x2, x2);
    Small(p, x);
  }

  lemma {:induction false} BackOrdinate(p: Modulus, l: int, m: int, x3: int, x: int, y3: int, y: int)
    requires IsResidue(p, y) && R(p, m) == R(p, -l) && y3 == R(p, l * (x - x3) - y)
    ensures R(p, m * (x3 - x) - y3) == y
  {
    hide R;
    CongScale(p, m, -l, x3 - x);
    Idempotent(p, l * (x - x3) - y);
    CongAdd(p, m * (x3 - x), -l * (x3 - x), y3, l * (x - x3) - y);
    assert -l * (x3 - x) == l * (x - x3);
    Small(p, y);
  }

  /** A line that leaves b at b's own abscissa is the tangent there. */
  lemma {:induction false} DoubleMeeting(p: Modulus, l: int, b: Point, ax: int)
    requires LineMeets(p, l, b, ax) && R(p, l * l - ax - b.x) == R(p, b.x)
    ensures R(p, l * (2 * b.y)) == R(p, 3 * (b.x * b.x))
  {
    hide R;
    var d := ax - b.x;
    CongAdd(p, l * l - ax - b.x, b.x, ax + b.x, ax + b.x);
    CongScale(p, l * l, ax + 2 * b.x, d);
    var c := ax * ax + ax * b.x + b.x * b.x;
    CongAdd(p, c, 2 * l * b.y + (l * l) * d, (ax + 2 * b.x) * d, (l * l) * d);
    DoubleMeetingIdentity(ax, b.x);
    assert 2 * l * b.y == l * (2 * b.y);
  }

  lemma {:induction false} DoubleMeetingIdentity(a: int, b: int)
    ensures a * a + a * b + b * b - (a + 2 * b) * (a - b) == 3 * (b * b)
  {
    assert (a + 2 * b) * (a - b) == a * a + a * b - 2 * (b * b);
  }

  /** A chord can also be read from its other end. */
  lemma {:induction false} ChordFromOtherEnd(p: Modulus, l: int, a: Point, b: Point)
    requires R(p, l * (b.x - a.x)) == R(p, b.y - a.y)
    ensures R(p, l * (a.x - b.x)) == R(p, a.y - b.y)
  {
    hide R;
    CongAdd(p, 0, 0, l * (b.x - a.x), b.y - a.y);
    assert 0 - l * (b.x - a.x) == l * (a.x - b.x);
  }

  /** No tangent is horizontal and vertical at once: a point with y = 0 has x != 0 and so a nonzero numerator. */
  lemma {:induction false} NotSingular(p: Modulus, b: Point)
    requires IsPrime(p) && p > 7 && OnCurve(p, b) && b.y == 0
    ensures R(p, 3 * (b.x * b.x)) != 0
  {
    hide R;
    Small(p, 0);
    Small(p, 3);
    Small(p, b.x);
    Small(p, B);
    NoZeroDivisors(p, 3, b.x * b.x);
    NoZeroDivisors(p, b.x, b.x);
    assert b.y * b.y == 0;
    assert b.x == 0 ==> b.x * b.x * b.x + B == B;
  }

  lemma {:induction false} CancelChord(p: Modulus, l: int, a: Point, b: Point)
    requires IsPrime(p) && OnCurve(p, a) && OnCurve(p, b) && R(p, l * (b.x - a.x)) == R(p, b.y - a.y)
    requires ThirdPoint(p, l, a, b.x).x != b.x
    ensures ChordSum(p, ThirdPoint(p, l, a, b.x), Point(b.x, R(p, -b.y))) == a
  {
    hide R;
    var s, b' := ThirdPoint(p, l, a, b.x), Point(b.x, R(p, -b.y));
    BackSlope(p, l, a, b);
    ResidueZero(p, s.x, b.x);
    var m := Slope(p, ChordNum(p, s, b'), ChordDen(p, s, b'));
    Idempotent(p, b.x - s.x);
    Idempotent(p, b'.y - s.y);
    SlopeSolves(p, ChordNum(p, s, b'), ChordDen(p, s, b'));
    CongScale(p, ChordDen(p, s, b'), b.x - s.x, m);
    CongCancel(p, m, -l, b.x - s.x);
    BackToStart(p, l, m, a, b.x);
  }

  /** When the line is tangent at b, the sum is -b and doubling it gives a. */
  lemma {:induction false} CancelTangent(p: Modulus, l: int, a: Point, b: Point)
    requires OddPrime(p) && p > 7 && OnCurve(p, a) && OnCurve(p, b)
    requires R(p, l * (b.x - a.x)) == R(p, b.y - a.y) && R(p, l * (2 * b.y)) == R(p, 3 * (b.x * b.x))
    requires ThirdPoint(p, l, a, b.x).x == b.x
    ensures b.y != 0 && ThirdPoint(p, l, a, b.x) == Point(b.x, R(p, -b.y))
    ensures TangentSum(p, ThirdPoint(p, l, a, b.x)) == a
  {
    hide R;
    var s := ThirdPoint(p, l, a, b.x);
    Small(p, 0);
    assert b.y == 0 ==> l * (2 * b.y) == 0;
    if b.y == 0 {
      NotSingular(p, b);
    }
    BackSlope(p, l, a, b);
    assert -l * (b.x - s.x) == 0;
    Idempotent(p, -b.y);
    Idempotent(p, l * (a.x - s.x) - a.y);
    ResidueZero(p, s.y, R(p, -b.y));
    Small(p, 0);
    NegFlips(p, b);
    DoubleNonzero(p, s.y);
    var m := Slope(p, TangentNum(p, s), TangentDen(p, s));
    Idempotent(p, 3 * (s.x * s.x));
    Idempotent(p, 2 * s.y);
    CongScale(p, s.y, -b.y, 2);
    SlopeSolves(p, TangentNum(p, s), TangentDen(p, s));
    CongScale(p, TangentDen(p, s), 2 * -b.y, m);
    NegatedSlope(p, l, m, b);
    BackToStart(p, l, m, a, b.x);
  }

  lemma {:induction false} NegatedSlope(p: Modulus, l: int, m: int, b: Point)
    requires OddPrime(p) && IsResidue(p, b.y) && b.y != 0
    requires R(p, m * (2 * -b.y)) == R(p, 3 * (b.x * b.x)) && R(p, l * (2 * b.y)) == R(p, 3 * (b.x * b.x))
    ensures R(p, m) == R(p, -l)
  {
    hide R;
    assert -l * (2 * -b.y) == l * (2 * b.y);
    NegResidue(p, b.y);
    Idempotent(p, -b.y);
    NoZeroDivisors(p, 2, -b.y);
    Small(p, 2);
    CongCancel(p, m, -l, 2 * -b.y);
  }

  /** (a + b) - b = a, for all curve points and infinity. */
  lemma {:induction false} AddCancels(p: Modulus, a: Group, b: Group)
    requires OddPrime(p) && p > 7 && InGroup(p, a) && InGroup(p, b)
    ensures Add(p, Add(p, a, b), Neg(p, b)) == a
  {
    hide R, OnCurve, ChordSum, TangentSum;
    if b.Affine? {
      if a.Infinity? {
        OppositesVanish(p, b.pt);
      } else if a.pt.x != b.pt.x {
        ChordCancels(p, a.pt, b.pt);
      } else if a.pt.y == b.pt.y && a.pt.y != 0 {
        TangentCancels(p, a.pt);
      } else {
        OppositeOf(p, a.pt, b.pt);
      }
    }
  }

  lemma {:induction false} OppositesVanish(p: Modulus, v: Point)
    requires OddPrime(p) && OnCurve(p, v)
    ensures Add(p, Affine(v), Neg(p, Affine(v))) == Infinity
  {
    hide R, ChordSum, TangentSum;
    NegResidue(p, v.y);
    OddPrimeIsOdd(p);
  }

  lemma {:induction false} OddPrimeIsOdd(p: Modulus)
    requires OddPrime(p)
    ensures p % 2 == 1
  {
    assert !Divides(2, p);
  }

  lemma {:induction false} OppositeOf(p: Modulus, u: Point, v: Point)
    requires OddPrime(p) && OnCurve(p, u) && OnCurve(p, v) && u.x == v.x && (u.y != v.y || u.y == 0)
    ensures Neg(p, Affine(v)) == Affine(u)
  {
    hide R;
    SquareRoots(p, u.y, v.y);
    Small(p, u.y);
    Small(p, v.y);
    NegResidue(p, v.y);
  }

  lemma {:induction false} ChordCancels(p: Modulus, u: Point, v: Point)
    requires OddPrime(p) && p > 7 && OnCurve(p, u) && OnCurve(p, v) && u.x != v.x
    ensures Add(p, Affine(ChordSum(p, u, v)), Neg(p, Affine(v))) == Affine(u)
  {
    hide R, OnCurve, LineMeets, Add;
    var l := Slope(p, ChordNum(p, u, v), ChordDen(p, u, v));
    ChordSlope(p, u, v);
    ChordFromOtherEnd(p, l, u, v);
    ChordMeets(p, l, v, u);
    LineCancels(p, l, u, v);
  }

  lemma {:induction false} TangentCancels(p: Modulus, u: Point)
    requires OddPrime(p) && p > 7 && OnCurve(p, u) && u.y != 0
    ensures Add(p, Affine(TangentSum(p, u)), Neg(p, Affine(u))) == Affine(u)
  {
    hide R, OnCurve, LineMeets, Add;
    var l := Slope(p, TangentNum(p, u), TangentDen(p, u));
    TangentSlope(p, u);
    TangentMeets(p, l, u);
    assert l * (u.x - u.x) == 0 && u.y - u.y == 0;
    LineCancels(p, l, u, u);
  }

  lemma {:induction false} LineCancels(p: Modulus, l: int, u: Point, v: Point)
    requires OddPrime(p) && p > 7 && OnCurve(p, u) && OnCurve(p, v)
    requires R(p, l * (v.x - u.x)) == R(p, v.y - u.y) && LineMeets(p, l, v, u.x)
    ensures Add(p, Affine(ThirdPoint(p, l, u, v.x)), Affine(Point(v.x, R(p, -v.y)))) == Affine(u)
  {
    hide R;
    var s := ThirdPoint(p, l, u, v.x);
    if s.x != v.x {
      CancelChord(p, l, u, v);
    } else {
      Idempotent(p, l * l - u.x - v.x);
      DoubleMeeting(p, l, v, u.x);
      CancelTangent(p, l, u, v);
      NegFlips(p, v);
    }
  }

  /** Addition does not depend on the order of its operands. */
  lemma {:induction false} AddCommutes(p: Modulus, a: Group, b: Group)
    requires OddPrime(p) && InGroup(p, a) && InGroup(p, b)
    ensures Add(p, a, b) == Add(p, b, a)
  {
    hide R, ChordSum, TangentSum;
    if a.Affine? && b.Affine? && a.pt.x != b.pt.x {
      ChordCommutes(p, a.pt, b.pt);
    }
  }

  lemma {:induction false} ChordCommutes(p: Modulus, u: Point, v: Point)
    requires IsPrime(p) && OnCurve(p, u) && OnCurve(p, v) && u.x != v.x
    ensures ChordSum(p, u, v) == ChordSum(p, v, u)
  {
    hide R, Slope;
    var l := Slope(p, ChordNum(p, u, v), ChordDen(p, u, v));
    ChordSlope(p, u, v);
    ChordFromOtherEnd(p, l, u, v);
    SameSlope(p, l, u, v);
    hide OnCurve, ChordNum, ChordDen;
    assert l * l - u.x - v.x == l * l - v.x - u.x;
    OrdinateFromOtherEnd(p, l, u, v, R(p, l * l - u.x - v.x));
  }

  lemma {:induction false} OrdinateFromOtherEnd(p: Modulus, l: int, u: Point, v: Point, x: int)
    requires R(p, l * (u.x - v.x)) == R(p, u.y - v.y)
    ensures R(p, l * (u.x - x) - u.y) == R(p, l * (v.x - x) - v.y)
  {
    hide R;
    CongAdd(p, l * (u.x - v.x), u.y - v.y, l * (v.x - x) - u.y, l * (v.x - x) - u.y);
    OtherEndIdentity(l, u.x, v.x, x, u.y, v.y);
  }

  lemma {:induction false} SameSlope(p: Modulus, l: int, u: Point, v: Point)
    requires IsPrime(p) && OnCurve(p, u) && OnCurve(p, v) && u.x != v.x && IsResidue(p, l)
    requires R(p, l * (u.x - v.x)) == R(p, u.y - v.y)
    ensures l == Slope(p, ChordNum(p, v, u), ChordDen(p, v, u))
  {
    hide R, Slope;
    ResidueZero(p, v.x, u.x);
    Idempotent(p, u.x - v.x);
    Idempotent(p, u.y - v.y);
    CongScale(p, ChordDen(p, v, u), u.x - v.x, l);
    SlopeUnique(p, ChordNum(p, v, u), ChordDen(p, v, u), l);
  }

  lemma {:induction false} OtherEndIdentity(l: int, ux: int, vx: int, x: int, uy: int, vy: int)
    ensures l * (ux - vx) + (l * (vx - x) - uy) == l * (ux - x) - uy
    ensures (uy - vy) + (l * (vx - x) - uy) == l * (vx - x) - vy
  {
    assert l * (ux - vx) + l * (vx - x) == l * (ux - x);
  }

  // ---------------------------------------------------------------------
  // Points of known order
  // ---------------------------------------------------------------------

  /**
    What the curve standard states about a point of order `order`: multiples of
    `g` add like their scalars, and only multiples of the order vanish.
   */
  ghost predicate OrbitLaw(p: Modulus, g: Group, order: nat) {
    && order > 0
    && (forall m: nat, n: nat :: AddsLikeScalars(p, g, m, n))
    && (forall m: nat :: VanishesAtOrder(p, g, order, m))
  }

  predicate AddsLikeScalars(p: Modulus, g: Group, m: nat, n: nat) {
    Add(p, Mul(p, m, g), Mul(p, n, g)) == Mul(p, m + n, g)
  }

  predicate VanishesAtOrder(p: Modulus, g: Group, order: nat, m: nat)
    requires order > 0
  {
    Mul(p, m, g).Infinity? <==> m % order == 0
  }

  lemma {:induction false} MulOne(p: Modulus, g: Group)
    ensures Mul(p, 1, g) == g
  {
    hide R;
    assert Mul(p, 0, g) == Infinity;
  }

  /** A doubled multiple below an odd order never has a vertical tangent. */
  lemma {:induction false} OrbitNoVerticalTangent(p: Modulus, g: Group, order: nat, m: nat)
    requires OrbitLaw(p, g, order) && order % 2 == 1
    requires 1 <= m < order
    ensures Mul(p, m, g).Affine? && Mul(p, m, g).pt.y != 0
    ensures Mul(p, 2 * m, g) == Affine(TangentSum(p, Mul(p, m, g).pt))
  {
    hide R;
    var a := Mul(p, m, g);
    OddOrderDoubles(order, m);
    assert AddsLikeScalars(p, g, m, m);
    assert VanishesAtOrder(p, g, order, m) && VanishesAtOrder(p, g, order, m + m);
  }

  lemma {:induction false} OddOrderDoubles(order: nat, m: nat)
    requires order % 2 == 1 && 1 <= m < order
    ensures m % order != 0 && (m + m) % order != 0 && m + m == 2 * m
  {
    hide R;
    DivModUnique(m, order, 0, m);
    if 2 * m < order {
      DivModUnique(2 * m, order, 0, 2 * m);
    } else {
      DivModUnique(2 * m, order, 1, 2 * m - order);
    }
  }

  /** Only the multiples 1 and -1 of `g` share the abscissa of `g`. */
  lemma {:induction false} OrbitAbscissa(p: Modulus, g: Group, order: nat, m: nat)
    requires OddPrime(p) && g.Affine? && OnCurve(p, g.pt)
    requires OrbitLaw(p, g, order)
    requires 2 <= m < order - 1
    ensures Mul(p, m, g).Affine? && Mul(p, m, g).pt.x != g.pt.x
    ensures Mul(p, m + 1, g) == Affine(ChordSum(p, Mul(p, m, g).pt, g.pt))
  {
    hide R;
    var a := Mul(p, m, g);
    MulOne(p, g);
    MulClosed(p, m, g);
    assert m % order != 0 by { DivModUnique(m, order, 0, m); }
    assert (m + 1) % order != 0 by { DivModUnique(m + 1, order, 0, m + 1); }
    assert AddsLikeScalars(p, g, m, 1);
    assert VanishesAtOrder(p, g, order, m) && VanishesAtOrder(p, g, order, m + 1);
    if a.pt.x == g.pt.x {
      SquareRoots(p, a.pt.y, g.pt.y);
      Small(p, a.pt.y);
      Small(p, g.pt.y);
      NegResidue(p, g.pt.y);
      // a = -g would make (m+1)*g vanish, so a = g
      assert a == g;
      OrbitDistinct(p, g, order, m);
      assert false;
    }
  }

  lemma {:induction false} OrbitDistinct(p: Modulus, g: Group, order: nat, m: nat)
    requires OrbitLaw(p, g, order)
    requires 2 <= m < order
    ensures Mul(p, m, g) != g
  {
    hide R;
    MulOne(p, g);
    assert AddsLikeScalars(p, g, m, order - 1) && AddsLikeScalars(p, g, 1, order - 1);
    assert VanishesAtOrder(p, g, order, m + (order - 1)) && VanishesAtOrder(p, g, order, 1 + (order - 1));
    assert order % order == 0 by { DivModUnique(order, order, 1, 0); }
    assert (m + (order - 1)) % order != 0 by { DivModUnique(m + (order - 1), order, 1, m - 1); }
  }
}
