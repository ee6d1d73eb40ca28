/**
  k1*P1 + k2*P2 from four x-only scalar-multiplication answers. `SolveY`
  recovers the ordinate of k*P from x(k*P) and x((k+1)*P).
 */
module LinearCombination {
  import opened Modular
  import opened Curve
  import opened Outcomes
  import Hints

  type Oracle = (int, nat) -> Option<int>

  function SolveY(p: Modulus, xp: int, yp: int, xa: int, xc: int, dx: int, invDen: int): Option<int> {
    var t := FAdd(p, FAdd(p, xc, xa), xp);
    var xa3 := FMul(p, FMul(p, xa, xa), xa);
    var xp3 := FMul(p, FMul(p, xp, xp), xp);
    var lambda := FMul(p, FSub(p, FSub(p, xa3, xp3), FMul(p, t, FMul(p, dx, dx))), invDen);
    if FMul(p, lambda, lambda) != t then None
    else Some(FAdd(p, yp, FMul(p, lambda, dx)))
  }

  predicate NearEdge(order: nat, k: nat) {
    k == 0 || k == 1 || k == order - 1
  }

  /** Everything before the closing check. `order` is the scalar modulus; `hint` serves the shared inversion. */
  function Candidate(p: Modulus, order: nat, a1: Group, k1: nat, a2: Group, k2: nat,
                     oracle: Oracle, hint: int -> nat): Option<Point>
    requires order > 0
  {
    if a1.Infinity? || a2.Infinity? then None
    else if NearEdge(order, k1) || NearEdge(order, k2) then None
    else
      var xa :- oracle(a1.pt.x, k1);
      var xc1 :- oracle(a1.pt.x, (k1 + 1) % order);
      var xb :- oracle(a2.pt.x, k2);
      var xc2 :- oracle(a2.pt.x, (k2 + 1) % order);
      Combine(p, a1.pt, a2.pt, xa, xc1, xb, xc2, hint)
  }

  /** The algebra after the oracle has answered. */
  function Combine(p: Modulus, g1: Point, g2: Point, xa: int, xc1: int, xb: int, xc2: int, hint: int -> nat)
    : Option<Point>
  {
    var dx1, dx2, dxq := FSub(p, xa, g1.x), FSub(p, xb, g2.x), FSub(p, xb, xa);
    if dx1 == 0 || dx2 == 0 || dxq == 0 then None
    else
      var den1 := FMul(p, FAdd(p, g1.y, g1.y), dx1);
      var den2 := FMul(p, FAdd(p, g2.y, g2.y), dx2);
      var inv :- Hints.HintedInverse(p, FMul(p, FMul(p, den1, den2), dxq), hint);
      var invDen1 := FMul(p, FMul(p, inv, den2), dxq);
      var invDen2 := FMul(p, FMul(p, inv, den1), dxq);
      var invDxq := FMul(p, FMul(p, inv, den1), den2);
      var ya :- SolveY(p, g1.x, g1.y, xa, xc1, dx1, invDen1);
      var yb :- SolveY(p, g2.x, g2.y, xb, xc2, dx2, invDen2);
      Some(LastChord(p, xa, ya, xb, yb, invDxq))
  }

  /** The candidate, if it passes the on-curve check. */
  function Lincomb2(p: Modulus, order: nat, a1: Group, k1: nat, a2: Group, k2: nat,
                    oracle: Oracle, hint: int -> nat): Option<Point>
    requires order > 0
  {
    var a :- Candidate(p, order, a1, k1, a2, k2, oracle, hint);
    PointFromXY(p, a)
  }

  /** Q = A + B along the chord whose slope uses the shared inverse. */
  function LastChord(p: Modulus, xa: int, ya: int, xb: int, yb: int, invDxq: int): Point {
    var lq := FMul(p, FSub(p, yb, ya), invDxq);
    var xq := FSub(p, FSub(p, FMul(p, lq, lq), xa), xb);
    Point(xq, FSub(p, FMul(p, lq, FSub(p, xa, xq)), ya))
  }

  function PointFromXY(p: Modulus, a: Point): Option<Point> {
    if OnCurve(p, a) then Some(a) else None
  }

  // ---------------------------------------------------------------------
  // Ordinate recovery
  // ---------------------------------------------------------------------

  /** What the field operations of `SolveY` compute. */
  lemma {:induction false} SolveYValue(p: Modulus, xp: int, yp: int, xa: int, xc: int, dx: int, invDen: int, t: int,
                                       d: int, n: int, l: int)
    requires IsResidue(p, xp) && IsResidue(p, yp) && IsResidue(p, xa) && IsResidue(p, xc)
    requires IsResidue(p, invDen) && dx == FSub(p, xa, xp)
    requires t == xc + xa + xp && d == xa - xp
    requires n == xa * xa * xa - xp * xp * xp - t * (d * d)
    requires l == R(p, n * invDen)
    ensures SolveY(p, xp, yp, xa, xc, dx, invDen)
            == if R(p, l * l) == R(p, t) then Some(R(p, yp + l * d)) else None
  {
    hide R, FAdd, FSub, FMul;
    Small(p, xp);
    Small(p, xa);
    Small(p, xc);
    HomAt(p, xc, xa);
    HomAt(p, xc + xa, xp);
    CubeByFieldOps(p, xa);
    CubeByFieldOps(p, xp);
    HomAt(p, xa, xp);
    SolveYTail(p, xa * xa * xa, xp * xp * xp, yp, invDen, t, d, n, l);
  }

  lemma {:induction false} SolveYTail(p: Modulus, xa3: int, xp3: int, yp: int, invDen: int, t: int, d: int, n: int,
                                      l: int)
    requires IsResidue(p, yp) && IsResidue(p, invDen)
    requires n == xa3 - xp3 - t * (d * d) && l == R(p, n * invDen)
    ensures FMul(p, FSub(p, FSub(p, R(p, xa3), R(p, xp3)), FMul(p, R(p, t), FMul(p, R(p, d), R(p, d)))), invDen) == l
    ensures FMul(p, l, l) == R(p, l * l)
    ensures FAdd(p, yp, FMul(p, l, R(p, d))) == R(p, yp + l * d)
  {
    hide R, FAdd, FSub, FMul;
    var dd := d * d;
    var tdd := t * dd;
    HomAt(p, d, d);
    HomAt(p, t, dd);
    HomAt(p, xa3, xp3);
    HomAt(p, xa3 - xp3, tdd);
    Small(p, invDen);
    HomAt(p, n, invDen);
    Idempotent(p, n * invDen);
    HomAt(p, l, l);
    HomAt(p, l, d);
    Small(p, yp);
    HomAt(p, yp, l * d);
  }

  lemma {:induction false} LambdaSolves(p: Modulus, n: int, den: int, invDen: int, l: int)
    requires R(p, invDen * den) == 1
    requires l == R(p, n * invDen)
    ensures R(p, l * den) == R(p, n)
  {
    hide R;
    Idempotent(p, n * invDen);
    CongScale(p, l, n * invDen, den);
    MulAssoc(n, invDen, den);
    Small(p, 1);
    CongScale(p, invDen * den, 1, n);
  }

  lemma {:induction false} LineSquare(yp: int, l: int, d: int)
    ensures (yp + l * d) * (yp + l * d) == yp * yp + (l * (2 * yp * d)) + (l * l) * (d * d)
  {
    hide R;
    MulAssoc(l, d, l * d);
    assert (l * d) * (l * d) == (l * l) * (d * d);
    assert 2 * (yp * (l * d)) == l * (2 * yp * d);
  }

  /** Any ordinate returned puts (xa, y) on the curve, and its chord with P meets abscissa xc. */
  lemma {:induction false} SolveYSound(p: Modulus, g: Point, xa: int, xc: int, dx: int, invDen: int)
    requires IsPrime(p) && OnCurve(p, g)
    requires IsResidue(p, xa) && IsResidue(p, xc) && IsResidue(p, invDen)
    requires xa != g.x && dx == FSub(p, xa, g.x)
    requires R(p, invDen * (2 * g.y * (xa - g.x))) == 1
    requires SolveY(p, g.x, g.y, xa, xc, dx, invDen).Some?
    ensures var a := Point(xa, SolveY(p, g.x, g.y, xa, xc, dx, invDen).value);
            OnCurve(p, a) && ChordSum(p, a, g).x == xc
  {
    hide R;
    var t := xc + xa + g.x;
    var d := xa - g.x;
    var n := xa * xa * xa - g.x * g.x * g.x - t * (d * d);
    var l := R(p, n * invDen);
    var y := R(p, g.y + l * d);
    SolveYValue(p, g.x, g.y, xa, xc, dx, invDen, t, d, n, l);
    LambdaSolves(p, n, 2 * g.y * d, invDen, l);
    // y^2 = yp^2 + n + t*d^2 = xa^3 + 7
    Idempotent(p, g.y + l * d);
    CongMul(p, y, g.y + l * d, y, g.y + l * d);
    LineSquare(g.y, l, d);
    CongScale(p, l * l, t, d * d);
    CongAdd(p, l * (2 * g.y * d), n, (l * l) * (d * d), t * (d * d));
    CongAdd(p, g.y * g.y, g.x * g.x * g.x + B, l * (2 * g.y * d) + (l * l) * (d * d), n + t * (d * d));
    var a := Point(xa, y);
    assert OnCurve(p, a);
    ChordThroughLine(p, a, g, l);
    CongAdd(p, l * l, t, xa + g.x, xa + g.x);
    assert l * l - (xa + g.x) == l * l - xa - g.x;
    Small(p, xc);
  }

  /** If y = yp + l*(xa - xp) then l is the slope of the chord from (xa, y) to P. */
  lemma {:induction false} ChordThroughLine(p: Modulus, a: Point, g: Point, l: int)
    requires IsPrime(p) && OnCurve(p, a) && OnCurve(p, g) && a.x != g.x && IsResidue(p, l)
    requires R(p, a.y) == R(p, g.y + l * (a.x - g.x))
    ensures l == Slope(p, ChordNum(p, a, g), ChordDen(p, a, g))
  {
    hide R;
    var d := a.x - g.x;
    CongAdd(p, g.y, g.y, a.y, g.y + l * d);
    assert g.y - (g.y + l * d) == l * (g.x - a.x);
    ResidueZero(p, a.x, g.x);
    Idempotent(p, g.x - a.x);
    Idempotent(p, g.y - a.y);
    CongScale(p, ChordDen(p, a, g), g.x - a.x, l);
    SlopeUnique(p, ChordNum(p, a, g), ChordDen(p, a, g), l);
  }

  /** A truthful pair of abscissae is always solved, with the true ordinate. */
  lemma {:induction false} SolveYComplete(p: Modulus, g: Point, a: Point, xc: int, dx: int, invDen: int)
    requires IsPrime(p) && OnCurve(p, g) && OnCurve(p, a)
    requires a.x != g.x && dx == FSub(p, a.x, g.x)
    requires IsResidue(p, invDen) && R(p, invDen * (2 * g.y * (a.x - g.x))) == 1
    requires xc == ChordSum(p, a, g).x
    ensures SolveY(p, g.x, g.y, a.x, xc, dx, invDen) == Some(a.y)
  {
    hide R;
    var d := a.x - g.x;
    var t := xc + a.x + g.x;
    var den := 2 * g.y * d;
    var n := a.x * a.x * a.x - g.x * g.x * g.x - t * (d * d);
    var l := Slope(p, ChordNum(p, a, g), ChordDen(p, a, g));
    ChordSlope(p, a, g);
    // a.y = g.y + l*d and l^2 = t
    CongAdd(p, g.y, g.y, l * (g.x - a.x), g.y - a.y);
    assert g.y - l * (g.x - a.x) == g.y + l * d;
    Idempotent(p, l * l - a.x - g.x);
    CongAdd(p, xc, l * l - a.x - g.x, a.x + g.x, a.x + g.x);
    assert R(p, t) == R(p, l * l);
    TrueSlopeSolves(p, g, a, t, l);
    InverseGivesSlope(p, l, n, den, invDen);
    SolveYValue(p, g.x, g.y, a.x, xc, dx, invDen, t, d, n, l);
    Small(p, a.y);
  }

  lemma {:induction false} TrueSlopeSolves(p: Modulus, g: Point, a: Point, t: int, l: int)
    requires OnCurve(p, g) && OnCurve(p, a)
    requires R(p, a.y) == R(p, g.y + l * (a.x - g.x)) && R(p, t) == R(p, l * l)
    ensures var d := a.x - g.x;
            R(p, l * (2 * g.y * d)) == R(p, a.x * a.x * a.x - g.x * g.x * g.x - t * (d * d))
  {
    hide R;
    var d := a.x - g.x;
    CongMul(p, a.y, g.y + l * d, a.y, g.y + l * d);
    LineSquare(g.y, l, d);
    CongAdd(p, a.y * a.y, a.x * a.x * a.x + B, g.y * g.y, g.x * g.x * g.x + B);
    CongAdd(p, a.y * a.y, g.y * g.y + l * (2 * g.y * d) + (l * l) * (d * d), g.y * g.y, g.y * g.y);
    CongScale(p, t, l * l, d * d);
    CongAdd(p, a.y * a.y - g.y * g.y, a.x * a.x * a.x - g.x * g.x * g.x, t * (d * d), t * (d * d));
    CongAdd(p, a.y * a.y - g.y * g.y, l * (2 * g.y * d) + (l * l) * (d * d), t * (d * d), (l * l) * (d * d));
  }

  lemma {:induction false} InverseGivesSlope(p: Modulus, l: int, n: int, den: int, invDen: int)
    requires IsResidue(p, l)
    requires R(p, l * den) == R(p, n) && R(p, invDen * den) == 1
    ensures R(p, n * invDen) == l
  {
    hide R;
    CongScale(p, l * den, n, invDen);
    MulAssoc(l, den, invDen);
    assert den * invDen == invDen * den;
    Small(p, 1);
    CongScale(p, invDen * den, 1, l);
    Small(p, l);
  }

  /** `SolveY` answers exactly when some curve point has abscissa xa and its sum with P has abscissa xc. */
  lemma {:induction false} SolveYExact(p: Modulus, g: Point, xa: int, xc: int, dx: int, invDen: int, y: int)
    requires IsPrime(p) && OnCurve(p, g)
    requires IsResidue(p, xa) && IsResidue(p, xc) && IsResidue(p, invDen)
    requires xa != g.x && dx == FSub(p, xa, g.x)
    requires R(p, invDen * (2 * g.y * (xa - g.x))) == 1
    ensures SolveY(p, g.x, g.y, xa, xc, dx, invDen) == Some(y)
            <==> OnCurve(p, Point(xa, y)) && ChordSum(p, Point(xa, y), g).x == xc
  {
    hide R;
    if SolveY(p, g.x, g.y, xa, xc, dx, invDen).Some? {
      SolveYSound(p, g, xa, xc, dx, invDen);
    }
    if OnCurve(p, Point(xa, y)) && ChordSum(p, Point(xa, y), g).x == xc {
      SolveYComplete(p, g, Point(xa, y), xc, dx, invDen);
    }
  }

  // ---------------------------------------------------------------------
  // The shared inversion
  // ---------------------------------------------------------------------

  /** One inverse of a product yields the inverse of each of its factors. */
  lemma {:induction false} SharedInverse(p: Modulus, u: int, v: int, w: int, inv: int)
    requires R(p, inv * ((u * v) * w)) == 1
    ensures R(p, FMul(p, FMul(p, R(p, inv), R(p, v)), R(p, w)) * u) == 1
    ensures R(p, FMul(p, FMul(p, R(p, inv), R(p, u)), R(p, w)) * v) == 1
    ensures R(p, FMul(p, FMul(p, R(p, inv), R(p, u)), R(p, v)) * w) == 1
  {
    hide R;
    ShareOne(p, inv, v, w, u);
    ShareOne(p, inv, u, w, v);
    ShareOne(p, inv, u, v, w);
    assert ((inv * v) * w) * u == inv * ((u * v) * w) by { Shuffle(inv, u, v, w); }
    assert ((inv * u) * w) * v == inv * ((u * v) * w) by { Shuffle(inv, u, v, w); }
    assert ((inv * u) * v) * w == inv * ((u * v) * w) by { Shuffle(inv, u, v, w); }
  }

  lemma {:induction false} Shuffle(i: int, u: int, v: int, w: int)
    ensures ((i * v) * w) * u == i * ((u * v) * w)
    ensures ((i * u) * w) * v == i * ((u * v) * w)
    ensures ((i * u) * v) * w == i * ((u * v) * w)
  {
    hide R;
    MulAssoc(i, v, w);
    MulAssoc(i, v * w, u);
    MulAssoc(i, u, w);
    MulAssoc(i, u * w, v);
    MulAssoc(i, u, v);
    MulAssoc(i, u * v, w);
    MulAssoc(v, w, u);
    MulAssoc(u, w, v);
  }

  lemma {:induction false} ShareOne(p: Modulus, a: int, b: int, c: int, d: int)
    ensures R(p, FMul(p, FMul(p, R(p, a), R(p, b)), R(p, c)) * d) == R(p, ((a * b) * c) * d)
  {
    hide R;
    HomAt(p, a, b);
    HomAt(p, a * b, c);
    Idempotent(p, (a * b) * c);
    CongScale(p, R(p, (a * b) * c), (a * b) * c, d);
  }

  // ---------------------------------------------------------------------
  // The whole combination
  // ---------------------------------------------------------------------

  lemma {:induction false} LastChordIsSum(p: Modulus, a: Point, b: Point, invDxq: int)
    requires IsPrime(p) && OnCurve(p, a) && OnCurve(p, b) && a.x != b.x
    requires IsResidue(p, invDxq) && R(p, invDxq * (b.x - a.x)) == 1
    ensures LastChord(p, a.x, a.y, b.x, b.y, invDxq) == ChordSum(p, a, b)
    ensures OnCurve(p, ChordSum(p, a, b))
  {
    hide R;
    Small(p, invDxq);
    var l := R(p, (b.y - a.y) * invDxq);
    HomAt(p, b.y - a.y, invDxq);
    LambdaSolves(p, b.y - a.y, b.x - a.x, invDxq, l);
    ResidueZero(p, a.x, b.x);
    Idempotent(p, b.x - a.x);
    Idempotent(p, b.y - a.y);
    CongScale(p, ChordDen(p, a, b), b.x - a.x, l);
    SlopeUnique(p, ChordNum(p, a, b), ChordDen(p, a, b), l);
    ThirdPointByFieldOps(p, l, a, b.x);
    ChordOnCurve(p, a, b);
  }

  lemma {:induction false} ThirdPointByFieldOps(p: Modulus, l: int, a: Point, x2: int)
    requires IsResidue(p, l) && IsResidue(p, a.x) && IsResidue(p, a.y) && IsResidue(p, x2)
    ensures var xq := FSub(p, FSub(p, FMul(p, l, l), a.x), x2);
            ThirdPoint(p, l, a, x2) == Point(xq, FSub(p, FMul(p, l, FSub(p, a.x, xq)), a.y))
  {
    hide R, FAdd, FSub, FMul;
    Small(p, l);
    HomAt(p, l, l);
    SubtractTwo(p, l * l, a.x, x2);
    var xq := R(p, l * l - a.x - x2);
    OrdinateByFieldOps(p, l, a.x, xq, a.y);
  }

  lemma {:induction false} SubtractTwo(p: Modulus, q: int, x: int, y: int)
    requires IsResidue(p, x) && IsResidue(p, y)
    ensures FSub(p, FSub(p, R(p, q), x), y) == R(p, q - x - y)
  {
    hide R, FSub;
    Small(p, x);
    Small(p, y);
    HomAt(p, q, x);
    HomAt(p, q - x, y);
  }

  lemma {:induction false} OrdinateByFieldOps(p: Modulus, l: int, x: int, xq: int, y: int)
    requires IsResidue(p, l) && IsResidue(p, x) && IsResidue(p, xq) && IsResidue(p, y)
    ensures FSub(p, FMul(p, l, FSub(p, x, xq)), y) == R(p, l * (x - xq) - y)
  {
    hide R, FSub, FMul;
    Small(p, l);
    Small(p, x);
    Small(p, xq);
    Small(p, y);
    HomAt(p, x, xq);
    HomAt(p, l, x - xq);
    HomAt(p, l * (x - xq), y);
  }

  lemma {:induction false} DenominatorValue(p: Modulus, y: int, xa: int, x: int)
    requires IsResidue(p, y) && IsResidue(p, xa) && IsResidue(p, x)
    ensures FMul(p, FAdd(p, y, y), FSub(p, xa, x)) == R(p, 2 * y * (xa - x))
  {
    hide R, FAdd, FSub, FMul;
    Small(p, y);
    Small(p, xa);
    Small(p, x);
    HomAt(p, y, y);
    HomAt(p, xa, x);
    HomAt(p, 2 * y, xa - x);
  }

  /** The abscissa of k * (the curve point with abscissa x), as the precompile returns it. */
  function AbscissaOf(a: Group): Option<int> {
    if a.Infinity? then None else Some(a.pt.x)
  }

  /** An oracle answers with field elements. */
  ghost predicate FieldValued(p: Modulus, oracle: Oracle) {
    forall x: int, k: nat :: oracle(x, k).Some? ==> IsResidue(p, oracle(x, k).value)
  }

  /** The precompile lifts `x` to the even ordinate and returns the abscissa of k times that point. */
  ghost predicate Truthful(p: Modulus, order: nat, oracle: Oracle) {
    forall x: nat, k: nat | 1 <= k < order :: AnswersTruly(p, oracle, x, k)
  }

  predicate AnswersTruly(p: Modulus, oracle: Oracle, x: nat, k: nat) {
    var lift := Hints.SoftwareDecompress(p, x, false);
    lift.Some? ==> oracle(x, k) == AbscissaOf(Mul(p, k, Affine(lift.value)))
  }

  lemma {:induction false} TruthfulForEitherSign(p: Modulus, order: nat, oracle: Oracle, a: Group, k: nat)
    requires OddPrime(p) && Truthful(p, order, oracle)
    requires a.Affine? && OnCurve(p, a.pt) && 1 <= k < order
    ensures oracle(a.pt.x, k) == AbscissaOf(Mul(p, k, a))
  {
    hide R;
    var lift := Hints.SoftwareDecompress(p, a.pt.x, false);
    Hints.DecompressMeaning(p, a.pt.x, false);
    assert a.pt == Point(a.pt.x, a.pt.y);
    assert lift.Some?;
    assert AnswersTruly(p, oracle, a.pt.x, k);
    var b := lift.value;
    SquareRoots(p, b.y, a.pt.y);
    Small(p, b.y);
    Small(p, a.pt.y);
    assert Affine(b) == a || Affine(b) == Neg(p, a);
    MulNeg(p, k, a);
  }

  /** The configurations the code accepts, as facts about the points and scalars. */
  predicate Accepts(p: Modulus, order: nat, a1: Group, k1: nat, a2: Group, k2: nat) {
    && a1.Affine? && a2.Affine?
    && 2 <= k1 <= order - 2 && 2 <= k2 <= order - 2
    && Apart(p, a1, k1, a2, k2)
  }

  /** Neither multiple meets its own base's abscissa or the other multiple's, and no base has order two. */
  predicate Apart(p: Modulus, a1: Group, k1: nat, a2: Group, k2: nat) {
    && a1.Affine? && a2.Affine?
    && Mul(p, k1, a1).Affine? && Mul(p, k2, a2).Affine?
    && Mul(p, k1, a1).pt.x != a1.pt.x && Mul(p, k2, a2).pt.x != a2.pt.x
    && Mul(p, k1, a1).pt.x != Mul(p, k2, a2).pt.x
    && a1.pt.y != 0 && a2.pt.y != 0
  }

  lemma {:induction false} NextMultiple(p: Modulus, order: nat, k: nat, a: Group)
    requires OddPrime(p) && a.Affine? && OnCurve(p, a.pt)
    requires k < order && !NearEdge(order, k)
    ensures (k + 1) % order == k + 1 && 1 <= k && k + 1 < order
    ensures Mul(p, k + 1, a) == Add(p, Mul(p, k, a), a)
    ensures Mul(p, k, a).Affine? && Mul(p, k, a).pt.x != a.pt.x
            ==> Mul(p, k + 1, a) == Affine(ChordSum(p, Mul(p, k, a).pt, a.pt))
  {
    hide R;
    DivModUnique(k + 1, order, 0, k + 1);
  }

  lemma {:induction false} FieldSubZero(p: Modulus, a: int, b: int)
    requires IsResidue(p, a) && IsResidue(p, b)
    ensures FSub(p, a, b) == 0 <==> a == b
  {
    hide R;
    ResidueZero(p, b, a);
  }

  /**
    With a truthful oracle and any hints, the combination is returned exactly when
    no guard trips, and it is k1*P1 + k2*P2.
   */
  lemma {:induction false} Lincomb2Correct(p: Modulus, order: nat, a1: Group, k1: nat, a2: Group, k2: nat,
                        oracle: Oracle, hint: int -> nat)
    requires OddPrime(p) && InGroup(p, a1) && InGroup(p, a2)
    requires k1 < order && k2 < order
    requires Truthful(p, order, oracle)
    ensures Lincomb2(p, order, a1, k1, a2, k2, oracle, hint)
            == if Accepts(p, order, a1, k1, a2, k2)
               then Some(Add(p, Mul(p, k1, a1), Mul(p, k2, a2)).pt) else None
    ensures Accepts(p, order, a1, k1, a2, k2) ==> Add(p, Mul(p, k1, a1), Mul(p, k2, a2)).Affine?
  {
    hide R;
    if a1.Affine? && a2.Affine? && !NearEdge(order, k1) && !NearEdge(order, k2) {
      TruthfulPair(p, order, oracle, a1, k1);
      TruthfulPair(p, order, oracle, a2, k2);
      Lincomb2FromAnswers(p, order, a1, k1, a2, k2, oracle, hint);
    }
  }

  /** The scalars 0, 1 and order - 1 give infinity or the base's own abscissa. */
  lemma {:induction false} EdgeDegenerates(p: Modulus, a: Group, order: nat, k: nat)
    requires a.Affine? && OrbitLaw(p, a, order) && k < order
    requires k == 0 || k == 1 || k == order - 1
    ensures Mul(p, k, a).Infinity? || Mul(p, k, a).pt.x == a.pt.x
  {
    hide R;
    MulOne(p, a);
    assert VanishesAtOrder(p, a, order, 1);
    if k == order - 1 {
      assert Mul(p, order, a) == Add(p, Mul(p, k, a), a);
      assert VanishesAtOrder(p, a, order, order);
      assert order % order == 0 by { DivModUnique(order, order, 1, 0); }
    }
  }

  /**
    For points of the given odd order the scalar guard excludes nothing but
    degenerate chords: the combination is returned exactly when the four points
    involved are apart, equivalently when both scalars avoid 0, 1 and -1 and
    the two multiples have different abscissae.
   */
  lemma {:induction false} Lincomb2Decided(p: Modulus, order: nat, a1: Group, k1: nat, a2: Group, k2: nat,
                                           oracle: Oracle, hint: int -> nat)
    requires OddPrime(p) && InGroup(p, a1) && InGroup(p, a2) && order % 2 == 1
    requires a1.Affine? ==> OrbitLaw(p, a1, order)
    requires a2.Affine? ==> OrbitLaw(p, a2, order)
    requires k1 < order && k2 < order && Truthful(p, order, oracle)
    ensures Lincomb2(p, order, a1, k1, a2, k2, oracle, hint)
            == if Apart(p, a1, k1, a2, k2)
               then Some(Add(p, Mul(p, k1, a1), Mul(p, k2, a2)).pt) else None
    ensures Apart(p, a1, k1, a2, k2)
            <==> && a1.Affine? && a2.Affine? && 2 <= k1 <= order - 2 && 2 <= k2 <= order - 2
                 && AbscissaOf(Mul(p, k1, a1)) != AbscissaOf(Mul(p, k2, a2))
  {
    hide R, Mul, OrbitLaw, Truthful, Lincomb2;
    Lincomb2Correct(p, order, a1, k1, a2, k2, oracle, hint);
    if a1.Affine? && a2.Affine? {
      InteriorIff(p, a1, order, k1);
      InteriorIff(p, a2, order, k2);
    }
  }

  lemma {:induction false} InteriorIff(p: Modulus, a: Group, order: nat, k: nat)
    requires OddPrime(p) && a.Affine? && OnCurve(p, a.pt) && OrbitLaw(p, a, order) && order % 2 == 1 && k < order
    ensures a.pt.y != 0
    ensures 2 <= k <= order - 2 <==> Mul(p, k, a).Affine? && Mul(p, k, a).pt.x != a.pt.x
  {
    hide R, Mul;
    MulOne(p, a);
    assert VanishesAtOrder(p, a, order, 1);
    assert order > 1;
    OrbitNoVerticalTangent(p, a, order, 1);
    if 2 <= k <= order - 2 {
      OrbitAbscissa(p, a, order, k);
    } else {
      EdgeDegenerates(p, a, order, k);
    }
  }

  /** The answers to the two queries about one point. */
  predicate Answered(p: Modulus, order: nat, oracle: Oracle, a: Group, k: nat)
    requires a.Affine? && order > 0
  {
    && oracle(a.pt.x, k) == AbscissaOf(Mul(p, k, a))
    && oracle(a.pt.x, (k + 1) % order) == AbscissaOf(Mul(p, k + 1, a))
  }

  lemma {:induction false} TruthfulPair(p: Modulus, order: nat, oracle: Oracle, a: Group, k: nat)
    requires OddPrime(p) && Truthful(p, order, oracle)
    requires a.Affine? && OnCurve(p, a.pt) && k < order && !NearEdge(order, k)
    ensures Answered(p, order, oracle, a, k)
  {
    hide R;
    NextMultiple(p, order, k, a);
    TruthfulForEitherSign(p, order, oracle, a, k);
    TruthfulForEitherSign(p, order, oracle, a, k + 1);
  }

  lemma {:induction false} Lincomb2FromAnswers(p: Modulus, order: nat, a1: Group, k1: nat, a2: Group, k2: nat,
                            oracle: Oracle, hint: int -> nat)
    requires OddPrime(p) && InGroup(p, a1) && InGroup(p, a2) && a1.Affine? && a2.Affine?
    requires k1 < order && k2 < order && !NearEdge(order, k1) && !NearEdge(order, k2)
    requires Answered(p, order, oracle, a1, k1) && Answered(p, order, oracle, a2, k2)
    ensures Lincomb2(p, order, a1, k1, a2, k2, oracle, hint)
            == if Accepts(p, order, a1, k1, a2, k2)
               then Some(Add(p, Mul(p, k1, a1), Mul(p, k2, a2)).pt) else None
  {
    hide R;
    MulClosed(p, k1, a1);
    MulClosed(p, k2, a2);
    NextMultiple(p, order, k1, a1);
    NextMultiple(p, order, k2, a2);
    var a, b := Mul(p, k1, a1), Mul(p, k2, a2);
    var c1, c2 := Mul(p, k1 + 1, a1), Mul(p, k2 + 1, a2);
    if a.Affine? && b.Affine? && c1.Affine? && c2.Affine? {
      assert Candidate(p, order, a1, k1, a2, k2, oracle, hint)
          == Combine(p, a1.pt, a2.pt, a.pt.x, c1.pt.x, b.pt.x, c2.pt.x, hint);
      CombineTruth(p, a1.pt, a2.pt, a.pt, c1.pt.x, b.pt, c2.pt.x, hint);
    } else {
      assert Candidate(p, order, a1, k1, a2, k2, oracle, hint) == None;
    }
  }

  /** From true abscissae the algebra returns the chord sum, unless a denominator vanishes. */
  lemma {:induction false} CombineTruth(p: Modulus, g1: Point, g2: Point, a: Point, xc1: int, b: Point, xc2: int,
                                        hint: int -> nat)
    requires OddPrime(p) && OnCurve(p, g1) && OnCurve(p, g2) && OnCurve(p, a) && OnCurve(p, b)
    requires a.x != g1.x ==> xc1 == ChordSum(p, a, g1).x
    requires b.x != g2.x ==> xc2 == ChordSum(p, b, g2).x
    ensures Combine(p, g1, g2, a.x, xc1, b.x, xc2, hint)
            == if a.x == g1.x || b.x == g2.x || a.x == b.x || g1.y == 0 || g2.y == 0
               then None else Some(ChordSum(p, a, b))
    ensures a.x != b.x ==> OnCurve(p, ChordSum(p, a, b))
  {
    hide R;
    FieldSubZero(p, a.x, g1.x);
    FieldSubZero(p, b.x, g2.x);
    FieldSubZero(p, b.x, a.x);
    if a.x != b.x {
      ChordOnCurve(p, a, b);
      if a.x != g1.x && b.x != g2.x {
        CombineCore(p, g1, g2, a, b, hint);
      }
    }
  }

  lemma {:induction false} CombineCore(p: Modulus, g1: Point, g2: Point, a: Point, b: Point, hint: int -> nat)
    requires OddPrime(p) && OnCurve(p, g1) && OnCurve(p, g2) && OnCurve(p, a) && OnCurve(p, b)
    requires a.x != g1.x && b.x != g2.x && a.x != b.x
    ensures Combine(p, g1, g2, a.x, ChordSum(p, a, g1).x, b.x, ChordSum(p, b, g2).x, hint)
            == if g1.y == 0 || g2.y == 0 then None else Some(ChordSum(p, a, b))
  {
    hide R;
    var u, v, w := 2 * g1.y * (a.x - g1.x), 2 * g2.y * (b.x - g2.x), b.x - a.x;
    DenominatorValue(p, g1.y, a.x, g1.x);
    DenominatorValue(p, g2.y, b.x, g2.x);
    FieldSubZero(p, a.x, g1.x);
    FieldSubZero(p, b.x, g2.x);
    FieldSubZero(p, b.x, a.x);
    HomAt(p, u, v);
    HomAt(p, u * v, w);
    var prod := R(p, (u * v) * w);
    Hints.HintedInverseIgnoresHint(p, prod, hint);
    ProductZero(p, g1, g2, a, b);
    if g1.y != 0 && g2.y != 0 {
      var inv := Hints.SoftwareInverse(p, prod).value;
      Idempotent(p, (u * v) * w);
      CongScale(p, prod, (u * v) * w, inv);
      Small(p, inv);
      SharedInverse(p, u, v, w, inv);
      SolveYComplete(p, g1, a, ChordSum(p, a, g1).x, FSub(p, a.x, g1.x), FMul(p, FMul(p, inv, R(p, v)), R(p, w)));
      SolveYComplete(p, g2, b, ChordSum(p, b, g2).x, FSub(p, b.x, g2.x), FMul(p, FMul(p, inv, R(p, u)), R(p, w)));
      LastChordIsSum(p, a, b, FMul(p, FMul(p, inv, R(p, u)), R(p, v)));
    }
  }

  lemma {:induction false} ProductZero(p: Modulus, g1: Point, g2: Point, a: Point, b: Point)
    requires OddPrime(p) && OnCurve(p, g1) && OnCurve(p, g2) && OnCurve(p, a) && OnCurve(p, b)
    requires a.x != g1.x && b.x != g2.x && a.x != b.x
    ensures R(p, ((2 * g1.y * (a.x - g1.x)) * (2 * g2.y * (b.x - g2.x))) * (b.x - a.x)) == 0
            <==> g1.y == 0 || g2.y == 0
  {
    hide R;
    var u, v, w := 2 * g1.y * (a.x - g1.x), 2 * g2.y * (b.x - g2.x), b.x - a.x;
    NoZeroDivisors(p, u * v, w);
    NoZeroDivisors(p, u, v);
    NoZeroDivisors(p, 2 * g1.y, a.x - g1.x);
    NoZeroDivisors(p, 2 * g2.y, b.x - g2.x);
    DoubleNonzero(p, g1.y);
    DoubleNonzero(p, g2.y);
    ResidueZero(p, g1.x, a.x);
    ResidueZero(p, g2.x, b.x);
    ResidueZero(p, a.x, b.x);
  }

  lemma {:induction false} RecoveredChord(p: Modulus, g1: Point, g2: Point, xa: int, xc1: int, xb: int, xc2: int,
                                          inv: int)
    requires OddPrime(p) && OnCurve(p, g1) && OnCurve(p, g2)
    requires IsResidue(p, xa) && IsResidue(p, xb) && IsResidue(p, xc1) && IsResidue(p, xc2) && IsResidue(p, inv)
    requires xa != g1.x && xb != g2.x && xa != xb
    requires R(p, inv * (((2 * g1.y * (xa - g1.x)) * (2 * g2.y * (xb - g2.x))) * (xb - xa))) == 1
    ensures var den1 := FMul(p, FAdd(p, g1.y, g1.y), FSub(p, xa, g1.x));
            var den2 := FMul(p, FAdd(p, g2.y, g2.y), FSub(p, xb, g2.x));
            var dxq := FSub(p, xb, xa);
            var ya := SolveY(p, g1.x, g1.y, xa, xc1, FSub(p, xa, g1.x), FMul(p, FMul(p, inv, den2), dxq));
            var yb := SolveY(p, g2.x, g2.y, xb, xc2, FSub(p, xb, g2.x), FMul(p, FMul(p, inv, den1), dxq));
            ya.Some? && yb.Some? ==>
              && OnCurve(p, Point(xa, ya.value)) && OnCurve(p, Point(xb, yb.value))
              && LastChord(p, xa, ya.value, xb, yb.value, FMul(p, FMul(p, inv, den1), den2))
                 == ChordSum(p, Point(xa, ya.value), Point(xb, yb.value))
              && OnCurve(p, LastChord(p, xa, ya.value, xb, yb.value, FMul(p, FMul(p, inv, den1), den2)))
  {
    hide R;
    var u, v, w := 2 * g1.y * (xa - g1.x), 2 * g2.y * (xb - g2.x), xb - xa;
    DenominatorValue(p, g1.y, xa, g1.x);
    DenominatorValue(p, g2.y, xb, g2.x);
    Small(p, xa);
    Small(p, xb);
    HomAt(p, xb, xa);
    Small(p, inv);
    SharedInverse(p, u, v, w, inv);
    var i1 := FMul(p, FMul(p, inv, R(p, v)), R(p, w));
    var i2 := FMul(p, FMul(p, inv, R(p, u)), R(p, w));
    var ya := SolveY(p, g1.x, g1.y, xa, xc1, FSub(p, xa, g1.x), i1);
    var yb := SolveY(p, g2.x, g2.y, xb, xc2, FSub(p, xb, g2.x), i2);
    if ya.Some? && yb.Some? {
      SolveYSound(p, g1, xa, xc1, FSub(p, xa, g1.x), i1);
      SolveYSound(p, g2, xb, xc2, FSub(p, xb, g2.x), i2);
      LastChordIsSum(p, Point(xa, ya.value), Point(xb, yb.value), FMul(p, FMul(p, inv, R(p, u)), R(p, v)));
    }
  }

  /**
    Whatever a field-valued oracle and any hints answer, a candidate that survives
    both ordinate recoveries is a curve point: the closing check never rejects it.
   */
  lemma {:induction false} UntrustedOracleOnCurve(p: Modulus, order: nat, a1: Group, k1: nat, a2: Group, k2: nat,
                               oracle: Oracle, hint: int -> nat)
    requires OddPrime(p) && InGroup(p, a1) && InGroup(p, a2)
    requires k1 < order && k2 < order
    requires FieldValued(p, oracle)
    ensures Lincomb2(p, order, a1, k1, a2, k2, oracle, hint) == Candidate(p, order, a1, k1, a2, k2, oracle, hint)
  {
    hide R;
    var c := Candidate(p, order, a1, k1, a2, k2, oracle, hint);
    if c.Some? {
      var g1, g2 := a1.pt, a2.pt;
      var xa, xc1 := oracle(g1.x, k1).value, oracle(g1.x, (k1 + 1) % order).value;
      var xb, xc2 := oracle(g2.x, k2).value, oracle(g2.x, (k2 + 1) % order).value;
      FieldSubZero(p, xa, g1.x);
      FieldSubZero(p, xb, g2.x);
      FieldSubZero(p, xb, xa);
      var u, v, w := 2 * g1.y * (xa - g1.x), 2 * g2.y * (xb - g2.x), xb - xa;
      DenominatorValue(p, g1.y, xa, g1.x);
      DenominatorValue(p, g2.y, xb, g2.x);
      HomAt(p, u, v);
      HomAt(p, u * v, w);
      var prod := R(p, (u * v) * w);
      Hints.HintedInverseIgnoresHint(p, prod, hint);
      var inv := Hints.SoftwareInverse(p, prod).value;
      Idempotent(p, (u * v) * w);
      CongScale(p, prod, (u * v) * w, inv);
      assert prod * inv == inv * prod;
      RecoveredChord(p, g1, g2, xa, xc1, xb, xc2, inv);
    }
  }
}
