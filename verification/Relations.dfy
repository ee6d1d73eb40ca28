/**
  The five limb relations of the ECSM and ECDAS chips: how their 64 terms are
  built, which integer identity they spell, and how large their carries get.
 */
module Relations {
  import opened Limbs
  import opened Outcomes

  function Zeros(): seq<int> { seq(LIMBS, _ => 0) }

  /** A 512-bit quantity as 64 limbs. */
  type Wide = s: seq<int> | |s| == LIMBS witness Zeros()

  function Plus(a: Wide, b: Wide): Wide {
    seq(LIMBS, i requires 0 <= i < LIMBS => a[i] + b[i])
  }

  function Minus(a: Wide, b: Wide): Wide {
    seq(LIMBS, i requires 0 <= i < LIMBS => a[i] - b[i])
  }

  function Scale(c: int, a: Wide): Wide {
    seq(LIMBS, i requires 0 <= i < LIMBS => c * a[i])
  }

  function Product(a: Wide, b: Wide): Wide { ConvSeq(a, b) }

  // ---------------------------------------------------------------------
  // Terms of the relations
  // ---------------------------------------------------------------------

  /** xG^2 - x2 - q0*p */
  function TermsX2(xg: Wide, x2: Wide, q0: Wide, pp: Wide): Wide {
    Minus(Minus(Product(xg, xg), x2), Product(q0, pp))
  }

  /** yG^2 + p^2 - xG*x2 - b - q1*p */
  function TermsYg(yg: Wide, pp: Wide, x2: Wide, xg: Wide, q1: Wide, b: Wide): Wide {
    Minus(Minus(Minus(Plus(Product(yg, yg), Product(pp, pp)), Product(x2, xg)), Product(q1, pp)), b)
  }

  function Branch(op: nat, lam: Wide, xg: Wide, xa: Wide, ya: Wide, yg: Wide): Wide {
    if op == 1 then Plus(Minus(ya, yg), Product(lam, Minus(xg, xa)))
    else Minus(Scale(2, Product(lam, ya)), Scale(3, Product(xa, xa)))
  }

  /** Chord or tangent slope, plus (r - q0)*p */
  function TermsLambda(op: nat, lam: Wide, xg: Wide, xa: Wide, ya: Wide, yg: Wide,
                       r: Wide, pp: Wide, q0: Wide): Wide {
    Minus(Plus(Branch(op, lam, xg, xa, ya, yg), Product(r, pp)), Product(q0, pp))
  }

  /** l^2 - xA - xG - xR - (1 - op)*(xA - xG) + (r - q1)*p */
  function TermsXr(op: nat, lam: Wide, xa: Wide, xg: Wide, xr: Wide, r: Wide, pp: Wide, q1: Wide): Wide {
    var opTerm := if op == 0 then Minus(xa, xg) else Zeros();
    Minus(Plus(Minus(Minus(Minus(Minus(Product(lam, lam), xa), xg), xr), opTerm), Product(r, pp)), Product(q1, pp))
  }

  /** l*(xA - xR) - yA - yR + (r - q2)*p */
  function TermsYr(lam: Wide, xa: Wide, xr: Wide, ya: Wide, yr: Wide, r: Wide, pp: Wide, q2: Wide): Wide {
    Minus(Plus(Minus(Minus(Product(lam, Minus(xa, xr)), ya), yr), Product(r, pp)), Product(q2, pp))
  }

  // ---------------------------------------------------------------------
  // The carry builders
  // ---------------------------------------------------------------------

  method CarriesX2(xg: Wide, x2: Wide, q0: Wide, pp: Wide) returns (res: Option<seq<int>>)
    ensures res == CarriesOf(TermsX2(xg, x2, q0, pp))
  {
    var terms: Wide := Zeros();
    for i := 0 to LIMBS
      invariant forall j | 0 <= j < i :: terms[j] == TermsX2(xg, x2, q0, pp)[j]
    {
      var a := Conv(xg, xg, i);
      var b := Conv(q0, pp, i);
      terms := terms[i := a - x2[i] - b];
    }
    assert terms == TermsX2(xg, x2, q0, pp);
    res := LimbCarries(terms);
  }

  method CarriesYg(yg: Wide, pp: Wide, x2: Wide, xg: Wide, q1: Wide, b: Wide) returns (res: Option<seq<int>>)
    ensures res == CarriesOf(TermsYg(yg, pp, x2, xg, q1, b))
  {
    var terms: Wide := Zeros();
    for i := 0 to LIMBS
      invariant forall j | 0 <= j < i :: terms[j] == TermsYg(yg, pp, x2, xg, q1, b)[j]
    {
      var s := Conv(yg, yg, i);
      var t := Conv(pp, pp, i);
      var u := Conv(x2, xg, i);
      var v := Conv(q1, pp, i);
      terms := terms[i := s + t - u - v - b[i]];
    }
    assert terms == TermsYg(yg, pp, x2, xg, q1, b);
    res := LimbCarries(terms);
  }

  /** The running sum over lam[j] * (u[i - j] - v[i - j]). */
  method ConvDifference(lam: Wide, u: Wide, v: Wide, i: nat, start: int) returns (s: int)
    requires i < LIMBS
    ensures s == start + Product(lam, Minus(u, v))[i]
  {
    s := start;
    for j := 0 to i + 1
      invariant s == start + PartialConv(lam, Minus(u, v), i, j)
    {
      s := s + lam[j] * (u[i - j] - v[i - j]);
    }
  }

  method TangentSum(lam: Wide, ya: Wide, xa: Wide, i: nat) returns (s: int)
    requires i < LIMBS
    ensures s == 2 * ConvAt(lam, ya, i) - 3 * ConvAt(xa, xa, i)
  {
    s := 0;
    for j := 0 to i + 1
      invariant s == 2 * PartialConv(lam, ya, i, j) - 3 * PartialConv(xa, xa, i, j)
    {
      s := s + (2 * lam[j] * ya[i - j] - 3 * xa[j] * xa[i - j]);
      assert 2 * lam[j] * ya[i - j] == 2 * (lam[j] * ya[i - j]);
      assert 3 * xa[j] * xa[i - j] == 3 * (xa[j] * xa[i - j]);
    }
  }

  method CarriesLambda(op: nat, lam: Wide, xg: Wide, xa: Wide, ya: Wide, yg: Wide, r: Wide, pp: Wide, q0: Wide)
      returns (res: Option<seq<int>>)
    ensures res == CarriesOf(TermsLambda(op, lam, xg, xa, ya, yg, r, pp, q0))
  {
    var terms: Wide := Zeros();
    for i := 0 to LIMBS
      invariant forall j | 0 <= j < i :: terms[j] == TermsLambda(op, lam, xg, xa, ya, yg, r, pp, q0)[j]
    {
      var branch: int;
      if op == 1 {
        branch := ConvDifference(lam, xg, xa, i, ya[i] - yg[i]);
      } else {
        branch := TangentSum(lam, ya, xa, i);
      }
      var s := Conv(r, pp, i);
      var t := Conv(q0, pp, i);
      terms := terms[i := branch + s - t];
    }
    assert terms == TermsLambda(op, lam, xg, xa, ya, yg, r, pp, q0);
    res := LimbCarries(terms);
  }

  method CarriesXr(op: nat, lam: Wide, xa: Wide, xg: Wide, xr: Wide, r: Wide, pp: Wide, q1: Wide)
      returns (res: Option<seq<int>>)
    ensures res == CarriesOf(TermsXr(op, lam, xa, xg, xr, r, pp, q1))
  {
    var terms: Wide := Zeros();
    for i := 0 to LIMBS
      invariant forall j | 0 <= j < i :: terms[j] == TermsXr(op, lam, xa, xg, xr, r, pp, q1)[j]
    {
      var opTerm := if op == 0 then xa[i] - xg[i] else 0;
      var s := Conv(lam, lam, i);
      var t := Conv(r, pp, i);
      var u := Conv(q1, pp, i);
      terms := terms[i := s - xa[i] - xg[i] - xr[i] - opTerm + t - u];
    }
    assert terms == TermsXr(op, lam, xa, xg, xr, r, pp, q1);
    res := LimbCarries(terms);
  }

  method CarriesYr(lam: Wide, xa: Wide, xr: Wide, ya: Wide, yr: Wide, r: Wide, pp: Wide, q2: Wide)
      returns (res: Option<seq<int>>)
    ensures res == CarriesOf(TermsYr(lam, xa, xr, ya, yr, r, pp, q2))
  {
    var terms: Wide := Zeros();
    for i := 0 to LIMBS
      invariant forall j | 0 <= j < i :: terms[j] == TermsYr(lam, xa, xr, ya, yr, r, pp, q2)[j]
    {
      var convLam := ConvDifference(lam, xa, xr, i, 0);
      var s := Conv(r, pp, i);
      var t := Conv(q2, pp, i);
      terms := terms[i := convLam - ya[i] - yr[i] + s - t];
    }
    assert terms == TermsYr(lam, xa, xr, ya, yr, r, pp, q2);
    res := LimbCarries(terms);
  }

  // ---------------------------------------------------------------------
  // The integer each relation stands for
  // ---------------------------------------------------------------------

  /** `n` little-endian bytes, zero-extended. */
  predicate Narrow(a: Wide, n: nat) {
    Bytes(a) && ZeroFrom(a, n)
  }

  lemma {:induction false} PlusValue(a: Wide, b: Wide)
    ensures Value(Plus(a, b)) == Value(a) + Value(b)
  {
    ValueSum(Plus(a, b), a, b);
  }

  lemma {:induction false} MinusValue(a: Wide, b: Wide)
    ensures Value(Minus(a, b)) == Value(a) - Value(b)
  {
    ValueDifference(Minus(a, b), a, b);
  }

  lemma {:induction false} ScaleValue(c: int, a: Wide)
    ensures Value(Scale(c, a)) == c * Value(a)
  {
    ValueCombination(Scale(c, a), a, a, c, 0);
    assert 0 * Value(a) == 0;
  }

  lemma {:induction false} ProductValue(a: Wide, b: Wide)
    requires ZeroFrom(a, 33) && ZeroFrom(b, 32)
    ensures Value(Product(a, b)) == Value(a) * Value(b)
  {
    ConvIsProduct(a, b, 33, 32);
    assert b[..LIMBS] == b;
  }

  function LambdaNumerator(op: nat, lam: int, xg: int, xa: int, ya: int, yg: int): int {
    if op == 1 then lam * (xg - xa) - yg + ya else 2 * (lam * ya) - 3 * (xa * xa)
  }

  function XrNumerator(op: nat, lam: int, xa: int, xg: int, xr: int): int {
    lam * lam - xa - xg - xr + (if op == 0 then xg - xa else 0)
  }

  function YrNumerator(lam: int, xa: int, xr: int, ya: int, yr: int): int {
    lam * (xa - xr) - ya - yr
  }

  lemma {:induction false} X2Value(xg: Wide, x2: Wide, q0: Wide, pp: Wide)
    requires ZeroFrom(xg, 32) && ZeroFrom(q0, 33) && ZeroFrom(pp, 32)
    ensures Value(TermsX2(xg, x2, q0, pp)) == Value(xg) * Value(xg) - Value(x2) - Value(q0) * Value(pp)
  {
    hide Value, Plus, Minus, Scale, Product;
    ProductValue(xg, xg);
    ProductValue(q0, pp);
    MinusValue(Product(xg, xg), x2);
    MinusValue(Minus(Product(xg, xg), x2), Product(q0, pp));
  }

  lemma {:induction false} YgValue(yg: Wide, pp: Wide, x2: Wide, xg: Wide, q1: Wide, b: Wide)
    requires ZeroFrom(yg, 32) && ZeroFrom(pp, 32) && ZeroFrom(x2, 32) && ZeroFrom(xg, 32) && ZeroFrom(q1, 33)
    ensures Value(TermsYg(yg, pp, x2, xg, q1, b))
         == Value(yg) * Value(yg) + Value(pp) * Value(pp) - Value(x2) * Value(xg) - Value(q1) * Value(pp) - Value(b)
  {
    hide Value, Plus, Minus, Scale, Product;
    ProductValue(yg, yg);
    ProductValue(pp, pp);
    ProductValue(x2, xg);
    ProductValue(q1, pp);
    var s := Plus(Product(yg, yg), Product(pp, pp));
    PlusValue(Product(yg, yg), Product(pp, pp));
    var t := Minus(s, Product(x2, xg));
    MinusValue(s, Product(x2, xg));
    MinusValue(t, Product(q1, pp));
    MinusValue(Minus(t, Product(q1, pp)), b);
  }

  lemma {:induction false} BranchValue(op: nat, lam: Wide, xg: Wide, xa: Wide, ya: Wide, yg: Wide)
    requires ZeroFrom(lam, 32) && ZeroFrom(xg, 32) && ZeroFrom(xa, 32) && ZeroFrom(ya, 32)
    ensures Value(Branch(op, lam, xg, xa, ya, yg))
         == LambdaNumerator(op, Value(lam), Value(xg), Value(xa), Value(ya), Value(yg))
  {
    if op == 1 {
      var d := Minus(xg, xa);
      assert ZeroFrom(d, 32);
      hide Value, Plus, Minus, Scale, Product;
      MinusValue(ya, yg);
      MinusValue(xg, xa);
      ProductValue(lam, d);
      PlusValue(Minus(ya, yg), Product(lam, d));
    } else {
      hide Value, Plus, Minus, Scale, Product;
      ProductValue(lam, ya);
      ProductValue(xa, xa);
      ScaleValue(2, Product(lam, ya));
      ScaleValue(3, Product(xa, xa));
      MinusValue(Scale(2, Product(lam, ya)), Scale(3, Product(xa, xa)));
    }
  }

  /** Adding (r - q)*p to a relation. */
  lemma {:induction false} ShiftValue(s: Wide, r: Wide, pp: Wide, q: Wide)
    requires ZeroFrom(r, 33) && ZeroFrom(pp, 32) && ZeroFrom(q, 33)
    ensures Value(Minus(Plus(s, Product(r, pp)), Product(q, pp)))
         == Value(s) + Value(r) * Value(pp) - Value(q) * Value(pp)
  {
    hide Value, Plus, Minus, Product;
    ProductValue(r, pp);
    ProductValue(q, pp);
    PlusValue(s, Product(r, pp));
    MinusValue(Plus(s, Product(r, pp)), Product(q, pp));
  }

  lemma {:induction false} XrValue(op: nat, lam: Wide, xa: Wide, xg: Wide, xr: Wide, r: Wide, pp: Wide, q1: Wide)
    requires ZeroFrom(lam, 32) && ZeroFrom(r, 33) && ZeroFrom(pp, 32) && ZeroFrom(q1, 33)
    ensures Value(TermsXr(op, lam, xa, xg, xr, r, pp, q1))
         == XrNumerator(op, Value(lam), Value(xa), Value(xg), Value(xr)) + Value(r) * Value(pp) - Value(q1) * Value(pp)
  {
    ValueZeros(Zeros());
    hide Value, Plus, Minus, Scale, Product;
    var opTerm := if op == 0 then Minus(xa, xg) else Zeros();
    MinusValue(xa, xg);
    ProductValue(lam, lam);
    var s := Product(lam, lam);
    MinusValue(s, xa);
    MinusValue(Minus(s, xa), xg);
    MinusValue(Minus(Minus(s, xa), xg), xr);
    var t := Minus(Minus(Minus(s, xa), xg), xr);
    MinusValue(t, opTerm);
    ShiftValue(Minus(t, opTerm), r, pp, q1);
  }

  lemma {:induction false} YrValue(lam: Wide, xa: Wide, xr: Wide, ya: Wide, yr: Wide, r: Wide, pp: Wide, q2: Wide)
    requires ZeroFrom(lam, 32) && ZeroFrom(xa, 32) && ZeroFrom(xr, 32)
    requires ZeroFrom(r, 33) && ZeroFrom(pp, 32) && ZeroFrom(q2, 33)
    ensures Value(TermsYr(lam, xa, xr, ya, yr, r, pp, q2))
         == YrNumerator(Value(lam), Value(xa), Value(xr), Value(ya), Value(yr))
            + Value(r) * Value(pp) - Value(q2) * Value(pp)
  {
    var d := Minus(xa, xr);
    assert ZeroFrom(d, 32);
    hide Value, Plus, Minus, Scale, Product;
    MinusValue(xa, xr);
    ProductValue(lam, d);
    MinusValue(Product(lam, d), ya);
    MinusValue(Minus(Product(lam, d), ya), yr);
    ShiftValue(Minus(Minus(Product(lam, d), ya), yr), r, pp, q2);
  }

  // ---------------------------------------------------------------------
  // How large the terms and the carries get
  // ---------------------------------------------------------------------

  /** 32 products of two bytes. */
  const CONV_MAX := 2_080_800
  const TERM_MAX := 8_323_200

  lemma {:induction false} ProductBound(a: Wide, b: Wide, lo: int, hi: int)
    requires Bytes(a) && Within(b, lo, hi) && lo <= 0 <= hi && ZeroFrom(b, 32)
    ensures Within(Product(a, b), 8160 * lo, 8160 * hi)
  {
    forall i | 0 <= i < LIMBS
      ensures 8160 * lo <= Product(a, b)[i] <= 8160 * hi
    {
      ConvBounds(a, b, i, i + 1, 32, lo, hi);
      var count := if 32 <= i + 1 then 32 else i + 1;
      SummandBound(lo, hi, count, Product(a, b)[i]);
    }
  }

  lemma {:induction false} SummandBound(lo: int, hi: int, count: int, v: int)
    requires lo <= 0 <= hi && 0 <= count <= 32 && 255 * lo * count <= v <= 255 * hi * count
    ensures 8160 * lo <= v <= 8160 * hi
  {
    assert 255 * lo * count - 8160 * lo == -255 * lo * (32 - count);
    assert 8160 * hi - 255 * hi * count == 255 * hi * (32 - count);
  }

  lemma {:induction false} ByteProductBound(a: Wide, b: Wide)
    requires Narrow(a, 33) && Narrow(b, 32)
    ensures Within(Product(a, b), 0, CONV_MAX)
  {
    ProductBound(a, b, 0, 255);
  }

  lemma {:induction false} X2Bound(xg: Wide, x2: Wide, q0: Wide, pp: Wide)
    requires Narrow(xg, 32) && Narrow(x2, 32) && Narrow(q0, 33) && Narrow(pp, 32)
    ensures Within(TermsX2(xg, x2, q0, pp), -TERM_MAX, TERM_MAX)
  {
    ByteProductBound(xg, xg);
    ByteProductBound(q0, pp);
    hide Product;
  }

  lemma {:induction false} YgBound(yg: Wide, pp: Wide, x2: Wide, xg: Wide, q1: Wide, b: Wide)
    requires Narrow(yg, 32) && Narrow(pp, 32) && Narrow(x2, 32) && Narrow(xg, 32) && Narrow(q1, 33) && Narrow(b, 32)
    ensures Within(TermsYg(yg, pp, x2, xg, q1, b), -TERM_MAX, TERM_MAX)
  {
    ByteProductBound(yg, yg);
    ByteProductBound(pp, pp);
    ByteProductBound(x2, xg);
    ByteProductBound(q1, pp);
    hide Product;
  }

  lemma {:induction false} BranchBound(op: nat, lam: Wide, xg: Wide, xa: Wide, ya: Wide, yg: Wide)
    requires Narrow(lam, 32) && Narrow(xg, 32) && Narrow(xa, 32) && Narrow(ya, 32) && Narrow(yg, 32)
    ensures Within(Branch(op, lam, xg, xa, ya, yg), -3 * CONV_MAX, 3 * CONV_MAX)
  {
    if op == 1 {
      var d := Minus(xg, xa);
      assert Within(d, -255, 255) && ZeroFrom(d, 32);
      ProductBound(lam, d, -255, 255);
    } else {
      ByteProductBound(lam, ya);
      ByteProductBound(xa, xa);
    }
    hide Product;
  }

  lemma {:induction false} ShiftBound(s: Wide, r: Wide, pp: Wide, q: Wide)
    requires Within(s, -3 * CONV_MAX, 3 * CONV_MAX)
    requires Narrow(r, 33) && Narrow(pp, 32) && Narrow(q, 33)
    ensures Within(Minus(Plus(s, Product(r, pp)), Product(q, pp)), -TERM_MAX, TERM_MAX)
  {
    ByteProductBound(r, pp);
    ByteProductBound(q, pp);
    hide Product;
  }

  lemma {:induction false} XrBound(op: nat, lam: Wide, xa: Wide, xg: Wide, xr: Wide, r: Wide, pp: Wide, q1: Wide)
    requires Narrow(lam, 32) && Narrow(xa, 32) && Narrow(xg, 32) && Narrow(xr, 32)
    requires Narrow(r, 33) && Narrow(pp, 32) && Narrow(q1, 33)
    ensures Within(TermsXr(op, lam, xa, xg, xr, r, pp, q1), -TERM_MAX, TERM_MAX)
  {
    var opTerm := if op == 0 then Minus(xa, xg) else Zeros();
    var s := Minus(Minus(Minus(Minus(Product(lam, lam), xa), xg), xr), opTerm);
    ByteProductBound(lam, lam);
    hide Product;
    assert Within(s, -3 * CONV_MAX, 3 * CONV_MAX);
    ShiftBound(s, r, pp, q1);
  }

  lemma {:induction false} YrBound(lam: Wide, xa: Wide, xr: Wide, ya: Wide, yr: Wide, r: Wide, pp: Wide, q2: Wide)
    requires Narrow(lam, 32) && Narrow(xa, 32) && Narrow(xr, 32) && Narrow(ya, 32) && Narrow(yr, 32)
    requires Narrow(r, 33) && Narrow(pp, 32) && Narrow(q2, 33)
    ensures Within(TermsYr(lam, xa, xr, ya, yr, r, pp, q2), -TERM_MAX, TERM_MAX)
  {
    var d := Minus(xa, xr);
    assert Within(d, -255, 255) && ZeroFrom(d, 32);
    ProductBound(lam, d, -255, 255);
    hide Product;
    var s := Minus(Minus(Product(lam, d), ya), yr);
    assert Within(s, -3 * CONV_MAX, 3 * CONV_MAX);
    ShiftBound(s, r, pp, q2);
  }

  /** The chip accepts `c` for `terms`: the chain closes and every carry is a halfword after its offset. */
  predicate ClosedChain(terms: Wide, c: seq<int>) {
    && |c| == LIMBS && CarryChain(0, terms, c) && c[LIMBS - 1] == 0
    && Within(c, -0x8000, 0x7FFF)
  }

  /** Small terms have a closed chain exactly when they spell zero, and the builder finds it. */
  lemma {:induction false} ChainCloses(terms: Wide)
    requires Within(terms, -TERM_MAX, TERM_MAX)
    ensures CarriesOf(terms).Some? <==> Value(terms) == 0
    ensures CarriesOf(terms).Some? ==> ClosedChain(terms, CarriesOf(terms).value)
  {
    CarriesAcceptedIffZero(terms);
    CarriesBounded(0, terms, TERM_MAX, TERM_MAX);
    ExactCarriesChain(0, terms);
    if CarriesOf(terms).Some? {
      var c := CarriesOf(terms).value;
      assert forall i | 0 <= i < |c| :: -TERM_MAX <= 255 * c[i] <= TERM_MAX;
      assert c[LIMBS - 1] == 0;
    }
  }

  /** xG^2 = x2 + q0*p, decided by the carries for all byte inputs. */
  lemma {:induction false} X2Decided(xg: Wide, x2: Wide, q0: Wide, pp: Wide)
    requires Narrow(xg, 32) && Narrow(x2, 32) && Narrow(q0, 33) && Narrow(pp, 32)
    ensures var c := CarriesOf(TermsX2(xg, x2, q0, pp));
            && (c.Some? <==> Value(xg) * Value(xg) == Value(x2) + Value(q0) * Value(pp))
            && (c.Some? ==> ClosedChain(TermsX2(xg, x2, q0, pp), c.value))
  {
    hide TermsX2, Value, CarriesOf;
    X2Value(xg, x2, q0, pp);
    X2Bound(xg, x2, q0, pp);
    ChainCloses(TermsX2(xg, x2, q0, pp));
  }

  lemma {:induction false} YgDecided(yg: Wide, pp: Wide, x2: Wide, xg: Wide, q1: Wide, b: Wide)
    requires Narrow(yg, 32) && Narrow(pp, 32) && Narrow(x2, 32) && Narrow(xg, 32) && Narrow(q1, 33) && Narrow(b, 32)
    ensures var c := CarriesOf(TermsYg(yg, pp, x2, xg, q1, b));
            && (c.Some? <==> Value(yg) * Value(yg) + Value(pp) * Value(pp)
                             == Value(x2) * Value(xg) + Value(b) + Value(q1) * Value(pp))
            && (c.Some? ==> ClosedChain(TermsYg(yg, pp, x2, xg, q1, b), c.value))
  {
    hide TermsYg, Value, CarriesOf;
    YgValue(yg, pp, x2, xg, q1, b);
    YgBound(yg, pp, x2, xg, q1, b);
    ChainCloses(TermsYg(yg, pp, x2, xg, q1, b));
  }

  /** numerator + r*p = q*p */
  predicate Quotient(numerator: int, r: int, q: int, p: int) {
    numerator + r * p == q * p
  }

  lemma {:induction false} LambdaDecided(op: nat, lam: Wide, xg: Wide, xa: Wide, ya: Wide, yg: Wide, r: Wide,
                                         pp: Wide, q0: Wide)
    requires Narrow(lam, 32) && Narrow(xg, 32) && Narrow(xa, 32) && Narrow(ya, 32) && Narrow(yg, 32)
    requires Narrow(r, 33) && Narrow(pp, 32) && Narrow(q0, 33)
    ensures var terms := TermsLambda(op, lam, xg, xa, ya, yg, r, pp, q0);
            var c := CarriesOf(terms);
            && (c.Some? <==> Quotient(LambdaNumerator(op, Value(lam), Value(xg), Value(xa), Value(ya), Value(yg)),
                                      Value(r), Value(q0), Value(pp)))
            && (c.Some? ==> ClosedChain(terms, c.value))
  {
    hide Branch, Value, CarriesOf, LambdaNumerator;
    var s := Branch(op, lam, xg, xa, ya, yg);
    BranchValue(op, lam, xg, xa, ya, yg);
    BranchBound(op, lam, xg, xa, ya, yg);
    ShiftValue(s, r, pp, q0);
    ShiftBound(s, r, pp, q0);
    ChainCloses(TermsLambda(op, lam, xg, xa, ya, yg, r, pp, q0));
  }

  lemma {:induction false} XrDecided(op: nat, lam: Wide, xa: Wide, xg: Wide, xr: Wide, r: Wide, pp: Wide, q1: Wide)
    requires Narrow(lam, 32) && Narrow(xa, 32) && Narrow(xg, 32) && Narrow(xr, 32)
    requires Narrow(r, 33) && Narrow(pp, 32) && Narrow(q1, 33)
    ensures var terms := TermsXr(op, lam, xa, xg, xr, r, pp, q1);
            var c := CarriesOf(terms);
            && (c.Some? <==> Quotient(XrNumerator(op, Value(lam), Value(xa), Value(xg), Value(xr)),
                                      Value(r), Value(q1), Value(pp)))
            && (c.Some? ==> ClosedChain(terms, c.value))
  {
    hide TermsXr, Value, CarriesOf, XrNumerator;
    XrValue(op, lam, xa, xg, xr, r, pp, q1);
    XrBound(op, lam, xa, xg, xr, r, pp, q1);
    ChainCloses(TermsXr(op, lam, xa, xg, xr, r, pp, q1));
  }

  lemma {:induction false} YrDecided(lam: Wide, xa: Wide, xr: Wide, ya: Wide, yr: Wide, r: Wide, pp: Wide, q2: Wide)
    requires Narrow(lam, 32) && Narrow(xa, 32) && Narrow(xr, 32) && Narrow(ya, 32) && Narrow(yr, 32)
    requires Narrow(r, 33) && Narrow(pp, 32) && Narrow(q2, 33)
    ensures var terms := TermsYr(lam, xa, xr, ya, yr, r, pp, q2);
            var c := CarriesOf(terms);
            && (c.Some? <==> Quotient(YrNumerator(Value(lam), Value(xa), Value(xr), Value(ya), Value(yr)),
                                      Value(r), Value(q2), Value(pp)))
            && (c.Some? ==> ClosedChain(terms, c.value))
  {
    hide TermsYr, Value, CarriesOf, YrNumerator;
    YrValue(lam, xa, xr, ya, yr, r, pp, q2);
    YrBound(lam, xa, xr, ya, yr, r, pp, q2);
    ChainCloses(TermsYr(lam, xa, xr, ya, yr, r, pp, q2));
  }
}
