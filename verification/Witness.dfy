/**
  The ECSM/ECDAS witness: quotients and carry chains for five integer
  identities modulo p, from the replayed steps.
 */
module Witness {
  import opened Modular
  import opened Curve
  import opened Outcomes
  import opened Schedule
  import opened Replay
  import opened Limbs
  import Relations
  import Hints

  const P: nat := 0xFFFFFFFF_FFFFFFFF_FFFFFFFF_FFFFFFFF_FFFFFFFF_FFFFFFFF_FFFFFFFE_FFFFFC2F
  const N: nat := 0xFFFFFFFF_FFFFFFFF_FFFFFFFF_FFFFFFFE_BAAEDCE6_AF48A03B_BFD25E8C_D0364141
  const TWO_256: nat := 0x1_00000000_00000000_00000000_00000000_00000000_00000000_00000000_00000000

  /** A run of 0xFF bytes. */
  function Ones(n: nat): (s: seq<int>)
    ensures |s| == n && forall i | 0 <= i < n :: s[i] == 0xFF
  {
    if n == 0 then [] else [0xFF] + Ones(n - 1)
  }

  /** The 32 bytes of p. */
  function PBytes(): (s: seq<int>)
    ensures |s| == 32
  {
    [0x2F, 0xFC, 0xFF, 0xFF, 0xFE] + Ones(27)
  }

  /** The 33 bytes of the shift offset r. */
  function RBytes(): (s: seq<int>)
    ensures |s| == 33
  {
    [0x8D, 0xF4, 0xFF, 0xFF, 0xFC] + Ones(27) + [0x02]
  }

  lemma {:induction false} OnesValue(n: nat)
    ensures Value(Ones(n)) == Pow256(n) - 1
  {
    if n > 0 {
      OnesValue(n - 1);
      assert Ones(n)[1..] == Ones(n - 1);
    }
  }

  lemma {:induction false} Pow256Add(m: nat, n: nat)
    ensures Pow256(m + n) == Pow256(m) * Pow256(n)
  {
    if m > 0 {
      Pow256Add(m - 1, n);
      MulAssoc(256, Pow256(m - 1), Pow256(n));
    }
  }

  lemma {:induction false} PowersAgree()
    ensures Pow256(32) == TWO_256 && Pow256(33) == 256 * TWO_256
  {
    assert Pow256(8) == I64;
    Pow256Add(8, 8);
    Pow256Add(16, 16);
    assert I64 * I64 == 0x1_00000000_00000000_00000000_00000000;
    Pow256Add(1, 32);
    assert Pow256(1) == 256;
  }

  lemma {:induction false} ValueOf5(b0: int, b1: int, b2: int, b3: int, b4: int)
    ensures Value([b0, b1, b2, b3, b4]) == b0 + 256 * (b1 + 256 * (b2 + 256 * (b3 + 256 * b4)))
  {
    var s := [b0, b1, b2, b3, b4];
    assert s[1..] == [b1, b2, b3, b4] && s[1..][1..] == [b2, b3, b4];
    assert [b2, b3, b4][1..] == [b3, b4] && [b3, b4][1..] == [b4] && [b4][1..] == [];
    assert Value([b4]) == b4;
    assert Value([b3, b4]) == b3 + 256 * b4;
    assert Value([b2, b3, b4]) == b2 + 256 * (b3 + 256 * b4);
  }

  lemma {:induction false} ThenOnes(s: seq<int>, n: nat)
    ensures Value(s + Ones(n)) == Value(s) + Pow256(|s| + n) - Pow256(|s|)
  {
    hide Value, Ones, Pow256;
    OnesValue(n);
    ValueAppend(s, Ones(n));
    Pow256Add(|s|, n);
    var w := Pow256(|s|);
    assert w * (Pow256(n) - 1) == w * Pow256(n) - w;
  }

  lemma {:induction false} FiveThenOnes(b0: int, b1: int, b2: int, b3: int, b4: int)
    ensures Value([b0, b1, b2, b3, b4] + Ones(27))
         == b0 + 256 * (b1 + 256 * (b2 + 256 * (b3 + 256 * b4))) + TWO_256 - 0x100_0000_0000
  {
    assert Pow256(5) == 0x100_0000_0000;
    hide Value, Ones, Pow256;
    ValueOf5(b0, b1, b2, b3, b4);
    PowersAgree();
    ThenOnes([b0, b1, b2, b3, b4], 27);
  }

  /** The standard generator. */
  const GENERATOR := Point(
    0x79BE667E_F9DCBBAC_55A06295_CE870B07_029BFCDB_2DCE28D9_59F2815B_16F81798,
    0x483ADA77_26A3C465_5DA4FBFC_0E1108A8_FD17B448_A6855419_9C47D08F_FB10D4B8)

  /** The modulus and the curve's constant fit the generator. */
  lemma {:induction false} GeneratorOnCurve()
    ensures OnCurve(P, GENERATOR)
  {}

  /** The byte tables hold p and r = 3p. */
  lemma {:induction false} ConstantsAgree()
    ensures |PBytes()| == 32 && Bytes(PBytes()) && Value(PBytes()) == P
    ensures |RBytes()| == 33 && Bytes(RBytes()) && Value(RBytes()) == 3 * P
  {
    hide Value, Pow256;
    FiveThenOnes(0x2F, 0xFC, 0xFF, 0xFF, 0xFE);
    FiveThenOnes(0x8D, 0xF4, 0xFF, 0xFF, 0xFC);
    PowersAgree();
    LastByte([0x8D, 0xF4, 0xFF, 0xFF, 0xFC] + Ones(27), 2);
  }

  lemma {:induction false} LastByte(s: seq<int>, b: int)
    ensures Value(s + [b]) == Value(s) + Pow256(|s|) * b
  {
    ValueAppend(s, [b]);
    assert Value([b]) == b;
  }

  // ---------------------------------------------------------------------
  // Bytes and quotients
  // ---------------------------------------------------------------------

  function ToLe32(v: nat): seq<int> { LeBytes(v, 32) }

  /** None stands for the tripped length assertion. */
  function ToLe33(v: nat): Option<seq<int>> {
    if v < Pow256(33) then Some(LeBytes(v, 33)) else None
  }

  /** `bytes` is the n-byte little-endian form of `v`. */
  predicate Encodes(bytes: seq<int>, v: int, n: nat) {
    |bytes| == n && Bytes(bytes) && Value(bytes) == v
  }

  lemma {:induction false} Le32Encodes(v: nat)
    requires v < TWO_256
    ensures Encodes(ToLe32(v), v, 32)
  {
    PowersAgree();
    hide Value, Pow256;
    LeBytesValue(v, 32);
  }

  lemma {:induction false} EncodedWide(bytes: seq<int>, v: int, n: nat)
    requires n <= 33 && Encodes(bytes, v, n)
    ensures Relations.Narrow(Extended(bytes), n) && Value(Extended(bytes)) == v
  {
    ValueExtended(bytes);
  }

  /** r + num/p; None stands for a tripped assertion. Exact division makes rounding irrelevant. */
  function ShiftedQuotient(num: int, p: Modulus, r: nat): Option<nat> {
    if num % p != 0 then None
    else if r + num / p < 0 then None
    else Some(r + num / p)
  }

  /** The quotient exists exactly when p divides and num >= -r*p, and then num + r*p = q*p. */
  lemma {:induction false} ShiftedQuotientMeaning(num: int, p: Modulus, r: nat)
    ensures var q := ShiftedQuotient(num, p, r);
            && (q.Some? <==> num % p == 0 && num >= -(r * p))
            && (q.Some? ==> Relations.Quotient(num, r, q.value, p))
  {
    if num % p == 0 {
      var q := num / p;
      assert num == q * p;
      assert (r + q) * p == num + r * p;
      MulSign(r + q, p);
    }
  }

  /** Numerators between -3p^2 and 2p^2 have quotients between 0 and 5p. */
  lemma {:induction false} QuotientRange(num: int, p: Modulus)
    requires num % p == 0 && -3 * (p * p) <= num <= 2 * (p * p)
    ensures var q := ShiftedQuotient(num, p, 3 * p);
            q.Some? && q.value <= 5 * p && Relations.Quotient(num, 3 * p, q.value, p)
  {
    assert 3 * p * p == 3 * (p * p);
    ShiftedQuotientMeaning(num, p, 3 * p);
    var q := num / p;
    assert num == q * p;
    assert (q - 2 * p) * p == num - 2 * (p * p);
    MulSign(q - 2 * p, p);
  }

  lemma {:induction false} MulMonotone(a: int, b: int, c: int)
    requires a <= b && 0 <= c
    ensures a * c <= b * c
  {
    assert (b - a) * c >= 0;
  }

  lemma {:induction false} ProductRange(x: int, y: int, p: int)
    requires 0 <= x < p && 0 <= y < p
    ensures 0 <= x * y <= p * p - 2 * p + 1
  {
    MulMonotone(0, x, y);
    MulMonotone(y, p - 1, x);
    MulMonotone(x, p - 1, p - 1);
    assert (p - 1) * (p - 1) == p * p - 2 * p + 1;
  }

  lemma {:induction false} SquareRoom(p: int)
    requires p >= 3
    ensures p * p >= 3 * p
  {
    MulMonotone(3, p, p);
  }

  lemma {:induction false} LambdaRange(p: Modulus, op: nat, l: int, xg: int, xa: int, ya: int, yg: int)
    requires p >= 3 && IsResidue(p, l) && IsResidue(p, xg) && IsResidue(p, yg) && IsResidue(p, xa) && IsResidue(p, ya)
    ensures -3 * (p * p) <= Relations.LambdaNumerator(op, l, xg, xa, ya, yg) <= 2 * (p * p)
  {
    if op == 1 {
      ChordRange(p, l, xg, xa, yg, -ya);
    } else {
      ProductRange(l, ya, p);
      ProductRange(xa, xa, p);
      TangentFits(p * p, p, l * ya, xa * xa);
    }
  }

  lemma {:induction false} ChordRange(p: Modulus, l: int, u: int, v: int, x: int, y: int)
    requires p >= 3 && IsResidue(p, l) && IsResidue(p, u) && IsResidue(p, v) && 0 < p + y && y < p && IsResidue(p, x)
    ensures -3 * (p * p) <= l * (u - v) - x - y <= 2 * (p * p)
  {
    SquareRoom(p);
    Spread(l, u, v);
    ProductRange(l, u, p);
    ProductRange(l, v, p);
    DifferenceFits(p * p, p, l * u, l * v, x, y);
  }

  lemma {:induction false} TangentFits(pp: int, p: int, u: int, v: int)
    requires p >= 3 && 0 <= u <= pp - 2 * p + 1 && 0 <= v <= pp - 2 * p + 1
    ensures -3 * pp <= 2 * u - 3 * v <= 2 * pp
  {}

  lemma {:induction false} Spread(l: int, x: int, y: int)
    ensures l * (x - y) == l * x - l * y
  {}

  lemma {:induction false} DifferenceFits(pp: int, p: int, u: int, v: int, x: int, y: int)
    requires p >= 3 && pp >= 3 * p && 0 <= u <= pp - 2 * p + 1 && 0 <= v <= pp - 2 * p + 1
    requires 0 <= x < p && -p < y < p
    ensures -3 * pp <= u - v - x - y <= 2 * pp
  {}

  lemma {:induction false} XrRange(p: Modulus, op: nat, l: int, xa: int, xg: int, xr: int)
    requires p >= 3 && IsResidue(p, l) && IsResidue(p, xg) && IsResidue(p, xa) && IsResidue(p, xr)
    ensures -3 * (p * p) <= Relations.XrNumerator(op, l, xa, xg, xr) <= 2 * (p * p)
  {
    SquareRoom(p);
    ProductRange(l, l, p);
    SquareFits(p * p, p, l * l, op, xa, xg, xr);
  }

  lemma {:induction false} SquareFits(pp: int, p: int, q: int, op: nat, xa: int, xg: int, xr: int)
    requires p >= 3 && pp >= 3 * p && 0 <= q <= pp - 2 * p + 1 && 0 <= xa < p && 0 <= xg < p && 0 <= xr < p
    ensures -3 * pp <= q - xa - xg - xr + (if op == 0 then xg - xa else 0) <= 2 * pp
  {}

  lemma {:induction false} YrRange(p: Modulus, l: int, xa: int, xr: int, ya: int, yr: int)
    requires p >= 3 && IsResidue(p, l) && IsResidue(p, xa) && IsResidue(p, xr) && IsResidue(p, ya) && IsResidue(p, yr)
    ensures -3 * (p * p) <= Relations.YrNumerator(l, xa, xr, ya, yr) <= 2 * (p * p)
  {
    ChordRange(p, l, xa, xr, ya, yr);
  }

  /** The field moduli the byte layout has room for. */
  type Field = p: nat | 7 <= p < TWO_256 witness 7

  /**
    The byte tables hold p and 3p, so p is P; below, p stays a name because
    products with a 256-bit literal are costly to reason about.
   */
  predicate Tables(p: Field) {
    Encodes(PBytes(), p, 32) && Encodes(RBytes(), 3 * p, 33)
  }

  lemma {:induction false} TablesHold()
    ensures Tables(P)
  {
    ConstantsAgree();
  }

  // ---------------------------------------------------------------------
  // One ECDAS row
  // ---------------------------------------------------------------------

  datatype StepWitness = StepWitness(
    xA: seq<int>, yA: seq<int>, xG: seq<int>, yG: seq<int>,
    round: nat, op: nat, nextOp: nat,
    lambda: seq<int>, xR: seq<int>, yR: seq<int>,
    q0: seq<int>, q1: seq<int>, q2: seq<int>,
    c0: seq<int>, c1: seq<int>, c2: seq<int>)

  /** Coordinates and slope are field elements. */
  predicate FieldStep(p: Field, s: Step) {
    && IsResidue(p, s.a.x) && IsResidue(p, s.a.y) && IsResidue(p, s.g.x) && IsResidue(p, s.g.y)
    && IsResidue(p, s.r.x) && IsResidue(p, s.r.y) && IsResidue(p, s.lambda)
  }

  function Num0(s: Step): int { Relations.LambdaNumerator(s.op, s.lambda, s.g.x, s.a.x, s.a.y, s.g.y) }

  function Num1(s: Step): int { Relations.XrNumerator(s.op, s.lambda, s.a.x, s.g.x, s.r.x) }

  function Num2(s: Step): int { Relations.YrNumerator(s.lambda, s.a.x, s.r.x, s.a.y, s.r.y) }

  /** The three congruences modulo p that a double or add satisfies. */
  predicate Congruences(p: Field, s: Step) {
    Num0(s) % p == 0 && Num1(s) % p == 0 && Num2(s) % p == 0
  }

  predicate StepBytes(s: Step, w: StepWitness) {
    && Encodes(w.xA, s.a.x, 32) && Encodes(w.yA, s.a.y, 32) && Encodes(w.xG, s.g.x, 32) && Encodes(w.yG, s.g.y, 32)
    && Encodes(w.lambda, s.lambda, 32) && Encodes(w.xR, s.r.x, 32) && Encodes(w.yR, s.r.y, 32)
    && w.round == s.round && w.op == s.op && w.nextOp == s.nextOp
  }

  /** A 33-byte quotient of `num` by p, shifted by r = 3p. */
  predicate QuotientBytes(p: Field, q: seq<int>, num: int) {
    |q| == 33 && Bytes(q) && Relations.Quotient(num, 3 * p, Value(q), p)
  }

  predicate StepSizes(w: StepWitness) {
    && |w.xA| == |w.yA| == |w.xG| == |w.yG| == |w.lambda| == |w.xR| == |w.yR| == 32
    && |w.q0| == |w.q1| == |w.q2| == 33
  }

  function Terms0(w: StepWitness): Relations.Wide
    requires StepSizes(w)
  {
    Relations.TermsLambda(w.op, Extended(w.lambda), Extended(w.xG), Extended(w.xA), Extended(w.yA), Extended(w.yG),
                          Extended(RBytes()), Extended(PBytes()), Extended(w.q0))
  }

  function Terms1(w: StepWitness): Relations.Wide
    requires StepSizes(w)
  {
    Relations.TermsXr(w.op, Extended(w.lambda), Extended(w.xA), Extended(w.xG), Extended(w.xR),
                      Extended(RBytes()), Extended(PBytes()), Extended(w.q1))
  }

  function Terms2(w: StepWitness): Relations.Wide
    requires StepSizes(w)
  {
    Relations.TermsYr(Extended(w.lambda), Extended(w.xA), Extended(w.xR), Extended(w.yA), Extended(w.yR),
                      Extended(RBytes()), Extended(PBytes()), Extended(w.q2))
  }

  predicate StepChains(w: StepWitness)
    requires StepSizes(w)
  {
    && Relations.ClosedChain(Terms0(w), w.c0)
    && Relations.ClosedChain(Terms1(w), w.c1)
    && Relations.ClosedChain(Terms2(w), w.c2)
  }

  /** `w` is a witness the ECDAS chip accepts for the step `s`. */
  predicate StepProven(p: Field, s: Step, w: StepWitness) {
    && StepBytes(s, w)
    && QuotientBytes(p, w.q0, Num0(s)) && QuotientBytes(p, w.q1, Num1(s)) && QuotientBytes(p, w.q2, Num2(s))
    && StepChains(w)
  }

  function QuotientOf(p: Field, num: int): Option<seq<int>> {
    var q :- ShiftedQuotient(num, p, 3 * p);
    ToLe33(q)
  }

  lemma {:induction false} QuotientExists(p: Field, num: int)
    requires -3 * (p * p) <= num <= 2 * (p * p)
    ensures QuotientOf(p, num).Some? <==> num % p == 0
    ensures QuotientOf(p, num).Some? ==> QuotientBytes(p, QuotientOf(p, num).value, num)
  {
    hide Value, Pow256, LeBytes;
    if num % p == 0 {
      QuotientRange(num, p);
      PowersAgree();
      LeBytesValue(ShiftedQuotient(num, p, 3 * p).value, 33);
    }
  }

  lemma {:induction false} StepNumeratorRange(p: Field, s: Step)
    requires FieldStep(p, s)
    ensures -3 * (p * p) <= Num0(s) <= 2 * (p * p)
    ensures -3 * (p * p) <= Num1(s) <= 2 * (p * p)
    ensures -3 * (p * p) <= Num2(s) <= 2 * (p * p)
  {
    hide Relations.LambdaNumerator, Relations.XrNumerator, Relations.YrNumerator;
    LambdaRange(p, s.op, s.lambda, s.g.x, s.a.x, s.a.y, s.g.y);
    XrRange(p, s.op, s.lambda, s.a.x, s.g.x, s.r.x);
    YrRange(p, s.lambda, s.a.x, s.r.x, s.a.y, s.r.y);
  }

  lemma {:induction false} WideConstants(p: Field)
    requires Tables(p)
    ensures Relations.Narrow(Extended(PBytes()), 32) && Value(Extended(PBytes())) == p
    ensures Relations.Narrow(Extended(RBytes()), 33) && Value(Extended(RBytes())) == 3 * p
  {
    hide Value, PBytes, RBytes;
    EncodedWide(PBytes(), p, 32);
    EncodedWide(RBytes(), 3 * p, 33);
  }

  lemma {:induction false} StepBytesWide(s: Step, w: StepWitness)
    requires StepBytes(s, w)
    ensures Relations.Narrow(Extended(w.xA), 32) && Value(Extended(w.xA)) == s.a.x
    ensures Relations.Narrow(Extended(w.yA), 32) && Value(Extended(w.yA)) == s.a.y
    ensures Relations.Narrow(Extended(w.xG), 32) && Value(Extended(w.xG)) == s.g.x
    ensures Relations.Narrow(Extended(w.yG), 32) && Value(Extended(w.yG)) == s.g.y
    ensures Relations.Narrow(Extended(w.lambda), 32) && Value(Extended(w.lambda)) == s.lambda
    ensures Relations.Narrow(Extended(w.xR), 32) && Value(Extended(w.xR)) == s.r.x
    ensures Relations.Narrow(Extended(w.yR), 32) && Value(Extended(w.yR)) == s.r.y
  {
    hide Value, Relations.Narrow, Extended;
    EncodedWide(w.xA, s.a.x, 32);
    EncodedWide(w.yA, s.a.y, 32);
    EncodedWide(w.xG, s.g.x, 32);
    EncodedWide(w.yG, s.g.y, 32);
    EncodedWide(w.lambda, s.lambda, 32);
    EncodedWide(w.xR, s.r.x, 32);
    EncodedWide(w.yR, s.r.y, 32);
  }

  predicate QuotientShape(w: StepWitness) {
    |w.q0| == |w.q1| == |w.q2| == 33 && Bytes(w.q0) && Bytes(w.q1) && Bytes(w.q2)
  }

  /** The slope chain of a row closes exactly when its quotient is the right one. */
  lemma {:induction false} SlopeChainDecided(p: Field, s: Step, w: StepWitness)
    requires Tables(p) && StepBytes(s, w) && QuotientShape(w)
    ensures CarriesOf(Terms0(w)).Some? <==> QuotientBytes(p, w.q0, Num0(s))
    ensures CarriesOf(Terms0(w)).Some? ==> Relations.ClosedChain(Terms0(w), CarriesOf(Terms0(w)).value)
  {
    hide Value, Relations.Narrow, Extended, CarriesOf, Relations.Quotient, PBytes, RBytes,
      Relations.TermsLambda, Relations.TermsXr, Relations.TermsYr, Relations.ClosedChain, Tables;
    WideConstants(p);
    StepBytesWide(s, w);
    EncodedWide(w.q0, Value(w.q0), 33);
    Relations.LambdaDecided(w.op, Extended(w.lambda), Extended(w.xG), Extended(w.xA), Extended(w.yA), Extended(w.yG),
                            Extended(RBytes()), Extended(PBytes()), Extended(w.q0));
  }

  /** Likewise for the abscissa chain. */
  lemma {:induction false} AbscissaChainDecided(p: Field, s: Step, w: StepWitness)
    requires Tables(p) && StepBytes(s, w) && QuotientShape(w)
    ensures CarriesOf(Terms1(w)).Some? <==> QuotientBytes(p, w.q1, Num1(s))
    ensures CarriesOf(Terms1(w)).Some? ==> Relations.ClosedChain(Terms1(w), CarriesOf(Terms1(w)).value)
  {
    hide Value, Relations.Narrow, Extended, CarriesOf, Relations.Quotient, PBytes, RBytes,
      Relations.TermsLambda, Relations.TermsXr, Relations.TermsYr, Relations.ClosedChain, Tables;
    WideConstants(p);
    StepBytesWide(s, w);
    EncodedWide(w.q1, Value(w.q1), 33);
    Relations.XrDecided(w.op, Extended(w.lambda), Extended(w.xA), Extended(w.xG), Extended(w.xR),
                        Extended(RBytes()), Extended(PBytes()), Extended(w.q1));
  }

  /** Likewise for the ordinate chain. */
  lemma {:induction false} OrdinateChainDecided(p: Field, s: Step, w: StepWitness)
    requires Tables(p) && StepBytes(s, w) && QuotientShape(w)
    ensures CarriesOf(Terms2(w)).Some? <==> QuotientBytes(p, w.q2, Num2(s))
    ensures CarriesOf(Terms2(w)).Some? ==> Relations.ClosedChain(Terms2(w), CarriesOf(Terms2(w)).value)
  {
    hide Value, Relations.Narrow, Extended, CarriesOf, Relations.Quotient, PBytes, RBytes,
      Relations.TermsLambda, Relations.TermsXr, Relations.TermsYr, Relations.ClosedChain, Tables;
    WideConstants(p);
    StepBytesWide(s, w);
    EncodedWide(w.q2, Value(w.q2), 33);
    Relations.YrDecided(Extended(w.lambda), Extended(w.xA), Extended(w.xR), Extended(w.yA), Extended(w.yR),
                        Extended(RBytes()), Extended(PBytes()), Extended(w.q2));
  }

  /** Filling in the carry arrays leaves the terms as they were. */
  lemma {:induction false} ChainsFilled(w: StepWitness, c0: seq<int>, c1: seq<int>, c2: seq<int>)
    requires StepSizes(w)
    requires Relations.ClosedChain(Terms0(w), c0) && Relations.ClosedChain(Terms1(w), c1)
    requires Relations.ClosedChain(Terms2(w), c2)
    ensures StepChains(w.(c0 := c0, c1 := c1, c2 := c2))
  {
    hide Relations.ClosedChain, Relations.TermsLambda, Relations.TermsXr, Relations.TermsYr, PBytes, RBytes, Extended;
    var v := w.(c0 := c0, c1 := c1, c2 := c2);
    assert Terms0(v) == Terms0(w) && Terms1(v) == Terms1(w) && Terms2(v) == Terms2(w);
  }

  method StepQuotients(p: Field, s: Step) returns (res: Option<(seq<int>, seq<int>, seq<int>)>)
    requires FieldStep(p, s)
    ensures res.Some? <==> Congruences(p, s)
    ensures res.Some? ==> QuotientBytes(p, res.value.0, Num0(s)) && QuotientBytes(p, res.value.1, Num1(s))
                          && QuotientBytes(p, res.value.2, Num2(s))
  {
    hide Num0, Num1, Num2, QuotientBytes, QuotientOf;
    StepNumeratorRange(p, s);
    var num0 := if s.op == 1 then (s.g.x - s.a.x) * s.lambda - s.g.y + s.a.y
                else 2 * s.lambda * s.a.y - 3 * s.a.x * s.a.x;
    assert num0 == Num0(s) by { Num0Value(s); }
    QuotientExists(p, Num0(s));
    var q0 :- QuotientOf(p, num0);
    var num1 := s.lambda * s.lambda - s.a.x - s.g.x - s.r.x;
    if s.op == 0 {
      num1 := num1 + (s.g.x - s.a.x);
    }
    assert num1 == Num1(s) by { Num1Value(s); }
    QuotientExists(p, Num1(s));
    var q1 :- QuotientOf(p, num1);
    var num2 := s.lambda * (s.a.x - s.r.x) - s.a.y - s.r.y;
    assert num2 == Num2(s) by { Num2Value(s); }
    QuotientExists(p, Num2(s));
    var q2 :- QuotientOf(p, num2);
    return Some((q0, q1, q2));
  }

  /**
    Builds one row. None stands for a tripped assertion, and for field elements
    that happens exactly when a congruence fails: no quotient is negative or
    longer than 33 bytes, and every chain closes.
   */
  method BuildStep(p: Field, s: Step) returns (res: Option<StepWitness>)
    requires Tables(p) && FieldStep(p, s)
    ensures res.Some? <==> Congruences(p, s)
    ensures res.Some? ==> StepProven(p, s, res.value)
  {
    var lam, xa, ya := ToLe32(s.lambda), ToLe32(s.a.x), ToLe32(s.a.y);
    var xg, yg, xr, yr := ToLe32(s.g.x), ToLe32(s.g.y), ToLe32(s.r.x), ToLe32(s.r.y);
    StepEncodes(p, s);
    hide Value, CarriesOf, StepChains, Congruences, Num0, Num1, Num2, Terms0, Terms1, Terms2, Tables,
      Relations.ClosedChain;
    var qs :- StepQuotients(p, s);
    var w := StepWitness(xa, ya, xg, yg, s.round, s.op, s.nextOp, lam, xr, yr, qs.0, qs.1, qs.2, [], [], []);
    SlopeChainDecided(p, s, w);
    AbscissaChainDecided(p, s, w);
    OrdinateChainDecided(p, s, w);
    res := StepCarries(w);
    ChainsFilled(w, res.value.c0, res.value.c1, res.value.c2);
  }

  lemma {:induction false} Num0Value(s: Step)
    ensures Num0(s) == if s.op == 1 then (s.g.x - s.a.x) * s.lambda - s.g.y + s.a.y
                       else 2 * s.lambda * s.a.y - 3 * s.a.x * s.a.x
  {
    MulAssoc(2, s.lambda, s.a.y);
    MulAssoc(3, s.a.x, s.a.x);
  }

  lemma {:induction false} Num1Value(s: Step)
    ensures Num1(s) == s.lambda * s.lambda - s.a.x - s.g.x - s.r.x + (if s.op == 0 then s.g.x - s.a.x else 0)
  {}

  lemma {:induction false} Num2Value(s: Step)
    ensures Num2(s) == s.lambda * (s.a.x - s.r.x) - s.a.y - s.r.y
  {}

  lemma {:induction false} StepEncodes(p: Field, s: Step)
    requires FieldStep(p, s)
    ensures Encodes(ToLe32(s.lambda), s.lambda, 32) && Encodes(ToLe32(s.a.x), s.a.x, 32)
    ensures Encodes(ToLe32(s.a.y), s.a.y, 32) && Encodes(ToLe32(s.g.x), s.g.x, 32)
    ensures Encodes(ToLe32(s.g.y), s.g.y, 32) && Encodes(ToLe32(s.r.x), s.r.x, 32)
    ensures Encodes(ToLe32(s.r.y), s.r.y, 32)
  {
    hide Encodes, ToLe32;
    Le32Encodes(s.lambda);
    Le32Encodes(s.a.x);
    Le32Encodes(s.a.y);
    Le32Encodes(s.g.x);
    Le32Encodes(s.g.y);
    Le32Encodes(s.r.x);
    Le32Encodes(s.r.y);
  }

  /** The three carry arrays of a row whose bytes and quotients are in place. */
  method StepCarries(w: StepWitness) returns (res: Option<StepWitness>)
    requires StepSizes(w)
    ensures var c0, c1, c2 := CarriesOf(Terms0(w)), CarriesOf(Terms1(w)), CarriesOf(Terms2(w));
            res == if c0.Some? && c1.Some? && c2.Some?
                   then Some(w.(c0 := c0.value, c1 := c1.value, c2 := c2.value)) else None
  {
    var rExt := Ext64(RBytes());
    var pp := Ext64(PBytes());
    var lam := Ext64(w.lambda);
    var xa := Ext64(w.xA);
    var ya := Ext64(w.yA);
    var xg := Ext64(w.xG);
    var yg := Ext64(w.yG);
    var xr := Ext64(w.xR);
    var yr := Ext64(w.yR);
    var q0 := Ext64(w.q0);
    var c0 :- Relations.CarriesLambda(w.op, lam, xg, xa, ya, yg, rExt, pp, q0);
    var q1 := Ext64(w.q1);
    var c1 :- Relations.CarriesXr(w.op, lam, xa, xg, xr, rExt, pp, q1);
    var q2 := Ext64(w.q2);
    var c2 :- Relations.CarriesYr(lam, xa, xr, ya, yr, rExt, pp, q2);
    return Some(w.(c0 := c0, c1 := c1, c2 := c2));
  }

  /** A replayed step satisfies the three congruences. */
  lemma {:induction false} ReplayedStepCongruences(p: Field, s: Step)
    requires StepRelations(p, s) && OnCurve(p, s.g)
    ensures FieldStep(p, s) && Congruences(p, s)
  {
    hide R, ThirdPoint, Num0, Num1, Num2;
    var x2 := if s.op == 1 then s.g.x else s.a.x;
    ThirdPointCongruences(p, s.lambda, s.a, x2);
    assert Num1(s) == s.lambda * s.lambda - s.a.x - x2 - s.r.x by { Num1Value(s); }
    assert Num2(s) == s.lambda * (s.a.x - s.r.x) - s.a.y - s.r.y by { Num2Value(s); }
    SlopeCongruence(p, s);
  }

  lemma {:induction false} SlopeCongruence(p: Field, s: Step)
    requires StepRelations(p, s)
    ensures Num0(s) % p == 0
  {
    hide R, ThirdPoint, OnCurve;
    if s.op == 1 {
      CongruentDifference(p, s.lambda * (s.g.x - s.a.x), s.g.y - s.a.y);
    } else {
      CongruentDifference(p, s.lambda * (2 * s.a.y), 3 * (s.a.x * s.a.x));
      assert s.lambda * (2 * s.a.y) == 2 * (s.lambda * s.a.y);
    }
  }

  lemma {:induction false} CongruentDifference(p: Modulus, a: int, b: int)
    requires R(p, a) == R(p, b)
    ensures (a - b) % p == 0
  {
    var k := CongElim(p, a, b);
    DivModUnique(a - b, p, k, 0);
  }

  lemma {:induction false} ThirdPointCongruences(p: Modulus, l: int, a: Point, x2: int)
    ensures var r := ThirdPoint(p, l, a, x2);
            (l * l - a.x - x2 - r.x) % p == 0 && (l * (a.x - r.x) - a.y - r.y) % p == 0
  {
    hide R;
    var r := ThirdPoint(p, l, a, x2);
    Idempotent(p, l * l - a.x - x2);
    CongruentDifference(p, l * l - a.x - x2, r.x);
    Idempotent(p, l * (a.x - r.x) - a.y);
    CongruentDifference(p, l * (a.x - r.x) - a.y, r.y);
  }

  // ---------------------------------------------------------------------
  // The ECSM row
  // ---------------------------------------------------------------------

  datatype Error = ScalarIsZero | ScalarOutOfRange | CoordinateOutOfRange | NotOnCurve

  datatype Prepared = Ready(k: nat, g: Point) | Refused(error: Error)

  /** Checks the scalar and recovers the base point with the canonical (even) ordinate. */
  function Prepare(kLe: seq<int>, xgLe: seq<int>): Prepared
    requires |kLe| == |xgLe| == 32 && Bytes(kLe) && Bytes(xgLe)
  {
    BytesBound(kLe);
    BytesBound(xgLe);
    var k := Value(kLe);
    var xg := Value(xgLe);
    if k == 0 then Refused(ScalarIsZero)
    else if k >= N then Refused(ScalarOutOfRange)
    else if xg >= P then Refused(CoordinateOutOfRange)
    else match Hints.SoftwareDecompress(P, xg, false)
      case None => Refused(NotOnCurve)
      case Some(g) => Ready(k, g)
  }

  /** What the inputs must satisfy, and what an accepted pair stands for. */
  lemma {:induction false} PrepareMeaning(kLe: seq<int>, xgLe: seq<int>)
    requires |kLe| == |xgLe| == 32 && Bytes(kLe) && Bytes(xgLe) && OddPrime(P)
    ensures Prepare(kLe, xgLe).Ready? <==>
              1 <= Value(kLe) < N && exists y :: OnCurve(P, Point(Value(xgLe), y))
    ensures Prepare(kLe, xgLe).Ready? ==>
              var g := Prepare(kLe, xgLe).g;
              g.x == Value(xgLe) && OnCurve(P, g) && (g.y == 0 || g.y % 2 == 0)
                && Prepare(kLe, xgLe).k == Value(kLe)
    ensures var r, k, x := Prepare(kLe, xgLe), Value(kLe), Value(xgLe);
            && (r == Refused(ScalarIsZero) <==> k == 0)
            && (r == Refused(ScalarOutOfRange) <==> k >= N)
            && (r == Refused(CoordinateOutOfRange) <==> 1 <= k < N && x >= P)
            && (r == Refused(NotOnCurve) <==> 1 <= k < N && x < P && !exists y :: OnCurve(P, Point(x, y)))
  {
    hide Value, R;
    BytesBound(kLe);
    BytesBound(xgLe);
    Hints.DecompressMeaning(P, Value(xgLe), false);
    var r := Hints.SoftwareDecompress(P, Value(xgLe), false);
    if r.Some? {
      assert OnCurve(P, Point(Value(xgLe), r.value.y));
    }
  }

  datatype EcsmWitness = EcsmWitness(
    xG: seq<int>, yG: seq<int>, k: seq<int>,
    x2: seq<int>, q0: seq<int>, c0: seq<int>, q1: seq<int>, c1: seq<int>,
    xGSubP: seq<int>, kSubN: seq<int>, xRSubP: seq<int>,
    lenK: nat, xR: seq<int>, yR: seq<int>, steps: seq<StepWitness>)

  datatype Outcome = Done(w: EcsmWitness) | Rejected(error: Error)

  /** The base-point half of the row: x2 = xG^2 mod p and yG^2 = xG*x2 + 7 mod p. */
  datatype BaseWitness = BaseWitness(x2: seq<int>, q0: seq<int>, c0: seq<int>, q1: seq<int>, c1: seq<int>)

  function BBytes(): (s: seq<int>)
    ensures |s| == 32 && Bytes(s)
  {
    [B] + seq(31, _ => 0)
  }

  lemma {:induction false} BBytesValue()
    ensures Encodes(BBytes(), B, 32)
  {
    ValueZeros(seq(31, _ => 0));
    assert BBytes()[1..] == seq(31, _ => 0);
  }

  predicate BaseProven(p: Field, g: Point, xG: seq<int>, yG: seq<int>, w: BaseWitness)
    requires |xG| == |yG| == 32
  {
    && Encodes(w.x2, R(p, g.x * g.x), 32)
    && |w.q0| == 32 && Bytes(w.q0) && g.x * g.x == Value(w.x2) + Value(w.q0) * p
    && Relations.ClosedChain(
         Relations.TermsX2(Extended(xG), Extended(w.x2), Extended(w.q0), Extended(PBytes())), w.c0)
    && |w.q1| == 33 && Bytes(w.q1) && w.q1[32] <= 1
    && g.y * g.y + p * p == g.x * Value(w.x2) + B + Value(w.q1) * p
    && Relations.ClosedChain(
         Relations.TermsYg(Extended(yG), Extended(PBytes()), Extended(w.x2), Extended(xG), Extended(w.q1),
                           Extended(BBytes())), w.c1)
  }

  /** x^2 = (x^2 mod p) + q*p with q < p. */
  lemma {:induction false} SquareQuotient(p: Modulus, x: int)
    requires IsResidue(p, x)
    ensures var x2 := R(p, x * x);
            var q := (x * x - x2) / p;
            IsResidue(p, x2) && 0 <= q < p && x * x == x2 + q * p
  {
    var x2 := R(p, x * x);
    var q := (x * x) / p;
    assert x * x == q * p + x2;
    DivModUnique(x * x - x2, p, q, 0);
    ProductRange(x, x, p);
    MulSign(q, p);
    assert (q - p) * p == q * p - p * p;
    MulSign(q - p, p);
  }

  /** The numerator of the yG relation is a multiple of p between -p^2 and p^2. */
  lemma {:induction false} OrdinateNumerator(p: Modulus, g: Point)
    requires p >= 7 && OnCurve(p, g)
    ensures var num := g.y * g.y - g.x * R(p, g.x * g.x) - B;
            num % p == 0 && -(p * p) <= num < p * p
  {
    hide R;
    var x2 := R(p, g.x * g.x);
    ProductRange(g.y, g.y, p);
    ProductRange(g.x, x2, p);
    Idempotent(p, g.x * g.x);
    CongScale(p, x2, g.x * g.x, g.x);
    assert g.x * g.x * g.x == (g.x * g.x) * g.x;
    CongAdd(p, x2 * g.x, (g.x * g.x) * g.x, B, B);
    CongruentDifference(p, g.y * g.y, x2 * g.x + B);
  }

  lemma {:induction false} OrdinateQuotient(p: Modulus, num: int)
    requires num % p == 0 && -(p * p) <= num < p * p
    ensures var q := ShiftedQuotient(num, p, p);
            q.Some? && q.value < 2 * p && Relations.Quotient(num, p, q.value, p)
  {
    ShiftedQuotientMeaning(num, p, p);
    var q := num / p;
    assert num == q * p;
    assert (q - p) * p == num - p * p;
    MulSign(q - p, p);
  }

  lemma {:induction false} TopBit(q: seq<int>)
    requires |q| == 33 && Bytes(q) && Value(q) < 2 * TWO_256
    ensures q[32] <= 1
  {
    assert q == q[..32] + [q[32]];
    PowersAgree();
    hide Value, Pow256;
    LastByte(q[..32], q[32]);
    BytesBound(q[..32]);
  }

  lemma {:induction false} Pow256IsPow2(n: nat)
    ensures Pow256(n) == Pow2(8 * n)
  {
    if n > 0 {
      Pow256IsPow2(n - 1);
      var m := 8 * (n - 1);
      assert Pow2(m + 4) == 16 * Pow2(m) by { assert Pow2(m + 2) == 4 * Pow2(m); }
      assert Pow2(m + 8) == 16 * Pow2(m + 4) by { assert Pow2(m + 6) == 4 * Pow2(m + 4); }
    }
  }

  lemma {:induction false} MsbBytes(k: nat, n: nat)
    requires 1 <= k < Pow256(n)
    ensures Msb(k) < 8 * n
  {
    Pow256IsPow2(n);
    MsbBound(k, 8 * n);
  }

  lemma {:induction false} BaseX2Closes(p: Field, g: Point, xG: seq<int>, x2: seq<int>, q0: seq<int>)
    requires Tables(p) && Encodes(xG, g.x, 32) && |x2| == |q0| == 32 && Bytes(x2) && Bytes(q0)
    requires g.x * g.x == Value(x2) + Value(q0) * p
    ensures var t := Relations.TermsX2(Extended(xG), Extended(x2), Extended(q0), Extended(PBytes()));
            CarriesOf(t).Some? && Relations.ClosedChain(t, CarriesOf(t).value)
  {
    hide Value, Relations.Narrow, Extended, CarriesOf, PBytes, Relations.TermsX2, Relations.ClosedChain, Tables;
    WideConstants(p);
    EncodedWide(xG, g.x, 32);
    EncodedWide(x2, Value(x2), 32);
    EncodedWide(q0, Value(q0), 32);
    NarrowWiden(Extended(q0));
    Relations.X2Decided(Extended(xG), Extended(x2), Extended(q0), Extended(PBytes()));
  }

  lemma {:induction false} NarrowWiden(a: Relations.Wide)
    requires Relations.Narrow(a, 32)
    ensures Relations.Narrow(a, 33)
  {}

  lemma {:induction false} BaseYgCloses(p: Field, g: Point, xG: seq<int>, yG: seq<int>, x2: seq<int>, q1: seq<int>)
    requires Tables(p) && Encodes(xG, g.x, 32) && Encodes(yG, g.y, 32)
    requires |x2| == 32 && |q1| == 33 && Bytes(x2) && Bytes(q1)
    requires g.y * g.y + p * p == g.x * Value(x2) + B + Value(q1) * p
    ensures var t := Relations.TermsYg(Extended(yG), Extended(PBytes()), Extended(x2), Extended(xG), Extended(q1),
                                       Extended(BBytes()));
            CarriesOf(t).Some? && Relations.ClosedChain(t, CarriesOf(t).value)
  {
    hide Value, Relations.Narrow, Extended, CarriesOf, PBytes, BBytes, Relations.TermsYg, Relations.ClosedChain, Tables;
    WideConstants(p);
    BBytesValue();
    EncodedWide(BBytes(), B, 32);
    EncodedWide(xG, g.x, 32);
    EncodedWide(yG, g.y, 32);
    EncodedWide(x2, Value(x2), 32);
    EncodedWide(q1, Value(q1), 33);
    assert g.x * Value(x2) == Value(x2) * g.x;
    Relations.YgDecided(Extended(yG), Extended(PBytes()), Extended(x2), Extended(xG), Extended(q1), Extended(BBytes()));
  }

  /** The base-point half of the row; for a curve point no assertion can trip. */
  method BuildBase(p: Field, g: Point, xG: seq<int>, yG: seq<int>) returns (w: BaseWitness)
    requires Tables(p) && OnCurve(p, g) && Encodes(xG, g.x, 32) && Encodes(yG, g.y, 32)
    ensures BaseProven(p, g, xG, yG, w)
  {
    hide R, Value, CarriesOf, Relations.TermsX2, Relations.TermsYg, Relations.ClosedChain, ShiftedQuotient, Pow256,
      LeBytes, PBytes, BBytes, Tables;
    SquareQuotient(p, g.x);
    var xgSq := g.x * g.x;
    var x2Big := R(p, xgSq);
    var q0Big := (xgSq - x2Big) / p;
    var x2 := ToLe32(x2Big);
    var q0 := ToLe32(q0Big);
    Le32Encodes(x2Big);
    Le32Encodes(q0Big);
    var c0 := BaseX2(p, g, xG, x2, q0);

    var num := g.y * g.y - g.x * x2Big - B;
    OrdinateNumerator(p, g);
    OrdinateQuotient(p, num);
    PowersAgree();
    var q1Big := ShiftedQuotient(num, p, p).value;
    var q1 := ToLe33(q1Big).value;
    LeBytesValue(q1Big, 33);
    TopBit(q1);
    var c1 := BaseYg(p, g, xG, yG, x2, q1);
    return BaseWitness(x2, q0, c0, q1, c1);
  }

  method BaseX2(p: Field, g: Point, xG: seq<int>, x2: seq<int>, q0: seq<int>) returns (c0: seq<int>)
    requires Tables(p) && Encodes(xG, g.x, 32) && |x2| == |q0| == 32 && Bytes(x2) && Bytes(q0)
    requires g.x * g.x == Value(x2) + Value(q0) * p
    ensures Relations.ClosedChain(
              Relations.TermsX2(Extended(xG), Extended(x2), Extended(q0), Extended(PBytes())), c0)
  {
    hide Value, CarriesOf, Relations.TermsX2, Relations.ClosedChain, PBytes, Tables;
    var pp := Ext64(PBytes());
    var xgExt := Ext64(xG);
    var x2Ext := Ext64(x2);
    var q0Ext := Ext64(q0);
    var c := Relations.CarriesX2(xgExt, x2Ext, q0Ext, pp);
    BaseX2Closes(p, g, xG, x2, q0);
    c0 := c.value;
  }

  method BaseYg(p: Field, g: Point, xG: seq<int>, yG: seq<int>, x2: seq<int>, q1: seq<int>) returns (c1: seq<int>)
    requires Tables(p) && Encodes(xG, g.x, 32) && Encodes(yG, g.y, 32)
    requires |x2| == 32 && |q1| == 33 && Bytes(x2) && Bytes(q1)
    requires g.y * g.y + p * p == g.x * Value(x2) + B + Value(q1) * p
    ensures Relations.ClosedChain(
              Relations.TermsYg(Extended(yG), Extended(PBytes()), Extended(x2), Extended(xG), Extended(q1),
                                Extended(BBytes())), c1)
  {
    hide Value, CarriesOf, Relations.TermsYg, Relations.ClosedChain, PBytes, BBytes, Tables;
    var pp := Ext64(PBytes());
    var bExt := Ext64(BBytes());
    var ygExt := Ext64(yG);
    var x2Ext := Ext64(x2);
    var xgExt := Ext64(xG);
    var q1Ext := Ext64(q1);
    var c := Relations.CarriesYg(ygExt, pp, x2Ext, xgExt, q1Ext, bExt);
    BaseYgCloses(p, g, xG, yG, x2, q1);
    c1 := c.value;
  }

  /** What the curve standard states: p is prime, n is odd, and every curve point obeys the group law with order n. */
  ghost predicate CurveFacts(p: Field, n: nat) {
    && OddPrime(p) && n % 2 == 1 && n < TWO_256
    && forall g: Point | OnCurve(p, g) :: OrbitLaw(p, Affine(g), n)
  }

  predicate ResultProven(p: Field, k: nat, g: Point, xR: seq<int>, yR: seq<int>, xRSubP: seq<int>) {
    var r := Mul(p, k, Affine(g));
    && r.Affine? && Encodes(xR, r.pt.x, 32) && Encodes(yR, r.pt.y, 32)
    && Encodes(xRSubP, TWO_256 + r.pt.x - p, 32)
  }

  predicate RowProven(p: Field, k: nat, g: Point, steps: seq<StepWitness>, i: nat)
    requires k >= 1 && i < |steps| == |Rows(k)|
  {
    StepProven(p, RefRow(p, g, Rows(k), i), steps[i])
  }

  predicate StepsProven(p: Field, k: nat, g: Point, steps: seq<StepWitness>)
    requires k >= 1
  {
    && |steps| == |Rows(k)|
    && forall i: nat | i < |steps| :: RowProven(p, k, g, steps, i)
  }

  /** The coordinates and rows that lead from g to k*g. */
  predicate PathProven(p: Field, k: nat, g: Point, w: EcsmWitness)
    requires k >= 1
  {
    && Encodes(w.xG, g.x, 32) && Encodes(w.yG, g.y, 32)
    && ResultProven(p, k, g, w.xR, w.yR, w.xRSubP)
    && StepsProven(p, k, g, w.steps)
  }

  /** `w` is a complete witness for k*g. */
  predicate WitnessProven(p: Field, n: nat, k: nat, g: Point, w: EcsmWitness)
    requires k >= 1
  {
    && PathProven(p, k, g, w) && Encodes(w.k, k, 32)
    && BaseProven(p, g, w.xG, w.yG, BaseWitness(w.x2, w.q0, w.c0, w.q1, w.c1))
    && ScalarProven(p, n, k, g, w.xGSubP, w.kSubN, w.lenK)
  }

  method BuildAllSteps(p: Field, k: nat, g: Point, stepsPts: seq<Step>) returns (steps: seq<StepWitness>)
    requires Tables(p) && OddPrime(p) && OnCurve(p, g) && k >= 1 && Regular(p, g, Rows(k))
    requires stepsPts == RefSteps(p, g, Rows(k))
    ensures StepsProven(p, k, g, steps)
  {
    hide R, OnCurve, Congruences, StepProven, Regular, StepRelations, RefRow, FieldStep, Rows, Tables;
    steps := [];
    for i := 0 to |stepsPts|
      invariant |steps| == i
      invariant forall j | 0 <= j < i :: StepProven(p, RefRow(p, g, Rows(k), j), steps[j])
    {
      StepBuilds(p, k, g, i);
      var w := BuildStep(p, stepsPts[i]);
      steps := steps + [w.value];
    }
  }

  lemma {:induction false} StepBuilds(p: Field, k: nat, g: Point, i: nat)
    requires OddPrime(p) && OnCurve(p, g) && k >= 1 && Regular(p, g, Rows(k)) && i < |Rows(k)|
    ensures FieldStep(p, RefRow(p, g, Rows(k), i)) && Congruences(p, RefRow(p, g, Rows(k), i))
  {
    hide R, OnCurve, Congruences, Regular, StepRelations, FieldStep, Rows;
    ScheduleShape(k);
    RefStepsSatisfyRelations(p, g, Rows(k), i);
    ReplayedStepCongruences(p, RefRow(p, g, Rows(k), i));
  }

  /** Below n the replay succeeds and ends at k*g, which is a curve point. */
  lemma {:induction false} ReplayReaches(p: Field, n: nat, k: nat, g: Point)
    requires CurveFacts(p, n) && OnCurve(p, g) && 1 <= k < n
    ensures Msb(k) < 256 && Regular(p, g, Rows(k))
    ensures var r := RefPoint(p, g, Rows(k), |Rows(k)|);
            Mul(p, k, Affine(g)) == Affine(r) && IsResidue(p, r.x) && IsResidue(p, r.y)
  {
    hide R, Regular, Rows, RefPoint, OrbitLaw, Pow256;
    PowersAgree();
    MsbBytes(k, 32);
    OrbitRunIsRegular(p, g, n, k);
    MulClosed(p, k, Affine(g));
  }

  method BuildResult(p: Field, k: nat, g: Point, result: Point) returns (xR: seq<int>, yR: seq<int>, xRSubP: seq<int>)
    requires Mul(p, k, Affine(g)) == Affine(result) && IsResidue(p, result.x) && IsResidue(p, result.y)
    ensures ResultProven(p, k, g, xR, yR, xRSubP)
  {
    hide Encodes, ToLe32, Mul;
    xR := ToLe32(result.x);
    yR := ToLe32(result.y);
    xRSubP := ToLe32(TWO_256 + result.x - p);
    Le32Encodes(result.x);
    Le32Encodes(result.y);
    Le32Encodes(TWO_256 + result.x - p);
  }

  method BuildReplay(p: Field, n: nat, k: nat, g: Point)
      returns (xR: seq<int>, yR: seq<int>, xRSubP: seq<int>, steps: seq<StepWitness>)
    requires Tables(p) && CurveFacts(p, n) && OnCurve(p, g) && 1 <= k < n
    ensures ResultProven(p, k, g, xR, yR, xRSubP) && StepsProven(p, k, g, steps)
  {
    hide R, OnCurve, Rows, RefSteps, RefPoint, Mul, OrbitLaw, StepsProven, Regular, Msb, ResultProven, Tables;
    ReplayReaches(p, n, k, g);
    var replay := ReplayDoubleAndAdd(p, k, g);
    var (stepsPts, result) := replay.value;
    xR, yR, xRSubP := BuildResult(p, k, g, result);
    steps := BuildAllSteps(p, k, g, stepsPts);
  }

  predicate ScalarProven(p: Field, n: nat, k: nat, g: Point, xGSubP: seq<int>, kSubN: seq<int>, lenK: nat)
    requires k >= 1
  {
    && Encodes(xGSubP, TWO_256 + g.x - p, 32) && Encodes(kSubN, TWO_256 + k - n, 32)
    && lenK == Msb(k)
  }

  method BuildScalar(p: Field, n: nat, k: nat, g: Point) returns (xGSubP: seq<int>, kSubN: seq<int>, lenK: nat)
    requires IsResidue(p, g.x) && 1 <= k < n < TWO_256
    ensures ScalarProven(p, n, k, g, xGSubP, kSubN, lenK)
  {
    hide Encodes, ToLe32, Pow256;
    PowersAgree();
    MsbBytes(k, 32);
    lenK := Msb(k) % 256;
    xGSubP := ToLe32(TWO_256 + g.x - p);
    kSubN := ToLe32(TWO_256 + k - n);
    Le32Encodes(TWO_256 + g.x - p);
    Le32Encodes(TWO_256 + k - n);
  }

  method WitnessFor(p: Field, n: nat, kLe: seq<int>, k: nat, g: Point) returns (w: EcsmWitness)
    requires Tables(p) && CurveFacts(p, n) && OnCurve(p, g) && 1 <= k < n && Encodes(kLe, k, 32)
    ensures WitnessProven(p, n, k, g, w)
  {
    Le32Encodes(g.x);
    Le32Encodes(g.y);
    hide R, Value, Bytes, Mul, OrbitLaw, BaseProven, StepsProven, ResultProven, ScalarProven, ToLe32, Tables;
    var xgB := ToLe32(g.x);
    var ygB := ToLe32(g.y);
    var b := BuildBase(p, g, xgB, ygB);
    var xGSubP, kSubN, lenK := BuildScalar(p, n, k, g);
    var xR, yR, xRSubP, steps := BuildReplay(p, n, k, g);
    w := EcsmWitness(xgB, ygB, kLe, b.x2, b.q0, b.c0, b.q1, b.c1, xGSubP, kSubN, xRSubP, lenK, xR, yR, steps);
  }

  /**
    The prover's entry point. Every input is either refused with the reason
    `Prepare` gives or receives a complete witness; no assertion, inversion or
    bound in between can fail.
   */
  method ComputeWitness(kLe: seq<int>, xgLe: seq<int>) returns (out: Outcome)
    requires |kLe| == |xgLe| == 32 && Bytes(kLe) && Bytes(xgLe) && CurveFacts(P, N)
    ensures match Prepare(kLe, xgLe)
            case Refused(e) => out == Rejected(e)
            case Ready(k, g) => k >= 1 && out.Done? && WitnessProven(P, N, k, g, out.w)
  {
    hide Value, OnCurve, Tables, OrbitLaw, WitnessProven, Hints.SoftwareDecompress;
    PrepareMeaning(kLe, xgLe);
    TablesHold();
    match Prepare(kLe, xgLe)
    case Refused(e) =>
      return Rejected(e);
    case Ready(k, g) =>
      var w := WitnessFor(P, N, kLe, k, g);
      return Done(w);
  }

  /** The steps of a complete witness chain from the base point to the result, byte for byte. */
  lemma {:induction false} StepsChain(p: Field, n: nat, k: nat, g: Point, w: EcsmWitness, i: nat)
    requires CurveFacts(p, n) && OnCurve(p, g) && 1 <= k < n && PathProven(p, k, g, w) && i < |w.steps|
    ensures w.steps[i].xA == (if i == 0 then w.xG else w.steps[i - 1].xR)
    ensures w.steps[i].yA == (if i == 0 then w.yG else w.steps[i - 1].yR)
    ensures i == |w.steps| - 1 ==> w.xR == w.steps[i].xR && w.yR == w.steps[i].yR
  {
    hide PathProven, CurveFacts, OnCurve;
    StepsLink(p, k, g, w, i);
    LastStep(p, n, k, g, w);
  }

  lemma {:induction false} StepAt(p: Field, k: nat, g: Point, w: EcsmWitness, i: nat)
    requires k >= 1 && PathProven(p, k, g, w) && i < |w.steps|
    ensures |w.steps| == |Rows(k)| && StepBytes(RefRow(p, g, Rows(k), i), w.steps[i])
  {
    hide StepChains, QuotientBytes, Num0, Num1, Num2, StepBytes, Rows, RefRow, ResultProven, Encodes;
    assert RowProven(p, k, g, w.steps, i);
  }

  lemma {:induction false} WitnessEnds(p: Field, k: nat, g: Point, w: EcsmWitness)
    requires k >= 1 && PathProven(p, k, g, w)
    ensures Encodes(w.xG, g.x, 32) && Encodes(w.yG, g.y, 32) && ResultProven(p, k, g, w.xR, w.yR, w.xRSubP)
  {
    hide StepsProven, ResultProven, Encodes;
  }

  lemma {:induction false} RowStarts(p: Field, g: Point, rows: seq<Row>, i: nat)
    requires i < |rows|
    ensures RefRow(p, g, rows, i).a == if i == 0 then g else RefRow(p, g, rows, i - 1).r
    ensures RefRow(p, g, rows, i).r == RefPoint(p, g, rows, i + 1)
  {
    hide RefStep, RefLambda;
  }

  lemma {:induction false} StepsLink(p: Field, k: nat, g: Point, w: EcsmWitness, i: nat)
    requires k >= 1 && PathProven(p, k, g, w) && i < |w.steps|
    ensures w.steps[i].xA == (if i == 0 then w.xG else w.steps[i - 1].xR)
    ensures w.steps[i].yA == (if i == 0 then w.yG else w.steps[i - 1].yR)
  {
    hide Rows, RefRow, RefPoint, Mul, StepBytes, Encodes, PathProven;
    StepAt(p, k, g, w, i);
    RowStarts(p, g, Rows(k), i);
    var s := RefRow(p, g, Rows(k), i);
    if i == 0 {
      WitnessEnds(p, k, g, w);
      StepMeets(s, w.steps[i], w.xG, w.yG, g);
    } else {
      var t := RefRow(p, g, Rows(k), i - 1);
      StepAt(p, k, g, w, i - 1);
      StepEnds(t, w.steps[i - 1]);
      StepMeets(s, w.steps[i], w.steps[i - 1].xR, w.steps[i - 1].yR, t.r);
    }
  }

  lemma {:induction false} LastStep(p: Field, n: nat, k: nat, g: Point, w: EcsmWitness)
    requires CurveFacts(p, n) && OnCurve(p, g) && 1 <= k < n && PathProven(p, k, g, w) && w.steps != []
    ensures var last := w.steps[|w.steps| - 1];
            w.xR == last.xR && w.yR == last.yR
  {
    hide Rows, RefRow, RefPoint, Mul, StepBytes, Encodes, PathProven, CurveFacts, OnCurve, Regular;
    var i := |w.steps| - 1;
    StepAt(p, k, g, w, i);
    RowStarts(p, g, Rows(k), i);
    ReplayReaches(p, n, k, g);
    WitnessEnds(p, k, g, w);
    StepMeets(RefRow(p, g, Rows(k), i), w.steps[i], w.xR, w.yR, RefPoint(p, g, Rows(k), i + 1));
  }

  lemma {:induction false} StepEnds(s: Step, w: StepWitness)
    requires StepBytes(s, w)
    ensures Encodes(w.xR, s.r.x, 32) && Encodes(w.yR, s.r.y, 32)
  {}

  lemma {:induction false} StepMeets(s: Step, w: StepWitness, x: seq<int>, y: seq<int>, at: Point)
    requires StepBytes(s, w) && Encodes(x, at.x, 32) && Encodes(y, at.y, 32)
    ensures s.a == at ==> w.xA == x && w.yA == y
    ensures s.r == at ==> w.xR == x && w.yR == y
  {
    hide Encodes;
    if s.a == at {
      EncodingUnique(w.xA, x, at.x, 32);
      EncodingUnique(w.yA, y, at.y, 32);
    }
    if s.r == at {
      EncodingUnique(w.xR, x, at.x, 32);
      EncodingUnique(w.yR, y, at.y, 32);
    }
  }

  lemma {:induction false} EncodingUnique(a: seq<int>, b: seq<int>, v: int, n: nat)
    requires Encodes(a, v, n) && Encodes(b, v, n)
    ensures a == b
  {
    hide Value, LeBytes;
    BytesRoundTrip(a);
    BytesRoundTrip(b);
  }

  /**
    What row i of a complete witness says: it takes the multiple of g spelled by
    the scalar's bits above its round (twice that for an add) to the next one,
    and announces whether the bit at its round is added.
   */
  lemma {:induction false} StepMeaning(p: Field, n: nat, k: nat, g: Point, w: EcsmWitness, i: nat)
    requires CurveFacts(p, n) && OnCurve(p, g) && 1 <= k < n && PathProven(p, k, g, w) && i < |w.steps|
    ensures var s := w.steps[i];
            var acc := if s.op == 0 then Shr(k, s.round + 1) else 2 * Shr(k, s.round + 1);
            var next := if s.op == 0 then 2 * acc else acc + 1;
            && s.op <= 1 && s.round < Msb(k) && s.nextOp == (if s.op == 0 then Bit(k, s.round) else 0)
            && (s.op == 1 ==> Bit(k, s.round) == 1)
            && EncodesPoint(s.xA, s.yA, Mul(p, acc, Affine(g)))
            && EncodesPoint(s.xR, s.yR, Mul(p, next, Affine(g)))
            && EncodesPoint(s.xG, s.yG, Affine(g))
  {
    hide Rows, RefRow, RefPoint, Mul, StepBytes, PathProven, OnCurve, Accumulator, Bit, Shr, Msb, OrbitLaw;
    StepAt(p, k, g, w, i);
    RowStarts(p, g, Rows(k), i);
    RowPoints(p, n, k, g, i);
    ScheduleRounds(k, i);
    AccumulatorNext(Rows(k), i);
    StepPoints(RefRow(p, g, Rows(k), i), w.steps[i]);
    RowFields(p, g, Rows(k), i);
  }

  /** A coordinate pair in bytes. */
  predicate EncodesPoint(x: seq<int>, y: seq<int>, a: Group) {
    a.Affine? && Encodes(x, a.pt.x, 32) && Encodes(y, a.pt.y, 32)
  }

  lemma {:induction false} AccumulatorNext(rows: seq<Row>, i: nat)
    requires i < |rows|
    ensures Accumulator(rows, i + 1) == if rows[i].op == 0 then 2 * Accumulator(rows, i) else Accumulator(rows, i) + 1
  {}

  lemma {:induction false} RowPoints(p: Field, n: nat, k: nat, g: Point, i: nat)
    requires CurveFacts(p, n) && OnCurve(p, g) && 1 <= k < n && i < |Rows(k)|
    ensures Mul(p, Accumulator(Rows(k), i), Affine(g)) == Affine(RefPoint(p, g, Rows(k), i))
    ensures Mul(p, Accumulator(Rows(k), i + 1), Affine(g)) == Affine(RefPoint(p, g, Rows(k), i + 1))
  {
    hide R, Rows, RefPoint, Mul, OrbitLaw, Accumulator;
    OrbitRun(p, g, n, k, i);
    OrbitRun(p, g, n, k, i + 1);
  }

  lemma {:induction false} RowFields(p: Field, g: Point, rows: seq<Row>, i: nat)
    requires i < |rows|
    ensures var s := RefRow(p, g, rows, i);
            && s.a == RefPoint(p, g, rows, i) && s.g == g
            && s.round == rows[i].round && s.op == rows[i].op && s.nextOp == rows[i].nextOp
  {
    hide RefPoint, RefLambda;
  }

  lemma {:induction false} StepPoints(s: Step, w: StepWitness)
    requires StepBytes(s, w)
    ensures EncodesPoint(w.xA, w.yA, Affine(s.a)) && EncodesPoint(w.xG, w.yG, Affine(s.g))
    ensures EncodesPoint(w.xR, w.yR, Affine(s.r))
    ensures w.round == s.round && w.op == s.op && w.nextOp == s.nextOp
  {
    hide Encodes;
  }

  /** The executor's entry point: the abscissa of k*g by the curve library. */
  function ScalarMulX(p: Field, k: nat, g: Point): seq<int> {
    var r := Mul(p, k, Affine(g));
    if r.Affine? && r.pt.x >= 0 then ToLe32(r.pt.x) else []
  }

  /** Executor and prover write the same bytes, whichever square root was taken for yG. */
  lemma {:induction false} EntryPointsAgree(p: Field, n: nat, k: nat, g: Point, w: EcsmWitness)
    requires CurveFacts(p, n) && OnCurve(p, g) && 1 <= k < n && PathProven(p, k, g, w)
    ensures w.xR == ScalarMulX(p, k, g) == ScalarMulX(p, k, Neg(p, Affine(g)).pt)
  {
    ReplayReaches(p, n, k, g);
    hide R, Mul, StepsProven, Encodes, ToLe32, OrbitLaw;
    MulNeg(p, k, Affine(g));
    var r := Mul(p, k, Affine(g)).pt;
    Le32Encodes(r.x);
    EncodingUnique(w.xR, ToLe32(r.x), r.x, 32);
  }
}
