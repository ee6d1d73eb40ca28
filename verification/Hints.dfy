/**
  Untrusted hints with a software fallback: modular inverses, and point
  decompression from a square root. A hint is the integer value of the 32 bytes
  the host wrote, for any host.
 */
module Hints {
  import opened Modular
  import opened Curve
  import opened Outcomes

  /** Canonical parse of a hinted byte string: values at or above the modulus are rejected. */
  function Canonical(p: Modulus, v: nat): Option<int> {
    if v < p then Some(v) else None
  }

  // ---------------------------------------------------------------------
  // Inverses
  // ---------------------------------------------------------------------

  /** The software inverse; only zero has none. */
  function SoftwareInverse(p: Modulus, x: int): Option<int> {
    if R(p, x) == 0 then None else Some(Inv(p, x))
  }

  /** Accept a canonical hint that verifies, otherwise recompute. Serves both fields. */
  function HintedInverse(p: Modulus, x: int, hint: int -> nat): Option<int> {
    match Canonical(p, hint(x))
    case Some(inv) =>
      if R(p, FMul(p, x, inv) - 1) == 0 then Some(inv) else SoftwareInverse(p, x)
    case None => SoftwareInverse(p, x)
  }

  /** No hint can change the answer. */
  lemma {:induction false} HintedInverseIgnoresHint(p: Modulus, x: int, hint: int -> nat)
    requires IsPrime(p) && IsResidue(p, x)
    ensures HintedInverse(p, x, hint) == SoftwareInverse(p, x)
    ensures x != 0 <==> SoftwareInverse(p, x).Some?
    ensures x != 0 ==> R(p, x * SoftwareInverse(p, x).value) == 1
  {
    hide R;
    Small(p, x);
    if x != 0 {
      InvCorrect(p, x);
    }
    var v := hint(x);
    if v < p && R(p, FMul(p, x, v) - 1) == 0 {
      Idempotent(p, x * v);
      Small(p, 0);
      Small(p, 1);
      CongAdd(p, FMul(p, x, v) - 1, 0, 1, 1);
      assert (FMul(p, x, v) - 1) + 1 == FMul(p, x, v);
      InvUnique(p, x, v);
    }
  }

  // ---------------------------------------------------------------------
  // Decompression
  // ---------------------------------------------------------------------

  function CurveRhs(p: Modulus, x: int): int {
    FAdd(p, FMul(p, FMul(p, x, x), x), R(p, B))
  }

  /** The least square root of `rhs` at or above `from`. */
  function RootFrom(p: Modulus, rhs: int, from: nat): (r: Option<int>)
    ensures r.Some? ==> from <= r.value < p && FMul(p, r.value, r.value) == rhs
    ensures r.None? ==> forall y | from <= y < p :: FMul(p, y, y) != rhs
    decreases p - from
  {
    if from >= p then None
    else if FMul(p, from, from) == rhs then Some(from)
    else RootFrom(p, rhs, from + 1)
  }

  /** The root of the requested parity. */
  function WithParity(p: Modulus, y: int, odd: bool): int {
    if (y % 2 == 1) != odd then R(p, -y) else y
  }

  /** The software decompression; `x` is the integer value of the encoded abscissa. */
  function SoftwareDecompress(p: Modulus, x: nat, odd: bool): Option<Point> {
    var x :- Canonical(p, x);
    var y :- RootFrom(p, CurveRhs(p, x), 0);
    Some(Point(x, WithParity(p, y, odd)))
  }

  /** The attempt through a hinted root. */
  function DecompressFromHint(p: Modulus, x: nat, odd: bool, hint: int -> nat): Option<Point> {
    var x :- Canonical(p, x);
    var rhs := CurveRhs(p, x);
    var y :- Canonical(p, hint(rhs));
    if R(p, rhs - FMul(p, y, y)) != 0 then None
    else
      var a := Point(x, WithParity(p, y, odd));
      if OnCurve(p, a) then Some(a) else None
  }

  function HintedDecompress(p: Modulus, x: nat, odd: bool, hint: int -> nat): Option<Point> {
    match DecompressFromHint(p, x, odd, hint)
    case Some(a) => Some(a)
    case None => SoftwareDecompress(p, x, odd)
  }

  lemma {:induction false} CurveRhsMeaning(p: Modulus, x: int)
    requires IsResidue(p, x)
    ensures CurveRhs(p, x) == R(p, x * x * x + B)
  {
    hide R;
    CubeByFieldOps(p, x);
    HomAt(p, x * x * x, B);
  }

  lemma {:induction false} WithParityMeaning(p: Modulus, y: int, odd: bool)
    requires p % 2 == 1 && IsResidue(p, y)
    ensures var z := WithParity(p, y, odd);
            && IsResidue(p, z)
            && R(p, z * z) == R(p, y * y)
            && (y != 0 ==> (z % 2 == 1) == odd)
            && (y == 0 ==> z == 0)
            && (z == y || R(p, z) == R(p, -y))
  {
    hide R;
    NegResidue(p, y);
    if (y % 2 == 1) != odd {
      NegSquare(p, y);
      Idempotent(p, -y);
      ParityFlips(p, y);
    }
  }

  /** The root of a given parity is unique, whichever root it was selected from. */
  lemma {:induction false} WithParityUnique(p: Modulus, y: int, z: int, odd: bool)
    requires OddPrime(p) && p % 2 == 1
    requires IsResidue(p, y) && IsResidue(p, z)
    requires R(p, y * y) == R(p, z * z)
    ensures WithParity(p, y, odd) == WithParity(p, z, odd)
  {
    hide R;
    SquareRoots(p, y, z);
    Small(p, y);
    Small(p, z);
    if y != z {
      NegResidue(p, z);
      NegResidue(p, y);
      ParityFlips(p, z);
    }
  }

  lemma {:induction false} ParityFlips(p: nat, z: nat)
    requires p % 2 == 1 && z <= p
    ensures (p - z) % 2 == 1 - z % 2
  {}

  /** Decompression yields exactly the curve point with that abscissa and parity. */
  lemma {:induction false} DecompressMeaning(p: Modulus, x: nat, odd: bool)
    requires OddPrime(p)
    ensures var r := SoftwareDecompress(p, x, odd);
            && (r.Some? ==> r.value.x == x && OnCurve(p, r.value)
                            && (r.value.y != 0 ==> (r.value.y % 2 == 1) == odd))
            && (r.None? ==> forall y :: !OnCurve(p, Point(x, y)))
  {
    hide R;
    OddPrimeIsOdd(p);
    if x < p {
      CurveRhsMeaning(p, x);
      var r := RootFrom(p, CurveRhs(p, x), 0);
      if r.Some? {
        WithParityMeaning(p, r.value, odd);
      } else {
        forall y
          ensures !OnCurve(p, Point(x, y))
        {
          assert OnCurve(p, Point(x, y)) ==> FMul(p, y, y) == CurveRhs(p, x);
        }
      }
    }
  }

  /** No hint can change the decompressed point, nor turn acceptance into rejection. */
  lemma {:induction false} HintedDecompressIgnoresHint(p: Modulus, x: nat, odd: bool, hint: int -> nat)
    requires OddPrime(p)
    ensures HintedDecompress(p, x, odd, hint) == SoftwareDecompress(p, x, odd)
  {
    hide R;
    var h := DecompressFromHint(p, x, odd, hint);
    if h.Some? {
      OddPrimeIsOdd(p);
      var rhs := CurveRhs(p, x);
      var y := hint(rhs);
      ResidueZero(p, FMul(p, y, y), rhs);
      assert FMul(p, y, y) == rhs;
      var r := RootFrom(p, rhs, 0);
      assert r.Some?;
      WithParityUnique(p, y, r.value, odd);
    }
  }

  /** A verified hint is the fast path: an honest host always takes it. */
  lemma {:induction false} HonestHintIsUsed(p: Modulus, x: nat, odd: bool, hint: int -> nat)
    requires OddPrime(p) && x < p
    requires hint(CurveRhs(p, x)) < p && FMul(p, hint(CurveRhs(p, x)), hint(CurveRhs(p, x))) == CurveRhs(p, x)
    ensures DecompressFromHint(p, x, odd, hint).Some?
  {
    hide R;
    OddPrimeIsOdd(p);
    var y := hint(CurveRhs(p, x));
    CurveRhsMeaning(p, x);
    WithParityMeaning(p, y, odd);
    ResidueZero(p, FMul(p, y, y), CurveRhs(p, x));
  }
}
