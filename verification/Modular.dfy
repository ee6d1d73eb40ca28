/**
  Arithmetic modulo p on integers. `R(p, a)` is the canonical residue of `a`,
  so `R(p, a) == R(p, b)` is congruence. The field operations act on residues;
  `HomAt` says they are the images of the integer operations.
 */
module Modular {

  type Modulus = p: nat | p >= 2 witness 2

  /** The canonical residue of `a`. */
  function R(p: Modulus, a: int): (r: int)
    ensures 0 <= r < p
  {
    a % p
  }

  function FAdd(p: Modulus, a: int, b: int): int { R(p, a + b) }

  function FSub(p: Modulus, a: int, b: int): int { R(p, a - b) }

  function FMul(p: Modulus, a: int, b: int): int { R(p, a * b) }

  predicate IsResidue(p: Modulus, a: int) { 0 <= a < p }

  // ---------------------------------------------------------------------
  // Congruence
  // ---------------------------------------------------------------------

  lemma {:induction false} DivModUnique(x: int, d: int, q: int, r: int)
    requires 0 <= r < d
    requires x == q * d + r
    ensures x / d == q && x % d == r
  {
    var e := q - x / d;
    assert x == (x / d) * d + x % d;
    assert e * d == x % d - r;
    MulSign(e, d);
  }

  lemma {:induction false} MulSign(e: int, d: int)
    requires d > 0
    ensures e >= 1 ==> e * d >= d
    ensures e <= -1 ==> e * d <= -d
  {}

  lemma {:induction false} MulAssoc(a: int, b: int, c: int)
    ensures (a * b) * c == a * (b * c)
    ensures (a * b) * c == (a * c) * b
  {}

  lemma {:induction false} Expand(a: int, k: int, b: int, m: int, p: int)
    ensures (a + k * p) * (b + m * p) == a * b + (a * m + k * b + k * m * p) * p
  {
    calc {
      (a + k * p) * (b + m * p);
      a * (b + m * p) + (k * p) * (b + m * p);
      a * b + a * (m * p) + ((k * p) * b + (k * p) * (m * p));
      { MulAssoc(a, m, p); MulAssoc(k, p, b); MulAssoc(k * p, m, p); MulAssoc(k, p, m); }
      a * b + (a * m) * p + ((k * b) * p + (k * m * p) * p);
      a * b + (a * m + k * b + k * m * p) * p;
    }
  }

  lemma {:induction false} CongIntro(p: Modulus, a: int, b: int, k: int)
    requires a == b + k * p
    ensures R(p, a) == R(p, b)
  {
    assert b == (b / p) * p + b % p;
    assert a == (b / p + k) * p + b % p;
    DivModUnique(a, p, b / p + k, b % p);
  }

  lemma {:induction false} CongElim(p: Modulus, a: int, b: int) returns (k: int)
    requires R(p, a) == R(p, b)
    ensures a == b + k * p
  {
    k := a / p - b / p;
    assert a == (a / p) * p + a % p;
    assert b == (b / p) * p + b % p;
  }

  lemma {:induction false} Small(p: Modulus, a: int)
    requires 0 <= a < p
    ensures R(p, a) == a
  {
    DivModUnique(a, p, 0, a);
  }

  lemma {:induction false} Idempotent(p: Modulus, a: int)
    ensures R(p, R(p, a)) == R(p, a)
  {
    hide R;
    Small(p, R(p, a));
  }

  lemma {:induction false} CongAdd(p: Modulus, a: int, a': int, b: int, b': int)
    requires R(p, a) == R(p, a') && R(p, b) == R(p, b')
    ensures R(p, a + b) == R(p, a' + b')
    ensures R(p, a - b) == R(p, a' - b')
  {
    hide R;
    var k := CongElim(p, a, a');
    var m := CongElim(p, b, b');
    assert (k + m) * p == k * p + m * p;
    assert (k - m) * p == k * p - m * p;
    CongIntro(p, a + b, a' + b', k + m);
    CongIntro(p, a - b, a' - b', k - m);
  }

  lemma {:induction false} CongMul(p: Modulus, a: int, a': int, b: int, b': int)
    requires R(p, a) == R(p, a') && R(p, b) == R(p, b')
    ensures R(p, a * b) == R(p, a' * b')
  {
    hide R;
    var k := CongElim(p, a, a');
    var m := CongElim(p, b, b');
    var q := a' * m + k * b' + k * m * p;
    Expand(a', k, b', m, p);
    CongIntro(p, a * b, a' * b', q);
  }

  /** A congruence may be multiplied by a common factor on the right. */
  lemma {:induction false} CongScale(p: Modulus, a: int, a': int, c: int)
    requires R(p, a) == R(p, a')
    ensures R(p, a * c) == R(p, a' * c)
    ensures R(p, c * a) == R(p, c * a')
  {
    hide R;
    CongMul(p, a, a', c, c);
    CongMul(p, c, c, a, a');
  }

  /** The field operations on residues are the images of the integer operations. */
  lemma {:induction false} HomAt(p: Modulus, a: int, b: int)
    ensures FAdd(p, R(p, a), R(p, b)) == R(p, a + b)
    ensures FSub(p, R(p, a), R(p, b)) == R(p, a - b)
    ensures FMul(p, R(p, a), R(p, b)) == R(p, a * b)
  {
    hide R;
    Idempotent(p, a);
    Idempotent(p, b);
    CongAdd(p, R(p, a), a, R(p, b), b);
    CongMul(p, R(p, a), a, R(p, b), b);
  }

  lemma {:induction false} CubeByFieldOps(p: Modulus, x: int)
    requires IsResidue(p, x)
    ensures FMul(p, FMul(p, x, x), x) == R(p, x * x * x)
  {
    hide R;
    Small(p, x);
    HomAt(p, x, x);
    HomAt(p, x * x, x);
  }

  // ---------------------------------------------------------------------
  // Primes and inverses
  // ---------------------------------------------------------------------

  predicate Divides(d: nat, n: int)
    requires d > 0
  {
    n % d == 0
  }

  ghost predicate IsPrime(p: nat) {
    p >= 2 && forall d: nat | 2 <= d < p :: !Divides(d, p)
  }

  lemma {:induction false} EuclidStep(a: int, b: int, q: int, r: int, s: int, t: int)
    requires a == b * q + r
    ensures s * b + t * r == t * a + (s - q * t) * b
  {
    calc {
      t * a + (s - q * t) * b;
      t * (b * q) + t * r + (s * b - (q * t) * b);
      { MulAssoc(t, b, q); MulAssoc(q, t, b); assert (t * b) * q == (q * t) * b; }
      t * r + s * b;
    }
  }

  /** The extended Euclidean algorithm: `(g, s, t)` with `g = s*a + t*b`. */
  function Bezout(a: nat, b: nat): (r: (nat, int, int))
    ensures r.0 == r.1 * a + r.2 * b
    decreases b
  {
    if b == 0 then (a, 1, 0)
    else
      var (g, s, t) := Bezout(b, a % b);
      EuclidStep(a, b, a / b, a % b, s, t);
      (g, t, s - (a / b) * t)
  }

  lemma {:induction false} BezoutDivides(a: nat, b: nat)
    requires a + b > 0
    ensures Bezout(a, b).0 > 0
    ensures Divides(Bezout(a, b).0, a) && Divides(Bezout(a, b).0, b)
    decreases b
  {
    if b == 0 {
      DivModUnique(a, a, 1, 0);
      DivModUnique(0, a, 0, 0);
    } else {
      hide Divides;
      BezoutDivides(b, a % b);
      DividesThrough(Bezout(b, a % b).0, a, b);
    }
  }

  lemma {:induction false} DividesThrough(g: nat, a: nat, b: nat)
    requires g > 0 && b > 0 && Divides(g, b) && Divides(g, a % b)
    ensures Divides(g, a)
  {
    hide Divides;
    DividesCombination(g, a / b, b, a % b);
    assert a == (a / b) * b + a % b;
  }

  lemma {:induction false} DividesCombination(g: nat, q: int, x: int, y: int)
    requires g > 0 && Divides(g, x) && Divides(g, y)
    ensures Divides(g, q * x + y)
  {
    var m, n := x / g, y / g;
    assert x == m * g && y == n * g;
    MulAssoc(q, m, g);
    assert (q * m) * g + n * g == (q * m + n) * g;
    DivModUnique(q * x + y, g, q * m + n, 0);
  }

  /** Inverse of `a` modulo `p`: the authoritative software inverse. */
  function Inv(p: Modulus, a: int): (r: int)
    ensures IsResidue(p, r)
  {
    R(p, Bezout(R(p, a), p).1)
  }

  /** The Bezout coefficient inverts whatever has no common factor with p. */
  lemma {:induction false} InvOfCoprime(p: Modulus, a: int)
    requires Bezout(R(p, a), p).0 == 1
    ensures R(p, a * Inv(p, a)) == 1
  {
    hide R, Bezout;
    var x := R(p, a);
    var (_, s, t) := Bezout(x, p);
    CongIntro(p, 1, s * x, t);
    Small(p, 1);
    Idempotent(p, a);
    Idempotent(p, s);
    CongMul(p, a, x, R(p, s), s);
    assert s * x == x * s;
  }

  lemma {:induction false} CommonFactorIsOne(p: Modulus, x: int)
    requires IsPrime(p) && 0 < x < p
    ensures Bezout(x, p).0 == 1
  {
    hide Bezout;
    BezoutDivides(x, p);
    DivisorAtMost(Bezout(x, p).0, x);
  }

  lemma {:induction false} DivisorAtMost(g: nat, x: nat)
    requires g > 0 && x > 0 && Divides(g, x)
    ensures g <= x
  {
    var q := x / g;
    assert x == q * g;
    MulSign(q, g);
  }

  lemma {:induction false} InvCorrect(p: Modulus, a: int)
    requires IsPrime(p) && R(p, a) != 0
    ensures R(p, a * Inv(p, a)) == 1
    ensures R(p, Inv(p, a) * a) == 1
  {
    hide R, IsPrime, Inv;
    CommonFactorIsOne(p, R(p, a));
    InvOfCoprime(p, a);
    assert Inv(p, a) * a == a * Inv(p, a);
  }

  /** For every modulus, prime or not, the computed inverse is one as soon as some inverse exists. */
  lemma {:induction false} InvWhenever(p: Modulus, a: int, i: int)
    requires R(p, a * i) == 1
    ensures R(p, a * Inv(p, a)) == 1
  {
    hide R, Bezout, Divides, Inv;
    var x := R(p, a);
    var g := Bezout(x, p).0;
    BezoutDivides(x, p);
    Idempotent(p, a);
    CongMul(p, a, x, i, i);
    Small(p, 1);
    var k := CongElim(p, 1, x * i);
    DividesProduct(g, k, p);
    DividesCombination(g, i, x, k * p);
    assert i * x == x * i;
    DivisorAtMost(g, 1);
    InvOfCoprime(p, a);
  }

  lemma {:induction false} DividesProduct(g: nat, k: int, x: int)
    requires g > 0 && Divides(g, x)
    ensures Divides(g, k * x)
  {
    assert Divides(g, 0);
    DividesCombination(g, k, x, 0);
  }

  /** No zero divisors. */
  lemma {:induction false} NoZeroDivisors(p: Modulus, a: int, b: int)
    requires IsPrime(p)
    ensures R(p, a * b) == 0 <==> R(p, a) == 0 || R(p, b) == 0
  {
    hide R;
    Small(p, 0);
    if R(p, a) == 0 {
      CongMul(p, a, 0, b, b);
    } else if R(p, b) == 0 {
      CongMul(p, a, a, b, 0);
    } else if R(p, a * b) == 0 {
      CancelInverse(p, a, b);
      assert false;
    }
  }

  lemma {:induction false} CancelInverse(p: Modulus, a: int, b: int)
    requires IsPrime(p) && R(p, a) != 0
    ensures R(p, Inv(p, a) * (a * b)) == R(p, b)
    ensures R(p, a * b) == 0 ==> R(p, b) == 0
  {
    hide R;
    var i := Inv(p, a);
    InvCorrect(p, a);
    Small(p, 1);
    CongMul(p, i * a, 1, b, b);
    MulAssoc(i, a, b);
    Small(p, 0);
    if R(p, a * b) == 0 {
      CongMul(p, i, i, a * b, 0);
    }
  }

  lemma {:induction false} CongCancel(p: Modulus, a: int, a': int, c: int)
    requires IsPrime(p) && R(p, c) != 0
    requires R(p, a * c) == R(p, a' * c)
    ensures R(p, a) == R(p, a')
  {
    hide R;
    CongAdd(p, a * c, a' * c, a' * c, a' * c);
    assert a * c - a' * c == (a - a') * c;
    NoZeroDivisors(p, a - a', c);
    Small(p, 0);
    CongAdd(p, a - a', 0, a', a');
    assert (a - a') + a' == a;
  }

  /** Inverses are unique. */
  lemma {:induction false} InvUnique(p: Modulus, a: int, i: int)
    requires IsPrime(p) && IsResidue(p, i)
    requires R(p, a * i) == 1
    ensures R(p, a) != 0
    ensures i == Inv(p, a)
  {
    hide R;
    Small(p, 0);
    if R(p, a) == 0 {
      CongMul(p, a, 0, i, i);
    }
    InvCorrect(p, a);
    assert a * i == i * a && a * Inv(p, a) == Inv(p, a) * a;
    CongCancel(p, i, Inv(p, a), a);
    Small(p, i);
    Small(p, Inv(p, a));
  }

  /** A square has at most two roots, and they are negatives of each other. */
  lemma {:induction false} SquareRoots(p: Modulus, y: int, z: int)
    requires IsPrime(p)
    requires R(p, y * y) == R(p, z * z)
    ensures R(p, y) == R(p, z) || R(p, y) == R(p, -z)
  {
    hide R;
    CongAdd(p, y * y, z * z, z * z, z * z);
    assert y * y - z * z == (y - z) * (y + z);
    NoZeroDivisors(p, y - z, y + z);
    Small(p, 0);
    if R(p, y - z) == 0 {
      CongAdd(p, y - z, 0, z, z);
      assert (y - z) + z == y;
    } else {
      CongAdd(p, y + z, 0, z, z);
      assert (y + z) - z == y;
    }
  }

  /** Negation of a residue. */
  lemma {:induction false} NegResidue(p: Modulus, y: int)
    requires IsResidue(p, y)
    ensures R(p, -y) == if y == 0 then 0 else p - y
  {
    hide R;
    if y == 0 {
      Small(p, 0);
    } else {
      Small(p, p - y);
      CongIntro(p, p - y, -y, 1);
    }
  }
}
