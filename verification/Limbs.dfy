/**
  Base-256 limb arithmetic of the witness generator: convolutions, the carry
  recurrence 256*c_i = c_{i-1} + t_i, and little-endian byte strings.
 */
module Limbs {
  import opened Modular
  import opened Outcomes

  const LIMBS := 64

  function Value(s: seq<int>): int {
    if s == [] then 0 else s[0] + 256 * Value(s[1..])
  }

  function Pow256(n: nat): (r: nat)
    ensures r >= 1
  {
    if n == 0 then 1 else 256 * Pow256(n - 1)
  }

  // ---------------------------------------------------------------------
  // Value is linear
  // ---------------------------------------------------------------------

  lemma {:induction false} ValueCombination(t: seq<int>, x: seq<int>, y: seq<int>, c: int, d: int)
    requires |t| == |x| == |y|
    requires forall i | 0 <= i < |t| :: t[i] == c * x[i] + d * y[i]
    ensures Value(t) == c * Value(x) + d * Value(y)
  {
    if t != [] {
      ValueCombination(t[1..], x[1..], y[1..], c, d);
      var u, v := Value(x[1..]), Value(y[1..]);
      assert c * (x[0] + 256 * u) == c * x[0] + 256 * (c * u);
      assert d * (y[0] + 256 * v) == d * y[0] + 256 * (d * v);
    } else {
      assert c * 0 == 0 && d * 0 == 0;
    }
  }

  lemma {:induction false} ValueSum(t: seq<int>, x: seq<int>, y: seq<int>)
    requires |t| == |x| == |y|
    requires forall i | 0 <= i < |t| :: t[i] == x[i] + y[i]
    ensures Value(t) == Value(x) + Value(y)
  {
    ValueCombination(t, x, y, 1, 1);
  }

  lemma {:induction false} ValueDifference(t: seq<int>, x: seq<int>, y: seq<int>)
    requires |t| == |x| == |y|
    requires forall i | 0 <= i < |t| :: t[i] == x[i] - y[i]
    ensures Value(t) == Value(x) - Value(y)
  {
    ValueCombination(t, x, y, 1, -1);
  }

  lemma {:induction false} ValueZeros(s: seq<int>)
    requires forall i | 0 <= i < |s| :: s[i] == 0
    ensures Value(s) == 0
  {
    if s != [] {
      ValueZeros(s[1..]);
    }
  }

  lemma {:induction false} ValueAppend(s: seq<int>, t: seq<int>)
    ensures Value(s + t) == Value(s) + Pow256(|s|) * Value(t)
  {
    if s == [] {
      assert s + t == t;
    } else {
      ValueAppend(s[1..], t);
      assert (s + t)[1..] == s[1..] + t;
      MulAssoc(256, Pow256(|s| - 1), Value(t));
    }
  }

  // ---------------------------------------------------------------------
  // Zero extension and convolution
  // ---------------------------------------------------------------------

  function Extended(bytes: seq<int>): (a: seq<int>)
    requires |bytes| <= LIMBS
    ensures |a| == LIMBS
  {
    bytes + seq(LIMBS - |bytes|, _ => 0)
  }

  method Ext64(bytes: seq<int>) returns (a: seq<int>)
    requires |bytes| <= LIMBS
    ensures a == Extended(bytes)
  {
    a := seq(LIMBS, _ => 0);
    for i := 0 to |bytes|
      invariant |a| == LIMBS
      invariant forall j | 0 <= j < LIMBS :: a[j] == if j < i then bytes[j] else 0
    {
      a := a[i := bytes[i]];
    }
  }

  lemma {:induction false} ValueExtended(bytes: seq<int>)
    requires |bytes| <= LIMBS
    ensures Value(Extended(bytes)) == Value(bytes)
  {
    var z := seq(LIMBS - |bytes|, _ => 0);
    ValueZeros(z);
    ValueAppend(bytes, z);
    assert Pow256(|bytes|) * 0 == 0;
  }

  /** The first `n` summands of the i-th convolution coefficient. */
  function PartialConv(a: seq<int>, b: seq<int>, i: nat, n: nat): int
    requires n <= i + 1 <= |a| && i < |b|
  {
    if n == 0 then 0 else PartialConv(a, b, i, n - 1) + a[n - 1] * b[i - (n - 1)]
  }

  function ConvAt(a: seq<int>, b: seq<int>, i: nat): int
    requires i < |a| && i < |b|
  {
    PartialConv(a, b, i, i + 1)
  }

  function ConvSeq(a: seq<int>, b: seq<int>): seq<int>
    requires |a| <= |b|
  {
    seq(|a|, i requires 0 <= i < |a| => ConvAt(a, b, i))
  }

  method Conv(a: seq<int>, b: seq<int>, i: nat) returns (s: int)
    requires i < |a| && i < |b|
    ensures s == ConvAt(a, b, i)
  {
    s := 0;
    for j := 0 to i + 1
      invariant s == PartialConv(a, b, i, j)
    {
      s := s + a[j] * b[i - j];
    }
  }

  lemma {:induction false} ConvShift(a: seq<int>, b: seq<int>, i: nat, n: nat)
    requires 1 <= n <= i + 1 <= |a| && i < |b|
    ensures i == 0 ==> PartialConv(a, b, i, n) == a[0] * b[0]
    ensures i > 0 ==> PartialConv(a, b, i, n) == a[0] * b[i] + PartialConv(a[1..], b, i - 1, n - 1)
  {
    if n == 1 {
      assert PartialConv(a, b, i, 0) == 0;
    } else {
      ConvShift(a, b, i, n - 1);
    }
  }

  lemma {:induction false} ConvOfZeros(a: seq<int>, b: seq<int>, i: nat, n: nat)
    requires n <= i + 1 <= |a| && i < |b|
    requires forall j | 0 <= j < |a| :: a[j] == 0
    ensures PartialConv(a, b, i, n) == 0
  {
    if n > 0 {
      ConvOfZeros(a, b, i, n - 1);
    }
  }

  predicate ZeroFrom(s: seq<int>, n: nat) {
    forall i | n <= i < |s| :: s[i] == 0
  }

  /**
    A convolution truncated to |a| coefficients is the exact integer product as
    soon as the limbs in use satisfy na + nb <= |a| + 1.
   */
  lemma {:induction false} ConvIsProduct(a: seq<int>, b: seq<int>, na: nat, nb: nat)
    requires |a| <= |b| && ZeroFrom(a, na) && ZeroFrom(b, nb)
    requires na > 0 ==> na + nb <= |a| + 1
    ensures Value(ConvSeq(a, b)) == Value(a) * Value(b[..|a|])
    decreases |a|
  {
    var m := |a|;
    if na == 0 || m == 0 {
      ValueZeros(a);
      forall i | 0 <= i < m
        ensures ConvSeq(a, b)[i] == 0
      {
        ConvOfZeros(a, b, i, i + 1);
      }
      ValueZeros(ConvSeq(a, b));
      assert 0 * Value(b[..m]) == 0;
    } else {
      ConvIsProduct(a[1..], b, na - 1, nb);
      ConvPeel(a, b);
      ConvIsProductStep(a, b, na, nb);
    }
  }

  /** Peeling the first limb of `a`: the coefficients are a0*b plus the shifted rest. */
  lemma {:induction false} ConvPeel(a: seq<int>, b: seq<int>)
    requires 0 < |a| <= |b|
    ensures Value(ConvSeq(a, b)) == a[0] * Value(b[..|a|]) + 256 * Value(ConvSeq(a[1..], b))
  {
    var m := |a|;
    var shifted := [0] + ConvSeq(a[1..], b);
    var t := ConvSeq(a, b);
    forall i | 0 <= i < m
      ensures t[i] == a[0] * b[..m][i] + 1 * shifted[i]
    {
      ConvShift(a, b, i, i + 1);
    }
    ValueCombination(t, b[..m], shifted, a[0], 1);
    assert shifted[1..] == ConvSeq(a[1..], b);
  }

  lemma {:induction false} ConvIsProductStep(a: seq<int>, b: seq<int>, na: nat, nb: nat)
    requires 0 < |a| <= |b| && na > 0 && ZeroFrom(a, na) && ZeroFrom(b, nb)
    requires na + nb <= |a| + 1
    ensures a[0] * Value(b[..|a|]) + 256 * (Value(a[1..]) * Value(b[..|a| - 1])) == Value(a) * Value(b[..|a|])
  {
    var m := |a|;
    var v, w, w' := Value(a[1..]), Value(b[..m]), Value(b[..m - 1]);
    if na == 1 {
      ValueZeros(a[1..]);
    } else {
      DropZeroLimb(b, m);
    }
    ProductStep(a[0], v, w, w');
  }

  lemma {:induction false} DropZeroLimb(b: seq<int>, m: nat)
    requires 0 < m <= |b| && b[m - 1] == 0
    ensures Value(b[..m]) == Value(b[..m - 1])
  {
    assert b[..m] == b[..m - 1] + [0];
    ValueAppend(b[..m - 1], [0]);
    assert Value([0]) == 0;
  }

  lemma {:induction false} ProductStep(a0: int, v: int, w: int, w': int)
    requires v == 0 || w == w'
    ensures a0 * w + 256 * (v * w') == (a0 + 256 * v) * w
  {}

  // ---------------------------------------------------------------------
  // Sizes of convolution coefficients
  // ---------------------------------------------------------------------

  predicate Bytes(s: seq<int>) {
    forall i | 0 <= i < |s| :: 0 <= s[i] <= 255
  }

  predicate Within(s: seq<int>, lo: int, hi: int) {
    forall i | 0 <= i < |s| :: lo <= s[i] <= hi
  }

  /** How many of the first n summands of coefficient i meet the nb limbs in use. */
  function Summands(i: nat, n: nat, nb: nat): nat {
    if n + nb <= i + 1 then 0 else if nb <= i + 1 then n + nb - (i + 1) else n
  }

  /** At most nb summands are nonzero when `b` has nb limbs. */
  lemma {:induction false} ConvBounds(a: seq<int>, b: seq<int>, i: nat, n: nat, nb: nat, lo: int, hi: int)
    requires n <= i + 1 <= |a| && i < |b|
    requires Bytes(a) && Within(b, lo, hi) && lo <= 0 <= hi && ZeroFrom(b, nb)
    ensures 255 * lo * Summands(i, n, nb) <= PartialConv(a, b, i, n) <= 255 * hi * Summands(i, n, nb)
  {
    if n > 0 {
      ConvBounds(a, b, i, n - 1, nb, lo, hi);
      var k := i - (n - 1);
      var x := a[n - 1] * b[k];
      ProductBounds(a[n - 1], b[k], lo, hi);
      var count := Summands(i, n - 1, nb);
      assert Summands(i, n, nb) == if k >= nb then count else count + 1;
      OneMore(lo, hi, count, PartialConv(a, b, i, n - 1), x);
    }
  }

  lemma {:induction false} OneMore(lo: int, hi: int, count: nat, sum: int, x: int)
    requires 255 * lo * count <= sum <= 255 * hi * count && 255 * lo <= x <= 255 * hi
    ensures 255 * lo * (count + 1) <= sum + x <= 255 * hi * (count + 1)
  {
    assert 255 * lo * (count + 1) == 255 * lo * count + 255 * lo;
    assert 255 * hi * (count + 1) == 255 * hi * count + 255 * hi;
  }

  lemma {:induction false} ProductBounds(x: int, y: int, lo: int, hi: int)
    requires 0 <= x <= 255 && lo <= y <= hi && lo <= 0 <= hi
    ensures 255 * lo <= x * y <= 255 * hi
    ensures y == 0 ==> x * y == 0
  {
    if y >= 0 {
      assert 0 <= x * y <= 255 * y;
    } else {
      assert 255 * y <= x * y <= 0;
    }
  }

  // ---------------------------------------------------------------------
  // Carries
  // ---------------------------------------------------------------------

  const I64 := 0x1_0000_0000_0000_0000

  /** The `as i64` cast: the low 64 bits, read as two's complement. */
  function AsI64(v: int): int {
    var m := v % I64;
    if m >= I64 / 2 then m - I64 else m
  }

  /** The unwrapped carries, or None when some partial sum is not a multiple of 256. */
  function ExactCarries(carry: int, terms: seq<int>): Option<seq<int>>
    decreases |terms|
  {
    if terms == [] then Some([])
    else
      var s := carry + terms[0];
      if s % 256 != 0 then None
      else
        var rest :- ExactCarries(s / 256, terms[1..]);
        Some([s / 256] + rest)
  }

  /** `c` satisfies the recurrence the chip constrains, starting from `carry`. */
  predicate CarryChain(carry: int, terms: seq<int>, c: seq<int>) {
    && |c| == |terms|
    && forall i | 0 <= i < |c| :: 256 * c[i] == (if i == 0 then carry else c[i - 1]) + terms[i]
  }

  lemma {:induction false} ExactCarriesChain(carry: int, terms: seq<int>)
    ensures var r := ExactCarries(carry, terms);
            r.Some? ==> CarryChain(carry, terms, r.value)
    decreases |terms|
  {
    if terms != [] {
      var s := carry + terms[0];
      if s % 256 == 0 {
        ExactCarriesChain(s / 256, terms[1..]);
      }
    }
  }

  function LastCarry(carry: int, c: seq<int>): int {
    if c == [] then carry else c[|c| - 1]
  }

  /** Every partial sum divides exactly when the value is a multiple of 256^n; the last carry is the quotient. */
  lemma {:induction false} ExactCarriesExist(carry: int, terms: seq<int>)
    ensures var r := ExactCarries(carry, terms);
            var n := Pow256(|terms|);
            && (r.Some? <==> (carry + Value(terms)) % n == 0)
            && (r.Some? ==> |r.value| == |terms| && LastCarry(carry, r.value) * n == carry + Value(terms))
    decreases |terms|
  {
    if terms == [] {
      assert (carry + 0) % 1 == 0;
    } else {
      var s := carry + terms[0];
      var v := Value(terms[1..]);
      var w := Pow256(|terms| - 1);
      SplitDivisible(s, v, w);
      if s % 256 == 0 {
        ExactCarriesExist(s / 256, terms[1..]);
        var r := ExactCarries(s / 256, terms[1..]);
        if r.Some? {
          var last := LastCarry(s / 256, r.value);
          assert LastCarry(carry, [s / 256] + r.value) == last;
          assert last * (256 * w) == 256 * (last * w);
        }
      }
    }
  }

  /** s + 256*v is a multiple of 256*w exactly when s is one of 256 and s/256 + v is one of w. */
  lemma {:induction false} SplitDivisible(s: int, v: int, w: nat)
    requires w >= 1
    ensures (s + 256 * v) % (256 * w) == 0 <==> s % 256 == 0 && (s / 256 + v) % w == 0
  {
    if (s + 256 * v) % (256 * w) == 0 {
      var q := (s + 256 * v) / (256 * w);
      assert s + 256 * v == q * (256 * w);
      assert q * (256 * w) == 256 * (q * w);
      DivModUnique(s, 256, q * w - v, 0);
      DivModUnique(s / 256 + v, w, q, 0);
    }
    if s % 256 == 0 && (s / 256 + v) % w == 0 {
      var q := (s / 256 + v) / w;
      assert s / 256 + v == q * w;
      assert s + 256 * v == 256 * (q * w);
      assert 256 * (q * w) == q * (256 * w);
      DivModUnique(s + 256 * v, 256 * w, q, 0);
    }
  }

  /** Terms in [-lo, hi] keep every carry in [-lo/255, hi/255]. */
  lemma {:induction false} CarriesBounded(carry: int, terms: seq<int>, lo: int, hi: int)
    requires 0 <= lo && 0 <= hi
    requires Within(terms, -lo, hi)
    requires -lo <= 255 * carry <= hi
    ensures var r := ExactCarries(carry, terms);
            r.Some? ==> forall i | 0 <= i < |r.value| :: -lo <= 255 * r.value[i] <= hi
    decreases |terms|
  {
    if terms != [] {
      var s := carry + terms[0];
      if s % 256 == 0 {
        assert 256 * (s / 256) == s;
        CarriesBounded(s / 256, terms[1..], lo, hi);
      }
    }
  }

  const I128 := 0x1_0000_0000_0000_0000_0000_0000_0000_0000

  /** An i128 sum in the release build: the low 128 bits, read as two's complement. */
  function AsI128(v: int): int {
    var m := v % I128;
    if m >= I128 / 2 then m - I128 else m
  }

  /** The carries with every sum taken in i128. */
  function WrappedCarries(carry: int, terms: seq<int>): Option<seq<int>>
    decreases |terms|
  {
    if terms == [] then Some([])
    else
      var s := AsI128(carry + terms[0]);
      if s % 256 != 0 then None
      else
        var rest :- WrappedCarries(s / 256, terms[1..]);
        Some([s / 256] + rest)
  }

  /** The limbs as the i128 sums see them: a sum that wraps moves its limb by 2^128. */
  function Effective(carry: int, terms: seq<int>): (r: seq<int>)
    ensures |r| == |terms|
    decreases |terms|
  {
    if terms == [] then []
    else
      var s := AsI128(carry + terms[0]);
      [s - carry] + Effective(s / 256, terms[1..])
  }

  /** No partial sum leaves i128; a build that checks overflow panics otherwise. */
  predicate SumsFit(carry: int, terms: seq<int>)
    decreases |terms|
  {
    terms == [] || (-I128 / 2 <= carry + terms[0] < I128 / 2 && SumsFit((carry + terms[0]) / 256, terms[1..]))
  }

  lemma {:induction false} WrappedIsExact(carry: int, terms: seq<int>)
    ensures WrappedCarries(carry, terms) == ExactCarries(carry, Effective(carry, terms))
    decreases |terms|
  {
    if terms != [] {
      var s := AsI128(carry + terms[0]);
      WrappedIsExact(s / 256, terms[1..]);
      assert Effective(carry, terms)[1..] == Effective(s / 256, terms[1..]);
    }
  }

  lemma {:induction false} CastIff(v: int)
    ensures AsI128(v) == v <==> -I128 / 2 <= v < I128 / 2
  {}

  lemma {:induction false} EffectiveIff(carry: int, terms: seq<int>)
    ensures Effective(carry, terms) == terms <==> SumsFit(carry, terms)
    decreases |terms|
  {
    hide AsI128;
    if terms != [] {
      var s := AsI128(carry + terms[0]);
      CastIff(carry + terms[0]);
      EffectiveIff(s / 256, terms[1..]);
      assert Effective(carry, terms) == [s - carry] + Effective(s / 256, terms[1..]);
      if Effective(carry, terms) == terms {
        assert Effective(carry, terms)[0] == terms[0] && Effective(carry, terms)[1..] == terms[1..];
      }
    }
  }

  /** Terms matter only modulo 2^128, so they may be taken as the integers that wrapping i128 arithmetic stands for. */
  lemma {:induction false} OnlyResiduesMatter(carry: int, terms: seq<int>, other: seq<int>)
    requires |terms| == |other| && forall i | 0 <= i < |terms| :: R(I128, terms[i]) == R(I128, other[i])
    ensures WrappedCarries(carry, terms) == WrappedCarries(carry, other)
    decreases |terms|
  {
    hide R, AsI128;
    if terms != [] {
      CongAdd(I128, carry, carry, terms[0], other[0]);
      SameCast(carry + terms[0], carry + other[0]);
      OnlyResiduesMatter(AsI128(carry + terms[0]) / 256, terms[1..], other[1..]);
    }
  }

  lemma {:induction false} SameCast(v: int, w: int)
    requires R(I128, v) == R(I128, w)
    ensures AsI128(v) == AsI128(w)
  {}

  /** Limbs this small keep every partial sum in i128, since a carry is below 2^119. */
  const ROOM := I128 / 2 - I128 / 512

  lemma {:induction false} CarryRange(s: int)
    requires -I128 / 2 <= s < I128 / 2
    ensures -I128 / 512 <= s / 256 < I128 / 512
  {
    var c := s / 256;
    assert 256 * c <= s < 256 * c + 256;
  }

  lemma {:induction false} RoomSuffices(carry: int, terms: seq<int>)
    requires Within(terms, -ROOM, ROOM) && -I128 / 512 <= carry < I128 / 512
    ensures SumsFit(carry, terms)
    decreases |terms|
  {
    if terms != [] {
      CarryRange(carry + terms[0]);
      RoomSuffices((carry + terms[0]) / 256, terms[1..]);
    }
  }

  /** The result of the source's loop: None stands for a tripped assertion. */
  function CarriesOf(terms: seq<int>): Option<seq<int>>
    requires terms != []
  {
    Closing(WrappedCarries(0, terms))
  }

  /** The cast of each carry, and the closing test on the last. */
  function Closing(r: Option<seq<int>>): Option<seq<int>> {
    var c :- r;
    var cast := seq(|c|, i requires 0 <= i < |c| => AsI64(c[i]));
    if |c| > 0 && cast[|c| - 1] == 0 then Some(cast) else None
  }

  lemma {:induction false} WrappedStep(carry: int, terms: seq<int>, i: nat)
    requires i < |terms|
    ensures var s := AsI128(carry + terms[i]);
            var rest := WrappedCarries(s / 256, terms[i + 1..]);
            WrappedCarries(carry, terms[i..])
            == if s % 256 != 0 || rest.None? then None else Some([s / 256] + rest.value)
  {
    hide AsI128;
    assert terms[i..][1..] == terms[i + 1..];
  }

  lemma {:induction false} WrappedEnd(carry: int, terms: seq<int>)
    ensures WrappedCarries(carry, terms[|terms|..]) == Some([])
  {}

  method LimbCarries(terms: seq<int>) returns (res: Option<seq<int>>)
    requires |terms| == LIMBS
    ensures res == CarriesOf(terms)
  {
    hide AsI64, AsI128, WrappedCarries;
    ghost var all := WrappedCarries(0, terms);
    var c := seq(LIMBS, _ => 0);
    var carry := 0;
    var i := 0;
    ghost var done: seq<int> := [];
    assert terms[0..] == terms;
    assert all.Some? ==> [] + all.value == all.value;
    while i < LIMBS
      invariant 0 <= i <= LIMBS && |c| == LIMBS && |done| == i
      invariant all == Prepend(done, WrappedCarries(carry, terms[i..]))
      invariant forall j | 0 <= j < i :: c[j] == AsI64(done[j])
    {
      var s := AsI128(carry + terms[i]);
      WrappedStep(carry, terms, i);
      if s % 256 != 0 {
        return None;
      }
      carry := s / 256;
      c := c[i := AsI64(carry)];
      PrependStep(done, carry, WrappedCarries(carry, terms[i + 1..]));
      done := done + [carry];
      i := i + 1;
    }
    WrappedEnd(carry, terms);
    assert all == Some(done) by { assert done + [] == done; }
    assert c == seq(|done|, j requires 0 <= j < |done| => AsI64(done[j]));
    if c[LIMBS - 1] != 0 {
      return None;
    }
    return Some(c);
  }

  function Prepend(done: seq<int>, r: Option<seq<int>>): Option<seq<int>> {
    if r.None? then None else Some(done + r.value)
  }

  lemma {:induction false} PrependStep(done: seq<int>, x: int, r: Option<seq<int>>)
    ensures Prepend(done, if r.None? then None else Some([x] + r.value)) == Prepend(done + [x], r)
  {
    if r.Some? {
      assert done + ([x] + r.value) == (done + [x]) + r.value;
    }
  }

  /** v is a multiple of n * 2^64. */
  predicate Vanishes(v: int, n: nat)
    requires n >= 1
  {
    v % (n * I64) == 0
  }

  /** The closing test sees the last carry modulo 2^64. */
  lemma {:induction false} ClosingIff(terms: seq<int>)
    requires terms != []
    ensures Closing(ExactCarries(0, terms)).Some? <==> Vanishes(Value(terms), Pow256(|terms|))
  {
    var n := Pow256(|terms|);
    ExactCarriesExist(0, terms);
    var r := ExactCarries(0, terms);
    if r.Some? {
      var last := LastCarry(0, r.value);
      assert Value(terms) == last * n;
      LastCarryDivisible(last, n);
      assert AsI64(last) == 0 <==> last % I64 == 0;
    } else if Value(terms) % (n * I64) == 0 {
      DivisibleByFactor(Value(terms), n);
      assert false;
    }
  }

  /** Exactly when limbs are accepted: the value their i128 sums see vanishes modulo 256^n * 2^64. */
  lemma {:induction false} CarriesAcceptedIff(terms: seq<int>)
    requires terms != []
    ensures CarriesOf(terms).Some? <==> Vanishes(Value(Effective(0, terms)), Pow256(|terms|))
    ensures Effective(0, terms) == terms <==> SumsFit(0, terms)
  {
    hide ExactCarries, WrappedCarries, Effective, Value, Pow256, SumsFit, Closing, Vanishes;
    WrappedIsExact(0, terms);
    ClosingIff(Effective(0, terms));
    EffectiveIff(0, terms);
  }

  /** Where no sum can overflow, it is the value itself that vanishes modulo 256^n * 2^64. */
  lemma {:induction false} AcceptedInRoom(terms: seq<int>)
    requires terms != [] && Within(terms, -ROOM, ROOM)
    ensures SumsFit(0, terms) && CarriesOf(terms) == Closing(ExactCarries(0, terms))
    ensures CarriesOf(terms).Some? <==> Vanishes(Value(terms), Pow256(|terms|))
  {
    hide ExactCarries, WrappedCarries, Effective, Value, Pow256, SumsFit, Closing, Vanishes;
    RoomSuffices(0, terms);
    WrappedIsExact(0, terms);
    EffectiveIff(0, terms);
    CarriesAcceptedIff(terms);
  }

  lemma {:induction false} LastCarryDivisible(last: int, n: nat)
    requires n >= 1
    ensures last % I64 == 0 <==> (last * n) % (n * I64) == 0
  {
    if last % I64 == 0 {
      var q := last / I64;
      assert last == q * I64;
      assert (q * I64) * n == q * (n * I64);
      DivModUnique(last * n, n * I64, q, 0);
    }
    if (last * n) % (n * I64) == 0 {
      var q := (last * n) / (n * I64);
      assert last * n == q * (n * I64);
      assert q * (n * I64) == (q * I64) * n;
      assert last == q * I64 by { CancelFactor(last, q * I64, n); }
    }
  }

  lemma {:induction false} CancelFactor(a: int, b: int, n: nat)
    requires n >= 1 && a * n == b * n
    ensures a == b
  {
    assert (a - b) * n == 0;
    MulSign(a - b, n);
  }

  lemma {:induction false} DivisibleByFactor(v: int, n: nat)
    requires n >= 1 && v % (n * I64) == 0
    ensures v % n == 0
  {
    var q := v / (n * I64);
    assert v == q * (n * I64);
    assert q * (n * I64) == (q * I64) * n;
    DivModUnique(v, n, q * I64, 0);
  }

  /** What `limb_carries` is for: 64 limbs are accepted exactly when they spell zero. */
  predicate DecidesZero(terms: seq<int>)
    requires |terms| == LIMBS
  {
    CarriesOf(terms).Some? <==> Value(terms) == 0
  }

  /** The cast hides a final carry of 2^64: the code accepts a nonzero value. */
  lemma {:induction false} CastHidesACarry()
    ensures var terms := seq(63, _ => 0) + [256 * I64];
            |terms| == LIMBS && CarriesOf(terms).Some? && Value(terms) != 0
  {
    var zeros := seq(63, _ => 0);
    ShiftedAccepted(zeros, [256 * I64]);
    hide CarriesOf, Pow256;
    assert Value([256 * I64]) == 256 * I64;
  }

  function Overflowing(): seq<int> { [256, I128 / 2 - 1, I128 / 512] + seq(61, _ => 0) }

  /** A wrapping sum hides more: 2^136 is accepted, where a build that checks overflow panics. */
  lemma {:induction false} OverflowHidesAValue()
    ensures |Overflowing()| == LIMBS && CarriesOf(Overflowing()).Some? && !SumsFit(0, Overflowing())
    ensures Value(Overflowing()) == 256 * I128
  {
    OverflowingCarries();
    OverflowingValue();
    hide CarriesOf, Value;
    assert Overflowing()[1..][0] == I128 / 2 - 1;
  }

  lemma {:induction false} OverflowingValue()
    ensures Value(Overflowing()) == 256 * I128
  {
    hide Value;
    ThreeLimbs(256, I128 / 2 - 1, I128 / 512, seq(61, _ => 0));
  }

  lemma {:induction false} ThreeLimbs(a: int, b: int, c: int, zeros: seq<int>)
    requires forall i | 0 <= i < |zeros| :: zeros[i] == 0
    ensures Value([a, b, c] + zeros) == a + 256 * (b + 256 * c)
  {
    var t := [a, b, c] + zeros;
    ValueZeros(zeros);
    assert t[3..] == zeros && t[0..] == t;
    hide Value;
    ValueTail(t, 2);
    ValueTail(t, 1);
    ValueTail(t, 0);
  }

  lemma {:induction false} OverflowingCarries()
    ensures CarriesOf(Overflowing()).Some?
  {
    var zeros := seq(61, _ => 0);
    var c := I128 / 512;
    var a := [c] + zeros;
    var b := [I128 / 2 - 1] + a;
    assert Overflowing() == [256] + b && b[1..] == a && a[1..] == zeros;
    ZeroCarries(zeros);
    assert AsI128(-c + c) == 0 && AsI128(1 + b[0]) == -256 * c && AsI128(0 + 256) == 256;
    hide Closing, WrappedCarries, AsI128;
    CarryStep(-c, a, 0, zeros);
    CarryStep(1, b, -c, [0] + zeros);
    CarryStep(0, [256] + b, 1, [-c] + ([0] + zeros));
    LastZero([1] + ([-c] + ([0] + zeros)));
  }

  lemma {:induction false} CarryStep(carry: int, terms: seq<int>, next: int, rest: seq<int>)
    requires terms != [] && AsI128(carry + terms[0]) == 256 * next && WrappedCarries(next, terms[1..]) == Some(rest)
    ensures WrappedCarries(carry, terms) == Some([next] + rest)
  {
    hide AsI128;
  }

  lemma {:induction false} LastZero(c: seq<int>)
    requires c != [] && c[|c| - 1] == 0
    ensures Closing(Some(c)).Some?
  {}

  lemma {:induction false} ZeroCarries(zeros: seq<int>)
    requires forall i | 0 <= i < |zeros| :: zeros[i] == 0
    ensures WrappedCarries(0, zeros) == Some(zeros)
  {
    if zeros != [] {
      ZeroCarries(zeros[1..]);
      assert zeros == [0] + zeros[1..];
    }
  }

  /** Zeros below limbs worth 256^m * 2^64 are accepted, although the value is not zero. */
  lemma {:induction false} ShiftedAccepted(zeros: seq<int>, tail: seq<int>)
    requires |zeros| + |tail| == LIMBS && tail != [] && Within(tail, -ROOM, ROOM)
    requires forall i | 0 <= i < |zeros| :: zeros[i] == 0
    requires Value(tail) == Pow256(|tail|) * I64
    ensures CarriesOf(zeros + tail).Some? && Value(zeros + tail) != 0
  {
    hide Value, CarriesOf, Closing, ExactCarries, Within, Pow256, SumsFit, Vanishes;
    ZerosThen(zeros, tail, ROOM);
    AcceptedInRoom(zeros + tail);
    ShiftedVanishes(zeros, tail);
  }

  lemma {:induction false} ShiftedVanishes(zeros: seq<int>, tail: seq<int>)
    requires forall i | 0 <= i < |zeros| :: zeros[i] == 0
    requires Value(tail) == Pow256(|tail|) * I64
    ensures Vanishes(Value(zeros + tail), Pow256(|zeros + tail|)) && Value(zeros + tail) != 0
  {
    hide Value, Pow256, Vanishes;
    ValueAppend(zeros, tail);
    ValueZeros(zeros);
    PowAdd(|zeros|, |tail|);
    WholeMultiple(Pow256(|zeros|), Pow256(|tail|), Value(zeros + tail));
  }

  lemma {:induction false} WholeMultiple(a: nat, b: nat, v: int)
    requires a >= 1 && b >= 1 && v == a * (b * I64)
    ensures Vanishes(v, a * b) && v != 0
  {
    assert a * (b * I64) == (a * b) * I64;
    assert a * b >= 1;
    DivModUnique(v, v, 1, 0);
  }

  lemma {:induction false} PowAdd(m: nat, n: nat)
    ensures Pow256(m + n) == Pow256(m) * Pow256(n)
  {
    if m > 0 {
      PowAdd(m - 1, n);
      MulAssoc(256, Pow256(m - 1), Pow256(n));
    }
  }

  /** Nine limbs, none above 255 * 2^64 + 1, that spell 256^9 * 2^64. */
  function JustTooLarge(): (r: seq<int>)
    ensures |r| == 9
  {
    var b := 255 * I64 + 1;
    [256 * (I64 - 0x101_0101_0101_0101), b, b, b, b, b, b, b, b]
  }

  lemma {:induction false} JustTooLargeValue()
    ensures Value(JustTooLarge()) == Pow256(9) * I64
  {
    var t := JustTooLarge();
    var b := 255 * I64 + 1;
    NinthPower();
    hide Value, Pow256;
    TopLimb(t);
    ValueTail(t, 7);
    ValueTail(t, 6);
    ValueTail(t, 5);
    ValueTail(t, 4);
    ValueTail(t, 3);
    ValueTail(t, 2);
    ValueTail(t, 1);
    ValueTail(t, 0);
    assert t[0..] == t;
  }

  lemma {:induction false} ValueTail(t: seq<int>, i: nat)
    requires i < |t|
    ensures Value(t[i..]) == t[i] + 256 * Value(t[i + 1..])
  {
    assert t[i..][1..] == t[i + 1..];
  }

  lemma {:induction false} TopLimb(t: seq<int>)
    requires t != []
    ensures Value(t[|t| - 1..]) == t[|t| - 1]
  {
    ValueTail(t, |t| - 1);
    assert t[|t|..] == [];
  }

  lemma {:induction false} NinthPower()
    ensures Pow256(9) == 0x100_0000_0000_0000_0000
  {
    assert Pow256(3) == 0x100_0000;
    PowAdd(3, 3);
    PowAdd(6, 3);
  }

  /**
    How large limbs may be: acceptance means zero for all 64 limbs within b
    exactly when b is at most 255 * 2^64.
   */
  lemma {:induction false} DecidesZeroIff(b: int)
    requires b >= 0
    ensures (forall terms: seq<int> | |terms| == LIMBS && Within(terms, -b, b) :: DecidesZero(terms))
            <==> b <= 255 * I64
  {
    hide DecidesZero, Within;
    if b <= 255 * I64 {
      forall terms: seq<int> | |terms| == LIMBS && Within(terms, -b, b)
        ensures DecidesZero(terms)
      {
        SmallLimbsDecided(terms, b);
      }
    } else {
      LargeLimbsUndecided(b);
    }
  }

  lemma {:induction false} WithinWidens(s: seq<int>, b: int, c: int)
    requires Within(s, -b, b) && b <= c
    ensures Within(s, -c, c)
  {}

  lemma {:induction false} SmallLimbsDecided(terms: seq<int>, b: int)
    requires b >= 0 && |terms| == LIMBS && Within(terms, -b, b) && b <= 255 * I64
    ensures DecidesZero(terms)
  {
    WithinWidens(terms, b, ROOM);
    hide CarriesOf, Value, Within, Pow256, SumsFit, Closing, ExactCarries, Vanishes;
    AcceptedInRoom(terms);
    OnlyZeroVanishes(terms, b);
  }

  lemma {:induction false} OnlyZeroVanishes(terms: seq<int>, b: int)
    requires b >= 0 && Within(terms, -b, b) && b <= 255 * I64
    ensures Vanishes(Value(terms), Pow256(|terms|)) <==> Value(terms) == 0
  {
    hide Value, Within, Pow256, Vanishes;
    ValueBounded(terms, b);
    SmallMultipleIsZero(Value(terms), Pow256(|terms|), b);
  }

  lemma {:induction false} JustTooLargeBound(b: int)
    requires b > 255 * I64
    ensures Within(JustTooLarge(), -b, b)
  {}

  lemma {:induction false} ZerosThen(zeros: seq<int>, tail: seq<int>, b: int)
    requires b >= 0 && Within(tail, -b, b) && forall i | 0 <= i < |zeros| :: zeros[i] == 0
    ensures Within(zeros + tail, -b, b)
  {}

  lemma {:induction false} LargeLimbsUndecided(b: int)
    requires b > 255 * I64
    ensures exists terms: seq<int> :: |terms| == LIMBS && Within(terms, -b, b) && !DecidesZero(terms)
  {
    var zeros := seq(55, _ => 0);
    var tail := JustTooLarge();
    hide CarriesOf, Value, Pow256, JustTooLarge, Within;
    JustTooLargeBound(b);
    JustTooLargeBound(ROOM);
    ZerosThen(zeros, tail, b);
    JustTooLargeValue();
    ShiftedAccepted(zeros, tail);
    assert !DecidesZero(zeros + tail);
  }

  lemma {:induction false} ValueBounded(terms: seq<int>, b: int)
    requires b >= 0 && Within(terms, -b, b)
    ensures -b * (Pow256(|terms|) - 1) <= 255 * Value(terms) <= b * (Pow256(|terms|) - 1)
  {
    if terms != [] {
      ValueBounded(terms[1..], b);
      var w := Pow256(|terms| - 1);
      assert b * (256 * w - 1) == 256 * (b * (w - 1)) + 255 * b;
      assert -b * (256 * w - 1) == 256 * (-b * (w - 1)) - 255 * b;
    }
  }

  /** For limbs below 2^63, the carries are accepted exactly when the value is zero, and no cast loses anything. */
  lemma {:induction false} CarriesAcceptedIffZero(terms: seq<int>)
    requires |terms| == LIMBS && Within(terms, -(I64 / 2 - 1), I64 / 2 - 1)
    ensures CarriesOf(terms).Some? <==> Value(terms) == 0
    ensures CarriesOf(terms).Some? ==> CarriesOf(terms) == ExactCarries(0, terms)
  {
    SmallLimbsDecided(terms, I64 / 2 - 1);
    CastsLossless(terms);
  }

  lemma {:induction false} CastsLossless(terms: seq<int>)
    requires terms != [] && Within(terms, -(I64 / 2 - 1), I64 / 2 - 1)
    ensures CarriesOf(terms).Some? ==> CarriesOf(terms) == ExactCarries(0, terms)
  {
    var b := I64 / 2 - 1;
    WithinWidens(terms, b, ROOM);
    hide SumsFit, CarriesOf, ExactCarries, Within, Value, Pow256, Vanishes, Closing;
    AcceptedInRoom(terms);
    CarriesBounded(0, terms, b, b);
    ClosingLossless(ExactCarries(0, terms));
  }

  lemma {:induction false} ClosingLossless(r: Option<seq<int>>)
    requires r.Some? ==> forall i | 0 <= i < |r.value| :: -(I64 / 2 - 1) <= 255 * r.value[i] <= I64 / 2 - 1
    ensures Closing(r).Some? ==> Closing(r) == r
  {
    if r.Some? {
      assert seq(|r.value|, i requires 0 <= i < |r.value| => AsI64(r.value[i])) == r.value;
    }
  }

  lemma {:induction false} ScaledBound(b: int, n: nat)
    requires 0 <= b <= 255 * I64
    ensures b * n <= 255 * I64 * n && -b * n >= -255 * I64 * n
  {
    assert (255 * I64 - b) * n >= 0;
    assert (255 * I64 - b) * n == 255 * I64 * n - b * n;
    assert -b * n == -(b * n);
  }

  lemma {:induction false} SmallMultipleIsZero(v: int, n: nat, b: int)
    requires n >= 1 && 0 <= b <= 255 * I64
    requires -b * (n - 1) <= 255 * v <= b * (n - 1)
    ensures Vanishes(v, n) <==> v == 0
  {
    var m := n * I64;
    ScaledBound(b, n - 1);
    assert -m < v < m;
    if v % m == 0 {
      var q := v / m;
      assert v == q * m;
      MulSign(q, m);
    } else if v == 0 {
      DivModUnique(0, m, 0, 0);
    }
  }

  // ---------------------------------------------------------------------
  // Little-endian bytes
  // ---------------------------------------------------------------------

  /** The low `n` bytes of `v`, least significant first. */
  function LeBytes(v: nat, n: nat): (s: seq<int>)
    ensures |s| == n && Bytes(s)
  {
    if n == 0 then [] else [v % 256] + LeBytes(v / 256, n - 1)
  }

  lemma {:induction false} LeBytesValue(v: nat, n: nat)
    requires v < Pow256(n)
    ensures Value(LeBytes(v, n)) == v
  {
    if n > 0 {
      LeBytesValue(v / 256, n - 1);
      assert LeBytes(v, n)[1..] == LeBytes(v / 256, n - 1);
    }
  }

  lemma {:induction false} BytesBound(s: seq<int>)
    requires Bytes(s)
    ensures 0 <= Value(s) < Pow256(|s|)
  {
    if s != [] {
      BytesBound(s[1..]);
    }
  }

  /** Byte strings and their values correspond. */
  lemma {:induction false} BytesRoundTrip(s: seq<int>)
    requires Bytes(s)
    ensures Value(s) >= 0 && LeBytes(Value(s), |s|) == s
  {
    hide Pow256;
    if s != [] {
      BytesRoundTrip(s[1..]);
      var v := Value(s[1..]);
      LowByte(s[0], v);
      assert Value(s) == s[0] + 256 * v;
      assert LeBytes(Value(s), |s|) == [s[0]] + LeBytes(v, |s| - 1);
    }
  }

  lemma {:induction false} LowByte(b: int, v: nat)
    requires 0 <= b <= 255
    ensures (b + 256 * v) % 256 == b && (b + 256 * v) / 256 == v
  {}
}
