/** 64-bit occupancy words as numbers: bits, or, and, and the iteration over set bits. */
module Words {
  import opened Outcomes
  import opened Schedule

  predicate BitAt(w: nat, k: nat) {
    if k == 0 then w % 2 == 1 else BitAt(w / 2, k - 1)
  }

  function One(b: bool): nat { if b then 1 else 0 }

  function Or(a: nat, b: nat): nat {
    if a == 0 then b
    else One(a % 2 == 1 || b % 2 == 1) + 2 * Or(a / 2, b / 2)
  }

  function And(a: nat, b: nat): nat {
    if a == 0 then 0
    else One(a % 2 == 1 && b % 2 == 1) + 2 * And(a / 2, b / 2)
  }

  /** The number of zero bits below the lowest set bit. */
  function TrailingZeros(w: nat): nat
    requires w > 0
  {
    if w % 2 == 1 then 0 else 1 + TrailingZeros(w / 2)
  }

  lemma {:induction false} ZeroHasNoBits(k: nat)
    ensures !BitAt(0, k)
  {
    if k > 0 {
      ZeroHasNoBits(k - 1);
    }
  }

  lemma {:induction false} PowerBit(k: nat, j: nat)
    ensures BitAt(Pow2(k), j) <==> j == k
  {
    if k == 0 {
      assert Pow2(0) == 1;
      if j > 0 {
        ZeroHasNoBits(j - 1);
      }
    } else {
      assert Pow2(k) == 2 * Pow2(k - 1);
      if j > 0 {
        PowerBit(k - 1, j - 1);
      }
    }
  }

  /** `w | 1 << k` sets exactly bit k. */
  lemma {:induction false} OrSetsBit(w: nat, k: nat, j: nat)
    ensures BitAt(Or(w, Pow2(k)), j) <==> BitAt(w, j) || j == k
  {
    OrBits(w, Pow2(k), j);
    PowerBit(k, j);
  }

  lemma {:induction false} OrBits(a: nat, b: nat, j: nat)
    ensures BitAt(Or(a, b), j) <==> BitAt(a, j) || BitAt(b, j)
    decreases a
  {
    if a == 0 {
      ZeroHasNoBits(j);
    } else {
      var r := Or(a, b);
      assert r % 2 == One(a % 2 == 1 || b % 2 == 1) && r / 2 == Or(a / 2, b / 2);
      if j > 0 {
        OrBits(a / 2, b / 2, j - 1);
      }
    }
  }

  lemma {:induction false} AndSelf(a: nat)
    ensures And(a, a) == a
  {
    if a > 0 {
      AndSelf(a / 2);
    }
  }

  /** `w & (w - 1)` removes the lowest set bit. */
  lemma {:induction false} ClearLowest(w: nat)
    requires w > 0
    ensures And(w, w - 1) == w - Pow2(TrailingZeros(w)) && Pow2(TrailingZeros(w)) <= w
  {
    if w % 2 == 1 {
      AndSelf(w / 2);
      assert (w - 1) / 2 == w / 2 && (w - 1) % 2 == 0;
      assert Pow2(0) == 1;
    } else {
      ClearLowest(w / 2);
      assert (w - 1) / 2 == w / 2 - 1 && (w - 1) % 2 == 1;
      assert Pow2(TrailingZeros(w)) == 2 * Pow2(TrailingZeros(w / 2));
    }
  }

  /** The positions of the set bits, shifted by `off`, low to high. */
  function SetBits(w: nat, off: nat): seq<nat> {
    if w == 0 then []
    else if w % 2 == 1 then [off] + SetBits(w / 2, off + 1)
    else SetBits(w / 2, off + 1)
  }

  predicate Ascending(s: seq<nat>) {
    forall i, j | 0 <= i < j < |s| :: s[i] < s[j]
  }

  lemma {:induction false} SetBitsMember(w: nat, off: nat, x: nat)
    ensures x in SetBits(w, off) <==> x >= off && BitAt(w, x - off)
  {
    if w == 0 {
      if x >= off {
        ZeroHasNoBits(x - off);
      }
    } else {
      SetBitsMember(w / 2, off + 1, x);
    }
  }

  lemma {:induction false} SetBitsAscending(w: nat, off: nat)
    ensures Ascending(SetBits(w, off))
  {
    if w > 0 {
      SetBitsAscending(w / 2, off + 1);
      var rest := SetBits(w / 2, off + 1);
      forall i | 0 <= i < |rest|
        ensures off < rest[i]
      {
        SetBitsMember(w / 2, off + 1, rest[i]);
      }
    }
  }

  lemma {:induction false} SetBitsCount(w: nat, off: nat)
    ensures |SetBits(w, off)| == Popcount(w)
  {
    if w > 0 {
      SetBitsCount(w / 2, off + 1);
    }
  }

  /** The lowest set bit comes first, and clearing it leaves the rest. */
  lemma {:induction false} SetBitsStep(w: nat, off: nat)
    requires w > 0
    ensures SetBits(w, off) == [off + TrailingZeros(w)] + SetBits(And(w, w - 1), off)
  {
    ClearLowest(w);
    if w % 2 == 1 {
      assert Pow2(0) == 1;
      assert And(w, w - 1) == w - 1;
      assert SetBits(w - 1, off) == SetBits(w / 2, off + 1) by {
        if w > 1 {
          assert (w - 1) / 2 == w / 2;
        }
      }
    } else {
      SetBitsStep(w / 2, off + 1);
      ClearLowest(w / 2);
      var rest := And(w / 2, w / 2 - 1);
      assert And(w, w - 1) == 2 * rest by {
        assert Pow2(TrailingZeros(w)) == 2 * Pow2(TrailingZeros(w / 2));
      }
      DoubleShifts(rest, off);
    }
  }

  lemma {:induction false} DoubleShifts(w: nat, off: nat)
    ensures SetBits(2 * w, off) == SetBits(w, off + 1)
  {
    assert (2 * w) / 2 == w;
  }

  /** Yields the set-bit indices of a word, low to high. */
  class BitIter {
    var bits: nat

    constructor (bits: nat)
      ensures this.bits == bits
    {
      this.bits := bits;
    }

    method Next() returns (r: Option<nat>)
      modifies this
      ensures r.None? <==> old(bits) == 0
      ensures r.None? ==> bits == 0
      ensures r.Some? ==> bits < old(bits)
      ensures r.Some? ==> forall off: nat :: SetBits(old(bits), off) == [off + r.value] + SetBits(bits, off)
    {
      hide SetBits, And, TrailingZeros, Pow2;
      if bits == 0 {
        return None;
      }
      forall off: nat
        ensures SetBits(bits, off) == [off + TrailingZeros(bits)] + SetBits(And(bits, bits - 1), off)
      {
        SetBitsStep(bits, off);
      }
      ClearLowest(bits);
      var b := TrailingZeros(bits);
      bits := And(bits, bits - 1);
      return Some(b);
    }
  }
}
