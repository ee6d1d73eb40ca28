/**
  The guest's memcpy, memmove and memset: register-level loops over a DMA ecall
  that moves at most 256 bytes.
 */
module GuestMemory {

  const TWO_64: nat := 0x1_0000_0000_0000_0000
  const MAX_BYTES: nat := 256
  const SEED_BYTES: nat := 8

  /** 64-bit register arithmetic. */
  function Wrap(x: int): nat { x % TWO_64 }

  lemma {:induction false} NoWrap(x: int)
    requires 0 <= x < TWO_64
    ensures Wrap(x) == x
  {}

  type Byte = x: nat | x < 256

  /** Guest memory; unwritten bytes are zero. */
  type Memory = map<nat, Byte>

  function Load(m: Memory, a: nat): Byte {
    if a in m then m[a] else 0
  }

  /** What `a` holds after `n` bytes at `dst` were replaced by those at `src`. */
  function CopiedByte(m: Memory, dst: nat, src: nat, n: nat, a: nat): Byte {
    if dst <= a < dst + n then Load(m, src + (a - dst)) else Load(m, a)
  }

  /** `m'` is `m` with `n` bytes at `dst` replaced by what `m` held at `src`. */
  ghost predicate Copied(m: Memory, m': Memory, dst: nat, src: nat, n: nat) {
    forall a: nat :: Load(m', a) == CopiedByte(m, dst, src, n, a)
  }

  /** `m'` is `m` with `n` bytes at `dst` set to `v`. */
  ghost predicate Filled(m: Memory, m': Memory, dst: nat, n: nat, v: Byte) {
    forall a: nat :: Load(m', a) == if dst <= a < dst + n then v else Load(m, a)
  }

  predicate Bounded(sizes: seq<nat>) {
    forall i | 0 <= i < |sizes| :: 1 <= sizes[i] <= MAX_BYTES
  }

  /** A forward byte walk: each step reads what the previous one wrote. */
  function Walked(m: Memory, dst: nat, src: nat, n: nat): Memory {
    if n == 0 then m
    else
      var before := Walked(m, dst, src, n - 1);
      before[dst + n - 1 := Load(before, src + n - 1)]
  }

  /** Eight equal bytes propagate across the whole range. */
  lemma {:induction false} SeedPropagates(m: Memory, src: nat, n: nat, v: Byte)
    requires forall a | src <= a < src + SEED_BYTES :: Load(m, a) == v
    ensures Filled(m, Walked(m, src + SEED_BYTES, src, n), src + SEED_BYTES, n, v)
  {
    if n > 0 {
      var dst := src + SEED_BYTES;
      SeedPropagates(m, src, n - 1, v);
      var before := Walked(m, dst, src, n - 1);
      var from := src + n - 1;
      assert Load(before, from) == v by {
        assert from < dst ==> Load(before, from) == Load(m, from);
      }
      forall a: nat
        ensures Load(Walked(m, dst, src, n), a) == if dst <= a < dst + n then v else Load(m, a)
      {
        assert Load(before, a) == if dst <= a < dst + (n - 1) then v else Load(m, a);
      }
    }
  }

  /** Registers and memory of a guest in one of the routines; `sizes` lists the bytes moved by each ecall. */
  class Machine {
    var mem: Memory
    var a0: nat
    var a1: nat
    var a2: nat
    var t0: nat
    var t1: nat
    var t2: nat
    ghost var sizes: seq<nat>

    /** The copy ecall: all reads happen before all writes. False is a trap. */
    method DmaMemcpy() returns (ok: bool)
      modifies `mem, `sizes
      ensures ok <==> a2 <= MAX_BYTES && a0 + a2 < TWO_64 && a1 + a2 < TWO_64
      ensures ok ==> Copied(old(mem), mem, a0, a1, a2) && sizes == old(sizes) + [a2]
      ensures !ok ==> mem == old(mem) && sizes == old(sizes)
    {
      if a2 > MAX_BYTES || a0 + a2 >= TWO_64 || a1 + a2 >= TWO_64 {
        return false;
      }
      var bytes: seq<Byte> := [];
      for i := 0 to a2
        invariant |bytes| == i && forall j | 0 <= j < i :: bytes[j] == Load(old(mem), a1 + j)
        invariant mem == old(mem) && sizes == old(sizes)
      {
        bytes := bytes + [Load(mem, a1 + i)];
      }
      for i := 0 to a2
        invariant sizes == old(sizes)
        invariant Copied(old(mem), mem, a0, a1, i)
      {
        StoreNext(old(mem), mem, a0, a1, i);
        mem := mem[a0 + i := bytes[i]];
      }
      sizes := sizes + [a2];
      return true;
    }

    /** The propagating ecall: a forward byte walk at distance eight. */
    method DmaMemset() returns (ok: bool)
      modifies `mem, `sizes
      ensures ok <==> a2 <= MAX_BYTES && a0 + a2 < TWO_64 && a1 + a2 < TWO_64 && a0 == a1 + SEED_BYTES
      ensures ok ==> mem == Walked(old(mem), a0, a1, a2) && sizes == old(sizes) + [a2]
      ensures !ok ==> mem == old(mem) && sizes == old(sizes)
    {
      if a2 > MAX_BYTES || a0 + a2 >= TWO_64 || a1 + a2 >= TWO_64 || a1 + SEED_BYTES != a0 {
        return false;
      }
      for i := 0 to a2
        invariant sizes == old(sizes) && mem == Walked(old(mem), a0, a1, i)
      {
        mem := mem[a0 + i := Load(mem, a1 + i)];
      }
      sizes := sizes + [a2];
      return true;
    }

    /** Chunks from the front: safe unless a later chunk would read what an earlier one wrote. */
    method CopyForward(ghost n: nat, ghost m: Memory, ghost dst: nat, ghost src: nat)
      requires a0 == dst && a1 == src && t1 == n > 0 && mem == m && Bounded(sizes)
      requires dst + n < TWO_64 && src + n < TWO_64
      requires dst <= src || src + n <= dst || n <= MAX_BYTES
      modifies this
      ensures Copied(m, mem, dst, src, n) && Bounded(sizes) && t0 == old(t0)
    {
      hide Copied, Wrap;
      ghost var done := 0;
      CopiedNothing(m, dst, src);
      while true
        invariant t1 > 0 && done + t1 == n && a0 == dst + done && a1 == src + done
        invariant done == 0 || n > MAX_BYTES
        invariant Copied(m, mem, dst, src, done) && Bounded(sizes) && t0 == old(t0)
        decreases t1
      {
        a2 := MAX_BYTES;
        if t1 < a2 {
          a2 := t1;
        }
        ghost var before := mem;
        var ok := DmaMemcpy();
        assert ok;
        ExtendForward(m, before, mem, dst, src, done, a2);
        NoWrap(t1 - a2);
        NoWrap(a0 + a2);
        NoWrap(a1 + a2);
        t1 := Wrap(t1 - a2);
        a0 := Wrap(a0 + a2);
        a1 := Wrap(a1 + a2);
        done := done + a2;
        if t1 == 0 {
          break;
        }
      }
    }

    /** Chunks from the end, for a destination inside the source range. */
    method CopyBackward(ghost n: nat, ghost m: Memory, ghost dst: nat, ghost src: nat)
      requires a0 == dst + n && a1 == src + n && t1 == n > 0 && mem == m && Bounded(sizes)
      requires dst + n < TWO_64 && src + n < TWO_64 && src < dst
      modifies this
      ensures Copied(m, mem, dst, src, n) && Bounded(sizes) && t0 == old(t0)
    {
      hide Copied, Wrap;
      CopiedNothing(m, dst + n, src + n);
      while true
        invariant 0 < t1 <= n && a0 == dst + t1 && a1 == src + t1
        invariant Copied(m, mem, dst + t1, src + t1, n - t1) && Bounded(sizes) && t0 == old(t0)
        decreases t1
      {
        a2 := MAX_BYTES;
        if t1 < a2 {
          a2 := t1;
        }
        NoWrap(a0 - a2);
        NoWrap(a1 - a2);
        NoWrap(t1 - a2);
        a0 := Wrap(a0 - a2);
        a1 := Wrap(a1 - a2);
        ghost var before := mem;
        var ok := DmaMemcpy();
        assert ok;
        ExtendBackward(m, before, mem, a0, a1, a2, n - t1);
        t1 := Wrap(t1 - a2);
        if t1 == 0 {
          break;
        }
      }
    }

    /** memcpy(a0, a1, a2): right on disjoint ranges, and on any range a forward copy does not clobber. */
    method Memcpy()
      requires a0 + a2 < TWO_64 && a1 + a2 < TWO_64 && Bounded(sizes)
      requires a0 <= a1 || a1 + a2 <= a0 || a2 <= MAX_BYTES
      modifies this
      ensures Copied(old(mem), mem, old(a0), old(a1), old(a2))
      ensures a0 == old(a0) && Bounded(sizes)
    {
      t0 := a0;
      t1 := a2;
      if t1 != 0 {
        CopyForward(a2, mem, a0, a1);
      }
      a0 := t0;
    }

    /** memmove(a0, a1, a2): right under any overlap. */
    method Memmove()
      requires a0 + a2 < TWO_64 && a1 + a2 < TWO_64 && Bounded(sizes)
      modifies this
      ensures Copied(old(mem), mem, old(a0), old(a1), old(a2))
      ensures a0 == old(a0) && Bounded(sizes)
    {
      t0 := a0;
      if a2 != 0 {
        var forward := a1 >= a0;
        if !forward {
          t2 := Wrap(a1 + a2);
          forward := a0 >= t2;
        }
        t1 := a2;
        if forward {
          CopyForward(a2, mem, a0, a1);
        } else {
          ghost var dst, src := a0, a1;
          a0 := Wrap(a0 + a2);
          a1 := Wrap(a1 + a2);
          CopyBackward(a2, mem, dst, src);
        }
      }
      a0 := t0;
    }

    /** Stores the low byte of a register. */
    method StoreByte(value: nat, address: nat)
      requires address < TWO_64
      modifies `mem
      ensures mem == old(mem)[address := value % 256]
    {
      mem := mem[address := value % 256];
    }

    /** Plain stores from the front, for short fills. */
    method FillBytewise(ghost n: nat, ghost m: Memory, ghost dst: nat)
      requires a0 == dst && t1 == n > 0 && mem == m && dst + n < TWO_64
      modifies this
      ensures Filled(m, mem, dst, n, a1 % 256) && t0 == old(t0) && sizes == old(sizes) && a1 == old(a1)
    {
      hide Filled, Wrap;
      ghost var done := 0;
      FilledNothing(m, dst, a1 % 256);
      while true
        invariant t1 > 0 && done + t1 == n && a0 == dst + done && a1 == old(a1)
        invariant Filled(m, mem, dst, done, a1 % 256) && t0 == old(t0) && sizes == old(sizes)
        decreases t1
      {
        ExtendFill(m, mem, mem[a0 := a1 % 256], dst, done, 1, a1 % 256);
        StoreByte(a1, a0);
        NoWrap(a0 + 1);
        NoWrap(t1 - 1);
        a0 := Wrap(a0 + 1);
        t1 := Wrap(t1 - 1);
        done := done + 1;
        if t1 == 0 {
          break;
        }
      }
    }

    /** Eight byte stores. */
    method Seed(ghost m: Memory, ghost dst: nat)
      requires a0 == dst && mem == m && dst + SEED_BYTES < TWO_64
      modifies `mem
      ensures Filled(m, mem, dst, SEED_BYTES, a1 % 256)
    {
      StoreByte(a1, a0);
      StoreByte(a1, a0 + 1);
      StoreByte(a1, a0 + 2);
      StoreByte(a1, a0 + 3);
      StoreByte(a1, a0 + 4);
      StoreByte(a1, a0 + 5);
      StoreByte(a1, a0 + 6);
      StoreByte(a1, a0 + 7);
    }

    /** Propagates the seed over the rest of the range, chunk by chunk. */
    method Propagate(ghost n: nat, ghost m: Memory, ghost dst: nat, ghost v: Byte)
      requires t1 == n - SEED_BYTES > 0 && a0 == dst + SEED_BYTES && a1 == dst && dst + n < TWO_64
      requires Filled(m, mem, dst, SEED_BYTES, v) && Bounded(sizes)
      modifies this
      ensures Filled(m, mem, dst, n, v) && Bounded(sizes) && t0 == old(t0)
    {
      hide Filled, Wrap, Walked;
      ghost var done := SEED_BYTES;
      while true
        invariant t1 > 0 && SEED_BYTES <= done && done + t1 == n && a0 == dst + done && a1 == dst + done - SEED_BYTES
        invariant Filled(m, mem, dst, done, v) && Bounded(sizes) && t0 == old(t0)
        decreases t1
      {
        a2 := MAX_BYTES;
        if t1 < a2 {
          a2 := t1;
        }
        ghost var before := mem;
        var ok := DmaMemset();
        assert ok;
        SeedHeld(m, before, dst, done, v);
        SeedPropagates(before, a1, a2, v);
        ExtendFill(m, before, mem, dst, done, a2, v);
        NoWrap(t1 - a2);
        NoWrap(a0 + a2);
        NoWrap(a1 + a2);
        t1 := Wrap(t1 - a2);
        a0 := Wrap(a0 + a2);
        a1 := Wrap(a1 + a2);
        done := done + a2;
        if t1 == 0 {
          break;
        }
      }
    }

    /** memset(a0, a1, a2): exactly a2 bytes take the low byte of a1. */
    method Memset()
      requires a0 + a2 < TWO_64 && Bounded(sizes)
      modifies this
      ensures Filled(old(mem), mem, old(a0), old(a2), old(a1) % 256)
      ensures a0 == old(a0) && Bounded(sizes)
    {
      hide Filled, Wrap;
      t0 := a0;
      if a2 == 0 {
        FilledNothing(mem, a0, a1 % 256);
      } else {
        t2 := 16;
        t1 := a2;
        if a2 < t2 {
          FillBytewise(a2, mem, a0);
        } else {
          ghost var m, dst, v, n := mem, a0, a1 % 256, a2;
          Seed(mem, a0);
          NoWrap(t1 - 8);
          NoWrap(a0 + 8);
          t1 := Wrap(t1 - 8);
          a1 := a0;
          a0 := Wrap(a0 + 8);
          Propagate(n, m, dst, v);
        }
      }
      a0 := t0;
    }
  }

  lemma {:induction false} CopiedNothing(m: Memory, dst: nat, src: nat)
    ensures Copied(m, m, dst, src, 0)
  {}

  lemma {:induction false} StoreNext(m: Memory, before: Memory, dst: nat, src: nat, i: nat)
    requires Copied(m, before, dst, src, i)
    ensures Copied(m, before[dst + i := Load(m, src + i)], dst, src, i + 1)
  {
    var after := before[dst + i := Load(m, src + i)];
    forall a: nat
      ensures Load(after, a) == CopiedByte(m, dst, src, i + 1, a)
    {
      assert Load(before, a) == CopiedByte(m, dst, src, i, a);
    }
  }

  lemma {:induction false} ExtendForward(m: Memory, before: Memory, after: Memory, dst: nat, src: nat, done: nat,
                                         k: nat)
    requires Copied(m, before, dst, src, done) && Copied(before, after, dst + done, src + done, k)
    requires done == 0 || dst <= src || src + done + k <= dst
    ensures Copied(m, after, dst, src, done + k)
  {
    forall a: nat
      ensures Load(after, a) == CopiedByte(m, dst, src, done + k, a)
    {
      assert Load(after, a) == CopiedByte(before, dst + done, src + done, k, a);
      assert Load(before, a) == CopiedByte(m, dst, src, done, a);
      if dst + done <= a < dst + done + k {
        var from := src + (a - dst);
        assert Load(before, from) == CopiedByte(m, dst, src, done, from);
      }
    }
  }

  lemma {:induction false} ExtendBackward(m: Memory, before: Memory, after: Memory, dst: nat, src: nat, k: nat,
                                          done: nat)
    requires src < dst
    requires Copied(m, before, dst + k, src + k, done) && Copied(before, after, dst, src, k)
    ensures Copied(m, after, dst, src, done + k)
  {
    forall a: nat
      ensures Load(after, a) == CopiedByte(m, dst, src, done + k, a)
    {
      assert Load(after, a) == CopiedByte(before, dst, src, k, a);
      assert Load(before, a) == CopiedByte(m, dst + k, src + k, done, a);
      if dst <= a < dst + k {
        var from := src + (a - dst);
        assert Load(before, from) == CopiedByte(m, dst + k, src + k, done, from);
      }
    }
  }

  lemma {:induction false} FilledNothing(m: Memory, dst: nat, v: Byte)
    ensures Filled(m, m, dst, 0, v)
  {}

  lemma {:induction false} ExtendFill(m: Memory, before: Memory, after: Memory, dst: nat, done: nat, k: nat, v: Byte)
    requires Filled(m, before, dst, done, v)
    requires Filled(before, after, dst + done, k, v) || (k == 1 && after == before[dst + done := v])
    ensures Filled(m, after, dst, done + k, v)
  {
    forall a: nat
      ensures Load(after, a) == if dst <= a < dst + done + k then v else Load(m, a)
    {
      assert Load(before, a) == if dst <= a < dst + done then v else Load(m, a);
    }
  }

  /** The last eight filled bytes seed the next chunk. */
  lemma {:induction false} SeedHeld(m: Memory, before: Memory, dst: nat, done: nat, v: Byte)
    requires Filled(m, before, dst, done, v) && done >= SEED_BYTES
    ensures forall a | dst + done - SEED_BYTES <= a < dst + done :: Load(before, a) == v
  {}
}
