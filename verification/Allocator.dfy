/** The guest's bump allocator: a cursor that only moves up. */
module Allocator {
  import opened GuestMemory
  import Modular

  const MAX_MEMORY_SIZE: nat := 0xC000_0000
  const ISIZE_MAX: nat := 0x7FFF_FFFF_FFFF_FFFF
  const NULL: nat := 0

  datatype Layout = Layout(size: nat, align: nat)

  predicate PowerOfTwo(n: nat) {
    n == 1 || (n > 1 && n % 2 == 0 && PowerOfTwo(n / 2))
  }

  function RoundUp(x: nat, align: nat): nat
    requires align > 0
  {
    (x + align - 1) - (x + align - 1) % align
  }

  /** The allocation contract: nonzero size, power-of-two alignment, rounded size within isize. */
  predicate Legal(l: Layout) {
    l.size >= 1 && PowerOfTwo(l.align) && l.align >= 1 && RoundUp(l.size, l.align) <= ISIZE_MAX
  }

  /** Wrapping add of align - 1, then clearing the low bits. */
  function AlignUp(pos: nat, align: nat): nat
    requires align > 0
  {
    Wrap(pos + align - 1) - Wrap(pos + align - 1) % align
  }

  lemma {:induction false} AlignUpMeaning(pos: nat, align: nat)
    requires align > 0 && pos + align - 1 < TWO_64
    ensures pos <= AlignUp(pos, align) < pos + align && AlignUp(pos, align) % align == 0
  {
    var x := pos + align - 1;
    NoWrap(x);
    var q := x / align;
    assert x == align * q + x % align;
    assert AlignUp(pos, align) == align * q;
    assert align * q == q * align;
    Modular.DivModUnique(align * q, align, q, 0);
  }

  /** The cursor and the pointer after an allocation attempt. */
  function Bump(pos: nat, end: nat, l: Layout): (nat, nat)
    requires l.align > 0
  {
    var aligned := AlignUp(pos, l.align);
    if aligned + l.size < TWO_64 && aligned + l.size <= end then (aligned + l.size, aligned) else (pos, NULL)
  }

  /** When the cursor can move down: exactly when aligning it wraps around and the block fits below it. */
  lemma {:induction false} CursorMonotoneIff(pos: nat, end: nat, l: Layout)
    requires Legal(l) && pos < TWO_64 && end < TWO_64
    ensures Bump(pos, end, l).0 < pos <==> pos + l.align - 1 >= TWO_64 && l.size < pos && l.size <= end
  {
    var x := pos + l.align - 1;
    if x < TWO_64 {
      AlignUpMeaning(pos, l.align);
    } else {
      assert l.align <= RoundUp(l.size, l.align) by { RoundUpAtLeast(l.size, l.align); }
      assert Wrap(x) == x - TWO_64;
      assert Wrap(x) < l.align;
      SmallRemainder(Wrap(x), l.align);
      assert AlignUp(pos, l.align) == 0;
    }
  }

  /** A heap that ends at the last address: one more byte moves the cursor down to 1. */
  lemma {:induction false} CursorMovesDown()
    ensures Legal(Layout(1, 2)) && Bump(TWO_64 - 1, TWO_64 - 1, Layout(1, 2)) == (1, NULL)
  {
    assert PowerOfTwo(2) by { assert PowerOfTwo(1); }
  }

  /** Below 2^63 nothing wraps: the block is the next aligned one, null exactly when it does not fit. */
  lemma {:induction false} BumpMeaning(pos: nat, end: nat, l: Layout)
    requires Legal(l) && 0 < pos <= ISIZE_MAX && end <= ISIZE_MAX
    ensures var (next, ptr) := Bump(pos, end, l);
            && RoundUp(pos, l.align) >= pos && RoundUp(pos, l.align) % l.align == 0
            && (if RoundUp(pos, l.align) + l.size <= end
                then ptr == RoundUp(pos, l.align) && next == ptr + l.size
                else ptr == NULL && next == pos)
  {
    hide AlignUp, RoundUp, Legal;
    LegalSizes(l);
    AlignUpMeaning(pos, l.align);
    AlignIsRoundUp(pos, l.align);
  }

  lemma {:induction false} LegalSizes(l: Layout)
    requires Legal(l)
    ensures 1 <= l.align <= ISIZE_MAX && 1 <= l.size <= ISIZE_MAX
  {
    hide RoundUp;
    RoundUpAtLeast(l.size, l.align);
  }

  lemma {:induction false} AlignIsRoundUp(pos: nat, align: nat)
    requires align > 0 && pos + align - 1 < TWO_64
    ensures AlignUp(pos, align) == RoundUp(pos, align)
  {
    NoWrap(pos + align - 1);
  }

  /** Until the heap is placed, its end is 0 and every request is refused. */
  lemma {:induction false} BumpUnplaced(pos: nat, l: Layout)
    requires Legal(l)
    ensures Bump(pos, 0, l) == (pos, NULL)
  {
    hide AlignUp;
  }

  lemma {:induction false} SmallRemainder(x: nat, d: nat)
    requires x < d
    ensures x % d == x
  {}

  lemma {:induction false} RoundUpAtLeast(x: nat, align: nat)
    requires align > 0 && x >= 1
    ensures RoundUp(x, align) >= align && RoundUp(x, align) >= x
  {
    var y := x + align - 1;
    var q := y / align;
    assert y == align * q + y % align;
    assert q >= 1;
    assert align * q >= align;
  }

  // ---------------------------------------------------------------------
  // The allocator over guest memory
  // ---------------------------------------------------------------------

  ghost predicate ZeroFrom(m: Memory, pos: nat, end: nat) {
    forall a | pos <= a < end :: Load(m, a) == 0
  }

  /** A heap the guest may hand over: within isize, off the null address, and zero. */
  ghost predicate Placeable(m: Memory, start: nat, end: nat) {
    0 < start <= ISIZE_MAX && end <= ISIZE_MAX && ZeroFrom(m, start, end)
  }

  predicate Apart(p: nat, pSize: nat, q: nat, qSize: nat) {
    p + pSize <= q || q + qSize <= p
  }

  /** Owned blocks are aligned, inside the heap below the cursor, and pairwise disjoint. */
  ghost predicate Sound(blocks: map<nat, Layout>, start: nat, pos: nat, end: nat) {
    && (forall p | p in blocks ::
          && Legal(blocks[p]) && p != NULL && p % blocks[p].align == 0
          && start <= p && p + blocks[p].size <= pos && p + blocks[p].size <= end)
    && (forall p, q | p in blocks && q in blocks && p != q :: Apart(p, blocks[p].size, q, blocks[q].size))
  }

  lemma {:induction false} AddBlock(blocks: map<nat, Layout>, start: nat, pos: nat, end: nat, p: nat, l: Layout,
                                    pos': nat)
    requires Sound(blocks, start, pos, end) && Legal(l) && p != NULL && p % l.align == 0
    requires start <= p && pos <= p && p + l.size == pos' <= end
    ensures Sound(blocks[p := l], start, pos', end)
  {
    var after := blocks[p := l];
    forall q, r | q in after && r in after && q != r
      ensures Apart(q, after[q].size, r, after[r].size)
    {
      assert q == p || q in blocks;
      assert r == p || r in blocks;
    }
  }

  lemma {:induction false} DropBlock(blocks: map<nat, Layout>, start: nat, pos: nat, end: nat, p: nat)
    requires Sound(blocks, start, pos, end)
    ensures Sound(blocks - {p}, start, pos, end)
  {}

  /** Resizing the topmost block to end at the new cursor, or shrinking any block. */
  lemma {:induction false} ResizeBlock(blocks: map<nat, Layout>, start: nat, pos: nat, end: nat, p: nat, size: nat,
                                       pos': nat)
    requires Sound(blocks, start, pos, end) && p in blocks && Legal(Layout(size, blocks[p].align)) && pos <= pos'
    requires size <= blocks[p].size || (p + blocks[p].size == pos && p + size == pos' <= end)
    ensures Sound(blocks[p := Layout(size, blocks[p].align)], start, pos', end)
  {
    var after := blocks[p := Layout(size, blocks[p].align)];
    forall q, r | q in after && r in after && q != r
      ensures Apart(q, after[q].size, r, after[r].size)
    {
      assert q in blocks && r in blocks;
      assert Apart(q, blocks[q].size, r, blocks[r].size);
    }
  }

  lemma {:induction false} BlockFacts(blocks: map<nat, Layout>, start: nat, pos: nat, end: nat, p: nat)
    requires Sound(blocks, start, pos, end) && p in blocks
    ensures p != NULL && start <= p && p + blocks[p].size <= pos && p + blocks[p].size <= end
  {}

  lemma {:induction false} FreshBlock(blocks: map<nat, Layout>, start: nat, pos: nat, end: nat, p: nat)
    requires Sound(blocks, start, pos, end) && pos <= p
    ensures p !in blocks
  {}

  lemma {:induction false} AddThenDrop(blocks: map<nat, Layout>, p: nat, q: nat, l: Layout)
    requires p != q
    ensures blocks[q := l] - {p} == (blocks - {p})[q := l]
  {}

  lemma {:induction false} RoundUpFrom(x: nat, align: nat)
    requires align > 0
    ensures RoundUp(x, align) >= x
  {}

  lemma {:induction false} ZeroKept(m: Memory, pos: nat, end: nat, a: nat, v: Byte)
    requires a < pos
    ensures ZeroFrom(m, pos, end) ==> ZeroFrom(m[a := v], pos, end)
  {
    var after := m[a := v];
    if ZeroFrom(m, pos, end) {
      forall b | pos <= b < end
        ensures Load(after, b) == 0
      {
        assert Load(m, b) == 0;
      }
    }
  }

  function Larger(a: nat, b: nat): nat { if a >= b then a else b }

  /** The first `n` bytes at `ptr` are now at `res`. */
  ghost predicate Kept(m: Memory, m': Memory, ptr: nat, res: nat, n: nat) {
    forall a | res <= a < res + n :: Load(m', a) == Load(m, ptr + (a - res))
  }

  ghost predicate SameBelow(m: Memory, m': Memory, pos: nat) {
    forall a: nat | a < pos :: Load(m', a) == Load(m, a)
  }

  lemma {:induction false} KeptBelow(m: Memory, m': Memory, ptr: nat, res: nat, n: nat, pos: nat)
    requires Copied(m, m', res, ptr, n) && pos <= res
    ensures Kept(m, m', ptr, res, n)
    ensures SameBelow(m, m', pos)
  {}

  lemma {:induction false} SourceIntact(m: Memory, m': Memory, dst: nat, src: nat, i: nat, n: nat)
    requires Copied(m, m', dst, src, i) && i < n && Apart(src, n, dst, n)
    ensures Load(m', src + i) == Load(m, src + i)
  {
    assert Load(m', src + i) == CopiedByte(m, dst, src, i, src + i);
  }

  class BumpAlloc {
    var heapPos: nat
    var heapEnd: nat
    var mem: Memory
    /** Where the heap was first placed, and the blocks the guest owns. */
    ghost var heapStart: nat
    ghost var blocks: map<nat, Layout>

    ghost predicate Valid()
      reads this
    {
      && heapEnd <= ISIZE_MAX && heapPos <= ISIZE_MAX
      && (heapEnd == 0 ==> blocks == map[])
      && (heapEnd != 0 ==> 0 < heapStart <= heapPos && ZeroFrom(mem, heapPos, heapEnd))
      && Sound(blocks, heapStart, heapPos, heapEnd)
    }

    constructor ()
      ensures Valid() && heapEnd == 0 && blocks == map[] && mem == map[]
    {
      heapPos := 0;
      heapEnd := 0;
      mem := map[];
      heapStart := 0;
      blocks := map[];
    }

    /** Idempotent: a later call changes nothing. The heap works when it is zeroed and within isize. */
    method Init(start: nat, end: nat)
      requires Valid() && start < TWO_64 && end < TWO_64
      modifies this
      ensures old(heapEnd) != 0 || Placeable(mem, start, end) ==> Valid()
      ensures mem == old(mem) && blocks == old(blocks)
      ensures if old(heapEnd) == 0 then heapPos == start && heapEnd == end
              else heapPos == old(heapPos) && heapEnd == old(heapEnd)
    {
      var initialized := heapEnd != 0;
      if initialized {
        return;
      }
      heapPos := start;
      heapEnd := end;
      heapStart := start;
    }

    /** The guest's start-up call: the heap runs from the linker's end symbol to the memory ceiling. */
    method InitAllocator(linkerEnd: nat)
      requires Valid() && linkerEnd < TWO_64
      modifies this
      ensures old(heapEnd) != 0 || Placeable(mem, linkerEnd, MAX_MEMORY_SIZE) ==> Valid()
      ensures mem == old(mem) && blocks == old(blocks)
      ensures old(heapEnd) == 0 ==> heapPos == linkerEnd && heapEnd == MAX_MEMORY_SIZE
      ensures old(heapEnd) != 0 ==> heapPos == old(heapPos) && heapEnd == old(heapEnd)
    {
      Init(linkerEnd, MAX_MEMORY_SIZE);
    }

    /** Null exactly when the aligned block does not fit below the heap's end. */
    method Alloc(l: Layout) returns (ptr: nat)
      requires Valid() && Legal(l)
      modifies this
      ensures Valid() && mem == old(mem) && heapEnd == old(heapEnd) && heapPos >= old(heapPos)
      ensures ptr == NULL <==> RoundUp(old(heapPos), l.align) + l.size > heapEnd
      ensures ptr == NULL ==> heapPos == old(heapPos) && blocks == old(blocks)
      ensures ptr != NULL ==> ptr == RoundUp(old(heapPos), l.align) && heapPos == ptr + l.size
                              && ptr !in old(blocks) && blocks == old(blocks)[ptr := l]
      ensures ptr != NULL ==> ZeroFrom(mem, ptr, ptr + l.size)
    {
      if heapEnd == 0 {
        BumpUnplaced(heapPos, l);
      } else {
        BumpMeaning(heapPos, heapEnd, l);
      }
      hide Bump, Legal, RoundUp, Sound;
      var (next, block) := Bump(heapPos, heapEnd, l);
      if block != NULL {
        AddBlock(blocks, heapStart, heapPos, heapEnd, block, l, next);
        FreshBlock(blocks, heapStart, heapPos, heapEnd, block);
        blocks := blocks[block := l];
      }
      heapPos := next;
      ptr := block;
    }

    /** No memset: fresh memory already reads as zero. */
    method AllocZeroed(l: Layout) returns (ptr: nat)
      requires Valid() && Legal(l)
      modifies this
      ensures Valid() && mem == old(mem) && heapEnd == old(heapEnd) && heapPos >= old(heapPos)
      ensures ptr == NULL <==> RoundUp(old(heapPos), l.align) + l.size > heapEnd
      ensures ptr == NULL ==> blocks == old(blocks) && heapPos == old(heapPos)
      ensures ptr != NULL ==> ptr == RoundUp(old(heapPos), l.align) && heapPos == ptr + l.size
      ensures ptr != NULL ==> ptr !in old(blocks) && blocks == old(blocks)[ptr := l]
                              && ZeroFrom(mem, ptr, ptr + l.size)
    {
      ptr := Alloc(l);
    }

    /** Never reclaims; the guest gives the block up. */
    method Dealloc(ptr: nat)
      requires Valid() && ptr in blocks
      modifies `blocks
      ensures Valid() && blocks == old(blocks) - {ptr}
    {
      DropBlock(blocks, heapStart, heapPos, heapEnd, ptr);
      blocks := blocks - {ptr};
    }

    /** The guest writes inside a block it owns. */
    method Write(ptr: nat, i: nat, v: Byte)
      requires Valid() && ptr in blocks && i < blocks[ptr].size
      modifies `mem
      ensures Valid() && mem == old(mem)[ptr + i := v]
    {
      BlockFacts(blocks, heapStart, heapPos, heapEnd, ptr);
      hide Sound, ZeroFrom;
      ZeroKept(mem, heapPos, heapEnd, ptr + i, v);
      mem := mem[ptr + i := v];
    }

    /**
      Null leaves everything as it was; otherwise the first min(old, new) bytes
      are kept. When it is null, and where the block ends up, are exact.
     */
    method Realloc(ptr: nat, l: Layout, newSize: nat) returns (res: nat)
      requires Valid() && ptr in blocks && blocks[ptr] == l && Legal(Layout(newSize, l.align))
      modifies this
      ensures Valid() && heapEnd == old(heapEnd) && heapPos >= old(heapPos)
      ensures res == NULL ==> mem == old(mem) && blocks == old(blocks) && heapPos == old(heapPos)
      ensures res != NULL ==> blocks == (old(blocks) - {ptr})[res := Layout(newSize, l.align)]
      ensures res != NULL ==> Kept(old(mem), mem, ptr, res, if l.size <= newSize then l.size else newSize)
      ensures SameBelow(old(mem), mem, old(heapPos))
      // The topmost block is resized in place.
      ensures ptr + l.size == old(heapPos) ==> (res == NULL <==> newSize > l.size && ptr + newSize > heapEnd)
      ensures ptr + l.size == old(heapPos) && res != NULL ==>
                res == ptr && mem == old(mem) && heapPos == Larger(old(heapPos), ptr + newSize)
      // Any other block moves to the next aligned place.
      ensures ptr + l.size != old(heapPos) ==> (res == NULL <==> RoundUp(old(heapPos), l.align) + newSize > heapEnd)
      ensures ptr + l.size != old(heapPos) && res != NULL ==>
                res == RoundUp(old(heapPos), l.align) && heapPos == res + newSize
      // Whatever a fresh allocation could serve is served.
      ensures RoundUp(old(heapPos), l.align) + newSize <= heapEnd ==> res != NULL
    {
      BlockFacts(blocks, heapStart, heapPos, heapEnd, ptr);
      RoundUpFrom(heapPos, l.align);
      LegalSizes(Layout(newSize, l.align));
      hide Sound, Legal, ZeroFrom, RoundUp;
      NoWrap(ptr + l.size);
      if Wrap(ptr + l.size) == heapPos {
        if newSize <= l.size {
          Resize(ptr, newSize, heapPos);
          return ptr;
        }
        if ptr + newSize < TWO_64 && ptr + newSize <= heapEnd {
          Resize(ptr, newSize, ptr + newSize);
          return ptr;
        }
        return NULL;
      }
      res := MoveBlock(ptr, l, newSize);
    }

    /** A fresh block with the old one's bytes; the old one is given up. */
    method MoveBlock(ptr: nat, l: Layout, newSize: nat) returns (res: nat)
      requires Valid() && ptr in blocks && blocks[ptr] == l && Legal(Layout(newSize, l.align))
      modifies this
      ensures Valid() && heapEnd == old(heapEnd) && heapPos >= old(heapPos)
      ensures res == NULL ==> mem == old(mem) && blocks == old(blocks) && heapPos == old(heapPos)
      ensures res != NULL ==> blocks == (old(blocks) - {ptr})[res := Layout(newSize, l.align)]
      ensures res != NULL ==> Kept(old(mem), mem, ptr, res, if l.size <= newSize then l.size else newSize)
      ensures SameBelow(old(mem), mem, old(heapPos))
      ensures res == NULL <==> RoundUp(old(heapPos), l.align) + newSize > heapEnd
      ensures res != NULL ==> res == RoundUp(old(heapPos), l.align) && heapPos == res + newSize
    {
      BlockFacts(blocks, heapStart, heapPos, heapEnd, ptr);
      LegalSizes(Layout(newSize, l.align));
      hide Sound, Legal, ZeroFrom, Copied, Kept, RoundUp, SameBelow;
      RoundUpFrom(heapPos, l.align);
      res := Alloc(Layout(newSize, l.align));
      if res != NULL {
        var n := if l.size <= newSize then l.size else newSize;
        CopyNonoverlapping(ptr, res, n);
        KeptBelow(old(mem), mem, ptr, res, n, old(heapPos));
        Dealloc(ptr);
        AddThenDrop(old(blocks), ptr, res, Layout(newSize, l.align));
      }
    }

    /** The block the guest owns at `ptr` changes its size; the cursor moves to `pos`. */
    method Resize(ptr: nat, size: nat, pos: nat)
      requires Valid() && ptr in blocks && Legal(Layout(size, blocks[ptr].align)) && heapPos <= pos
      requires (size <= blocks[ptr].size && pos == heapPos)
            || (ptr + blocks[ptr].size == heapPos && ptr + size == pos <= heapEnd)
      modifies `heapPos, `blocks
      ensures Valid() && heapPos == pos && blocks == (old(blocks) - {ptr})[ptr := Layout(size, old(blocks)[ptr].align)]
    {
      ResizeBlock(blocks, heapStart, heapPos, heapEnd, ptr, size, pos);
      BlockFacts(blocks, heapStart, heapPos, heapEnd, ptr);
      hide Sound, Legal;
      blocks := (blocks - {ptr})[ptr := Layout(size, blocks[ptr].align)];
      assert blocks == old(blocks)[ptr := Layout(size, old(blocks)[ptr].align)];
      heapPos := pos;
    }

    method CopyNonoverlapping(src: nat, dst: nat, n: nat)
      requires Apart(src, n, dst, n)
      requires heapEnd != 0 && dst + n <= heapPos && Valid()
      modifies `mem
      ensures Copied(old(mem), mem, dst, src, n) && Valid()
    {
      hide Sound, Copied, CopiedByte, ZeroFrom, Load;
      CopiedNothing(mem, dst, src);
      for i := 0 to n
        invariant Copied(old(mem), mem, dst, src, i) && Valid()
      {
        SourceIntact(old(mem), mem, dst, src, i, n);
        StoreNext(old(mem), mem, dst, src, i);
        ZeroKept(mem, heapPos, heapEnd, dst + i, Load(mem, src + i));
        mem := mem[dst + i := Load(mem, src + i)];
      }
    }
  }
}
