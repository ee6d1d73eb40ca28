/**
  The page-bucketed store: sorted pages of dense values with an occupancy
  bitmap, against a plain map with a default value.
 */
module PagedMemory {
  import opened Outcomes
  import opened Schedule
  import opened Words

  const PAGE_SIZE: nat := 0x4_0000
  const WORD_BITS: nat := 64
  const OCC_WORDS: nat := 4096

  datatype Page<T> = Page(base: nat, data: seq<T>, occupied: seq<nat>)

  /** Page base and offset of an address. */
  function Split(a: nat): (nat, nat) {
    (a - a % PAGE_SIZE, a % PAGE_SIZE)
  }

  function PageBase(a: nat): nat { a - a % PAGE_SIZE }

  predicate Aligned(b: nat) { b % PAGE_SIZE == 0 }

  lemma {:induction false} PageBaseUnique(b: nat, off: nat)
    requires Aligned(b) && off < PAGE_SIZE
    ensures PageBase(b + off) == b && (b + off) % PAGE_SIZE == off
  {
    var q := b / PAGE_SIZE;
    assert b + off == PAGE_SIZE * q + off;
  }

  predicate Sized<T>(p: Page<T>) {
    |p.data| == PAGE_SIZE && |p.occupied| == OCC_WORDS
  }

  predicate Occupied<T>(p: Page<T>, off: nat)
    requires Sized(p) && off < PAGE_SIZE
  {
    BitAt(p.occupied[off / WORD_BITS], off % WORD_BITS)
  }

  ghost predicate SixtyFourBits(occupied: seq<nat>) {
    forall i, k: nat | 0 <= i < |occupied| && BitAt(occupied[i], k) :: k < WORD_BITS
  }

  /** An aligned, full-size page whose unset cells hold the fill value and whose words have 64 bits. */
  ghost predicate Dense<T>(p: Page<T>, fill: T) {
    && Aligned(p.base) && Sized(p)
    && (forall off: nat | off < PAGE_SIZE && !Occupied(p, off) :: p.data[off] == fill)
    && SixtyFourBits(p.occupied)
  }

  ghost predicate NonEmpty<T>(p: Page<T>)
    requires Sized(p)
  {
    exists off: nat :: off < PAGE_SIZE && Occupied(p, off)
  }

  ghost predicate Sound<T>(p: Page<T>, fill: T) {
    Dense(p, fill) && NonEmpty(p)
  }

  predicate SortedBases<T>(pages: seq<Page<T>>) {
    forall i, j | 0 <= i < j < |pages| :: pages[i].base < pages[j].base
  }

  ghost predicate WellFormed<T>(pages: seq<Page<T>>, fill: T) {
    && (forall i | 0 <= i < |pages| :: Sound(pages[i], fill))
    && SortedBases(pages)
  }

  /** Page `p` agrees with `cells` on its whole range. */
  ghost predicate PageAgrees<T>(p: Page<T>, cells: map<nat, T>) {
    && Sized(p)
    && forall off: nat | off < PAGE_SIZE ::
         && (Occupied(p, off) <==> p.base + off in cells)
         && (Occupied(p, off) ==> p.data[off] == cells[p.base + off])
  }

  predicate HasPage<T>(pages: seq<Page<T>>, base: nat) {
    exists i :: 0 <= i < |pages| && pages[i].base == base
  }

  /** The store holds exactly `cells`. */
  ghost predicate Agrees<T>(pages: seq<Page<T>>, cells: map<nat, T>) {
    && (forall i | 0 <= i < |pages| :: PageAgrees(pages[i], cells))
    && (forall a | a in cells :: HasPage(pages, PageBase(a)))
  }

  function Lookup<T>(cells: map<nat, T>, fill: T, a: nat): T {
    if a in cells then cells[a] else fill
  }

  /** The result of a binary search over sorted, distinct bases. */
  datatype Position = Found(i: nat) | Missing(i: nat)

  method BinarySearch<T>(pages: seq<Page<T>>, base: nat) returns (r: Position)
    requires SortedBases(pages)
    ensures r.Found? ==> r.i < |pages| && pages[r.i].base == base
    ensures r.Missing? ==> r.i <= |pages| && (forall j | 0 <= j < r.i :: pages[j].base < base)
                           && (forall j | r.i <= j < |pages| :: base < pages[j].base)
  {
    var lo, hi := 0, |pages|;
    while lo < hi
      invariant 0 <= lo <= hi <= |pages|
      invariant forall j | 0 <= j < lo :: pages[j].base < base
      invariant forall j | hi <= j < |pages| :: base < pages[j].base
    {
      var mid := (lo + hi) / 2;
      if pages[mid].base == base {
        return Found(mid);
      } else if pages[mid].base < base {
        lo := mid + 1;
      } else {
        hi := mid;
      }
    }
    return Missing(lo);
  }

  // ---------------------------------------------------------------------
  // Setting a cell
  // ---------------------------------------------------------------------

  function FreshPage<T>(base: nat, fill: T): Page<T> {
    Page(base, seq(PAGE_SIZE, _ => fill), seq(OCC_WORDS, _ => 0))
  }

  function SetIn<T>(p: Page<T>, off: nat, v: T): Page<T>
    requires Sized(p) && off < PAGE_SIZE
  {
    var w := off / WORD_BITS;
    p.(data := p.data[off := v], occupied := p.occupied[w := Or(p.occupied[w], Pow2(off % WORD_BITS))])
  }

  lemma {:induction false} SetInOccupies<T>(p: Page<T>, off: nat, v: T, k: nat)
    requires Sized(p) && off < PAGE_SIZE && k < PAGE_SIZE
    ensures Occupied(SetIn(p, off, v), k) <==> Occupied(p, k) || k == off
  {
    if k / WORD_BITS == off / WORD_BITS {
      OrSetsBit(p.occupied[off / WORD_BITS], off % WORD_BITS, k % WORD_BITS);
    }
  }

  lemma {:induction false} SetInDense<T>(p: Page<T>, fill: T, off: nat, v: T)
    requires Dense(p, fill) && off < PAGE_SIZE
    ensures Dense(SetIn(p, off, v), fill)
  {
    var q := SetIn(p, off, v);
    forall k: nat | k < PAGE_SIZE && !Occupied(q, k)
      ensures q.data[k] == fill
    {
      SetInOccupies(p, off, v, k);
    }
    forall i, k: nat | 0 <= i < OCC_WORDS && BitAt(q.occupied[i], k)
      ensures k < WORD_BITS
    {
      OrSetsBit(p.occupied[off / WORD_BITS], off % WORD_BITS, k);
    }
  }

  /** Setting a cell of its own page updates the map there. */
  lemma {:induction false} SetInAgrees<T>(p: Page<T>, cells: map<nat, T>, off: nat, v: T)
    requires off < PAGE_SIZE && PageAgrees(p, cells)
    ensures PageAgrees(SetIn(p, off, v), cells[p.base + off := v])
  {
    var q := SetIn(p, off, v);
    var after := cells[p.base + off := v];
    forall k: nat | k < PAGE_SIZE
      ensures Occupied(q, k) <==> q.base + k in after
      ensures Occupied(q, k) ==> q.data[k] == after[q.base + k]
    {
      SetInOccupies(p, off, v, k);
    }
  }

  /** Setting a cell of another page leaves this one in agreement. */
  lemma {:induction false} OtherPageAgrees<T>(p: Page<T>, cells: map<nat, T>, a: nat, v: T)
    requires Aligned(p.base) && PageAgrees(p, cells)
    requires PageBase(a) != p.base
    ensures PageAgrees(p, cells[a := v])
  {
    var after := cells[a := v];
    forall off: nat | off < PAGE_SIZE
      ensures Occupied(p, off) <==> p.base + off in after
      ensures Occupied(p, off) ==> p.data[off] == after[p.base + off]
    {
      PageBaseUnique(p.base, off);
      assert p.base + off != a;
    }
  }

  lemma {:induction false} FreshPageShape<T>(base: nat, fill: T, cells: map<nat, T>)
    requires Aligned(base) && forall a | a in cells :: PageBase(a) != base
    ensures Dense(FreshPage(base, fill), fill) && PageAgrees(FreshPage(base, fill), cells)
  {
    var p := FreshPage(base, fill);
    forall k: nat
      ensures !BitAt(0, k)
    {
      ZeroHasNoBits(k);
    }
    forall off: nat | off < PAGE_SIZE
      ensures !Occupied(p, off) && p.base + off !in cells
    {
      PageBaseUnique(base, off);
    }
  }

  /** The pages after setting `a`, given where its page is or belongs. */
  function SetPages<T>(pages: seq<Page<T>>, fill: T, pos: Position, a: nat, v: T): seq<Page<T>>
    requires pos.Found? ==> pos.i < |pages| && Sized(pages[pos.i])
    requires pos.Missing? ==> pos.i <= |pages|
  {
    var (base, off) := Split(a);
    match pos
    case Found(i) => pages[i := SetIn(pages[i], off, v)]
    case Missing(i) => pages[..i] + [SetIn(FreshPage(base, fill), off, v)] + pages[i..]
  }

  lemma {:induction false} SetInSound<T>(p: Page<T>, fill: T, off: nat, v: T)
    requires Dense(p, fill) && off < PAGE_SIZE
    ensures Sound(SetIn(p, off, v), fill)
  {
    hide BitAt, Or, Pow2;
    SetInDense(p, fill, off, v);
    SetInOccupies(p, off, v, off);
  }

  lemma {:induction false} SetExisting<T>(pages: seq<Page<T>>, fill: T, cells: map<nat, T>, i: nat, a: nat, v: T)
    requires WellFormed(pages, fill) && Agrees(pages, cells) && i < |pages| && pages[i].base == PageBase(a)
    requires Sized(pages[i])
    ensures var after := SetPages(pages, fill, Found(i), a, v);
            WellFormed(after, fill) && Agrees(after, cells[a := v])
  {
    hide Dense, NonEmpty, PageAgrees, Occupied, Aligned;
    var off := a % PAGE_SIZE;
    PageBaseAligned(a);
    var after := SetPages(pages, fill, Found(i), a, v);
    assert after == pages[i := SetIn(pages[i], off, v)];
    SetInSound(pages[i], fill, off, v);
    SetInAgrees(pages[i], cells, off, v);
    AlignedBases(pages, fill);
    forall j | 0 <= j < |pages|
      ensures PageAgrees(after[j], cells[a := v])
    {
      if j != i {
        OtherPageAgrees(pages[j], cells, a, v);
      }
    }
    forall b | b in cells[a := v]
      ensures HasPage(after, PageBase(b))
    {
      SamePages(pages, after, PageBase(b));
    }
  }

  lemma {:induction false} SamePages<T>(pages: seq<Page<T>>, after: seq<Page<T>>, base: nat)
    requires |pages| == |after| && forall i | 0 <= i < |pages| :: pages[i].base == after[i].base
    ensures HasPage(pages, base) ==> HasPage(after, base)
  {
    if HasPage(pages, base) {
      var i :| 0 <= i < |pages| && pages[i].base == base;
      assert after[i].base == base;
    }
  }

  lemma {:induction false} SetMissing<T>(pages: seq<Page<T>>, fill: T, cells: map<nat, T>, i: nat, a: nat, v: T)
    requires WellFormed(pages, fill) && Agrees(pages, cells) && i <= |pages|
    requires forall j | 0 <= j < i :: pages[j].base < PageBase(a)
    requires forall j | i <= j < |pages| :: PageBase(a) < pages[j].base
    ensures var after := SetPages(pages, fill, Missing(i), a, v);
            WellFormed(after, fill) && Agrees(after, cells[a := v])
  {
    hide Dense, NonEmpty, PageAgrees, Occupied, Aligned, WellFormed, Agrees;
    var base, off := PageBase(a), a % PAGE_SIZE;
    PageBaseAligned(a);
    NotYet(pages, fill, cells, base, i);
    FreshPageShape(base, fill, cells);
    var p := FreshPage(base, fill);
    SetInSound(p, fill, off, v);
    SetInAgrees(p, cells, off, v);
    InsertPage(pages, fill, cells, i, SetIn(p, off, v), a, v);
  }

  lemma {:induction false} PageBaseAligned(a: nat)
    ensures Aligned(PageBase(a)) && PageBase(a) + a % PAGE_SIZE == a
  {
    var q := a / PAGE_SIZE;
    assert a == PAGE_SIZE * q + a % PAGE_SIZE;
  }

  lemma {:induction false} NotYet<T>(pages: seq<Page<T>>, fill: T, cells: map<nat, T>, base: nat, i: nat)
    requires WellFormed(pages, fill) && Agrees(pages, cells) && i <= |pages|
    requires forall j | 0 <= j < i :: pages[j].base < base
    requires forall j | i <= j < |pages| :: base < pages[j].base
    ensures forall b | b in cells :: PageBase(b) != base
  {}

  lemma {:induction false} InsertPage<T>(pages: seq<Page<T>>, fill: T, cells: map<nat, T>, i: nat, p: Page<T>,
                                         a: nat, v: T)
    requires WellFormed(pages, fill) && Agrees(pages, cells) && i <= |pages|
    requires Sound(p, fill) && p.base == PageBase(a) && PageAgrees(p, cells[a := v])
    requires forall j | 0 <= j < i :: pages[j].base < p.base
    requires forall j | i <= j < |pages| :: p.base < pages[j].base
    ensures var after := pages[..i] + [p] + pages[i..];
            WellFormed(after, fill) && Agrees(after, cells[a := v])
  {
    hide Dense, NonEmpty, PageAgrees, Occupied, Aligned, PageBase, HasPage;
    AlignedBases(pages, fill);
    var after := pages[..i] + [p] + pages[i..];
    forall j | 0 <= j < |after|
      ensures Sound(after[j], fill) && PageAgrees(after[j], cells[a := v])
    {
      if j != i {
        var k := if j < i then j else j - 1;
        assert after[j] == pages[k];
        OtherPageAgrees(pages[k], cells, a, v);
      }
    }
    InsertSorted(pages, i, p);
    forall b | b in cells[a := v]
      ensures HasPage(after, PageBase(b))
    {
      StillThere(pages, p, i, PageBase(b));
    }
  }

  lemma {:induction false} InsertSorted<T>(pages: seq<Page<T>>, i: nat, p: Page<T>)
    requires SortedBases(pages) && i <= |pages|
    requires forall j | 0 <= j < i :: pages[j].base < p.base
    requires forall j | i <= j < |pages| :: p.base < pages[j].base
    ensures SortedBases(pages[..i] + [p] + pages[i..])
  {}

  lemma {:induction false} AlignedBases<T>(pages: seq<Page<T>>, fill: T)
    requires WellFormed(pages, fill)
    ensures forall j | 0 <= j < |pages| :: Aligned(pages[j].base)
  {
    forall j | 0 <= j < |pages|
      ensures Aligned(pages[j].base)
    {
      assert Sound(pages[j], fill);
    }
  }

  lemma {:induction false} StillThere<T>(pages: seq<Page<T>>, p: Page<T>, i: nat, base: nat)
    requires i <= |pages|
    ensures var after := pages[..i] + [p] + pages[i..];
            HasPage(pages, base) || p.base == base ==> HasPage(after, base)
  {
    var after := pages[..i] + [p] + pages[i..];
    assert after[i] == p;
    if HasPage(pages, base) {
      var j :| 0 <= j < |pages| && pages[j].base == base;
      var k := if j < i then j else j + 1;
      assert after[k] == pages[j];
    }
  }

  // ---------------------------------------------------------------------
  // Iteration
  // ---------------------------------------------------------------------

  /** Offsets of the set bits from word `w` on. */
  function Offsets(occupied: seq<nat>, w: nat): seq<nat>
    requires w <= |occupied|
    decreases |occupied| - w
  {
    if w == |occupied| then [] else SetBits(occupied[w], w * WORD_BITS) + Offsets(occupied, w + 1)
  }

  lemma {:induction false} OffsetsMember(occupied: seq<nat>, w: nat, x: nat)
    requires w <= |occupied| && SixtyFourBits(occupied)
    ensures x in Offsets(occupied, w)
       <==> w * WORD_BITS <= x < |occupied| * WORD_BITS && BitAt(occupied[x / WORD_BITS], x % WORD_BITS)
    decreases |occupied| - w
  {
    if w < |occupied| {
      OffsetsMember(occupied, w + 1, x);
      SetBitsMember(occupied[w], w * WORD_BITS, x);
      if x >= w * WORD_BITS {
        var k := x - w * WORD_BITS;
        if k < WORD_BITS {
          assert x / WORD_BITS == w && x % WORD_BITS == k;
        } else {
          assert !BitAt(occupied[w], k);
        }
      }
    }
  }

  lemma {:induction false} OffsetsAscending(occupied: seq<nat>, w: nat)
    requires w <= |occupied| && SixtyFourBits(occupied)
    ensures Ascending(Offsets(occupied, w))
    decreases |occupied| - w
  {
    if w < |occupied| {
      var head, rest := SetBits(occupied[w], w * WORD_BITS), Offsets(occupied, w + 1);
      SetBitsAscending(occupied[w], w * WORD_BITS);
      OffsetsAscending(occupied, w + 1);
      forall x, y | x in head && y in rest
        ensures x < y
      {
        SetBitsMember(occupied[w], w * WORD_BITS, x);
        OffsetsMember(occupied, w + 1, y);
        assert BitAt(occupied[w], x - w * WORD_BITS);
      }
      JoinAscending(head, rest);
    }
  }

  lemma {:induction false} JoinAscending(s: seq<nat>, t: seq<nat>)
    requires Ascending(s) && Ascending(t) && forall x, y | x in s && y in t :: x < y
    ensures Ascending(s + t)
  {
    var u := s + t;
    forall i, j | 0 <= i < j < |u|
      ensures u[i] < u[j]
    {
      if i < |s| <= j {
        assert s[i] in s && t[j - |s|] in t;
      }
    }
  }

  datatype Entry<T> = Entry(addr: nat, value: T)

  /** The (address, value) pairs the iterator yields from page `n` on. */
  function Entries<T>(pages: seq<Page<T>>, n: nat): seq<Entry<T>>
    requires n <= |pages| && forall i | 0 <= i < |pages| :: Sized(pages[i]) && SixtyFourBits(pages[i].occupied)
    decreases |pages| - n
  {
    if n == |pages| then []
    else PageEntries(pages[n]) + Entries(pages, n + 1)
  }

  function PageEntries<T>(p: Page<T>): seq<Entry<T>>
    requires Sized(p) && SixtyFourBits(p.occupied)
  {
    var offs := Offsets(p.occupied, 0);
    seq(|offs|, i requires 0 <= i < |offs| =>
      OffsetsMember(p.occupied, 0, offs[i]);
      Entry(p.base + offs[i], p.data[offs[i]]))
  }

  /** The set bits of one word, by the bit iterator. */
  method WordOffsets(bits: nat, off: nat) returns (offs: seq<nat>)
    ensures offs == SetBits(bits, off)
  {
    hide SetBits;
    var it := new BitIter(bits);
    offs := [];
    var b := it.Next();
    ghost var left := bits;
    while b.Some?
      invariant b.Some? ==> SetBits(left, off) == [off + b.value] + SetBits(it.bits, off) && it.bits < left
      invariant b.None? ==> left == 0
      invariant offs + SetBits(left, off) == SetBits(bits, off)
      decreases left
    {
      assert offs + ([off + b.value] + SetBits(it.bits, off)) == (offs + [off + b.value]) + SetBits(it.bits, off);
      offs := offs + [off + b.value];
      left := it.bits;
      b := it.Next();
    }
    NoBits(off);
  }

  lemma {:induction false} NoBits(off: nat)
    ensures SetBits(0, off) == []
  {}

  method IterPages<T>(pages: seq<Page<T>>) returns (entries: seq<Entry<T>>)
    requires forall i | 0 <= i < |pages| :: Sized(pages[i]) && SixtyFourBits(pages[i].occupied)
    ensures entries == Entries(pages, 0)
  {
    hide Entries, PageEntries, SixtyFourBits;
    entries := [];
    for n := 0 to |pages|
      invariant entries + Entries(pages, n) == Entries(pages, 0)
    {
      var page := IterPage(pages[n]);
      EntriesStep(pages, n);
      assert entries + (page + Entries(pages, n + 1)) == (entries + page) + Entries(pages, n + 1);
      entries := entries + page;
    }
    EntriesEnd(pages);
    assert entries + [] == entries;
  }

  /** Word by word, bit by bit. */
  method IterPage<T>(p: Page<T>) returns (entries: seq<Entry<T>>)
    requires Sized(p) && SixtyFourBits(p.occupied)
    ensures entries == PageEntries(p)
  {
    hide Offsets, SixtyFourBits, SetBits, PageEntries;
    var offs: seq<nat> := [];
    for w := 0 to |p.occupied|
      invariant offs + Offsets(p.occupied, w) == Offsets(p.occupied, 0)
    {
      var more := WordOffsets(p.occupied[w], w * WORD_BITS);
      OffsetsStep(p.occupied, w);
      assert offs + (more + Offsets(p.occupied, w + 1)) == (offs + more) + Offsets(p.occupied, w + 1);
      offs := offs + more;
    }
    OffsetsEnd(p.occupied);
    assert offs + [] == offs;
    entries := [];
    PageEntriesAt(p);
    for i := 0 to |offs|
      invariant entries == PageEntries(p)[..i]
    {
      entries := entries + [Entry(p.base + offs[i], p.data[offs[i]])];
    }
  }

  lemma {:induction false} OffsetsStep(occupied: seq<nat>, w: nat)
    requires w < |occupied|
    ensures Offsets(occupied, w) == SetBits(occupied[w], w * WORD_BITS) + Offsets(occupied, w + 1)
  {
    hide SetBits;
  }

  lemma {:induction false} OffsetsEnd(occupied: seq<nat>)
    ensures Offsets(occupied, |occupied|) == []
  {}

  lemma {:induction false} PageEntriesAt<T>(p: Page<T>)
    requires Sized(p) && SixtyFourBits(p.occupied)
    ensures var offs := Offsets(p.occupied, 0);
            && |PageEntries(p)| == |offs|
            && forall i | 0 <= i < |offs| ::
                 offs[i] < |p.data| && PageEntries(p)[i] == Entry(p.base + offs[i], p.data[offs[i]])
  {
    hide Offsets, SixtyFourBits;
    var offs := Offsets(p.occupied, 0);
    forall i | 0 <= i < |offs|
      ensures offs[i] < |p.data|
    {
      OffsetsMember(p.occupied, 0, offs[i]);
    }
  }

  lemma {:induction false} EntriesStep<T>(pages: seq<Page<T>>, n: nat)
    requires n < |pages| && forall i | 0 <= i < |pages| :: Sized(pages[i]) && SixtyFourBits(pages[i].occupied)
    ensures Entries(pages, n) == PageEntries(pages[n]) + Entries(pages, n + 1)
  {
    hide PageEntries, SixtyFourBits;
  }

  lemma {:induction false} EntriesEnd<T>(pages: seq<Page<T>>)
    requires forall i | 0 <= i < |pages| :: Sized(pages[i]) && SixtyFourBits(pages[i].occupied)
    ensures Entries(pages, |pages|) == []
  {}

  function Addresses<T>(entries: seq<Entry<T>>): seq<nat> {
    seq(|entries|, i requires 0 <= i < |entries| => entries[i].addr)
  }

  lemma {:induction false} PageEntriesSpec<T>(p: Page<T>)
    requires Sized(p) && SixtyFourBits(p.occupied)
    ensures Ascending(Addresses(PageEntries(p)))
    ensures forall e | e in PageEntries(p) ::
              && p.base <= e.addr < p.base + PAGE_SIZE
              && Occupied(p, e.addr - p.base) && e.value == p.data[e.addr - p.base]
    ensures forall off: nat | off < PAGE_SIZE && Occupied(p, off) :: p.base + off in Addresses(PageEntries(p))
  {
    hide Offsets, SixtyFourBits, PageEntries, Occupied, Addresses, Ascending;
    PageEntriesAt(p);
    PageAddressesAscend(p);
    var offs, es := Offsets(p.occupied, 0), PageEntries(p);
    forall e | e in es
      ensures p.base <= e.addr < p.base + PAGE_SIZE
      ensures Occupied(p, e.addr - p.base) && e.value == p.data[e.addr - p.base]
    {
      var i :| 0 <= i < |es| && es[i] == e;
      OffsetIsOccupied(p, offs[i]);
    }
    forall off: nat | off < PAGE_SIZE && Occupied(p, off)
      ensures p.base + off in Addresses(es)
    {
      OffsetListed(p, off);
    }
  }

  lemma {:induction false} PageAddressesAscend<T>(p: Page<T>)
    requires Sized(p) && SixtyFourBits(p.occupied)
    ensures Ascending(Addresses(PageEntries(p)))
  {
    hide Offsets, SixtyFourBits, PageEntries;
    OffsetsAscending(p.occupied, 0);
    PageEntriesAt(p);
  }

  lemma {:induction false} OffsetListed<T>(p: Page<T>, off: nat)
    requires Sized(p) && SixtyFourBits(p.occupied) && off < PAGE_SIZE && Occupied(p, off)
    ensures p.base + off in Addresses(PageEntries(p))
  {
    hide Offsets, SixtyFourBits, PageEntries, Occupied;
    OffsetOccupied(p, off);
    PageEntriesAt(p);
    var offs := Offsets(p.occupied, 0);
    var i :| 0 <= i < |offs| && offs[i] == off;
    assert Addresses(PageEntries(p))[i] == p.base + off;
  }

  lemma {:induction false} OffsetIsOccupied<T>(p: Page<T>, off: nat)
    requires Sized(p) && SixtyFourBits(p.occupied) && off in Offsets(p.occupied, 0)
    ensures off < PAGE_SIZE && Occupied(p, off)
  {
    hide Offsets, SixtyFourBits;
    OffsetsMember(p.occupied, 0, off);
  }

  lemma {:induction false} OffsetOccupied<T>(p: Page<T>, off: nat)
    requires Sized(p) && SixtyFourBits(p.occupied) && off < PAGE_SIZE && Occupied(p, off)
    ensures off in Offsets(p.occupied, 0)
  {
    hide Offsets, SixtyFourBits;
    OffsetsMember(p.occupied, 0, off);
  }

  /** Every page before the end is well formed for iteration. */
  lemma {:induction false} PagesIterable<T>(pages: seq<Page<T>>, fill: T)
    requires WellFormed(pages, fill)
    ensures forall i | 0 <= i < |pages| :: Sized(pages[i]) && SixtyFourBits(pages[i].occupied)
  {
    forall i | 0 <= i < |pages|
      ensures Sized(pages[i]) && SixtyFourBits(pages[i].occupied)
    {
      assert Sound(pages[i], fill);
    }
  }

  /** Iteration from page `n` on yields the set cells of those pages, once each, in ascending order. */
  lemma {:induction false} EntriesSpec<T>(pages: seq<Page<T>>, fill: T, cells: map<nat, T>, n: nat)
    requires WellFormed(pages, fill) && Agrees(pages, cells) && n <= |pages|
    requires forall i | 0 <= i < |pages| :: Sized(pages[i]) && SixtyFourBits(pages[i].occupied)
    ensures Ascending(Addresses(Entries(pages, n)))
    ensures forall e | e in Entries(pages, n) :: e.addr in cells && e.value == cells[e.addr]
                                                && n < |pages| && pages[n].base <= e.addr
    ensures forall i, off: nat | n <= i < |pages| && off < PAGE_SIZE && Occupied(pages[i], off) ::
              pages[i].base + off in Addresses(Entries(pages, n))
    decreases |pages| - n
  {
    hide Occupied, SixtyFourBits, Dense, NonEmpty, PageEntries, SortedBases, HasPage;
    if n < |pages| {
      EntriesSpec(pages, fill, cells, n + 1);
      PageEntriesSpec(pages[n]);
      PageGap(pages, fill, n);
      var head, rest := PageEntries(pages[n]), Entries(pages, n + 1);
      assert PageAgrees(pages[n], cells);
      forall x, y | x in Addresses(head) && y in Addresses(rest)
        ensures x < y
      {
        var i :| 0 <= i < |head| && head[i].addr == x;
        assert head[i] in head;
        var j :| 0 <= j < |rest| && rest[j].addr == y;
        assert rest[j] in rest;
      }
      JoinAscending(Addresses(head), Addresses(rest));
      assert Addresses(head + rest) == Addresses(head) + Addresses(rest);
    }
  }

  lemma {:induction false} PageGap<T>(pages: seq<Page<T>>, fill: T, n: nat)
    requires WellFormed(pages, fill) && n < |pages|
    ensures n + 1 < |pages| ==> pages[n].base + PAGE_SIZE <= pages[n + 1].base
  {
    AlignedBases(pages, fill);
    if n + 1 < |pages| {
      var b, c := pages[n].base, pages[n + 1].base;
      assert b == PAGE_SIZE * (b / PAGE_SIZE) && c == PAGE_SIZE * (c / PAGE_SIZE);
    }
  }

  function WordsCount(occupied: seq<nat>, w: nat): nat
    requires w <= |occupied|
    decreases |occupied| - w
  {
    if w == |occupied| then 0 else Popcount(occupied[w]) + WordsCount(occupied, w + 1)
  }

  lemma {:induction false} OffsetsCount(occupied: seq<nat>, w: nat)
    requires w <= |occupied|
    ensures |Offsets(occupied, w)| == WordsCount(occupied, w)
    decreases |occupied| - w
  {
    if w < |occupied| {
      OffsetsCount(occupied, w + 1);
      SetBitsCount(occupied[w], w * WORD_BITS);
    }
  }

  /** The sum of the population counts. */
  function Len<T>(pages: seq<Page<T>>, n: nat): nat
    requires n <= |pages|
    decreases |pages| - n
  {
    if n == |pages| then 0 else WordsCount(pages[n].occupied, 0) + Len(pages, n + 1)
  }

  lemma {:induction false} LenIsEntries<T>(pages: seq<Page<T>>, n: nat)
    requires n <= |pages| && forall i | 0 <= i < |pages| :: Sized(pages[i]) && SixtyFourBits(pages[i].occupied)
    ensures |Entries(pages, n)| == Len(pages, n)
    decreases |pages| - n
  {
    hide SixtyFourBits, Offsets, WordsCount;
    if n < |pages| {
      LenIsEntries(pages, n + 1);
      OffsetsCount(pages[n].occupied, 0);
    }
  }

  lemma {:induction false} AscendingCount(s: seq<nat>, keys: set<nat>)
    requires Ascending(s) && forall a :: a in s <==> a in keys
    ensures |s| == |keys|
    decreases |s|
  {
    if s == [] {
      assert keys == {};
    } else {
      var last := s[|s| - 1];
      var t := s[..|s| - 1];
      assert s == t + [last];
      assert last !in t;
      AscendingCount(t, keys - {last});
      assert last in keys;
    }
  }

  // ---------------------------------------------------------------------
  // The store
  // ---------------------------------------------------------------------

  class PagedMem<T(==)> {
    var pages: seq<Page<T>>
    const fill: T
    /** The cells explicitly set, with their current values. */
    ghost var cells: map<nat, T>

    ghost predicate Valid()
      reads this
    {
      WellFormed(pages, fill) && Agrees(pages, cells)
    }

    constructor (fill: T)
      ensures Valid() && cells == map[] && this.fill == fill
    {
      this.fill := fill;
      pages := [];
      cells := map[];
    }

    method Get(a: nat) returns (v: T)
      requires Valid()
      ensures v == Lookup(cells, fill, a)
    {
      hide WellFormed, Agrees;
      SearchablePages(pages, fill);
      var (base, off) := Split(a);
      var pos := BinarySearch(pages, base);
      match pos {
        case Found(i) =>
          PageLookup(pages, fill, cells, i, a);
          v := pages[i].data[off];
        case Missing(i) =>
          NotYet(pages, fill, cells, base, i);
          v := fill;
      }
    }

    method Set(a: nat, v: T)
      requires Valid()
      modifies this
      ensures Valid() && cells == old(cells)[a := v]
    {
      hide WellFormed, Agrees;
      SearchablePages(pages, fill);
      var (base, off) := Split(a);
      var pos := BinarySearch(pages, base);
      match pos {
        case Found(i) => SetExisting(pages, fill, cells, i, a, v);
        case Missing(i) => SetMissing(pages, fill, cells, i, a, v);
      }
      var i := pos.i;
      if pos.Missing? {
        pages := pages[..i] + [FreshPage(base, fill)] + pages[i..];
      }
      pages := pages[i := SetIn(pages[i], off, v)];
      assert pages == SetPages(old(pages), fill, pos, a, v);
      cells := cells[a := v];
    }

    /** The bases of the pages with at least one set cell, ascending. */
    method PageBases() returns (bases: seq<nat>)
      requires Valid()
      ensures Ascending(bases)
      ensures forall b: nat :: b in bases <==> exists a :: a in cells && PageBase(a) == b
    {
      hide WellFormed, Agrees;
      SearchablePages(pages, fill);
      bases := Bases(pages);
      BasesMember(pages, 0);
      forall b: nat
        ensures b in bases <==> exists a :: a in cells && PageBase(a) == b
      {
        BasesOfCells(pages, fill, cells, b);
        BasesMember(pages, b);
      }
    }

    /** The dense data of an aligned page, or None when it has no set cell. */
    method PageData(base: nat) returns (r: Option<seq<T>>)
      requires Valid() && Aligned(base)
      ensures r.Some? <==> exists a :: a in cells && PageBase(a) == base
      ensures r.Some? ==> |r.value| == PAGE_SIZE
                          && forall off: nat | off < PAGE_SIZE :: r.value[off] == Lookup(cells, fill, base + off)
    {
      hide WellFormed, Agrees;
      BasesOfCells(pages, fill, cells, base);
      SearchablePages(pages, fill);
      var pos := BinarySearch(pages, base);
      match pos {
        case Found(i) =>
          WholePage(pages, fill, cells, i);
          r := Some(pages[i].data);
        case Missing(i) =>
          r := None;
      }
    }

    /** Exactly the set cells, once each, in ascending order, with their current values. */
    method Iter() returns (entries: seq<Entry<T>>)
      requires Valid()
      ensures Ascending(Addresses(entries))
      ensures forall a :: a in Addresses(entries) <==> a in cells
      ensures forall e | e in entries :: e.addr in cells && e.value == cells[e.addr]
    {
      PagesIterable(pages, fill);
      EntriesComplete(pages, fill, cells);
      hide WellFormed, Agrees, Entries;
      entries := IterPages(pages);
    }

    /** True exactly when no cell was ever set. */
    method IsEmpty() returns (r: bool)
      requires Valid()
      ensures r <==> cells == map[]
    {
      r := forall i | 0 <= i < |pages| :: AllZero(pages[i].occupied);
      hide Agrees, AllZero;
      if pages == [] {
        NoPagesNoCells(cells);
      } else {
        assert Sound(pages[0], fill);
        ZeroWordsEmpty(pages[0], fill);
        BasesOfCells(pages, fill, cells, pages[0].base);
        assert HasPage(pages, pages[0].base);
      }
    }

    /** The number of set cells. */
    method Length() returns (n: nat)
      requires Valid()
      ensures n == |cells|
    {
      PagesIterable(pages, fill);
      n := Len(pages, 0);
      EntriesComplete(pages, fill, cells);
      LenIsEntries(pages, 0);
      AscendingCount(Addresses(Entries(pages, 0)), cells.Keys);
      assert |cells| == |cells.Keys|;
    }
  }

  lemma {:induction false} NoPagesNoCells<T>(cells: map<nat, T>)
    requires Agrees<T>([], cells)
    ensures cells == map[]
  {
    forall a: nat
      ensures a !in cells
    {
      assert !HasPage<T>([], PageBase(a));
    }
  }

  predicate AllZero(words: seq<nat>) {
    forall i | 0 <= i < |words| :: words[i] == 0
  }

  lemma {:induction false} ZeroWordsEmpty<T>(p: Page<T>, fill: T)
    requires Sound(p, fill)
    ensures !AllZero(p.occupied)
  {
    var off: nat :| off < PAGE_SIZE && Occupied(p, off);
    ZeroHasNoBits(off % WORD_BITS);
    assert p.occupied[off / WORD_BITS] != 0;
  }

  function Bases<T>(pages: seq<Page<T>>): seq<nat> {
    if pages == [] then [] else [pages[0].base] + Bases(pages[1..])
  }

  lemma {:induction false} BasesIndex<T>(pages: seq<Page<T>>)
    ensures |Bases(pages)| == |pages| && forall i | 0 <= i < |pages| :: Bases(pages)[i] == pages[i].base
  {
    if pages != [] {
      BasesIndex(pages[1..]);
    }
  }

  lemma {:induction false} BasesMember<T>(pages: seq<Page<T>>, b: nat)
    requires SortedBases(pages)
    ensures Ascending(Bases(pages)) && (b in Bases(pages) <==> HasPage(pages, b))
  {
    BasesIndex(pages);
    if HasPage(pages, b) {
      var i :| 0 <= i < |pages| && pages[i].base == b;
      assert Bases(pages)[i] == b;
    }
  }

  lemma {:induction false} WholePage<T>(pages: seq<Page<T>>, fill: T, cells: map<nat, T>, i: nat)
    requires WellFormed(pages, fill) && Agrees(pages, cells) && i < |pages|
    ensures Sized(pages[i])
    ensures forall off: nat | off < PAGE_SIZE :: pages[i].data[off] == Lookup(cells, fill, pages[i].base + off)
  {
    hide Occupied, SixtyFourBits, Aligned;
    assert Sound(pages[i], fill) && PageAgrees(pages[i], cells);
    forall off: nat | off < PAGE_SIZE
      ensures pages[i].data[off] == Lookup(cells, fill, pages[i].base + off)
    {
      CellLookup(pages[i], fill, cells, off);
    }
  }

  lemma {:induction false} SearchablePages<T>(pages: seq<Page<T>>, fill: T)
    requires WellFormed(pages, fill)
    ensures SortedBases(pages) && forall i | 0 <= i < |pages| :: Sized(pages[i])
  {
    PagesIterable(pages, fill);
  }

  lemma {:induction false} PageLookup<T>(pages: seq<Page<T>>, fill: T, cells: map<nat, T>, i: nat, a: nat)
    requires WellFormed(pages, fill) && Agrees(pages, cells) && i < |pages| && pages[i].base == PageBase(a)
    ensures Sized(pages[i]) && pages[i].data[a % PAGE_SIZE] == Lookup(cells, fill, a)
  {
    hide Occupied, SixtyFourBits, Aligned, NonEmpty, SortedBases, HasPage;
    assert Sound(pages[i], fill) && PageAgrees(pages[i], cells);
    PageBaseAligned(a);
    CellLookup(pages[i], fill, cells, a % PAGE_SIZE);
  }

  lemma {:induction false} CellLookup<T>(p: Page<T>, fill: T, cells: map<nat, T>, off: nat)
    requires Dense(p, fill) && PageAgrees(p, cells) && off < PAGE_SIZE
    ensures p.data[off] == Lookup(cells, fill, p.base + off)
  {
    hide Occupied, SixtyFourBits, Aligned;
  }

  /** A page exists exactly for the bases of set cells. */
  lemma {:induction false} BasesOfCells<T>(pages: seq<Page<T>>, fill: T, cells: map<nat, T>, b: nat)
    requires WellFormed(pages, fill) && Agrees(pages, cells)
    ensures HasPage(pages, b) <==> exists a :: a in cells && PageBase(a) == b
  {
    hide Occupied, SixtyFourBits, Aligned, PageBase, Dense, PageAgrees;
    if HasPage(pages, b) {
      var i :| 0 <= i < |pages| && pages[i].base == b;
      assert Sound(pages[i], fill) && PageAgrees(pages[i], cells);
      var a := SomeCell(pages[i], fill, cells);
    }
  }

  lemma {:induction false} SomeCell<T>(p: Page<T>, fill: T, cells: map<nat, T>) returns (a: nat)
    requires Sound(p, fill) && PageAgrees(p, cells)
    ensures a in cells && PageBase(a) == p.base
  {
    hide SixtyFourBits;
    var off: nat :| off < PAGE_SIZE && Occupied(p, off);
    PageBaseUnique(p.base, off);
    a := p.base + off;
  }

  lemma {:induction false} EntriesComplete<T>(pages: seq<Page<T>>, fill: T, cells: map<nat, T>)
    requires WellFormed(pages, fill) && Agrees(pages, cells)
    requires forall i | 0 <= i < |pages| :: Sized(pages[i]) && SixtyFourBits(pages[i].occupied)
    ensures var es := Entries(pages, 0);
            && Ascending(Addresses(es))
            && (forall a :: a in Addresses(es) <==> a in cells)
            && (forall e | e in es :: e.addr in cells && e.value == cells[e.addr])
  {
    hide Occupied, SixtyFourBits, Dense, NonEmpty, Entries, SortedBases, PageBase;
    var es := Entries(pages, 0);
    EntriesSpec(pages, fill, cells, 0);
    forall a: nat
      ensures a in Addresses(es) <==> a in cells
    {
      if a in cells {
        var i :| 0 <= i < |pages| && pages[i].base == PageBase(a);
        assert PageAgrees(pages[i], cells);
        PageBaseAligned(a);
        assert Occupied(pages[i], a % PAGE_SIZE);
      }
      if a in Addresses(es) {
        var i :| 0 <= i < |es| && es[i].addr == a;
        assert es[i] in es;
      }
    }
  }
}
