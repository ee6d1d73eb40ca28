/** Which pages the ELF's segments touch, by address range and by building the image. */
module ElfImage {
  import opened PagedMemory

  const TWO_64: nat := 0x1_0000_0000_0000_0000

  /** A loadable segment: consecutive 32-bit words from `base`. */
  datatype Segment = Segment(base: nat, words: seq<nat>)

  function SaturatingAdd(a: nat, b: nat): nat {
    if a + b < TWO_64 then a + b else TWO_64 - 1
  }

  /** Some segment's range overlaps the page's range. */
  predicate ElfPageHasData(segments: seq<Segment>, page: nat) {
    var pageEnd := SaturatingAdd(page, PAGE_SIZE);
    exists i :: 0 <= i < |segments|
                && segments[i].base < pageEnd && page < SaturatingAdd(segments[i].base, 4 * |segments[i].words|)
  }

  /** Segments stay inside the address space. */
  predicate InSpace(segments: seq<Segment>) {
    forall i | 0 <= i < |segments| :: segments[i].base + 4 * |segments[i].words| <= TWO_64
  }

  predicate CoveredBy(s: Segment, a: nat) {
    s.base <= a < s.base + 4 * |s.words|
  }

  predicate Covered(segments: seq<Segment>, a: nat) {
    exists i :: 0 <= i < |segments| && CoveredBy(segments[i], a)
  }

  /** Byte `j` of a word, least significant first. */
  function WordByte(w: nat, j: nat): nat
    requires j < 4
  {
    match j
    case 0 => w % 0x100
    case 1 => (w / 0x100) % 0x100
    case 2 => (w / 0x1_0000) % 0x100
    case 3 => (w / 0x100_0000) % 0x100
  }

  /** The four bytes spell the word. */
  lemma {:induction false} WordSpelled(w: nat)
    requires w < 0x1_0000_0000
    ensures WordByte(w, 0) + 0x100 * WordByte(w, 1) + 0x1_0000 * WordByte(w, 2) + 0x100_0000 * WordByte(w, 3) == w
    ensures forall j: nat | j < 4 :: WordByte(w, j) < 0x100
  {
    assert w / 0x1_0000 == w / 0x100 / 0x100 && w / 0x100_0000 == w / 0x100 / 0x100 / 0x100;
  }

  function SegmentByte(s: Segment, a: nat): nat
    requires CoveredBy(s, a)
  {
    WordByte(s.words[(a - s.base) / 4], (a - s.base) % 4)
  }

  /** The byte the last covering segment puts at `a`. */
  function ImageByte(segments: seq<Segment>, a: nat): nat
    requires Covered(segments, a)
  {
    var n := |segments| - 1;
    if CoveredBy(segments[n], a) then SegmentByte(segments[n], a)
    else StillCovered(segments, a); ImageByte(segments[..n], a)
  }

  lemma {:induction false} StillCovered(segments: seq<Segment>, a: nat)
    requires segments != [] && Covered(segments, a) && !CoveredBy(segments[|segments| - 1], a)
    ensures Covered(segments[..|segments| - 1], a)
  {
    var n: int := |segments| - 1;
    var i :| 0 <= i < |segments| && CoveredBy(segments[i], a);
    assert segments[..n][i] == segments[i];
  }

  /** Where segments overlap, the last one in the file decides. */
  lemma {:induction false} LastSegmentWins(segments: seq<Segment>, a: nat, i: nat)
    requires i < |segments| && CoveredBy(segments[i], a) && forall j | i < j < |segments| :: !CoveredBy(segments[j], a)
    ensures Covered(segments, a) && ImageByte(segments, a) == SegmentByte(segments[i], a)
    decreases |segments|
  {
    hide SegmentByte;
    var n := |segments| - 1;
    if i < n {
      StillCovered(segments, a);
      LastSegmentWins(segments[..n], a, i);
    }
  }

  /** `cells` holds exactly the segments' bytes, the last covering segment winning. */
  ghost predicate Holds(cells: map<nat, nat>, segments: seq<Segment>) {
    forall a: nat ::
      && (a in cells <==> Covered(segments, a))
      && (a in cells ==> cells[a] == ImageByte(segments, a))
  }

  /** `cells` is `before` with the first `n` bytes of `s` written over it. */
  ghost predicate Partial(before: map<nat, nat>, s: Segment, n: nat, cells: map<nat, nat>)
    requires n <= 4 * |s.words|
  {
    forall a: nat ::
      && (a in cells <==> a in before || s.base <= a < s.base + n)
      && (a in cells ==> cells[a] == if s.base <= a < s.base + n then SegmentByte(s, a) else before[a])
  }

  lemma {:induction false} PartialStep(before: map<nat, nat>, s: Segment, n: nat, cells: map<nat, nat>)
    requires n < 4 * |s.words| && Partial(before, s, n, cells)
    ensures Partial(before, s, n + 1, cells[s.base + n := SegmentByte(s, s.base + n)])
  {
    hide WordByte;
  }

  lemma {:induction false} SegmentDone(before: map<nat, nat>, segments: seq<Segment>, n: nat, cells: map<nat, nat>)
    requires n < |segments| && Holds(before, segments[..n])
    requires Partial(before, segments[n], 4 * |segments[n].words|, cells)
    ensures Holds(cells, segments[..n + 1])
  {
    hide SegmentByte;
    var all := segments[..n + 1];
    assert all[..n] == segments[..n];
    forall a: nat
      ensures a in cells <==> Covered(all, a)
      ensures a in cells ==> cells[a] == ImageByte(all, a)
    {
      CoveredStep(segments, n, a);
    }
  }

  lemma {:induction false} CoveredStep(segments: seq<Segment>, n: nat, a: nat)
    requires n < |segments|
    ensures Covered(segments[..n + 1], a) <==> Covered(segments[..n], a) || CoveredBy(segments[n], a)
  {
    var all, some := segments[..n + 1], segments[..n];
    if Covered(some, a) {
      var i :| 0 <= i < |some| && CoveredBy(some[i], a);
      assert all[i] == some[i];
    }
    if CoveredBy(segments[n], a) {
      assert all[n] == segments[n];
    }
    if Covered(all, a) && !CoveredBy(segments[n], a) {
      StillCovered(all, a);
      assert all[..n] == some;
    }
  }

  const PRIVATE_INPUT_START: nat := 0xFF00_0000

  /** The input in memory: its length in four little-endian bytes, then the bytes; nothing when it is empty. */
  function InputBytes(input: seq<nat>): seq<nat> {
    if input == [] then []
    else
      var len := |input|;
      [WordByte(len, 0), WordByte(len, 1), WordByte(len, 2), WordByte(len, 3)] + input
  }

  /** A non-empty input is preceded by its length; the bytes themselves follow unchanged. */
  lemma {:induction false} InputSpelled(input: seq<nat>)
    requires 0 < |input| < 0x1_0000_0000
    ensures var b := InputBytes(input);
            && |b| == 4 + |input| && b[4..] == input
            && b[0] + 0x100 * b[1] + 0x1_0000 * b[2] + 0x100_0000 * b[3] == |input|
  {
    hide WordByte;
    WordSpelled(|input|);
  }

  predicate InInput(bytes: seq<nat>, a: nat) {
    PRIVATE_INPUT_START <= a < PRIVATE_INPUT_START + |bytes|
  }

  /** The segments' bytes with `bytes` written over them from the input's start. */
  ghost predicate Overlaid(cells: map<nat, nat>, segments: seq<Segment>, bytes: seq<nat>) {
    && (forall a: nat :: a in cells <==> Covered(segments, a) || InInput(bytes, a))
    && (forall a | a in cells ::
          cells[a] == if InInput(bytes, a) then bytes[a - PRIVATE_INPUT_START] else ImageByte(segments, a))
  }

  lemma {:induction false} OverlaidNothing(cells: map<nat, nat>, segments: seq<Segment>)
    requires Holds(cells, segments)
    ensures Overlaid(cells, segments, [])
  {
    hide ImageByte;
  }

  lemma {:induction false} OverlaidOne(cells: map<nat, nat>, segments: seq<Segment>, bytes: seq<nat>, b: nat)
    requires Overlaid(cells, segments, bytes)
    ensures Overlaid(cells[PRIVATE_INPUT_START + |bytes| := b], segments, bytes + [b])
  {
    hide ImageByte, Covered;
  }

  /** The initial image: every byte of every segment, in order, then the private input over them. */
  method BuildInitialImage(segments: seq<Segment>, input: seq<nat>) returns (image: PagedMem<nat>)
    requires InSpace(segments)
    ensures fresh(image) && image.Valid() && image.fill == 0
    ensures Overlaid(image.cells, segments, InputBytes(input))
  {
    image := new PagedMem<nat>(0);
    assert segments[..0] == [];
    for n := 0 to |segments|
      invariant fresh(image) && image.Valid() && image.fill == 0
      invariant Holds(image.cells, segments[..n])
    {
      ghost var before := image.cells;
      WriteSegment(image, segments[n]);
      SegmentDone(before, segments, n, image.cells);
    }
    assert segments[..|segments|] == segments;
    OverlaidNothing(image.cells, segments);
    WriteInput(image, segments, input);
  }

  method WriteInput(image: PagedMem<nat>, ghost segments: seq<Segment>, input: seq<nat>)
    requires image.Valid() && Overlaid(image.cells, segments, [])
    modifies image
    ensures image.Valid() && Overlaid(image.cells, segments, InputBytes(input))
  {
    hide Overlaid;
    if input != [] {
      var bytes := InputBytes(input);
      for i := 0 to |bytes|
        invariant image.Valid() && Overlaid(image.cells, segments, bytes[..i])
      {
        OverlaidOne(image.cells, segments, bytes[..i], bytes[i]);
        assert bytes[..i] + [bytes[i]] == bytes[..i + 1];
        image.Set(PRIVATE_INPUT_START + i, bytes[i]);
      }
      assert bytes[..|bytes|] == bytes;
    }
  }

  method WriteSegment(image: PagedMem<nat>, s: Segment)
    requires image.Valid() && s.base + 4 * |s.words| <= TWO_64
    modifies image
    ensures image.Valid() && Partial(old(image.cells), s, 4 * |s.words|, image.cells)
  {
    hide WordByte, Partial;
    NothingWritten(image.cells, s);
    for i := 0 to |s.words|
      invariant image.Valid() && Partial(old(image.cells), s, 4 * i, image.cells)
    {
      var wordAddr := (s.base + i * 4) % TWO_64;
      for j := 0 to 4
        invariant image.Valid() && Partial(old(image.cells), s, 4 * i + j, image.cells)
      {
        var byteAddr := (wordAddr + j) % TWO_64;
        PartialStep(old(image.cells), s, 4 * i + j, image.cells);
        ByteOfWord(s.base, i, j);
        image.Set(byteAddr, WordByte(s.words[i], j));
      }
    }
  }

  lemma {:induction false} ByteOfWord(base: nat, i: nat, j: nat)
    requires j < 4 && base + 4 * i + j < TWO_64
    ensures (4 * i + j) / 4 == i && (4 * i + j) % 4 == j
    ensures ((base + i * 4) % TWO_64 + j) % TWO_64 == base + (4 * i + j)
  {}

  lemma {:induction false} NothingWritten(cells: map<nat, nat>, s: Segment)
    ensures Partial(cells, s, 0, cells)
  {}

  /** An empty segment strictly inside the page. */
  predicate EmptyInside(segments: seq<Segment>, page: nat) {
    exists i :: 0 <= i < |segments| && segments[i].words == [] && page < segments[i].base < page + PAGE_SIZE
  }

  /** The range test answers yes exactly for pages with a segment byte, or with an empty segment inside. */
  lemma {:induction false} HasDataIff(segments: seq<Segment>, page: nat)
    requires InSpace(segments) && Aligned(page) && page < TWO_64
    requires forall i | 0 <= i < |segments| :: segments[i].base < TWO_64 - 1
    ensures ElfPageHasData(segments, page)
       <==> (exists a :: Covered(segments, a) && PageBase(a) == page) || EmptyInside(segments, page)
  {
    PageFits(page);
    if ElfPageHasData(segments, page) {
      var i :| 0 <= i < |segments| && segments[i].base < SaturatingAdd(page, PAGE_SIZE)
               && page < SaturatingAdd(segments[i].base, 4 * |segments[i].words|);
      var s := segments[i];
      if s.words != [] {
        var a := if s.base <= page then page else s.base;
        assert CoveredBy(s, a);
        PageBaseUnique(page, a - page);
      }
    }
    if exists a :: Covered(segments, a) && PageBase(a) == page {
      var a :| Covered(segments, a) && PageBase(a) == page;
      var i :| 0 <= i < |segments| && CoveredBy(segments[i], a);
      PageBaseAligned(a);
      assert segments[i].base < SaturatingAdd(page, PAGE_SIZE);
    }
  }

  lemma {:induction false} PageFits(page: nat)
    requires Aligned(page) && page < TWO_64
    ensures page + PAGE_SIZE <= TWO_64
  {
    var q := page / PAGE_SIZE;
    assert page == PAGE_SIZE * q;
  }

  /** What loading guarantees: no segment is empty. */
  predicate Loaded(segments: seq<Segment>) {
    InSpace(segments) && forall i | 0 <= i < |segments| :: segments[i].words != []
  }

  ghost predicate OnPage(bytes: seq<nat>, page: nat) {
    exists a :: InInput(bytes, a) && PageBase(a) == page
  }

  /** For a loaded ELF the classification by range gives the built image's pages, apart from those of the input. */
  lemma {:induction false} ClassificationMatchesImage(segments: seq<Segment>, bytes: seq<nat>, cells: map<nat, nat>,
                                                      page: nat)
    requires Loaded(segments) && Overlaid(cells, segments, bytes) && Aligned(page) && page < TWO_64
    ensures (exists a :: a in cells && PageBase(a) == page)
       <==> ElfPageHasData(segments, page) || OnPage(bytes, page)
  {
    hide ImageByte, ElfPageHasData;
    assert !EmptyInside(segments, page);
    HasDataIff(segments, page);
    if exists a :: a in cells && PageBase(a) == page {
      var a :| a in cells && PageBase(a) == page;
      assert Covered(segments, a) || InInput(bytes, a);
    }
    if OnPage(bytes, page) {
      var a :| InInput(bytes, a) && PageBase(a) == page;
      assert a in cells;
    }
    if a :| Covered(segments, a) && PageBase(a) == page {
      assert a in cells;
    }
  }

  /** An empty segment makes the two disagree. */
  lemma {:induction false} EmptySegmentDisagrees()
    ensures var segments := [Segment(4, [])];
            ElfPageHasData(segments, 0) && forall a: nat :: !Covered(segments, a)
  {
    var segments := [Segment(4, [])];
    assert segments[0].base < SaturatingAdd(0, PAGE_SIZE);
  }
}
