/** The program identity preimage: a sorted, count-prefixed fold of the page commitments. */
module ProgramId {
  import opened Outcomes
  import opened Limbs
  import opened Statement

  const COMMITMENT_BYTES: nat := 32

  datatype Page = Page(base: nat, commitment: seq<int>)

  datatype Identity = Identity(digest: seq<int>, pcStart: nat, decode: seq<int>, pages: seq<Page>)

  function ProgramIdTag(): seq<int> { Ascii("LAMBDAVM_PROGRAM_ID_V1") }

  predicate ValidPages(pages: seq<Page>) {
    forall i | 0 <= i < |pages| :: pages[i].base < I64 && |pages[i].commitment| == COMMITMENT_BYTES
  }

  predicate ValidIdentity(id: Identity) {
    && |id.digest| == DIGEST_BYTES && id.pcStart < I64 && |id.decode| == COMMITMENT_BYTES
    && |id.pages| < I64 && ValidPages(id.pages)
  }

  /** Stable sort by base. */
  function Insert(p: Page, s: seq<Page>): (r: seq<Page>)
    ensures multiset(r) == multiset(s) + multiset{p}
  {
    if s == [] || p.base <= s[0].base then [p] + s
    else
      assert s == [s[0]] + s[1..];
      [s[0]] + Insert(p, s[1..])
  }

  function SortByBase(s: seq<Page>): (r: seq<Page>)
    ensures multiset(r) == multiset(s)
  {
    if s == [] then []
    else
      assert s == [s[0]] + s[1..];
      Insert(s[0], SortByBase(s[1..]))
  }

  function EncodePages(pages: seq<Page>): seq<int> {
    if pages == [] then [] else U64Bytes(pages[0].base) + pages[0].commitment + EncodePages(pages[1..])
  }

  function Preimage(id: Identity): seq<int> {
    Concat([ProgramIdTag(), id.digest, U64Bytes(id.pcStart), id.decode, U64Bytes(|id.pages|),
            EncodePages(SortByBase(id.pages))])
  }

  method AppendPages(h: Transcript, pages: seq<Page>)
    modifies h
    ensures h.bytes == old(h.bytes) + EncodePages(pages)
  {
    assert pages[..0] == [];
    for i := 0 to |pages|
      invariant h.bytes == old(h.bytes) + EncodePages(pages[..i])
    {
      h.AppendBytes(U64Bytes(pages[i].base));
      h.AppendBytes(pages[i].commitment);
      EncodePagesLast(pages[..i], pages[i]);
      assert pages[..i] + [pages[i]] == pages[..i + 1];
    }
    assert pages[..|pages|] == pages;
  }

  /** Feeds the hasher, here a transcript, in the source's order. */
  method FeedProgramId(h: Transcript, id: Identity)
    requires h.bytes == []
    modifies h
    ensures h.bytes == Preimage(id)
  {
    hide Concat, SortByBase, EncodePages, U64Bytes, ProgramIdTag;
    var pages := SortByBase(id.pages);
    SortKeepsLength(id.pages);
    h.AppendBytes(ProgramIdTag());
    ConcatOne(ProgramIdTag());
    ghost var done := [ProgramIdTag()];
    h.AppendChunk(id.digest, [], done);
    done := done + [id.digest];
    h.AppendChunk(U64Bytes(id.pcStart), [], done);
    done := done + [U64Bytes(id.pcStart)];
    h.AppendChunk(id.decode, [], done);
    done := done + [id.decode];
    h.AppendChunk(U64Bytes(|pages|), [], done);
    done := done + [U64Bytes(|pages|)];
    AppendPages(h, pages);
    ChunkAdded([], done, EncodePages(pages));
    assert done + [EncodePages(pages)] == [ProgramIdTag(), id.digest, U64Bytes(id.pcStart), id.decode,
                                           U64Bytes(|id.pages|), EncodePages(pages)];
  }

  lemma {:induction false} SortKeepsLength(s: seq<Page>)
    ensures |SortByBase(s)| == |s|
  {
    assert |multiset(SortByBase(s))| == |multiset(s)|;
  }

  lemma {:induction false} EncodePagesLast(s: seq<Page>, p: Page)
    ensures EncodePages(s + [p]) == EncodePages(s) + U64Bytes(p.base) + p.commitment
  {
    if s == [] {
      assert s + [p] == [p] && [p][1..] == [];
    } else {
      hide U64Bytes;
      EncodePagesLast(s[1..], p);
      assert (s + [p])[1..] == s[1..] + [p];
      var a, b, c := U64Bytes(s[0].base) + s[0].commitment, EncodePages(s[1..]), U64Bytes(p.base) + p.commitment;
      assert a + (b + c) == (a + b) + c;
    }
  }

  // ---------------------------------------------------------------------
  // What the preimage determines
  // ---------------------------------------------------------------------

  function TakePages(b: seq<int>, n: nat): Option<seq<Page>> {
    if n == 0 then Some([])
    else
      var (base, b1) :- TakeU64(b);
      var (commitment, b2) :- TakeBytes(b1, COMMITMENT_BYTES);
      var rest :- TakePages(b2, n - 1);
      Some([Page(base, commitment)] + rest)
  }

  lemma {:induction false} TakePagesBack(pages: seq<Page>)
    requires ValidPages(pages)
    ensures TakePages(EncodePages(pages), |pages|) == Some(pages)
  {
    if pages != [] {
      hide TakeU64, TakeBytes, U64Bytes;
      var p, rest := pages[0], EncodePages(pages[1..]);
      Associate(U64Bytes(p.base), p.commitment, rest);
      TakeU64Back(p.base, p.commitment + rest);
      TakeBytesBack(p.commitment, rest);
      TakePagesBack(pages[1..]);
      assert pages == [p] + pages[1..];
    }
  }

  /** Recovers the identity, with its pages in sorted order. */
  function DecodePreimage(b: seq<int>): Option<Identity> {
    var (tag, b0) :- TakeBytes(b, |ProgramIdTag()|);
    var (digest, b1) :- TakeBytes(b0, DIGEST_BYTES);
    var (pc, b2) :- TakeU64(b1);
    var (decode, b3) :- TakeBytes(b2, COMMITMENT_BYTES);
    var (n, b4) :- TakeU64(b3);
    var pages :- TakePages(b4, n);
    Some(Identity(digest, pc, decode, pages))
  }

  lemma {:induction false} SortKeepsValid(s: seq<Page>)
    requires ValidPages(s)
    ensures ValidPages(SortByBase(s))
  {
    var r := SortByBase(s);
    forall i | 0 <= i < |r|
      ensures r[i].base < I64 && |r[i].commitment| == COMMITMENT_BYTES
    {
      assert r[i] in multiset(r);
      assert r[i] in multiset(s);
    }
  }

  lemma {:induction false} DecodePreimageBack(id: Identity)
    requires ValidIdentity(id)
    ensures DecodePreimage(Preimage(id)) == Some(id.(pages := SortByBase(id.pages)))
  {
    hide Concat, TakeU64, TakeBytes, U64Bytes, TakePages, EncodePages, ProgramIdTag, SortByBase;
    var pages := SortByBase(id.pages);
    SortKeepsLength(id.pages);
    SortKeepsValid(id.pages);
    var cs := [ProgramIdTag(), id.digest, U64Bytes(id.pcStart), id.decode, U64Bytes(|id.pages|), EncodePages(pages)];
    assert cs == [cs[0]] + cs[1..] && cs[1..] == [cs[1]] + cs[2..] && cs[2..] == [cs[2]] + cs[3..];
    assert cs[3..] == [cs[3]] + cs[4..] && cs[4..] == [cs[4]] + cs[5..] && cs[5..] == [cs[5]];
    ConcatOne(cs[5]);
    Peel(cs[0], cs[1..]);
    Peel(cs[1], cs[2..]);
    Peel(cs[2], cs[3..]);
    Peel(cs[3], cs[4..]);
    Peel(cs[4], cs[5..]);
    TakeBytesBack(ProgramIdTag(), Concat(cs[1..]));
    TakeBytesBack(id.digest, Concat(cs[2..]));
    TakeU64Back(id.pcStart, Concat(cs[3..]));
    TakeBytesBack(id.decode, Concat(cs[4..]));
    TakeU64Back(|id.pages|, Concat(cs[5..]));
    TakePagesBack(pages);
  }

  lemma {:induction false} Peel(c: seq<int>, cs: seq<seq<int>>)
    ensures Concat([c] + cs) == c + Concat(cs)
  {
    assert ([c] + cs)[1..] == cs;
  }

  /** Equal preimages bind equal digests, entry points, decode commitments and page multisets. */
  lemma {:induction false} PreimageDetermines(id: Identity, other: Identity)
    requires ValidIdentity(id) && ValidIdentity(other) && Preimage(id) == Preimage(other)
    ensures id.digest == other.digest && id.pcStart == other.pcStart && id.decode == other.decode
    ensures multiset(id.pages) == multiset(other.pages)
  {
    hide Preimage, DecodePreimage, ValidIdentity;
    DecodePreimageBack(id);
    DecodePreimageBack(other);
    assert multiset(SortByBase(id.pages)) == multiset(id.pages);
    assert multiset(SortByBase(other.pages)) == multiset(other.pages);
  }

  predicate SortedBases(pages: seq<Page>) {
    forall i, j | 0 <= i < j < |pages| :: pages[i].base <= pages[j].base
  }

  lemma {:induction false} InsertSorts(p: Page, s: seq<Page>)
    requires SortedBases(s)
    ensures SortedBases(Insert(p, s))
  {
    if s != [] && p.base > s[0].base {
      var t := Insert(p, s[1..]);
      InsertSorts(p, s[1..]);
      forall i | 0 <= i < |t|
        ensures s[0].base <= t[i].base
      {
        InsertMembers(p, s[1..], t[i]);
      }
    }
  }

  lemma {:induction false} InsertMembers(p: Page, s: seq<Page>, x: Page)
    requires x in Insert(p, s)
    ensures x == p || x in s
  {
    if s != [] && p.base > s[0].base && x != s[0] {
      InsertMembers(p, s[1..], x);
    }
  }

  lemma {:induction false} SortSorts(s: seq<Page>)
    ensures SortedBases(SortByBase(s))
  {
    if s != [] {
      SortSorts(s[1..]);
      InsertSorts(s[0], SortByBase(s[1..]));
    }
  }

  /** No two different pages of the multiset share a base. */
  ghost predicate OnePerBase(m: multiset<Page>) {
    forall p, q | p in m && q in m && p.base == q.base :: p == q
  }

  lemma {:induction false} SameHead(s: seq<Page>, t: seq<Page>)
    requires SortedBases(s) && SortedBases(t) && multiset(s) == multiset(t) && OnePerBase(multiset(s))
    requires s != [] && t != []
    ensures s[0] == t[0]
  {
    assert s[0] in multiset(s) && t[0] in multiset(t);
    assert s[0] in t && t[0] in s;
  }

  lemma {:induction false} DropHead(s: seq<Page>)
    requires s != []
    ensures multiset(s[1..]) == multiset(s) - multiset{s[0]}
  {
    assert s == [s[0]] + s[1..];
  }

  ghost predicate Matching(s: seq<Page>, t: seq<Page>) {
    SortedBases(s) && SortedBases(t) && multiset(s) == multiset(t) && OnePerBase(multiset(s)) && |s| == |t|
  }

  lemma {:induction false} TailsMatch(s: seq<Page>, t: seq<Page>)
    requires Matching(s, t) && s != []
    ensures s[0] == t[0] && Matching(s[1..], t[1..])
  {
    SameHead(s, t);
    DropHead(s);
    DropHead(t);
  }

  lemma {:induction false} SortedUnique(s: seq<Page>, t: seq<Page>)
    requires Matching(s, t) && |s| == |t|
    ensures s == t
  {
    hide Matching;
    if s != [] {
      TailsMatch(s, t);
      SortedUnique(s[1..], t[1..]);
      assert s == [s[0]] + s[1..] && t == [t[0]] + t[1..];
    }
  }

  /** The same program, its pages supplied in some order. */
  ghost predicate SamePages(id: Identity, other: Identity) {
    && id.digest == other.digest && id.pcStart == other.pcStart && id.decode == other.decode
    && multiset(id.pages) == multiset(other.pages)
  }

  /** When no two different pages share a base, the supplied order does not matter. */
  lemma {:induction false} PreimageInvariant(id: Identity, other: Identity)
    requires SamePages(id, other) && OnePerBase(multiset(id.pages))
    ensures Preimage(id) == Preimage(other)
  {
    hide SortByBase, OnePerBase, SortedBases;
    SortSorts(id.pages);
    SortSorts(other.pages);
    SortKeepsLength(id.pages);
    SortKeepsLength(other.pages);
    assert |id.pages| == |multiset(id.pages)| == |multiset(other.pages)| == |other.pages|;
    SortedUnique(SortByBase(id.pages), SortByBase(other.pages));
  }

  lemma {:induction false} SortFixesSorted(s: seq<Page>)
    requires SortedBases(s)
    ensures SortByBase(s) == s
  {
    if s != [] {
      SortFixesSorted(s[1..]);
      assert s == [s[0]] + s[1..];
    }
  }

  function Swapped(s: seq<Page>, i: nat, j: nat): seq<Page>
    requires i < j < |s|
  {
    s[i := s[j]][j := s[i]]
  }

  /** Exchanging two different pages of one base leaves a different list of the same pages, still sorted. */
  lemma {:induction false} SwappedFacts(s: seq<Page>, i: nat, j: nat)
    requires i < j < |s| && s[i].base == s[j].base && s[i] != s[j] && SortedBases(s)
    ensures var t := Swapped(s, i, j);
            t != s && multiset(t) == multiset(s) && SortedBases(t) && (ValidPages(s) ==> ValidPages(t))
  {
    var t := Swapped(s, i, j);
    assert t[i] == s[j];
    forall k | 0 <= k < |s|
      ensures t[k].base == s[k].base
    {}
  }

  lemma {:induction false} SortedListsDiffer(id: Identity, other: Identity)
    requires ValidIdentity(id) && ValidIdentity(other) && SortByBase(id.pages) != SortByBase(other.pages)
    ensures Preimage(id) != Preimage(other)
  {
    hide Preimage, DecodePreimage, SortByBase, ValidIdentity;
    DecodePreimageBack(id);
    DecodePreimageBack(other);
  }

  lemma {:induction false} SortedIsValid(id: Identity)
    requires ValidIdentity(id)
    ensures ValidPages(SortByBase(id.pages)) && SortedBases(SortByBase(id.pages))
    ensures |SortByBase(id.pages)| == |id.pages|
  {
    hide SortByBase;
    SortSorts(id.pages);
    SortKeepsValid(id.pages);
    SortKeepsLength(id.pages);
  }

  /** Exchanging two different pages of one base in the sorted order changes the preimage. */
  lemma {:induction false} SwapChangesPreimage(id: Identity, i: nat, j: nat)
    requires ValidIdentity(id) && i < j < |SortByBase(id.pages)|
    requires var s := SortByBase(id.pages); s[i].base == s[j].base && s[i] != s[j]
    ensures var other := id.(pages := Swapped(SortByBase(id.pages), i, j));
            ValidIdentity(other) && SamePages(id, other) && Preimage(id) != Preimage(other)
  {
    hide Preimage, SortByBase, SortedBases, ValidPages, Swapped;
    SortedIsValid(id);
    var s := SortByBase(id.pages);
    var other := id.(pages := Swapped(s, i, j));
    SwappedFacts(s, i, j);
    SortFixesSorted(other.pages);
    SortedListsDiffer(id, other);
  }

  /** Two different pages that share a base can be supplied in an order that changes the preimage. */
  lemma {:induction false} RepeatedBaseDependsOnOrder(id: Identity, p: Page, q: Page)
    requires ValidIdentity(id) && p in id.pages && q in id.pages && p.base == q.base && p != q
    ensures exists other :: ValidIdentity(other) && SamePages(id, other) && Preimage(id) != Preimage(other)
  {
    hide Preimage, SortByBase, ValidIdentity, SamePages, Swapped;
    var s := SortByBase(id.pages);
    var i := PlaceOf(id.pages, s, p);
    var j := PlaceOf(id.pages, s, q);
    if i < j {
      SwapChangesPreimage(id, i, j);
    } else {
      SwapChangesPreimage(id, j, i);
    }
  }

  lemma {:induction false} PlaceOf(pages: seq<Page>, s: seq<Page>, p: Page) returns (i: nat)
    requires multiset(s) == multiset(pages) && p in pages
    ensures i < |s| && s[i] == p
  {
    assert p in multiset(pages) && p in multiset(s);
    i :| 0 <= i < |s| && s[i] == p;
  }

  /** Every order of the pages gives the same preimage. */
  ghost predicate OrderIndependent(id: Identity) {
    forall other | SamePages(id, other) :: Preimage(other) == Preimage(id)
  }

  /** Exactly when the order does not matter: no base carries two different pages. */
  lemma {:induction false} OrderIndependentIff(id: Identity)
    requires ValidIdentity(id)
    ensures OrderIndependent(id) <==> OnePerBase(multiset(id.pages))
  {
    hide Preimage, ValidIdentity, SamePages;
    if OnePerBase(multiset(id.pages)) {
      forall other | SamePages(id, other)
        ensures Preimage(other) == Preimage(id)
      {
        PreimageInvariant(id, other);
      }
    } else {
      var p, q :| p in multiset(id.pages) && q in multiset(id.pages) && p.base == q.base && p != q;
      RepeatedBaseDependsOnOrder(id, p, q);
    }
  }

  function Filled(b: int): seq<int> { seq(32, _ => b) }

  function TwoOnOneBase(): seq<Page> { [Page(0, Filled(0)), Page(0, Filled(1))] }

  /** A concrete program whose preimage depends on the order of its two pages. */
  lemma {:induction false} TwoOrders()
    ensures var id := Identity(Filled(0), 0, Filled(0), TwoOnOneBase());
            && ValidIdentity(id) && Preimage(id) != Preimage(id.(pages := Swapped(TwoOnOneBase(), 0, 1)))
  {
    var id := Identity(Filled(0), 0, Filled(0), TwoOnOneBase());
    assert Filled(0)[0] != Filled(1)[0];
    hide Preimage, SortByBase, Swapped, Filled;
    SortFixesSorted(id.pages);
    SwapChangesPreimage(id, 0, 1);
  }

  // ---------------------------------------------------------------------
  // Where each field is
  // ---------------------------------------------------------------------

  predicate PageAt(e: seq<int>, off: nat, p: Page) {
    U64At(e, off, p.base) && BytesAt(e, off + 8, p.commitment)
  }

  lemma {:induction false} PagesLength(pages: seq<Page>)
    requires ValidPages(pages)
    ensures |EncodePages(pages)| == 40 * |pages|
  {
    if pages != [] {
      WordLength(pages[0].base);
      hide U64Bytes;
      PagesLength(pages[1..]);
    }
  }

  lemma {:induction false} PageOfRun(pages: seq<Page>, i: nat)
    requires ValidPages(pages) && i < |pages|
    ensures BytesAt(EncodePages(pages), 40 * i, U64Bytes(pages[i].base) + pages[i].commitment)
  {
    hide U64Bytes, BytesAt;
    WordLength(pages[0].base);
    var head, rest := U64Bytes(pages[0].base) + pages[0].commitment, EncodePages(pages[1..]);
    if i == 0 {
      StartsAt(head, rest);
    } else {
      PageOfRun(pages[1..], i - 1);
      ShiftAt(head, rest, 40 * (i - 1), U64Bytes(pages[i].base) + pages[i].commitment);
    }
  }

  lemma {:induction false} Halves(a: seq<int>, b: seq<int>)
    ensures BytesAt(a + b, 0, a) && BytesAt(a + b, |a|, b)
  {}

  lemma {:induction false} PagePlaced(e: seq<int>, off: nat, pages: seq<Page>, i: nat)
    requires ValidPages(pages) && i < |pages| && BytesAt(e, off, EncodePages(pages))
    ensures PageAt(e, off + 40 * i, pages[i])
  {
    hide EncodePages, U64Bytes, BytesAt, U64At;
    var word, c := U64Bytes(pages[i].base), pages[i].commitment;
    PageOfRun(pages, i);
    WordLength(pages[i].base);
    Halves(word, c);
    NarrowAt(e, off, EncodePages(pages), 40 * i, word + c);
    NarrowAt(e, off + 40 * i, word + c, 0, word);
    NarrowAt(e, off + 40 * i, word + c, 8, c);
    WordAt(e, off + 40 * i, pages[i].base);
  }

  /** The preimage byte by byte: tag, digest, entry point, decode commitment, page count, pages by ascending base. */
  lemma {:induction false} PreimageLayout(id: Identity)
    requires ValidIdentity(id)
    ensures var e, t, pages := Preimage(id), |ProgramIdTag()|, SortByBase(id.pages);
            && BytesAt(e, 0, ProgramIdTag()) && BytesAt(e, t, id.digest) && U64At(e, t + 32, id.pcStart)
            && BytesAt(e, t + 40, id.decode) && U64At(e, t + 72, |id.pages|)
            && SortedBases(pages) && multiset(pages) == multiset(id.pages)
            && (forall i | 0 <= i < |pages| :: PageAt(e, t + 80 + 40 * i, pages[i]))
            && |e| == t + 80 + 40 * |id.pages|
  {
    hide ValidPages, SortByBase, EncodePages, SortedBases, PageAt, ProgramIdTag;
    var pages, t := SortByBase(id.pages), |ProgramIdTag()|;
    SortedIsValid(id);
    PagesLength(pages);
    var chunks := [ProgramIdTag(), id.digest, U64Bytes(id.pcStart), id.decode, U64Bytes(|id.pages|),
                   EncodePages(pages)];
    PreimageOffsets(chunks, t, |id.pages|, id.pcStart);
    hide Concat, U64Bytes, Offset, U64At, BytesAt;
    ChunkAt(chunks, 0);
    ChunkAt(chunks, 1);
    ChunkAt(chunks, 2);
    ChunkAt(chunks, 3);
    ChunkAt(chunks, 4);
    ChunkAt(chunks, 5);
    WholeLength(chunks);
    var e := Concat(chunks);
    WordAt(e, t + 32, id.pcStart);
    WordAt(e, t + 72, |id.pages|);
    forall i | 0 <= i < |pages|
      ensures PageAt(e, t + 80 + 40 * i, pages[i])
    {
      PagePlaced(e, t + 80, pages, i);
    }
  }

  lemma {:induction false} PreimageOffsets(chunks: seq<seq<int>>, t: nat, n: nat, pc: nat)
    requires |chunks| == 6 && |chunks[0]| == t && |chunks[1]| == 32 && chunks[2] == U64Bytes(pc)
    requires |chunks[3]| == 32 && chunks[4] == U64Bytes(n) && |chunks[5]| == 40 * n
    ensures Offset(chunks, 0) == 0 && Offset(chunks, 1) == t && Offset(chunks, 2) == t + 32
    ensures Offset(chunks, 3) == t + 40 && Offset(chunks, 4) == t + 72 && Offset(chunks, 5) == t + 80
    ensures Offset(chunks, 6) == t + 80 + 40 * n
  {
    WordLength(pc);
    WordLength(n);
    hide Offset, U64Bytes;
    OffsetSum(chunks, 0);
    OffsetSum(chunks, 1);
    OffsetSum(chunks, 2);
    OffsetSum(chunks, 3);
    OffsetSum(chunks, 4);
    OffsetSum(chunks, 5);
  }
}
