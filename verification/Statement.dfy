/**
  The statement bytes absorbed into the transcript (monolithic, continuation
  epoch, continuation global) and the program identity preimage, with a decoder
  that recovers every bound field.
 */
module Statement {
  import opened Outcomes
  import opened Limbs

  const DIGEST_BYTES: nat := 32
  const TABLES: nat := 20

  function Ascii(s: string): (b: seq<int>)
    ensures |b| == |s|
  {
    seq(|s|, i requires 0 <= i < |s| => s[i] as int)
  }

  function DomainTag(): seq<int> { Ascii("LAMBDAVM_STARK_STATEMENT_V5") }

  function EpochTag(): seq<int> { Ascii("LAMBDAVM_CONTINUATION_EPOCH_V5") }

  function GlobalTag(): seq<int> { Ascii("LAMBDAVM_CONTINUATION_GLOBAL_V2") }

  // ---------------------------------------------------------------------
  // Statements
  // ---------------------------------------------------------------------

  datatype TableCounts = TableCounts(
    cpu: nat, lt: nat, memw: nat, memwAligned: nat, load: nat, mul: nat, dvrm: nat, shift: nat, branch: nat,
    memwRegister: nat, eq: nat, bytewise: nat, store: nat, cpu32: nat, keccak: nat, keccakRnd: nat,
    ecsm: nat, ecdas: nat, hint: nat, isWh: nat)

  function InOrder(c: TableCounts): (s: seq<nat>)
    ensures |s| == TABLES
  {
    [c.cpu, c.lt, c.memw, c.memwAligned, c.load, c.mul, c.dvrm, c.shift, c.branch, c.memwRegister, c.eq,
     c.bytewise, c.store, c.cpu32, c.keccak, c.keccakRnd, c.ecsm, c.ecdas, c.hint, c.isWh]
  }

  function FromOrder(s: seq<nat>): TableCounts
    requires |s| == TABLES
  {
    TableCounts(s[0], s[1], s[2], s[3], s[4], s[5], s[6], s[7], s[8], s[9],
                s[10], s[11], s[12], s[13], s[14], s[15], s[16], s[17], s[18], s[19])
  }

  datatype PageRange = PageRange(base: nat, count: nat)

  datatype Body = Body(
    digest: seq<int>, publicOutput: seq<int>, counts: TableCounts,
    privatePages: nat, friDegree: nat, ranges: seq<PageRange>)

  datatype Stmt =
    | Monolithic(body: Body)
    | Epoch(body: Body, epoch: nat, isFinal: bool)
    | Global(digest: seq<int>, numEpochs: nat, privatePages: nat, friDegree: nat, bases: seq<nat>)

  predicate U64s(s: seq<nat>) {
    forall i | 0 <= i < |s| :: s[i] < I64
  }

  predicate ValidBody(b: Body) {
    && |b.digest| == DIGEST_BYTES && |b.publicOutput| < I64 && U64s(InOrder(b.counts))
    && b.privatePages < I64 && b.friDegree < 256 && |b.ranges| < I64 && U64s(Pairs(b.ranges))
  }

  predicate ValidStmt(s: Stmt) {
    match s
    case Monolithic(b) => ValidBody(b)
    case Epoch(b, epoch, _) => ValidBody(b) && epoch < I64
    case Global(digest, numEpochs, privatePages, friDegree, bases) =>
      |digest| == DIGEST_BYTES && numEpochs < I64 && privatePages < I64 && friDegree < 256
      && |bases| < I64 && U64s(bases)
  }

  // ---------------------------------------------------------------------
  // Encoding, chunk by chunk
  // ---------------------------------------------------------------------

  function U64Bytes(v: nat): seq<int> { LeBytes(v, 8) }

  function EncodeU64s(s: seq<nat>): seq<int> {
    if s == [] then [] else U64Bytes(s[0]) + EncodeU64s(s[1..])
  }

  function Pairs(ranges: seq<PageRange>): seq<nat> {
    if ranges == [] then [] else [ranges[0].base, ranges[0].count] + Pairs(ranges[1..])
  }

  function Concat(chunks: seq<seq<int>>): seq<int> {
    if chunks == [] then [] else chunks[0] + Concat(chunks[1..])
  }

  function BodyChunks(b: Body): seq<seq<int>> {
    [b.digest, U64Bytes(|b.publicOutput|), b.publicOutput, EncodeU64s(InOrder(b.counts)), U64Bytes(b.privatePages),
     [b.friDegree], U64Bytes(|b.ranges|), EncodeU64s(Pairs(b.ranges))]
  }

  function Flag(b: bool): int { if b then 1 else 0 }

  function Chunks(s: Stmt): seq<seq<int>> {
    match s
    case Monolithic(b) => [DomainTag()] + BodyChunks(b)
    case Epoch(b, epoch, isFinal) => [EpochTag()] + BodyChunks(b) + [U64Bytes(epoch), [Flag(isFinal)]]
    case Global(digest, numEpochs, privatePages, friDegree, bases) =>
      [GlobalTag(), digest, U64Bytes(numEpochs), U64Bytes(privatePages), [friDegree],
       U64Bytes(|bases|), EncodeU64s(bases)]
  }

  function Encode(s: Stmt): seq<int> { Concat(Chunks(s)) }

  lemma {:induction false} ConcatAppend(a: seq<seq<int>>, b: seq<seq<int>>)
    ensures Concat(a + b) == Concat(a) + Concat(b)
  {
    if a == [] {
      assert a + b == b;
    } else {
      ConcatAppend(a[1..], b);
      assert (a + b)[1..] == a[1..] + b;
      Associate(a[0], Concat(a[1..]), Concat(b));
    }
  }

  lemma {:induction false} Associate(x: seq<int>, y: seq<int>, z: seq<int>)
    ensures (x + y) + z == x + (y + z)
  {}

  lemma {:induction false} ConcatOne(c: seq<int>)
    ensures Concat([c]) == c
  {
    assert [c][1..] == [];
    assert c + [] == c;
  }

  // ---------------------------------------------------------------------
  // The transcript
  // ---------------------------------------------------------------------

  class Transcript {
    var bytes: seq<int>

    constructor ()
      ensures bytes == []
    {
      bytes := [];
    }

    method AppendBytes(b: seq<int>)
      modifies this
      ensures bytes == old(bytes) + b
    {
      bytes := bytes + b;
    }

    /** Appends one more chunk to those appended since `start`. */
    method AppendChunk(b: seq<int>, ghost start: seq<int>, ghost done: seq<seq<int>>)
      requires bytes == start + Concat(done)
      modifies this
      ensures bytes == start + Concat(done + [b])
    {
      ChunkAdded(start, done, b);
      AppendBytes(b);
    }

    method AppendU64s(values: seq<nat>)
      modifies this
      ensures bytes == old(bytes) + EncodeU64s(values)
    {
      assert values[..0] == [];
      for i := 0 to |values|
        invariant bytes == old(bytes) + EncodeU64s(values[..i])
      {
        AppendBytes(U64Bytes(values[i]));
        EncodeLast(values[..i], values[i]);
        assert values[..i] + [values[i]] == values[..i + 1];
      }
      assert values[..|values|] == values;
    }
  }

  lemma {:induction false} EncodeLast(s: seq<nat>, v: nat)
    ensures EncodeU64s(s + [v]) == EncodeU64s(s) + U64Bytes(v)
  {
    if s == [] {
      assert ([v])[1..] == [];
      assert s + [v] == [v];
    } else {
      EncodeLast(s[1..], v);
      assert (s + [v])[1..] == s[1..] + [v];
    }
  }

  lemma {:induction false} ChunkAdded(start: seq<int>, done: seq<seq<int>>, c: seq<int>)
    ensures (start + Concat(done)) + c == start + Concat(done + [c])
  {
    ConcatAppend(done, [c]);
    ConcatOne(c);
  }

  /** The part shared by monolithic and epoch statements, after the tag. */
  method AbsorbBody(t: Transcript, b: Body, ghost start: seq<int>, ghost tag: seq<int>)
    requires t.bytes == start + Concat([tag])
    modifies t
    ensures t.bytes == start + Concat([tag] + BodyChunks(b))
  {
    hide Concat;
    ghost var done := [tag];
    t.AppendChunk(b.digest, start, done);
    done := done + [b.digest];
    t.AppendChunk(U64Bytes(|b.publicOutput|), start, done);
    done := done + [U64Bytes(|b.publicOutput|)];
    t.AppendChunk(b.publicOutput, start, done);
    done := done + [b.publicOutput];
    t.AppendU64s(InOrder(b.counts));
    ChunkAdded(start, done, EncodeU64s(InOrder(b.counts)));
    done := done + [EncodeU64s(InOrder(b.counts))];
    t.AppendChunk(U64Bytes(b.privatePages), start, done);
    done := done + [U64Bytes(b.privatePages)];
    t.AppendChunk([b.friDegree], start, done);
    done := done + [[b.friDegree]];
    t.AppendChunk(U64Bytes(|b.ranges|), start, done);
    done := done + [U64Bytes(|b.ranges|)];
    AppendRanges(t, b.ranges);
    ChunkAdded(start, done, EncodeU64s(Pairs(b.ranges)));
    done := done + [EncodeU64s(Pairs(b.ranges))];
    assert done == [tag] + BodyChunks(b);
  }

  method AppendRanges(t: Transcript, ranges: seq<PageRange>)
    modifies t
    ensures t.bytes == old(t.bytes) + EncodeU64s(Pairs(ranges))
  {
    assert ranges[..0] == [];
    for i := 0 to |ranges|
      invariant t.bytes == old(t.bytes) + EncodeU64s(Pairs(ranges[..i]))
    {
      ghost var before := Pairs(ranges[..i]);
      t.AppendBytes(U64Bytes(ranges[i].base));
      t.AppendBytes(U64Bytes(ranges[i].count));
      EncodeLast(before, ranges[i].base);
      EncodeLast(before + [ranges[i].base], ranges[i].count);
      PairsLast(ranges[..i], ranges[i]);
      assert ranges[..i] + [ranges[i]] == ranges[..i + 1];
      assert before + [ranges[i].base, ranges[i].count] == (before + [ranges[i].base]) + [ranges[i].count];
    }
    assert ranges[..|ranges|] == ranges;
  }

  lemma {:induction false} PairsLast(ranges: seq<PageRange>, r: PageRange)
    ensures Pairs(ranges + [r]) == Pairs(ranges) + [r.base, r.count]
  {
    if ranges == [] {
      assert ranges + [r] == [r] && [r][1..] == [];
    } else {
      PairsLast(ranges[1..], r);
      assert (ranges + [r])[1..] == ranges[1..] + [r];
    }
  }

  /** Monolithic and continuation-epoch statements. */
  method AbsorbStatement(t: Transcript, s: Stmt)
    requires s.Monolithic? || s.Epoch?
    modifies t
    ensures t.bytes == old(t.bytes) + Encode(s)
  {
    hide Concat, BodyChunks;
    ghost var start := t.bytes;
    var tag := if s.Monolithic? then DomainTag() else EpochTag();
    t.AppendBytes(tag);
    ConcatOne(tag);
    AbsorbBody(t, s.body, start, tag);
    if s.Epoch? {
      ghost var done := [tag] + BodyChunks(s.body);
      t.AppendChunk(U64Bytes(s.epoch), start, done);
      t.AppendChunk([Flag(s.isFinal)], start, done + [U64Bytes(s.epoch)]);
      assert done + [U64Bytes(s.epoch)] + [[Flag(s.isFinal)]] == Chunks(s);
    }
  }

  method AbsorbGlobalStatement(t: Transcript, s: Stmt)
    requires s.Global?
    modifies t
    ensures t.bytes == old(t.bytes) + Encode(s)
  {
    hide Concat;
    ghost var start := t.bytes;
    t.AppendBytes(GlobalTag());
    ConcatOne(GlobalTag());
    ghost var done := [GlobalTag()];
    t.AppendChunk(s.digest, start, done);
    done := done + [s.digest];
    t.AppendChunk(U64Bytes(s.numEpochs), start, done);
    done := done + [U64Bytes(s.numEpochs)];
    t.AppendChunk(U64Bytes(s.privatePages), start, done);
    done := done + [U64Bytes(s.privatePages)];
    t.AppendChunk([s.friDegree], start, done);
    done := done + [[s.friDegree]];
    t.AppendChunk(U64Bytes(|s.bases|), start, done);
    done := done + [U64Bytes(|s.bases|)];
    t.AppendU64s(s.bases);
    ChunkAdded(start, done, EncodeU64s(s.bases));
    assert done + [EncodeU64s(s.bases)] == Chunks(s);
  }

  // ---------------------------------------------------------------------
  // Decoding
  // ---------------------------------------------------------------------

  function TakeBytes(b: seq<int>, n: nat): Option<(seq<int>, seq<int>)> {
    if |b| < n then None else Some((b[..n], b[n..]))
  }

  function TakeByte(b: seq<int>): Option<(int, seq<int>)> {
    if b == [] then None else Some((b[0], b[1..]))
  }

  function TakeU64(b: seq<int>): Option<(nat, seq<int>)> {
    var (x, rest) :- TakeBytes(b, 8);
    if Value(x) < 0 then None else Some((Value(x), rest))
  }

  function TakeU64s(b: seq<int>, n: nat): (r: Option<(seq<nat>, seq<int>)>)
    ensures r.Some? ==> |r.value.0| == n
  {
    if n == 0 then Some(([], b))
    else
      var (v, rest) :- TakeU64(b);
      var (vs, rest') :- TakeU64s(rest, n - 1);
      Some(([v] + vs, rest'))
  }

  function Unpair(s: seq<nat>): seq<PageRange>
    requires |s| % 2 == 0
  {
    if s == [] then [] else [PageRange(s[0], s[1])] + Unpair(s[2..])
  }

  function TakeBody(b0: seq<int>): Option<(Body, seq<int>)> {
    var (digest, b1) :- TakeBytes(b0, DIGEST_BYTES);
    var (len, b2) :- TakeU64(b1);
    var (output, b3) :- TakeBytes(b2, len);
    var (counts, b4) :- TakeU64s(b3, TABLES);
    var (pages, b5) :- TakeU64(b4);
    var (fri, b6) :- TakeByte(b5);
    var (n, b7) :- TakeU64(b6);
    var (pairs, b8) :- TakeU64s(b7, 2 * n);
    if fri < 0 then None
    else Some((Body(digest, output, FromOrder(counts), pages, fri, Unpair(pairs)), b8))
  }

  function TakeGlobal(b0: seq<int>): Option<(Stmt, seq<int>)> {
    var (digest, b1) :- TakeBytes(b0, DIGEST_BYTES);
    var (epochs, b2) :- TakeU64(b1);
    var (pages, b3) :- TakeU64(b2);
    var (fri, b4) :- TakeByte(b3);
    var (n, b5) :- TakeU64(b4);
    var (bases, b6) :- TakeU64s(b5, n);
    if fri < 0 then None else Some((Global(digest, epochs, pages, fri, bases), b6))
  }

  /** Reads one statement of any kind off the front of a byte stream. */
  function Decode(b: seq<int>): Option<(Stmt, seq<int>)> {
    if DomainTag() <= b then
      var (body, rest) :- TakeBody(b[|DomainTag()|..]);
      Some((Monolithic(body), rest))
    else if EpochTag() <= b then
      var (body, b1) :- TakeBody(b[|EpochTag()|..]);
      var (epoch, b2) :- TakeU64(b1);
      var (flag, b3) :- TakeByte(b2);
      Some((Epoch(body, epoch, flag == 1), b3))
    else if GlobalTag() <= b then TakeGlobal(b[|GlobalTag()|..])
    else None
  }

  lemma {:induction false} TakeBytesBack(x: seq<int>, rest: seq<int>)
    ensures TakeBytes(x + rest, |x|) == Some((x, rest))
  {}

  lemma {:induction false} TakeByteBack(x: int, rest: seq<int>)
    ensures TakeByte([x] + rest) == Some((x, rest))
  {}

  lemma {:induction false} TakeU64Back(v: nat, rest: seq<int>)
    requires v < I64
    ensures TakeU64(U64Bytes(v) + rest) == Some((v, rest))
  {
    assert Pow256(8) == I64;
    hide Value, Pow256, LeBytes;
    LeBytesValue(v, 8);
    TakeBytesBack(U64Bytes(v), rest);
  }

  lemma {:induction false} TakeU64sBack(s: seq<nat>, rest: seq<int>)
    requires U64s(s)
    ensures TakeU64s(EncodeU64s(s) + rest, |s|) == Some((s, rest))
  {
    if s == [] {
      assert EncodeU64s(s) + rest == rest;
    } else {
      hide TakeU64, U64Bytes;
      var tail := EncodeU64s(s[1..]) + rest;
      assert EncodeU64s(s) + rest == U64Bytes(s[0]) + tail;
      TakeU64Back(s[0], tail);
      TakeU64sBack(s[1..], rest);
      assert [s[0]] + s[1..] == s;
    }
  }

  lemma {:induction false} UnpairPairs(ranges: seq<PageRange>)
    ensures |Pairs(ranges)| == 2 * |ranges| && Unpair(Pairs(ranges)) == ranges
  {
    if ranges != [] {
      UnpairPairs(ranges[1..]);
      assert Pairs(ranges)[2..] == Pairs(ranges[1..]);
      assert ranges == [ranges[0]] + ranges[1..];
    }
  }

  /** The rest of a chunked stream after its first chunk. */
  lemma {:induction false} PeelChunk(c: seq<int>, cs: seq<seq<int>>, rest: seq<int>)
    ensures Concat([c] + cs) + rest == c + (Concat(cs) + rest)
  {
    assert ([c] + cs)[1..] == cs;
  }

  function Stream(b: Body, k: nat, rest: seq<int>): seq<int>
    requires k <= 8
  {
    Concat(BodyChunks(b)[k..]) + rest
  }

  lemma {:induction false} StreamStep(b: Body, k: nat, rest: seq<int>)
    requires k < 8
    ensures Stream(b, k, rest) == BodyChunks(b)[k] + Stream(b, k + 1, rest)
  {
    hide Concat;
    var cs := BodyChunks(b);
    assert cs[k..] == [cs[k]] + cs[k + 1..];
    PeelChunk(cs[k], cs[k + 1..], rest);
  }

  lemma {:induction false} StreamEnd(b: Body, rest: seq<int>)
    ensures Stream(b, 8, rest) == rest
  {
    assert BodyChunks(b)[8..] == [];
    assert Concat([]) + rest == rest;
  }

  /** A body followed by anything decodes to itself and what followed. */
  lemma {:induction false} TakeBodyBack(b: Body, rest: seq<int>)
    requires ValidBody(b)
    ensures TakeBody(Stream(b, 0, rest)) == Some((b, rest))
  {
    hide Concat, TakeBytes, TakeU64, TakeU64s, TakeByte, EncodeU64s, U64Bytes, Stream, InOrder, FromOrder, Unpair,
      Pairs;
    StreamStep(b, 0, rest);
    TakeBytesBack(b.digest, Stream(b, 1, rest));
    StreamStep(b, 1, rest);
    TakeU64Back(|b.publicOutput|, Stream(b, 2, rest));
    StreamStep(b, 2, rest);
    TakeBytesBack(b.publicOutput, Stream(b, 3, rest));
    StreamStep(b, 3, rest);
    CountsBack(b.counts);
    TakeU64sBack(InOrder(b.counts), Stream(b, 4, rest));
    StreamStep(b, 4, rest);
    TakeU64Back(b.privatePages, Stream(b, 5, rest));
    StreamStep(b, 5, rest);
    TakeByteBack(b.friDegree, Stream(b, 6, rest));
    StreamStep(b, 6, rest);
    TakeU64Back(|b.ranges|, Stream(b, 7, rest));
    StreamStep(b, 7, rest);
    UnpairPairs(b.ranges);
    TakeU64sBack(Pairs(b.ranges), Stream(b, 8, rest));
    StreamEnd(b, rest);
  }

  lemma {:induction false} CountsBack(c: TableCounts)
    ensures |InOrder(c)| == TABLES && FromOrder(InOrder(c)) == c
  {}

  lemma {:induction false} TakeGlobalBack(s: Stmt, rest: seq<int>)
    requires s.Global? && ValidStmt(s)
    ensures TakeGlobal(Concat(Chunks(s)[1..]) + rest) == Some((s, rest))
  {
    hide Concat, TakeBytes, TakeU64, TakeU64s, TakeByte, EncodeU64s, U64Bytes, GlobalTag;
    var cs := Chunks(s);
    assert cs[1..] == [cs[1]] + cs[2..] && cs[2..] == [cs[2]] + cs[3..] && cs[3..] == [cs[3]] + cs[4..];
    assert cs[4..] == [cs[4]] + cs[5..] && cs[5..] == [cs[5]] + cs[6..] && cs[6..] == [cs[6]];
    ConcatOne(cs[6]);
    PeelChunk(cs[1], cs[2..], rest);
    PeelChunk(cs[2], cs[3..], rest);
    PeelChunk(cs[3], cs[4..], rest);
    PeelChunk(cs[4], cs[5..], rest);
    PeelChunk(cs[5], cs[6..], rest);
    TakeBytesBack(s.digest, Concat(cs[2..]) + rest);
    TakeU64Back(s.numEpochs, Concat(cs[3..]) + rest);
    TakeU64Back(s.privatePages, Concat(cs[4..]) + rest);
    TakeByteBack(s.friDegree, Concat(cs[5..]) + rest);
    TakeU64Back(|s.bases|, Concat(cs[6..]) + rest);
    TakeU64sBack(s.bases, rest);
  }

  /** No tag is a prefix of a stream that starts with another. */
  lemma {:induction false} TagsDiffer(rest: seq<int>)
    ensures DomainTag() <= DomainTag() + rest
    ensures !(DomainTag() <= EpochTag() + rest) && EpochTag() <= EpochTag() + rest
    ensures !(DomainTag() <= GlobalTag() + rest) && !(EpochTag() <= GlobalTag() + rest)
    ensures GlobalTag() <= GlobalTag() + rest
  {
    var d, e, g := DomainTag(), EpochTag(), GlobalTag();
    TagLetter("LAMBDAVM_STARK_STATEMENT_V5", 9, 'S');
    TagLetter("LAMBDAVM_CONTINUATION_EPOCH_V5", 9, 'C');
    TagLetter("LAMBDAVM_CONTINUATION_GLOBAL_V2", 9, 'C');
    TagLetter("LAMBDAVM_CONTINUATION_EPOCH_V5", 22, 'E');
    TagLetter("LAMBDAVM_CONTINUATION_GLOBAL_V2", 22, 'G');
    assert (e + rest)[9] == e[9] && (g + rest)[9] == g[9] && (g + rest)[22] == g[22];
  }

  lemma {:induction false} TagLetter(s: string, i: nat, c: char)
    requires i < |s| && s[i] == c
    ensures Ascii(s)[i] == c as int
  {}

  lemma {:induction false} DropTag(tag: seq<int>, rest: seq<int>)
    ensures (tag + rest)[|tag|..] == rest
  {}

  /** Every statement followed by anything decodes to itself and what followed. */
  lemma {:induction false} DecodeEncode(s: Stmt, rest: seq<int>)
    requires ValidStmt(s)
    ensures Decode(Encode(s) + rest) == Some((s, rest))
  {
    match s {
      case Monolithic(b) => DecodeMonolithic(b, rest);
      case Epoch(b, epoch, isFinal) => DecodeEpoch(b, epoch, isFinal, rest);
      case Global(_, _, _, _, _) => DecodeGlobal(s, rest);
    }
  }

  lemma {:induction false} DecodeMonolithic(b: Body, rest: seq<int>)
    requires ValidBody(b)
    ensures Decode(Encode(Monolithic(b)) + rest) == Some((Monolithic(b), rest))
  {
    hide Concat, DomainTag, TakeBody, ValidBody;
    var cs := BodyChunks(b);
    PeelChunk(DomainTag(), cs, rest);
    assert cs[0..] == cs;
    TagsDiffer(Stream(b, 0, rest));
    DropTag(DomainTag(), Stream(b, 0, rest));
    TakeBodyBack(b, rest);
  }

  lemma {:induction false} DecodeEpoch(b: Body, epoch: nat, isFinal: bool, rest: seq<int>)
    requires ValidBody(b) && epoch < I64
    ensures Decode(Encode(Epoch(b, epoch, isFinal)) + rest) == Some((Epoch(b, epoch, isFinal), rest))
  {
    hide Concat, EpochTag, DomainTag, TakeBody, TakeU64, TakeByte, ValidBody, U64Bytes, BodyChunks;
    var cs, tail := BodyChunks(b), [U64Bytes(epoch), [Flag(isFinal)]];
    var after := Concat(tail) + rest;
    assert [EpochTag()] + cs + tail == [EpochTag()] + (cs + tail);
    PeelChunk(EpochTag(), cs + tail, rest);
    ConcatAppend(cs, tail);
    assert cs[0..] == cs;
    assert (Concat(cs) + Concat(tail)) + rest == Stream(b, 0, after);
    TagsDiffer(Stream(b, 0, after));
    DropTag(EpochTag(), Stream(b, 0, after));
    TakeBodyBack(b, after);
    EpochTail(epoch, isFinal, rest);
  }

  lemma {:induction false} EpochTail(epoch: nat, isFinal: bool, rest: seq<int>)
    requires epoch < I64
    ensures var b := Concat([U64Bytes(epoch), [Flag(isFinal)]]) + rest;
            && TakeU64(b) == Some((epoch, [Flag(isFinal)] + rest))
            && TakeByte([Flag(isFinal)] + rest) == Some((Flag(isFinal), rest))
  {
    hide Concat, TakeU64;
    assert [U64Bytes(epoch), [Flag(isFinal)]] == [U64Bytes(epoch)] + [[Flag(isFinal)]];
    PeelChunk(U64Bytes(epoch), [[Flag(isFinal)]], rest);
    ConcatOne([Flag(isFinal)]);
    TakeU64Back(epoch, [Flag(isFinal)] + rest);
  }

  lemma {:induction false} DecodeGlobal(s: Stmt, rest: seq<int>)
    requires s.Global? && ValidStmt(s)
    ensures Decode(Encode(s) + rest) == Some((s, rest))
  {
    hide Concat, GlobalTag, EpochTag, DomainTag, TakeGlobal, ValidStmt;
    var cs := Chunks(s);
    assert cs == [GlobalTag()] + cs[1..];
    PeelChunk(GlobalTag(), cs[1..], rest);
    var b := Concat(cs[1..]) + rest;
    TagsDiffer(b);
    DropTag(GlobalTag(), b);
    TakeGlobalBack(s, rest);
  }

  /** Streams are uniquely decodable and prefix-free, across kinds as well as within one. */
  lemma {:induction false} UniquelyDecodable(s: Stmt, t: Stmt, rest: seq<int>, rest': seq<int>)
    requires ValidStmt(s) && ValidStmt(t) && Encode(s) + rest == Encode(t) + rest'
    ensures s == t && rest == rest'
  {
    hide Decode, Encode, ValidStmt;
    DecodeEncode(s, rest);
    DecodeEncode(t, rest');
  }

  lemma {:induction false} PrefixFree(s: Stmt, t: Stmt)
    requires ValidStmt(s) && ValidStmt(t) && Encode(s) <= Encode(t)
    ensures s == t
  {
    hide Decode, Encode, ValidStmt;
    var rest := Encode(t)[|Encode(s)|..];
    assert Encode(t) + [] == Encode(s) + rest;
    UniquelyDecodable(s, t, rest, []);
  }

  // ---------------------------------------------------------------------
  // Where each field is
  // ---------------------------------------------------------------------

  predicate BytesAt(e: seq<int>, off: nat, b: seq<int>) {
    off + |b| <= |e| && e[off..off + |b|] == b
  }

  /** Eight bytes, least significant first, that spell `v`. */
  predicate U64At(e: seq<int>, off: nat, v: nat) {
    off + 8 <= |e| && Value(e[off..off + 8]) == v
  }

  function Offset(chunks: seq<seq<int>>, i: nat): nat
    requires i <= |chunks|
  {
    if i == 0 then 0 else Offset(chunks, i - 1) + |chunks[i - 1]|
  }

  lemma {:induction false} ConcatSplit(chunks: seq<seq<int>>, i: nat)
    requires i <= |chunks|
    ensures |Concat(chunks[..i])| == Offset(chunks, i)
    ensures Concat(chunks) == Concat(chunks[..i]) + Concat(chunks[i..])
  {
    ConcatAppend(chunks[..i], chunks[i..]);
    assert chunks[..i] + chunks[i..] == chunks;
    if i > 0 {
      ConcatSplit(chunks, i - 1);
      assert chunks[..i] == chunks[..i - 1] + [chunks[i - 1]];
      ConcatAppend(chunks[..i - 1], [chunks[i - 1]]);
      ConcatOne(chunks[i - 1]);
    }
  }

  /** Each chunk sits at its offset. */
  lemma {:induction false} ChunkAt(chunks: seq<seq<int>>, i: nat)
    requires i < |chunks|
    ensures BytesAt(Concat(chunks), Offset(chunks, i), chunks[i])
  {
    ConcatSplit(chunks, i);
    ConcatSplit(chunks, i + 1);
    var a, b := Concat(chunks[..i]), Concat(chunks[i + 1..]);
    assert chunks[..i + 1] == chunks[..i] + [chunks[i]];
    ConcatAppend(chunks[..i], [chunks[i]]);
    ConcatOne(chunks[i]);
    SliceMiddle(a, chunks[i], b);
  }

  lemma {:induction false} SliceMiddle(a: seq<int>, c: seq<int>, b: seq<int>)
    ensures BytesAt((a + c) + b, |a|, c)
  {}

  lemma {:induction false} WholeLength(chunks: seq<seq<int>>)
    ensures |Concat(chunks)| == Offset(chunks, |chunks|)
  {
    ConcatSplit(chunks, |chunks|);
    assert chunks[..|chunks|] == chunks && chunks[|chunks|..] == [];
  }

  lemma {:induction false} WordAt(e: seq<int>, off: nat, v: nat)
    requires v < I64 && BytesAt(e, off, U64Bytes(v))
    ensures U64At(e, off, v)
  {
    EightBytes();
    hide LeBytes, Value, Pow256;
    LeBytesValue(v, 8);
  }

  lemma {:induction false} EightBytes()
    ensures Pow256(8) == I64
  {
    assert Pow256(2) == 0x1_0000;
    PowAdd(2, 2);
    PowAdd(4, 4);
  }

  lemma {:induction false} WordsLength(s: seq<nat>)
    ensures |EncodeU64s(s)| == 8 * |s|
  {
    hide LeBytes;
    if s != [] {
      WordsLength(s[1..]);
    }
  }

  lemma {:induction false} NarrowAt(e: seq<int>, off: nat, b: seq<int>, o: nat, c: seq<int>)
    requires BytesAt(e, off, b) && BytesAt(b, o, c)
    ensures BytesAt(e, off + o, c)
  {
    forall k | 0 <= k < |c|
      ensures e[off + o + k] == c[k]
    {
      assert e[off..off + |b|][o + k] == b[o..o + |c|][k];
    }
  }

  /** Word i of a run of words. */
  lemma {:induction false} WordOfRun(s: seq<nat>, i: nat)
    requires i < |s|
    ensures BytesAt(EncodeU64s(s), 8 * i, U64Bytes(s[i]))
  {
    hide U64Bytes, BytesAt;
    WordLength(s[0]);
    var rest := EncodeU64s(s[1..]);
    if i == 0 {
      StartsAt(U64Bytes(s[0]), rest);
    } else {
      WordOfRun(s[1..], i - 1);
      ShiftAt(U64Bytes(s[0]), rest, 8 * (i - 1), U64Bytes(s[i]));
    }
  }

  lemma {:induction false} StartsAt(a: seq<int>, rest: seq<int>)
    ensures BytesAt(a + rest, 0, a)
  {}

  lemma {:induction false} ShiftAt(a: seq<int>, rest: seq<int>, off: nat, c: seq<int>)
    requires BytesAt(rest, off, c)
    ensures BytesAt(a + rest, |a| + off, c)
  {
    forall k | 0 <= k < |c|
      ensures (a + rest)[|a| + off + k] == c[k]
    {
      assert rest[off..off + |c|][k] == rest[off + k];
    }
  }

  lemma {:induction false} WordsAt(e: seq<int>, off: nat, s: seq<nat>, i: nat)
    requires BytesAt(e, off, EncodeU64s(s)) && U64s(s) && i < |s|
    ensures U64At(e, off + 8 * i, s[i])
  {
    hide U64Bytes, EncodeU64s, U64At, BytesAt;
    WordOfRun(s, i);
    NarrowAt(e, off, EncodeU64s(s), 8 * i, U64Bytes(s[i]));
    WordAt(e, off + 8 * i, s[i]);
  }

  /** The table counts, in the order in which the source lists them. */
  predicate CountsAt(e: seq<int>, off: nat, c: TableCounts) {
    && U64At(e, off, c.cpu) && U64At(e, off + 8, c.lt) && U64At(e, off + 16, c.memw)
    && U64At(e, off + 24, c.memwAligned) && U64At(e, off + 32, c.load) && U64At(e, off + 40, c.mul)
    && U64At(e, off + 48, c.dvrm) && U64At(e, off + 56, c.shift) && U64At(e, off + 64, c.branch)
    && U64At(e, off + 72, c.memwRegister) && U64At(e, off + 80, c.eq) && U64At(e, off + 88, c.bytewise)
    && U64At(e, off + 96, c.store) && U64At(e, off + 104, c.cpu32) && U64At(e, off + 112, c.keccak)
    && U64At(e, off + 120, c.keccakRnd) && U64At(e, off + 128, c.ecsm) && U64At(e, off + 136, c.ecdas)
    && U64At(e, off + 144, c.hint) && U64At(e, off + 152, c.isWh)
  }

  predicate RangeAt(e: seq<int>, off: nat, r: PageRange) {
    U64At(e, off, r.base) && U64At(e, off + 8, r.count)
  }

  /** The part shared by monolithic and epoch statements, from `off` on. */
  predicate BodyAt(e: seq<int>, off: nat, b: Body) {
    var n := |b.publicOutput|;
    && BytesAt(e, off, b.digest) && U64At(e, off + 32, n) && BytesAt(e, off + 40, b.publicOutput)
    && CountsAt(e, off + 40 + n, b.counts) && U64At(e, off + 200 + n, b.privatePages)
    && BytesAt(e, off + 208 + n, [b.friDegree]) && U64At(e, off + 209 + n, |b.ranges|)
    && forall i | 0 <= i < |b.ranges| :: RangeAt(e, off + 217 + n + 16 * i, b.ranges[i])
  }

  lemma {:induction false} PairsAt(ranges: seq<PageRange>, i: nat)
    requires i < |ranges|
    ensures |Pairs(ranges)| == 2 * |ranges|
    ensures Pairs(ranges)[2 * i] == ranges[i].base && Pairs(ranges)[2 * i + 1] == ranges[i].count
  {
    PairsLength(ranges);
    PairsLength(ranges[1..]);
    if i > 0 {
      PairsAt(ranges[1..], i - 1);
    }
  }

  lemma {:induction false} PairsLength(ranges: seq<PageRange>)
    ensures |Pairs(ranges)| == 2 * |ranges|
  {
    if ranges != [] {
      PairsLength(ranges[1..]);
    }
  }

  lemma {:induction false} CountsPlaced(e: seq<int>, off: nat, c: TableCounts)
    requires BytesAt(e, off, EncodeU64s(InOrder(c))) && U64s(InOrder(c))
    ensures CountsAt(e, off, c)
  {
    var s := InOrder(c);
    hide BytesAt, EncodeU64s, U64At, U64s, InOrder;
    forall i: nat | i < TABLES
      ensures U64At(e, off + 8 * i, s[i])
    {
      WordsAt(e, off, s, i);
    }
    CountsListed(e, off, c);
  }

  lemma {:induction false} CountsListed(e: seq<int>, off: nat, c: TableCounts)
    requires forall i: nat | i < TABLES :: U64At(e, off + 8 * i, InOrder(c)[i])
    ensures CountsAt(e, off, c)
  {
    hide U64At;
    var s := InOrder(c);
    assert U64At(e, off + 8 * 0, s[0]) && U64At(e, off + 8 * 1, s[1]) && U64At(e, off + 8 * 2, s[2]);
    assert U64At(e, off + 8 * 3, s[3]) && U64At(e, off + 8 * 4, s[4]) && U64At(e, off + 8 * 5, s[5]);
    assert U64At(e, off + 8 * 6, s[6]) && U64At(e, off + 8 * 7, s[7]) && U64At(e, off + 8 * 8, s[8]);
    assert U64At(e, off + 8 * 9, s[9]) && U64At(e, off + 8 * 10, s[10]) && U64At(e, off + 8 * 11, s[11]);
    assert U64At(e, off + 8 * 12, s[12]) && U64At(e, off + 8 * 13, s[13]) && U64At(e, off + 8 * 14, s[14]);
    assert U64At(e, off + 8 * 15, s[15]) && U64At(e, off + 8 * 16, s[16]) && U64At(e, off + 8 * 17, s[17]);
    assert U64At(e, off + 8 * 18, s[18]) && U64At(e, off + 8 * 19, s[19]);
  }

  lemma {:induction false} RangesPlaced(e: seq<int>, off: nat, ranges: seq<PageRange>, i: nat)
    requires BytesAt(e, off, EncodeU64s(Pairs(ranges))) && U64s(Pairs(ranges)) && i < |ranges|
    ensures RangeAt(e, off + 16 * i, ranges[i])
  {
    hide BytesAt, EncodeU64s, U64At, U64s, Pairs;
    PairsAt(ranges, i);
    WordsAt(e, off, Pairs(ranges), 2 * i);
    WordsAt(e, off, Pairs(ranges), 2 * i + 1);
  }

  /** Chunks that hold a body from chunk 1 on, whatever follows it. */
  lemma {:induction false} BodyPlaced(tag: seq<int>, b: Body, more: seq<seq<int>>)
    requires ValidBody(b)
    ensures var chunks := [tag] + BodyChunks(b) + more;
            && BodyAt(Concat(chunks), |tag|, b)
            && Offset(chunks, 9) == |tag| + 217 + |b.publicOutput| + 16 * |b.ranges|
            && BytesAt(Concat(chunks), 0, tag)
  {
    hide Concat, U64Bytes, EncodeU64s, U64s, Pairs, InOrder, Offset, BodyChunks, BytesAt, BodyAt, ValidBody;
    var chunks := [tag] + BodyChunks(b) + more;
    DigestWidth(b);
    BodyOffsets(tag, b, more);
    BodyListed(tag, b, more);
    ChunkAt(chunks, 0);
    ChunkAt(chunks, 1);
    ChunkAt(chunks, 2);
    ChunkAt(chunks, 3);
    ChunkAt(chunks, 4);
    ChunkAt(chunks, 5);
    ChunkAt(chunks, 6);
    ChunkAt(chunks, 7);
    ChunkAt(chunks, 8);
    FieldsPlaced(Concat(chunks), |tag|, b);
  }

  lemma {:induction false} BodyListed(tag: seq<int>, b: Body, more: seq<seq<int>>)
    ensures var chunks := [tag] + BodyChunks(b) + more;
            && |chunks| >= 9 && chunks[0] == tag && chunks[1] == b.digest && chunks[2] == U64Bytes(|b.publicOutput|)
            && chunks[3] == b.publicOutput && chunks[4] == EncodeU64s(InOrder(b.counts))
            && chunks[5] == U64Bytes(b.privatePages) && chunks[6] == [b.friDegree]
            && chunks[7] == U64Bytes(|b.ranges|) && chunks[8] == EncodeU64s(Pairs(b.ranges))
  {
    hide U64Bytes, EncodeU64s, Pairs, InOrder;
  }

  lemma {:induction false} DigestWidth(b: Body)
    requires ValidBody(b)
    ensures |b.digest| == DIGEST_BYTES
  {}

  lemma {:induction false} FieldsPlaced(e: seq<int>, off: nat, b: Body)
    requires ValidBody(b)
    requires var n := |b.publicOutput|;
             && BytesAt(e, off, b.digest) && BytesAt(e, off + 32, U64Bytes(n)) && BytesAt(e, off + 40, b.publicOutput)
             && BytesAt(e, off + 40 + n, EncodeU64s(InOrder(b.counts)))
             && BytesAt(e, off + 200 + n, U64Bytes(b.privatePages)) && BytesAt(e, off + 208 + n, [b.friDegree])
             && BytesAt(e, off + 209 + n, U64Bytes(|b.ranges|))
             && BytesAt(e, off + 217 + n, EncodeU64s(Pairs(b.ranges)))
    ensures BodyAt(e, off, b)
  {
    hide BytesAt, U64At, U64Bytes, EncodeU64s, U64s, Pairs, InOrder, CountsAt, RangeAt;
    var n := |b.publicOutput|;
    WordAt(e, off + 32, n);
    CountsPlaced(e, off + 40 + n, b.counts);
    WordAt(e, off + 200 + n, b.privatePages);
    WordAt(e, off + 209 + n, |b.ranges|);
    forall i | 0 <= i < |b.ranges|
      ensures RangeAt(e, off + 217 + n + 16 * i, b.ranges[i])
    {
      RangesPlaced(e, off + 217 + n, b.ranges, i);
    }
  }

  lemma {:induction false} OffsetSum(chunks: seq<seq<int>>, i: nat)
    requires i < |chunks|
    ensures Offset(chunks, 0) == 0 && Offset(chunks, i + 1) == Offset(chunks, i) + |chunks[i]|
  {}

  lemma {:induction false} BodyOffsets(tag: seq<int>, b: Body, more: seq<seq<int>>)
    requires |b.digest| == DIGEST_BYTES
    ensures var chunks := [tag] + BodyChunks(b) + more;
            var n := |b.publicOutput|;
            && Offset(chunks, 0) == 0 && Offset(chunks, 1) == |tag| && Offset(chunks, 2) == |tag| + 32
            && Offset(chunks, 3) == |tag| + 40 && Offset(chunks, 4) == |tag| + 40 + n
            && Offset(chunks, 5) == |tag| + 200 + n && Offset(chunks, 6) == |tag| + 208 + n
            && Offset(chunks, 7) == |tag| + 209 + n && Offset(chunks, 8) == |tag| + 217 + n
            && Offset(chunks, 9) == |tag| + 217 + n + 16 * |b.ranges|
  {
    var chunks := [tag] + BodyChunks(b) + more;
    WordsLength(InOrder(b.counts));
    WordsLength(Pairs(b.ranges));
    PairsLength(b.ranges);
    hide LeBytes, EncodeU64s, Pairs, InOrder;
    assert |chunks[0]| == |tag| && |chunks[1]| == 32 && |chunks[2]| == 8 && |chunks[3]| == |b.publicOutput|;
    assert |chunks[4]| == 160 && |chunks[5]| == 8 && |chunks[6]| == 1 && |chunks[7]| == 8;
    assert |chunks[8]| == 16 * |b.ranges|;
    hide Offset;
    OffsetSum(chunks, 0);
    OffsetSum(chunks, 1);
    OffsetSum(chunks, 2);
    OffsetSum(chunks, 3);
    OffsetSum(chunks, 4);
    OffsetSum(chunks, 5);
    OffsetSum(chunks, 6);
    OffsetSum(chunks, 7);
    OffsetSum(chunks, 8);
  }

  /** Field by field, where a statement's bytes are. */
  ghost predicate LaidOut(s: Stmt, e: seq<int>) {
    match s
    case Monolithic(b) =>
      var t := |DomainTag()|;
      BytesAt(e, 0, DomainTag()) && BodyAt(e, t, b) && |e| == t + 217 + |b.publicOutput| + 16 * |b.ranges|
    case Epoch(b, epoch, isFinal) =>
      var t := |EpochTag()|;
      var end := t + 217 + |b.publicOutput| + 16 * |b.ranges|;
      && BytesAt(e, 0, EpochTag()) && BodyAt(e, t, b) && U64At(e, end, epoch)
      && BytesAt(e, end + 8, [if isFinal then 1 else 0]) && |e| == end + 9
    case Global(digest, numEpochs, privatePages, friDegree, bases) =>
      var t := |GlobalTag()|;
      && BytesAt(e, 0, GlobalTag()) && BytesAt(e, t, digest) && U64At(e, t + 32, numEpochs)
      && U64At(e, t + 40, privatePages) && BytesAt(e, t + 48, [friDegree]) && U64At(e, t + 49, |bases|)
      && (forall i | 0 <= i < |bases| :: U64At(e, t + 57 + 8 * i, bases[i]))
      && |e| == t + 57 + 8 * |bases|
  }

  /** Every field of every statement is at its place, and nothing else is encoded. */
  lemma {:induction false} Layout(s: Stmt)
    requires ValidStmt(s)
    ensures LaidOut(s, Encode(s))
  {
    match s
    case Monolithic(b) => LayoutMonolithic(b);
    case Epoch(b, epoch, isFinal) => LayoutEpoch(b, epoch, isFinal);
    case Global(digest, numEpochs, privatePages, friDegree, bases) =>
      LayoutGlobal(digest, numEpochs, privatePages, friDegree, bases);
  }

  lemma {:induction false} LayoutMonolithic(b: Body)
    requires ValidBody(b)
    ensures LaidOut(Monolithic(b), Encode(Monolithic(b)))
  {
    hide Concat, BodyAt, ValidBody, DomainTag, Offset;
    var chunks := [DomainTag()] + BodyChunks(b);
    BodyPlaced(DomainTag(), b, []);
    assert chunks + [] == chunks;
    WholeLength(chunks);
  }

  lemma {:induction false} LayoutEpoch(b: Body, epoch: nat, isFinal: bool)
    requires ValidBody(b) && epoch < I64
    ensures LaidOut(Epoch(b, epoch, isFinal), Encode(Epoch(b, epoch, isFinal)))
  {
    hide Concat, BodyAt, ValidBody, EpochTag, U64Bytes, BodyChunks, Offset, BytesAt, U64At;
    var more := [U64Bytes(epoch), [Flag(isFinal)]];
    BodyPlaced(EpochTag(), b, more);
    TailPlaced([EpochTag()] + BodyChunks(b), epoch, Flag(isFinal));
    BodyCount(EpochTag(), b);
  }

  lemma {:induction false} BodyCount(tag: seq<int>, b: Body)
    ensures |[tag] + BodyChunks(b)| == 9
  {}

  /** A word and a byte at the end. */
  lemma {:induction false} TailPlaced(front: seq<seq<int>>, v: nat, flag: int)
    requires v < I64
    ensures var chunks := front + [U64Bytes(v), [flag]];
            var e, end := Concat(chunks), Offset(chunks, |front|);
            U64At(e, end, v) && BytesAt(e, end + 8, [flag]) && |e| == end + 9
  {
    hide Concat, U64Bytes, Offset, U64At;
    var n, chunks := |front|, front + [U64Bytes(v), [flag]];
    assert |U64Bytes(v)| == 8 by { WordLength(v); }
    OffsetSum(chunks, n);
    OffsetSum(chunks, n + 1);
    ChunkAt(chunks, n);
    ChunkAt(chunks, n + 1);
    WordAt(Concat(chunks), Offset(chunks, n), v);
    WholeLength(chunks);
  }

  lemma {:induction false} WordLength(v: nat)
    ensures |U64Bytes(v)| == 8
  {}

  lemma {:induction false} LayoutGlobal(digest: seq<int>, numEpochs: nat, privatePages: nat, friDegree: nat,
                                        bases: seq<nat>)
    requires ValidStmt(Global(digest, numEpochs, privatePages, friDegree, bases))
    ensures var s := Global(digest, numEpochs, privatePages, friDegree, bases); LaidOut(s, Encode(s))
  {
    var chunks := [GlobalTag(), digest, U64Bytes(numEpochs), U64Bytes(privatePages), [friDegree],
                   U64Bytes(|bases|), EncodeU64s(bases)];
    hide Concat, U64Bytes, EncodeU64s, U64s, GlobalTag, Offset, BytesAt, U64At;
    var e, t := Concat(chunks), |GlobalTag()|;
    GlobalOffsets(GlobalTag(), digest, numEpochs, privatePages, friDegree, bases);
    ChunkAt(chunks, 0);
    ChunkAt(chunks, 1);
    ChunkAt(chunks, 2);
    ChunkAt(chunks, 3);
    ChunkAt(chunks, 4);
    ChunkAt(chunks, 5);
    ChunkAt(chunks, 6);
    WholeLength(chunks);
    WordAt(e, t + 32, numEpochs);
    WordAt(e, t + 40, privatePages);
    WordAt(e, t + 49, |bases|);
    forall i | 0 <= i < |bases|
      ensures U64At(e, t + 57 + 8 * i, bases[i])
    {
      WordsAt(e, t + 57, bases, i);
    }
  }

  lemma {:induction false} GlobalOffsets(tag: seq<int>, digest: seq<int>, numEpochs: nat, privatePages: nat,
                                         friDegree: nat, bases: seq<nat>)
    requires |digest| == DIGEST_BYTES
    ensures var chunks := [tag, digest, U64Bytes(numEpochs), U64Bytes(privatePages), [friDegree],
                           U64Bytes(|bases|), EncodeU64s(bases)];
            && Offset(chunks, 0) == 0 && Offset(chunks, 1) == |tag| && Offset(chunks, 2) == |tag| + 32
            && Offset(chunks, 3) == |tag| + 40 && Offset(chunks, 4) == |tag| + 48 && Offset(chunks, 5) == |tag| + 49
            && Offset(chunks, 6) == |tag| + 57 && Offset(chunks, 7) == |tag| + 57 + 8 * |bases|
  {
    WordsLength(bases);
    hide LeBytes, EncodeU64s;
    var chunks := [tag, digest, U64Bytes(numEpochs), U64Bytes(privatePages), [friDegree],
                   U64Bytes(|bases|), EncodeU64s(bases)];
    hide Offset;
    OffsetSum(chunks, 0);
    OffsetSum(chunks, 1);
    OffsetSum(chunks, 2);
    OffsetSum(chunks, 3);
    OffsetSum(chunks, 4);
    OffsetSum(chunks, 5);
    OffsetSum(chunks, 6);
  }
}
