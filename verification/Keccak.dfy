/**
  The three Keccak-256 sponges (streaming in place, fixed-shape pair, block
  buffered) against the sponge construction of section 4 of FIPS 202 with the
  pad10*1 rule of its section 5.1 and no suffix bits. The permutation is a
  parameter.
 */
module Keccak {
  import opened Lanes

  const RATE: nat := 136
  const RATE_LANES: nat := 17
  const DELIMITER: bv8 := 0x01
  const FINAL_PAD_LANE_BIT: bv64 := 0x8000_0000_0000_0000

  // ---------------------------------------------------------------------
  // The state as bytes
  // ---------------------------------------------------------------------

  function ByteAt(s: Lanes, k: nat): bv8
    requires k < STATE_BYTES
  {
    LaneByte(s[k / 8], k % 8)
  }

  function Unpack(s: Lanes): (b: seq<bv8>)
    ensures |b| == STATE_BYTES && forall k | 0 <= k < STATE_BYTES :: b[k] == ByteAt(s, k)
  {
    seq(STATE_BYTES, k requires 0 <= k < STATE_BYTES => ByteAt(s, k))
  }

  function Pack(b: seq<bv8>): Lanes
    requires |b| == STATE_BYTES
  {
    seq(STATE_LANES, i requires 0 <= i < STATE_LANES => FromLeBytes(b[8 * i..8 * i + 8]))
  }

  lemma {:induction false} LaneSlice(s: Lanes, i: nat)
    requires i < STATE_LANES
    ensures Unpack(s)[8 * i..8 * i + 8] == LaneBytes(s[i])
  {
    hide LaneByte, ByteAt;
    var b := Unpack(s);
    forall k: nat | k < 8
      ensures b[8 * i..8 * i + 8][k] == LaneByte(s[i], k)
    {
      ByteOfLane(s, i, k);
      assert b[8 * i + k] == ByteAt(s, 8 * i + k);
    }
  }

  lemma {:induction false} ByteOfLane(s: Lanes, i: nat, k: nat)
    requires i < STATE_LANES && k < 8
    ensures ByteAt(s, 8 * i + k) == LaneByte(s[i], k)
  {
    hide LaneByte;
    assert (8 * i + k) / 8 == i && (8 * i + k) % 8 == k;
  }

  lemma {:induction false} PackUnpack(s: Lanes)
    ensures Pack(Unpack(s)) == s
  {
    hide Unpack, FromLeBytes, LaneBytes;
    var b := Unpack(s);
    forall i | 0 <= i < STATE_LANES
      ensures Pack(b)[i] == s[i]
    {
      LaneSlice(s, i);
      FromOwnBytes(s[i]);
    }
  }

  // ---------------------------------------------------------------------
  // The reference sponge, on bytes
  // ---------------------------------------------------------------------

  function ZeroState(): (s: seq<bv8>)
    ensures |s| == STATE_BYTES
  {
    seq(STATE_BYTES, _ => 0)
  }

  /** The state with a block of at most a full state XORed into its front. */
  function XorInto(st: seq<bv8>, block: seq<bv8>): (r: seq<bv8>)
    requires |st| == STATE_BYTES && |block| <= STATE_BYTES
    ensures |r| == STATE_BYTES
  {
    seq(STATE_BYTES, k requires 0 <= k < STATE_BYTES => if k < |block| then Xor8(st[k], block[k]) else st[k])
  }

  /** XORing a block in twice takes it out again. */
  lemma {:induction false} XorIntoUndoes(st: seq<bv8>, block: seq<bv8>)
    requires |st| == STATE_BYTES && |block| <= STATE_BYTES
    ensures XorInto(XorInto(st, block), block) == st
  {
    forall k | 0 <= k < |block|
      ensures Xor8(Xor8(st[k], block[k]), block[k]) == st[k]
    {
      XorCancels(st[k], block[k]);
    }
    hide Xor8;
  }

  lemma {:induction false} XorCancels(a: bv8, b: bv8)
    ensures Xor8(Xor8(a, b), b) == a
  {}

  function Permute(f: Lanes -> Lanes, st: seq<bv8>): (r: seq<bv8>)
    requires |st| == STATE_BYTES
    ensures |r| == STATE_BYTES
  {
    Unpack(f(Pack(st)))
  }

  /** The state after absorbing all whole blocks of `m`. */
  function Absorb(f: Lanes -> Lanes, m: seq<bv8>): (st: seq<bv8>)
    requires |m| % RATE == 0
    ensures |st| == STATE_BYTES
    decreases |m|
  {
    if m == [] then ZeroState()
    else
      var n := |m| - RATE;
      Permute(f, XorInto(Absorb(f, m[..n]), m[n..]))
  }

  /** The padding of an n-byte message, as bytes. */
  function PadBytes(n: nat): (p: seq<bv8>)
    ensures |p| == RATE - n % RATE
  {
    var q := RATE - n % RATE;
    if q == 1 then [0x81] else [0x01] + seq(q - 2, _ => 0) + [0x80]
  }

  /** The 32-byte digest. */
  function Digest(f: Lanes -> Lanes, m: seq<bv8>): seq<bv8> {
    Absorb(f, m + PadBytes(|m|))[..32]
  }

  // ---------------------------------------------------------------------
  // The padding is pad10*1 on bits
  // ---------------------------------------------------------------------

  function Mask(j: nat): bv8
    requires j < 8
  {
    match j
    case 0 => 0x01
    case 1 => 0x02
    case 2 => 0x04
    case 3 => 0x08
    case 4 => 0x10
    case 5 => 0x20
    case 6 => 0x40
    case 7 => 0x80
  }

  /** Bit `j` of a byte. */
  predicate BitAt(b: bv8, j: nat)
    requires j < 8
  {
    b & Mask(j) != 0
  }

  /** The bits of a byte in FIPS 202 order, least significant first. */
  function BitsOfByte(b: bv8): (s: seq<bool>)
    ensures |s| == 8
  {
    seq(8, j requires 0 <= j < 8 => BitAt(b, j))
  }

  function BitsOf(bytes: seq<bv8>): seq<bool> {
    if bytes == [] then [] else BitsOfByte(bytes[0]) + BitsOf(bytes[1..])
  }

  function Zeros(n: nat): seq<bool> { seq(n, _ => false) }

  /** pad10*1(x, m): a one, the fewest zeros that reach a multiple of x, a one. */
  function Pad101(x: nat, m: nat): seq<bool>
    requires x >= 1
  {
    [true] + Zeros((-(m as int) - 2) % x) + [true]
  }

  lemma {:induction false} BitsOfZeros(n: nat)
    ensures BitsOf(seq(n, _ => 0)) == Zeros(8 * n)
  {
    var s: seq<bv8> := seq(n, _ => 0);
    if n > 0 {
      BitsOfZeros(n - 1);
      assert s[1..] == seq(n - 1, _ => 0);
      assert BitsOfByte(0) == Zeros(8);
      assert Zeros(8 * n) == Zeros(8) + Zeros(8 * (n - 1));
    }
  }

  lemma {:induction false} BitsOfAppend(a: seq<bv8>, b: seq<bv8>)
    ensures BitsOf(a + b) == BitsOf(a) + BitsOf(b)
  {
    hide BitsOfByte;
    if a == [] {
      assert a + b == b;
    } else {
      BitsOfAppend(a[1..], b);
      assert (a + b)[1..] == a[1..] + b && (a + b)[0] == a[0];
      var x, y, z := BitsOfByte(a[0]), BitsOf(a[1..]), BitsOf(b);
      assert BitsOf(a + b) == x + (y + z);
      assert x + (y + z) == (x + y) + z;
    }
  }

  lemma {:induction false} BitsOfOne(b: bv8)
    ensures BitsOf([b]) == BitsOfByte(b)
  {
    assert BitsOf([b]) == BitsOfByte(b) + BitsOf([b][1..]);
  }

  /** The padding bytes spell pad10*1 at rate 1088 for every message length. */
  lemma {:induction false} PaddingIsPad101(n: nat)
    ensures BitsOf(PadBytes(n)) == Pad101(8 * RATE, 8 * n)
  {
    var q := RATE - n % RATE;
    PadLength(n);
    if q == 1 {
      BitsOfOne(0x81);
      assert BitsOfByte(0x81) == [true] + Zeros(6) + [true];
    } else {
      var z: seq<bv8> := seq(q - 2, _ => 0);
      BitsOfAppend([0x01] + z, [0x80]);
      BitsOfAppend([0x01], z);
      BitsOfOne(0x01);
      BitsOfOne(0x80);
      BitsOfZeros(q - 2);
      PadShape(q);
    }
  }

  lemma {:induction false} PadLength(n: nat)
    ensures (-(8 * n) - 2) % (8 * RATE) == 8 * (RATE - n % RATE) - 2
  {
    var d, r := n / RATE, n % RATE;
    assert -(8 * n) - 2 == 8 * RATE * (-d - 1) + (8 * (RATE - r) - 2);
  }

  lemma {:induction false} PadShape(q: nat)
    requires q >= 2
    ensures BitsOfByte(0x01) + Zeros(8 * (q - 2)) + BitsOfByte(0x80) == [true] + Zeros(8 * q - 2) + [true]
  {
    assert BitsOfByte(0x01) == [true] + Zeros(7);
    assert BitsOfByte(0x80) == Zeros(7) + [true];
    assert Zeros(8 * q - 2) == Zeros(7) + Zeros(8 * (q - 2)) + Zeros(7);
  }

  // ---------------------------------------------------------------------
  // The reference sponge is the one of FIPS 202, on bits
  // ---------------------------------------------------------------------

  const WIDTH: nat := 1600
  const BIT_RATE: nat := 1088

  /** A state as a string of 1600 bits. */
  type BitState = s: seq<bool> | |s| == WIDTH witness Zeros(WIDTH)

  function XorBits(a: seq<bool>, b: seq<bool>): seq<bool>
    requires |a| == |b|
  {
    seq(|a|, i requires 0 <= i < |a| => a[i] != b[i])
  }

  /** Each block, extended by zeros to the width, is XORed in before the permutation. */
  function AbsorbBits(fb: BitState -> BitState, m: seq<bool>): BitState
    decreases |m|
  {
    if |m| < BIT_RATE then Zeros(WIDTH)
    else
      var n := |m| - BIT_RATE;
      fb(XorBits(AbsorbBits(fb, m[..n]), m[n..] + Zeros(WIDTH - BIT_RATE)))
  }

  /** Keccak[512] with 256 bits of output, section 4 and section 5 of FIPS 202. */
  function Sponge(fb: BitState -> BitState, message: seq<bool>): seq<bool> {
    AbsorbBits(fb, message + Pad101(BIT_RATE, |message|))[..256]
  }

  lemma {:induction false} BitsLength(bytes: seq<bv8>)
    ensures |BitsOf(bytes)| == 8 * |bytes|
  {
    hide BitsOfByte;
    if bytes != [] {
      BitsLength(bytes[1..]);
    }
  }

  function StateBits(st: seq<bv8>): BitState
    requires |st| == STATE_BYTES
  {
    BitsLength(st);
    BitsOf(st)
  }

  /** `fb` is the permutation `f`, read on bits. */
  ghost predicate OnBits(f: Lanes -> Lanes, fb: BitState -> BitState) {
    forall st: seq<bv8> | |st| == STATE_BYTES :: StateBits(Permute(f, st)) == fb(StateBits(st))
  }

  lemma {:induction false} BitsOfSlice(m: seq<bv8>, n: nat)
    requires n <= |m|
    ensures |BitsOf(m)| == 8 * |m| && BitsOf(m)[..8 * n] == BitsOf(m[..n]) && BitsOf(m)[8 * n..] == BitsOf(m[n..])
  {
    hide BitsOf;
    assert m == m[..n] + m[n..];
    BitsOfAppend(m[..n], m[n..]);
    BitsLength(m[..n]);
    BitsLength(m);
  }

  lemma {:induction false} BitXor(a: bv8, b: bv8, j: nat)
    requires j < 8
    ensures BitAt(Xor8(a, b), j) == (BitAt(a, j) != BitAt(b, j))
  {
    hide Mask, Xor8;
    MaskIsBit(j);
    MaskXor(a, b, Mask(j));
  }

  lemma {:induction false} MaskIsBit(j: nat)
    requires j < 8
    ensures Mask(j) & (Mask(j) - 1) == 0
  {}

  lemma {:induction false} MaskXor(a: bv8, b: bv8, m: bv8)
    requires m & (m - 1) == 0
    ensures (Xor8(a, b) & m != 0) == ((a & m != 0) != (b & m != 0))
  {}

  lemma {:induction false} ByteXorBits(a: bv8, b: bv8)
    ensures BitsOfByte(Xor8(a, b)) == XorBits(BitsOfByte(a), BitsOfByte(b))
  {
    forall j | 0 <= j < 8
      ensures BitAt(Xor8(a, b), j) == (BitAt(a, j) != BitAt(b, j))
    {
      BitXor(a, b, j);
    }
    hide BitAt, Xor8;
  }

  lemma {:induction false} XorBitsAppend(a: seq<bool>, b: seq<bool>, c: seq<bool>, d: seq<bool>)
    requires |a| == |b| && |c| == |d|
    ensures XorBits(a + c, b + d) == XorBits(a, b) + XorBits(c, d)
  {}

  /** Bytewise XOR of equally long strings is bitwise. */
  lemma {:induction false} BytesXorBits(a: seq<bv8>, b: seq<bv8>)
    requires |a| == |b|
    ensures |BitsOf(a)| == |BitsOf(b)|
    ensures BitsOf(seq(|a|, k requires 0 <= k < |a| => Xor8(a[k], b[k]))) == XorBits(BitsOf(a), BitsOf(b))
  {
    var c := seq(|a|, k requires 0 <= k < |a| => Xor8(a[k], b[k]));
    BitsLength(a);
    BitsLength(b);
    if a != [] {
      BytesXorBits(a[1..], b[1..]);
      assert c[1..] == seq(|a[1..]|, k requires 0 <= k < |a[1..]| => Xor8(a[1..][k], b[1..][k]));
      ByteXorBits(a[0], b[0]);
      hide Xor8, BitsOfByte, XorBits;
      BitsLength(a[1..]);
      BitsLength(b[1..]);
      XorBitsAppend(BitsOfByte(a[0]), BitsOfByte(b[0]), BitsOf(a[1..]), BitsOf(b[1..]));
    }
  }

  lemma {:induction false} PaddedBlock(st: seq<bv8>, block: seq<bv8>)
    requires |st| == STATE_BYTES && |block| == RATE
    ensures XorInto(st, block)
         == (var wide := block + seq(STATE_BYTES - RATE, _ => 0);
             seq(|st|, k requires 0 <= k < |st| => Xor8(st[k], wide[k])))
  {
    forall k | RATE <= k < STATE_BYTES
      ensures Xor8(st[k], 0) == st[k]
    {
      XorZero(st[k]);
    }
    hide Xor8;
  }

  lemma {:induction false} XorIntoBits(st: seq<bv8>, block: seq<bv8>)
    requires |st| == STATE_BYTES && |block| == RATE
    ensures |BitsOf(block)| == BIT_RATE
    ensures StateBits(XorInto(st, block)) == XorBits(StateBits(st), BitsOf(block) + Zeros(WIDTH - BIT_RATE))
  {
    hide BitsOf, XorInto, XorBits, Xor8;
    var zeros: seq<bv8> := seq(STATE_BYTES - RATE, _ => 0);
    BitsLength(block);
    PaddedBlock(st, block);
    BytesXorBits(st, block + zeros);
    BitsOfAppend(block, zeros);
    BitsOfZeros(STATE_BYTES - RATE);
  }

  lemma {:induction false} AbsorbIsBits(f: Lanes -> Lanes, fb: BitState -> BitState, m: seq<bv8>)
    requires OnBits(f, fb) && |m| % RATE == 0
    ensures StateBits(Absorb(f, m)) == AbsorbBits(fb, BitsOf(m))
    decreases |m|
  {
    hide BitsOf, OnBits, XorInto, XorBits, Permute, Absorb, AbsorbBits, StateBits;
    if m == [] {
      EmptyAbsorbBits(f, fb);
    } else {
      var n := |m| - RATE;
      ShorterByRate(|m|);
      AbsorbIsBits(f, fb, m[..n]);
      AbsorbStep(f, m);
      AbsorbBitsStep(fb, m);
      XorIntoBits(Absorb(f, m[..n]), m[n..]);
      PermuteBits(f, fb, XorInto(Absorb(f, m[..n]), m[n..]));
    }
  }

  lemma {:induction false} ShorterByRate(n: nat)
    requires n > 0 && n % RATE == 0
    ensures n >= RATE && (n - RATE) % RATE == 0
  {}

  lemma {:induction false} EmptyAbsorbBits(f: Lanes -> Lanes, fb: BitState -> BitState)
    ensures StateBits(Absorb(f, [])) == AbsorbBits(fb, BitsOf([]))
  {
    BitsOfZeros(STATE_BYTES);
  }

  lemma {:induction false} AbsorbStep(f: Lanes -> Lanes, m: seq<bv8>)
    requires |m| >= RATE && |m| % RATE == 0 && (|m| - RATE) % RATE == 0
    ensures Absorb(f, m) == Permute(f, XorInto(Absorb(f, m[..|m| - RATE]), m[|m| - RATE..]))
  {
    hide Permute, XorInto;
  }

  lemma {:induction false} AbsorbBitsStep(fb: BitState -> BitState, m: seq<bv8>)
    requires |m| >= RATE
    ensures var n := |m| - RATE;
            && |BitsOf(m[n..])| == BIT_RATE
            && AbsorbBits(fb, BitsOf(m))
               == fb(XorBits(AbsorbBits(fb, BitsOf(m[..n])), BitsOf(m[n..]) + Zeros(WIDTH - BIT_RATE)))
  {
    hide BitsOf, XorBits;
    BitsOfSlice(m, |m| - RATE);
    BitsLength(m[|m| - RATE..]);
  }

  lemma {:induction false} PermuteBits(f: Lanes -> Lanes, fb: BitState -> BitState, st: seq<bv8>)
    requires OnBits(f, fb) && |st| == STATE_BYTES
    ensures StateBits(Permute(f, st)) == fb(StateBits(st))
  {
    hide Permute, StateBits;
  }

  /** The digest is the FIPS 202 sponge on the message's bits, for every permutation and its reading on bits. */
  lemma {:induction false} DigestIsSponge(f: Lanes -> Lanes, fb: BitState -> BitState, m: seq<bv8>)
    requires OnBits(f, fb)
    ensures BitsOf(Digest(f, m)) == Sponge(fb, BitsOf(m))
  {
    hide BitsOf, OnBits, Absorb, PadBytes, Pad101, AbsorbBits;
    var padded := m + PadBytes(|m|);
    BitsLength(m);
    BitsLength(PadBytes(|m|));
    PaddingIsPad101(|m|);
    BitsOfAppend(m, PadBytes(|m|));
    PaddedLength(|m|);
    AbsorbIsBits(f, fb, padded);
    BitsOfSlice(Absorb(f, padded), 32);
  }

  lemma {:induction false} PaddedLength(n: nat)
    ensures (n + (RATE - n % RATE)) % RATE == 0
  {
    assert n == RATE * (n / RATE) + n % RATE;
  }

  // ---------------------------------------------------------------------
  // What XORing a byte or a lane does to the bytes
  // ---------------------------------------------------------------------

  lemma {:induction false} XorByte(s: Lanes, off: nat, b: bv8, k: nat)
    requires off < STATE_BYTES && k < STATE_BYTES
    ensures ByteAt(s[off / 8 := Xor64(s[off / 8], ByteLane(b, off % 8))], k)
         == if k == off then Xor8(ByteAt(s, k), b) else ByteAt(s, k)
  {
    hide LaneByte, ByteLane, Xor8, Xor64;
    if k / 8 == off / 8 {
      XorByteInLane(s[off / 8], b, off % 8, k % 8);
    }
  }

  lemma {:induction false} XorLane(s: Lanes, base: nat, c: seq<bv8>, k: nat)
    requires base < STATE_LANES && |c| == 8 && k < STATE_BYTES
    ensures ByteAt(s[base := Xor64(s[base], FromLeBytes(c))], k)
         == if k / 8 == base then Xor8(ByteAt(s, k), c[k % 8]) else ByteAt(s, k)
  {
    hide LaneByte, FromLeBytes, Xor8, Xor64;
    if k / 8 == base {
      XorBytesInLane(s[base], c, k % 8);
    }
  }

  /** The lanes hold `st` with `block` XORed in. */
  ghost predicate Holds(s: Lanes, st: seq<bv8>, block: seq<bv8>)
    requires |st| == STATE_BYTES && |block| <= STATE_BYTES
  {
    forall k: nat | k < STATE_BYTES :: ByteAt(s, k) == if k < |block| then Xor8(st[k], block[k]) else st[k]
  }

  lemma {:induction false} HoldsByte(s: Lanes, st: seq<bv8>, block: seq<bv8>, b: bv8)
    requires |st| == STATE_BYTES && |block| < STATE_BYTES && Holds(s, st, block)
    ensures var off := |block|;
            Holds(s[off / 8 := Xor64(s[off / 8], ByteLane(b, off % 8))], st, block + [b])
  {
    hide ByteAt, Xor8, Xor64, ByteLane, FromLeBytes;
    var off := |block|;
    forall k: nat | k < STATE_BYTES
      ensures ByteAt(s[off / 8 := Xor64(s[off / 8], ByteLane(b, off % 8))], k)
           == if k < |block + [b]| then Xor8(st[k], (block + [b])[k]) else st[k]
    {
      XorByte(s, off, b, k);
    }
  }

  lemma {:induction false} HoldsLane(s: Lanes, st: seq<bv8>, block: seq<bv8>, c: seq<bv8>)
    requires |st| == STATE_BYTES && |block| % 8 == 0 && |c| == 8 && |block| + 8 <= STATE_BYTES
    requires Holds(s, st, block)
    ensures var base := |block| / 8;
            Holds(s[base := Xor64(s[base], FromLeBytes(c))], st, block + c)
  {
    hide ByteAt, Xor8, Xor64, ByteLane, FromLeBytes;
    var base := |block| / 8;
    forall k: nat | k < STATE_BYTES
      ensures ByteAt(s[base := Xor64(s[base], FromLeBytes(c))], k)
           == if k < |block + c| then Xor8(st[k], (block + c)[k]) else st[k]
    {
      XorLane(s, base, c, k);
    }
  }

  /** Permuting a full block yields the reference state of the longer message. */
  lemma {:induction false} HoldsPermute(f: Lanes -> Lanes, s: Lanes, m: seq<bv8>, block: seq<bv8>)
    requires |m| % RATE == 0 && |block| == RATE && Holds(s, Absorb(f, m), block)
    ensures Holds(f(s), Absorb(f, m + block), [])
  {
    var st := XorInto(Absorb(f, m), block);
    assert Unpack(s) == st;
    PackUnpack(s);
    assert (m + block)[..|m|] == m && (m + block)[|m|..] == block;
    assert Absorb(f, m + block) == Unpack(f(s));
  }

  // ---------------------------------------------------------------------
  // Block-buffered sponge
  // ---------------------------------------------------------------------

  /** XORs a rate-sized block into the first 17 lanes. */
  method AbsorbBlock(state: Lanes, block: seq<bv8>, ghost st: seq<bv8>) returns (s: Lanes)
    requires |block| == RATE && |st| == STATE_BYTES && Holds(state, st, [])
    ensures Holds(s, st, block)
  {
    hide Holds, FromLeBytes, Xor64;
    s := state;
    assert block[..0] == [];
    for i := 0 to RATE_LANES
      invariant Holds(s, st, block[..8 * i])
    {
      var chunk := block[8 * i..8 * i + 8];
      HoldsLane(s, st, block[..8 * i], chunk);
      assert block[..8 * i] + chunk == block[..8 * (i + 1)];
      s := s[i := Xor64(s[i], FromLeBytes(chunk))];
    }
    assert block[..8 * RATE_LANES] == block;
  }

  /** The first four lanes, little-endian. */
  method Squeeze32(state: Lanes, ghost st: seq<bv8>) returns (out: seq<bv8>)
    requires |st| == STATE_BYTES && Holds(state, st, [])
    ensures out == st[..32]
  {
    out := [];
    for i := 0 to 4
      invariant out == st[..8 * i]
    {
      hide Holds, LaneBytes;
      HeldLane(state, st, i);
      assert st[..8 * (i + 1)] == st[..8 * i] + st[8 * i..8 * i + 8];
      out := out + LaneBytes(state[i]);
    }
  }

  lemma {:induction false} HeldLane(state: Lanes, st: seq<bv8>, i: nat)
    requires |st| == STATE_BYTES && Holds(state, st, []) && i < STATE_LANES
    ensures LaneBytes(state[i]) == st[8 * i..8 * i + 8]
  {
    hide LaneByte;
    LaneSlice(state, i);
    assert Unpack(state) == st;
  }

  lemma {:induction false} ZeroHolds()
    ensures Holds(ZeroLanes(), ZeroState(), [])
  {
    assert forall k: nat | k < 8 :: LaneByte(0, k) == 0;
  }

  /** The message's tail with its padding is the last rate-sized block. */
  lemma {:induction false} LastBlock(m: seq<bv8>, n: nat)
    requires n <= |m| && |m| - n < RATE && n % RATE == 0
    ensures |m[n..] + PadBytes(|m|)| == RATE
    ensures m + PadBytes(|m|) == m[..n] + (m[n..] + PadBytes(|m|))
  {
    assert |m| % RATE == |m| - n by { TailLength(|m|, n); }
    assert m == m[..n] + m[n..];
  }

  lemma {:induction false} TailLength(len: nat, n: nat)
    requires n <= len && len - n < RATE && n % RATE == 0
    ensures len % RATE == len - n && len / RATE == n / RATE
  {
    var d := n / RATE;
    assert len == RATE * d + (len - n);
  }

  lemma {:induction false} PadAsXor(tail: seq<bv8>, n: nat)
    requires |tail| == n % RATE
    ensures var z: seq<bv8> := seq(RATE - |tail|, _ => 0);
            var b := (tail + z)[|tail| := Xor8((tail + z)[|tail|], 0x01)];
            b[RATE - 1 := Xor8(b[RATE - 1], 0x80)] == tail + PadBytes(n)
  {
    assert Xor8(0, 0x01) == 0x01 && Xor8(0x01, 0x80) == 0x81 && Xor8(0, 0x80) == 0x80;
  }

  /** One block at a time, the padded last block built in a buffer. */
  method Keccak256WithPermute(f: Lanes -> Lanes, input: seq<bv8>) returns (output: seq<bv8>, permutations: nat)
    ensures output == Digest(f, input)
    ensures permutations == |input| / RATE + 1
  {
    hide Holds, Absorb, PadBytes;
    var state: Lanes := ZeroLanes();
    var offset := 0;
    permutations := 0;
    ZeroHolds();
    EmptyAbsorb(f);
    assert input[..0] == [];
    while |input| - offset >= RATE
      invariant offset <= |input| && offset == RATE * permutations
      invariant Holds(state, Absorb(f, input[..offset]), [])
    {
      var block := input[offset..offset + RATE];
      state := AbsorbBlock(state, block, Absorb(f, input[..offset]));
      HoldsPermute(f, state, input[..offset], block);
      assert input[..offset] + block == input[..offset + RATE];
      state := f(state);
      permutations := permutations + 1;
      offset := offset + RATE;
    }
    TailLength(|input|, offset);
    LastBlock(input, offset);
    var tail := input[offset..];
    var last: seq<bv8> := tail + seq(RATE - |tail|, _ => 0);
    PadAsXor(tail, |input|);
    last := last[|tail| := Xor8(last[|tail|], 0x01)];
    last := last[RATE - 1 := Xor8(last[RATE - 1], 0x80)];
    state := AbsorbBlock(state, last, Absorb(f, input[..offset]));
    HoldsPermute(f, state, input[..offset], last);
    state := f(state);
    permutations := permutations + 1;
    output := Squeeze32(state, Absorb(f, input + PadBytes(|input|)));
  }

  lemma {:induction false} EmptyAbsorb(f: Lanes -> Lanes)
    ensures Absorb(f, []) == ZeroState()
  {}

  // ---------------------------------------------------------------------
  // Padding in place
  // ---------------------------------------------------------------------

  /** The state after the two padding XORs of `finalize`. */
  function Padded(s: Lanes, off: nat): Lanes
    requires off < RATE
  {
    var s1 := s[off / 8 := Xor64(s[off / 8], ByteLane(DELIMITER, off % 8))];
    s1[RATE_LANES - 1 := Xor64(s1[RATE_LANES - 1], FINAL_PAD_LANE_BIT)]
  }

  lemma {:induction false} PaddedByte(s: Lanes, off: nat, k: nat)
    requires off < RATE && k < STATE_BYTES
    ensures var b := if k == off then Xor8(ByteAt(s, k), 0x01) else ByteAt(s, k);
            ByteAt(Padded(s, off), k) == if k == RATE - 1 then Xor8(b, 0x80) else b
  {
    assert ByteLane(0x80, 7) == FINAL_PAD_LANE_BIT;
    hide ByteLane, Xor8, Xor64, ByteAt;
    var s1: Lanes := s[off / 8 := Xor64(s[off / 8], ByteLane(DELIMITER, off % 8))];
    XorByte(s, off, DELIMITER, k);
    XorByte(s1, RATE - 1, 0x80, k);
  }

  lemma {:induction false} XorTwice(b: bv8)
    ensures Xor8(Xor8(b, 0x01), 0x80) == Xor8(b, 0x81)
  {}

  lemma {:induction false} PaddedHolds(s: Lanes, st: seq<bv8>, tail: seq<bv8>, n: nat)
    requires |st| == STATE_BYTES && |tail| == n % RATE && Holds(s, st, tail)
    ensures Holds(Padded(s, |tail|), st, tail + PadBytes(n))
  {
    hide Padded, ByteAt, Xor8;
    var off := |tail|;
    var block := tail + PadBytes(n);
    forall k: nat | k < STATE_BYTES
      ensures ByteAt(Padded(s, off), k) == if k < |block| then Xor8(st[k], block[k]) else st[k]
    {
      PaddedByte(s, off, k);
      XorTwice(st[k]);
      XorZero(st[k]);
    }
  }

  // ---------------------------------------------------------------------
  // Fixed-shape pair
  // ---------------------------------------------------------------------

  /** The eight data lanes of two 32-byte nodes. */
  method LoadPair(left: seq<bv8>, right: seq<bv8>) returns (state: Lanes)
    requires |left| == |right| == 32
    ensures Holds(state, ZeroState(), left + right)
  {
    NoPairLanes(left, right);
    hide FromLeBytes, Holds, PairLane;
    state := ZeroLanes();
    for i := 0 to 4
      invariant forall j | 0 <= j < STATE_LANES :: state[j] == PairLane(left, right, i, j)
    {
      PairLaneStep(left, right, i, state);
      state := state[i := FromLeBytes(left[8 * i..8 * i + 8])];
      state := state[4 + i := FromLeBytes(right[8 * i..8 * i + 8])];
    }
    PairHolds(left, right, state);
  }

  /** Two 32-byte nodes in one padded block. */
  method Keccak256Pair(f: Lanes -> Lanes, left: seq<bv8>, right: seq<bv8>)
      returns (output: seq<bv8>, permutations: nat)
    requires |left| == |right| == 32
    ensures output == Digest(f, left + right)
    ensures permutations == 64 / RATE + 1
  {
    hide Holds, Absorb, Xor64, PadBytes, Padded, ZeroState;
    var state := LoadPair(left, right);
    ghost var m := left + right;
    assert 64 % RATE == 64;
    PaddedHolds(state, ZeroState(), m, 64);
    PaddedAtWordEight(state);
    LastBlock(m, 0);
    EmptyAbsorb(f);
    state := state[8 := Xor64(state[8], DELIMITER as bv64)];
    state := state[RATE_LANES - 1 := Xor64(state[RATE_LANES - 1], FINAL_PAD_LANE_BIT)];
    assert [] + (m + PadBytes(64)) == m + PadBytes(64);
    HoldsPermute(f, state, [], m + PadBytes(64));
    state := f(state);
    output := Squeeze32(state, Absorb(f, m + PadBytes(64)));
    permutations := 1;
  }

  lemma {:induction false} PaddedAtWordEight(s: Lanes)
    ensures var s1 := s[8 := Xor64(s[8], DELIMITER as bv64)];
            Padded(s, 64) == s1[RATE_LANES - 1 := Xor64(s1[RATE_LANES - 1], FINAL_PAD_LANE_BIT)]
  {
    hide Xor64;
    assert 64 / 8 == 8 && 64 % 8 == 0;
  }

  function PairLane(left: seq<bv8>, right: seq<bv8>, i: nat, j: nat): bv64
    requires |left| == |right| == 32 && i <= 4 && j < STATE_LANES
  {
    if j < i then FromLeBytes(left[8 * j..8 * j + 8])
    else if 4 <= j < 4 + i then FromLeBytes(right[8 * (j - 4)..8 * (j - 4) + 8])
    else 0
  }

  lemma {:induction false} NoPairLanes(left: seq<bv8>, right: seq<bv8>)
    requires |left| == |right| == 32
    ensures forall j | 0 <= j < STATE_LANES :: PairLane(left, right, 0, j) == 0
  {
    hide FromLeBytes;
  }

  lemma {:induction false} PairLaneStep(left: seq<bv8>, right: seq<bv8>, i: nat, s: Lanes)
    requires |left| == |right| == 32 && i < 4
    requires forall j | 0 <= j < STATE_LANES :: s[j] == PairLane(left, right, i, j)
    ensures var t := s[i := FromLeBytes(left[8 * i..8 * i + 8])][4 + i := FromLeBytes(right[8 * i..8 * i + 8])];
            forall j | 0 <= j < STATE_LANES :: t[j] == PairLane(left, right, i + 1, j)
  {
    hide FromLeBytes;
  }

  lemma {:induction false} PairHolds(left: seq<bv8>, right: seq<bv8>, s: Lanes)
    requires |left| == |right| == 32
    requires forall j | 0 <= j < STATE_LANES :: s[j] == PairLane(left, right, 4, j)
    ensures Holds(s, ZeroState(), left + right)
  {
    var m := left + right;
    forall k: nat | k < STATE_BYTES
      ensures ByteAt(s, k) == if k < 64 then Xor8(0, m[k]) else 0
    {
      PairByte(left, right, s[k / 8], k);
    }
  }

  lemma {:induction false} PairByte(left: seq<bv8>, right: seq<bv8>, l: bv64, k: nat)
    requires |left| == |right| == 32 && k < STATE_BYTES && l == PairLane(left, right, 4, k / 8)
    ensures LaneByte(l, k % 8) == if k < 64 then Xor8(0, (left + right)[k]) else 0
  {
    hide LaneByte, FromLeBytes, Xor8;
    var j := k / 8;
    if k < 32 {
      LaneByteOfBytes(left[8 * j..8 * j + 8], k % 8);
      ZeroXor(left[k]);
    } else if k < 64 {
      LaneByteOfBytes(right[8 * (j - 4)..8 * (j - 4) + 8], k % 8);
      ZeroXor(right[k - 32]);
    } else {
      ZeroLane(k % 8);
    }
  }

  /** Whole lanes within both the block and the input. */
  lemma {:induction false} LanesFit(offset: nat, n: nat, take: nat)
    requires offset < RATE && offset % 8 == 0 && n >= 8
    requires take == if (RATE - offset) / 8 <= n / 8 then (RATE - offset) / 8 else n / 8
    ensures take > 0 && take * 8 <= n && offset + take * 8 <= RATE && (offset / 8) * 8 == offset
    ensures offset / 8 + take <= RATE_LANES && (take * 8) % 8 == 0
  {}

  lemma {:induction false} ZeroXor(b: bv8)
    ensures Xor8(0, b) == b
  {}

  lemma {:induction false} ZeroLane(k: nat)
    requires k < 8
    ensures LaneByte(0, k) == 0
  {}

  // ---------------------------------------------------------------------
  // Streaming in place
  // ---------------------------------------------------------------------

  /** The part of `m` already permuted in. */
  function Whole(m: seq<bv8>): (w: seq<bv8>)
    ensures |w| % RATE == 0 && w <= m
  {
    m[..|m| - |m| % RATE]
  }

  function Tail(m: seq<bv8>): (t: seq<bv8>)
    ensures |t| == |m| % RATE && m == Whole(m) + t
  {
    m[|m| - |m| % RATE..]
  }

  lemma {:induction false} SplitUnique(w: seq<bv8>, t: seq<bv8>)
    requires |w| % RATE == 0 && |t| < RATE
    ensures Whole(w + t) == w && Tail(w + t) == t && |w + t| / RATE == |w| / RATE
  {
    TailLength(|w + t|, |w|);
    assert (w + t)[..|w|] == w && (w + t)[|w|..] == t;
  }

  /** The incremental hasher; the state doubles as the absorption buffer. */
  class Hasher {
    const f: Lanes -> Lanes
    const state: array<bv64>
    var offset: nat
    ghost var absorbed: seq<bv8>
    ghost var permutations: nat

    /** The lanes hold the reference state of the whole blocks with the tail XORed in. */
    ghost predicate Valid()
      reads this, state
    {
      && state.Length == STATE_LANES && offset == |absorbed| % RATE
      && permutations == |absorbed| / RATE
      && Holds(state[..], Absorb(f, Whole(absorbed)), Tail(absorbed))
    }

    constructor (f: Lanes -> Lanes)
      ensures Valid() && absorbed == [] && this.f == f && fresh(state)
    {
      this.f := f;
      state := new bv64[STATE_LANES](_ => 0);
      offset := 0;
      absorbed := [];
      permutations := 0;
      new;
      assert state[..] == ZeroLanes();
      ZeroHolds();
      EmptyAbsorb(f);
    }

    /**
      Absorbs `block` bytes that have just been XORed in: permutes when the rate is full.
      The lanes hold the whole blocks `w` with `block` XORed in.
     */
    method Settle(ghost w: seq<bv8>, ghost block: seq<bv8>)
      requires state.Length == STATE_LANES && |w| % RATE == 0 && |block| == offset <= RATE
      requires permutations == |w| / RATE && Holds(state[..], Absorb(f, w), block)
      modifies this, state
      ensures Valid() && absorbed == w + block
    {
      hide Holds, Absorb;
      absorbed := w + block;
      if offset == RATE {
        HoldsPermute(f, state[..], w, block);
        SplitUnique(w + block, []);
        assert (w + block) + [] == w + block;
        PermuteState();
        permutations := permutations + 1;
        offset := 0;
      } else {
        SplitUnique(w, block);
      }
    }

    /** The permutation ecall. */
    method PermuteState()
      requires state.Length == STATE_LANES
      modifies state
      ensures state[..] == f(old(state[..]))
    {
      var permuted := f(state[..]);
      forall i | 0 <= i < STATE_LANES {
        state[i] := permuted[i];
      }
    }

    method XorLaneAt(i: nat, lane: bv64)
      requires state.Length == STATE_LANES && i < STATE_LANES
      modifies state
      ensures state[..] == old(state[..])[i := Xor64(old(state[i]), lane)]
    {
      state[i] := Xor64(state[i], lane);
    }

    method AbsorbByte(b: bv8)
      requires Valid()
      modifies this, state
      ensures Valid() && absorbed == old(absorbed) + [b]
    {
      hide Holds, Absorb, Xor64, ByteLane;
      ghost var w, t := Whole(absorbed), Tail(absorbed);
      HoldsByte(state[..], Absorb(f, w), t, b);
      WholeCount(absorbed);
      XorLaneAt(offset / 8, ByteLane(b, offset % 8));
      offset := offset + 1;
      Settle(w, t + [b]);
      assert w + (t + [b]) == (w + t) + [b];
    }

    method XorLanes(input: seq<bv8>, base: nat, take: nat, ghost st: seq<bv8>, ghost t: seq<bv8>)
      requires state.Length == STATE_LANES && |st| == STATE_BYTES && |t| == 8 * base
      requires base + take <= RATE_LANES && 8 * take <= |input| && Holds(state[..], st, t)
      modifies state
      ensures Holds(state[..], st, t + input[..8 * take])
    {
      hide Holds, Xor64, FromLeBytes;
      assert t + input[..0] == t;
      for i := 0 to take
        invariant Holds(state[..], st, t + input[..8 * i])
      {
        var chunk := input[8 * i..8 * i + 8];
        HoldsLane(state[..], st, t + input[..8 * i], chunk);
        SliceOnto(t, input, 8 * i, 8 * (i + 1));
        XorLaneAt(base + i, FromLeBytes(chunk));
      }
    }

    /** Whole lanes from 8-aligned input, up to the end of the rate. */
    method AbsorbLanes(input: seq<bv8>) returns (used: nat)
      requires Valid() && offset % 8 == 0 && |input| >= 8
      modifies this, state
      ensures 0 < used <= |input| && used % 8 == 0
      ensures Valid() && absorbed == old(absorbed) + input[..used]
    {
      hide Holds, Absorb;
      ghost var w, t := Whole(absorbed), Tail(absorbed);
      WholeCount(absorbed);
      var lanesLeft := (RATE - offset) / 8;
      var take := if lanesLeft <= |input| / 8 then lanesLeft else |input| / 8;
      LanesFit(offset, |input|, take);
      XorLanes(input, offset / 8, take, Absorb(f, w), t);
      used := take * 8;
      offset := offset + used;
      Settle(w, t + input[..used]);
      assert w + (t + input[..used]) == (w + t) + input[..used];
    }

    /** Absorbs more input, whose first byte sits at address `ptr`. */
    method Update(input: seq<bv8>, ptr: nat)
      requires Valid()
      modifies this, state
      ensures Valid() && absorbed == old(absorbed) + input
    {
      hide Holds, Absorb;
      var pos := 0;
      assert input[..0] == [] && old(absorbed) + [] == old(absorbed);
      while pos < |input|
        invariant pos <= |input| && Valid()
        invariant absorbed == old(absorbed) + input[..pos]
      {
        if offset % 8 == 0 && (ptr + pos) % 8 == 0 && |input| - pos >= 8 {
          var used := AbsorbLanes(input[pos..]);
          assert input[pos..][..used] == input[pos..pos + used];
          SliceOnto(old(absorbed), input, pos, pos + used);
          pos := pos + used;
        } else {
          AbsorbByte(input[pos]);
          assert input[pos..pos + 1] == [input[pos]];
          SliceOnto(old(absorbed), input, pos, pos + 1);
          pos := pos + 1;
        }
      }
      assert input[..|input|] == input;
    }

    /** Pads in place, permutes once more and squeezes. */
    method Finalize() returns (output: seq<bv8>)
      requires Valid()
      modifies this, state
      ensures output == Digest(f, old(absorbed))
      ensures permutations == |old(absorbed)| / RATE + 1
    {
      hide Holds, Absorb, Xor64, ByteLane, PadBytes;
      ghost var m, w, t := absorbed, Whole(absorbed), Tail(absorbed);
      PaddedHolds(state[..], Absorb(f, w), t, |m|);
      LastBlock(m, |w|);
      XorLaneAt(offset / 8, ByteLane(DELIMITER, offset % 8));
      XorLaneAt(RATE_LANES - 1, FINAL_PAD_LANE_BIT);
      HoldsPermute(f, state[..], w, t + PadBytes(|m|));
      PermuteState();
      permutations := permutations + 1;
      output := Squeeze32(state[..], Absorb(f, m + PadBytes(|m|)));
    }
  }

  lemma {:induction false} SliceOnto(a: seq<bv8>, s: seq<bv8>, p: nat, q: nat)
    requires p <= q <= |s|
    ensures (a + s[..p]) + s[p..q] == a + s[..q]
  {}

  lemma {:induction false} WholeCount(m: seq<bv8>)
    ensures |Whole(m)| / RATE == |m| / RATE
  {
    TailLength(|m|, |Whole(m)|);
  }

  /** One-shot hash of a slice at any address. */
  method Keccak256(f: Lanes -> Lanes, input: seq<bv8>, ptr: nat) returns (output: seq<bv8>)
    ensures output == Digest(f, input)
  {
    var hasher := new Hasher(f);
    hasher.Update(input, ptr);
    assert hasher.absorbed == input;
    output := hasher.Finalize();
  }
}
