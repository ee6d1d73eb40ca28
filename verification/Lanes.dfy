/** 64-bit lanes and their little-endian bytes. */
module Lanes {

  const STATE_LANES: nat := 25
  const STATE_BYTES: nat := 200

  function ZeroLanes(): seq<bv64> { seq(STATE_LANES, _ => 0) }

  /** The 1600-bit state as 25 lanes. */
  type Lanes = s: seq<bv64> | |s| == STATE_LANES witness ZeroLanes()

  function Xor8(a: bv8, b: bv8): bv8 { a ^ b }

  function Xor64(l: bv64, m: bv64): bv64 { l ^ m }

  /** Byte `k` of a lane, least significant first. */
  function LaneByte(l: bv64, k: nat): bv8
    requires k < 8
  {
    match k
    case 0 => (l & 0xFF) as bv8
    case 1 => ((l >> 8) & 0xFF) as bv8
    case 2 => ((l >> 16) & 0xFF) as bv8
    case 3 => ((l >> 24) & 0xFF) as bv8
    case 4 => ((l >> 32) & 0xFF) as bv8
    case 5 => ((l >> 40) & 0xFF) as bv8
    case 6 => ((l >> 48) & 0xFF) as bv8
    case 7 => ((l >> 56) & 0xFF) as bv8
  }

  /** A byte moved to position `k` of a lane. */
  function ByteLane(b: bv8, k: nat): bv64
    requires k < 8
  {
    match k
    case 0 => b as bv64
    case 1 => (b as bv64) << 8
    case 2 => (b as bv64) << 16
    case 3 => (b as bv64) << 24
    case 4 => (b as bv64) << 32
    case 5 => (b as bv64) << 40
    case 6 => (b as bv64) << 48
    case 7 => (b as bv64) << 56
  }

  function Or8(a: bv8, b: bv8): bv8 { a | b }

  function Or64(l: bv64, m: bv64): bv64 { l | m }

  /** The first n bytes, each in its place. */
  function Placed(b: seq<bv8>, n: nat): bv64
    requires |b| == 8 && n <= 8
  {
    if n == 0 then 0 else Or64(Placed(b, n - 1), ByteLane(b[n - 1], n - 1))
  }

  function FromLeBytes(b: seq<bv8>): bv64
    requires |b| == 8
  {
    Placed(b, 8)
  }

  lemma {:induction false} LowByteXor(l: bv64, m: bv64)
    ensures ((l ^ m) & 0xFF) as bv8 == ((l & 0xFF) as bv8) ^ ((m & 0xFF) as bv8)
  {}

  lemma {:induction false} LaneByteXor(l: bv64, m: bv64, k: nat)
    requires k < 8
    ensures LaneByte(Xor64(l, m), k) == Xor8(LaneByte(l, k), LaneByte(m, k))
  {
    match k
    case 0 => LowByteXor(l, m);
    case 1 => assert (l ^ m) >> 8 == (l >> 8) ^ (m >> 8); LowByteXor(l >> 8, m >> 8);
    case 2 => assert (l ^ m) >> 16 == (l >> 16) ^ (m >> 16); LowByteXor(l >> 16, m >> 16);
    case 3 => assert (l ^ m) >> 24 == (l >> 24) ^ (m >> 24); LowByteXor(l >> 24, m >> 24);
    case 4 => assert (l ^ m) >> 32 == (l >> 32) ^ (m >> 32); LowByteXor(l >> 32, m >> 32);
    case 5 => assert (l ^ m) >> 40 == (l >> 40) ^ (m >> 40); LowByteXor(l >> 40, m >> 40);
    case 6 => assert (l ^ m) >> 48 == (l >> 48) ^ (m >> 48); LowByteXor(l >> 48, m >> 48);
    case 7 => assert (l ^ m) >> 56 == (l >> 56) ^ (m >> 56); LowByteXor(l >> 56, m >> 56);
  }

  lemma {:induction false} LowestByte(b: bv8, j: nat)
    requires j < 8
    ensures LaneByte(ByteLane(b, 0), j) == if j == 0 then b else 0
  {}

  function UpOneByte(l: bv64): bv64 { l << 8 }

  /** Shifting by a byte moves every byte one place up. */
  lemma {:induction false} ShiftedByte(l: bv64, j: nat)
    requires j < 8
    ensures LaneByte(UpOneByte(l), j) == if j == 0 then 0 else LaneByte(l, j - 1)
  {
    match j
    case 0 => assert (l << 8) & 0xFF == 0;
    case 1 => assert ((l << 8) >> 8) & 0xFF == l & 0xFF;
    case 2 => assert ((l << 8) >> 16) & 0xFF == (l >> 8) & 0xFF;
    case 3 => assert ((l << 8) >> 24) & 0xFF == (l >> 16) & 0xFF;
    case 4 => assert ((l << 8) >> 32) & 0xFF == (l >> 24) & 0xFF;
    case 5 => assert ((l << 8) >> 40) & 0xFF == (l >> 32) & 0xFF;
    case 6 => assert ((l << 8) >> 48) & 0xFF == (l >> 40) & 0xFF;
    case 7 => assert ((l << 8) >> 56) & 0xFF == (l >> 48) & 0xFF;
  }

  lemma {:induction false} ByteLaneShift(b: bv8, k: nat)
    requires 0 < k < 8
    ensures ByteLane(b, k) == UpOneByte(ByteLane(b, k - 1))
  {}

  lemma {:induction false} LaneByteOfByte(b: bv8, k: nat, j: nat)
    requires k < 8 && j < 8
    ensures LaneByte(ByteLane(b, k), j) == if j == k then b else 0
  {
    hide ByteLane, LaneByte, UpOneByte;
    if k == 0 {
      LowestByte(b, j);
    } else {
      ByteLaneShift(b, k);
      ShiftedByte(ByteLane(b, k - 1), j);
      if j > 0 {
        LaneByteOfByte(b, k - 1, j - 1);
      }
    }
  }

  lemma {:induction false} LowByteOr(l: bv64, m: bv64)
    ensures ((l | m) & 0xFF) as bv8 == ((l & 0xFF) as bv8) | ((m & 0xFF) as bv8)
  {}

  lemma {:induction false} LaneByteOr(l: bv64, m: bv64, k: nat)
    requires k < 8
    ensures LaneByte(Or64(l, m), k) == Or8(LaneByte(l, k), LaneByte(m, k))
  {
    match k
    case 0 => LowByteOr(l, m);
    case 1 => assert (l | m) >> 8 == (l >> 8) | (m >> 8); LowByteOr(l >> 8, m >> 8);
    case 2 => assert (l | m) >> 16 == (l >> 16) | (m >> 16); LowByteOr(l >> 16, m >> 16);
    case 3 => assert (l | m) >> 24 == (l >> 24) | (m >> 24); LowByteOr(l >> 24, m >> 24);
    case 4 => assert (l | m) >> 32 == (l >> 32) | (m >> 32); LowByteOr(l >> 32, m >> 32);
    case 5 => assert (l | m) >> 40 == (l >> 40) | (m >> 40); LowByteOr(l >> 40, m >> 40);
    case 6 => assert (l | m) >> 48 == (l >> 48) | (m >> 48); LowByteOr(l >> 48, m >> 48);
    case 7 => assert (l | m) >> 56 == (l >> 56) | (m >> 56); LowByteOr(l >> 56, m >> 56);
  }

  lemma {:induction false} PlacedByte(b: seq<bv8>, n: nat, k: nat)
    requires |b| == 8 && n <= 8 && k < 8
    ensures LaneByte(Placed(b, n), k) == if k < n then b[k] else 0
  {
    if n == 0 {
      assert LaneByte(0, k) == 0;
    } else {
      hide LaneByte, ByteLane, Or64;
      PlacedByte(b, n - 1, k);
      LaneByteOr(Placed(b, n - 1), ByteLane(b[n - 1], n - 1), k);
      LaneByteOfByte(b[n - 1], n - 1, k);
      OrZero(b[k]);
    }
  }

  lemma {:induction false} OrZero(b: bv8)
    ensures Or8(b, 0) == b && Or8(0, b) == b && Or8(0, 0) == 0
  {}

  lemma {:induction false} LaneByteOfBytes(b: seq<bv8>, k: nat)
    requires |b| == 8 && k < 8
    ensures LaneByte(FromLeBytes(b), k) == b[k]
  {
    hide LaneByte, Placed;
    PlacedByte(b, 8, k);
  }

  function LaneBytes(l: bv64): (b: seq<bv8>)
    ensures |b| == 8 && forall k: nat | k < 8 :: b[k] == LaneByte(l, k)
  {
    [LaneByte(l, 0), LaneByte(l, 1), LaneByte(l, 2), LaneByte(l, 3),
     LaneByte(l, 4), LaneByte(l, 5), LaneByte(l, 6), LaneByte(l, 7)]
  }

  /** A lane is determined by its bytes. */
  lemma {:induction false} SameBytes(l: bv64, m: bv64)
    requires LaneByte(l, 0) == LaneByte(m, 0) && LaneByte(l, 1) == LaneByte(m, 1) && LaneByte(l, 2) == LaneByte(m, 2)
    requires LaneByte(l, 3) == LaneByte(m, 3) && LaneByte(l, 4) == LaneByte(m, 4) && LaneByte(l, 5) == LaneByte(m, 5)
    requires LaneByte(l, 6) == LaneByte(m, 6) && LaneByte(l, 7) == LaneByte(m, 7)
    ensures l == m
  {}

  /** A lane is made of its bytes. */
  lemma {:induction false} FromOwnBytes(l: bv64)
    ensures FromLeBytes(LaneBytes(l)) == l
  {
    hide LaneByte, FromLeBytes;
    var b := LaneBytes(l);
    forall k: nat | k < 8
      ensures LaneByte(FromLeBytes(b), k) == LaneByte(l, k)
    {
      LaneByteOfBytes(b, k);
    }
    SameBytes(FromLeBytes(b), l);
  }

  lemma {:induction false} XorByteInLane(l: bv64, b: bv8, k: nat, j: nat)
    requires k < 8 && j < 8
    ensures LaneByte(Xor64(l, ByteLane(b, k)), j) == if j == k then Xor8(LaneByte(l, j), b) else LaneByte(l, j)
  {
    hide LaneByte, ByteLane, Xor8, Xor64;
    LaneByteXor(l, ByteLane(b, k), j);
    LaneByteOfByte(b, k, j);
    XorZero(LaneByte(l, j));
  }

  lemma {:induction false} XorZero(b: bv8)
    ensures Xor8(b, 0) == b
  {}

  lemma {:induction false} XorBytesInLane(l: bv64, c: seq<bv8>, j: nat)
    requires |c| == 8 && j < 8
    ensures LaneByte(Xor64(l, FromLeBytes(c)), j) == Xor8(LaneByte(l, j), c[j])
  {
    hide LaneByte, FromLeBytes, Xor8, Xor64;
    LaneByteXor(l, FromLeBytes(c), j);
    LaneByteOfBytes(c, j);
  }
}
