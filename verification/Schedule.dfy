/**
  The double-and-add schedule of a scalar: one row per double or add, most
  significant bit first, the leading bit being the starting accumulator.
 */
module Schedule {

  /** op 0 doubles the accumulator, op 1 adds the base point. */
  datatype Row = Row(round: nat, op: nat, nextOp: nat)

  function Pow2(n: nat): (r: nat)
    ensures r >= 1
  {
    if n == 0 then 1 else 2 * Pow2(n - 1)
  }

  /** `k` shifted right by `n` bits. */
  function Shr(k: nat, n: nat): nat {
    if n == 0 then k else Shr(k / 2, n - 1)
  }

  function Bit(k: nat, i: nat): nat { Shr(k, i) % 2 }

  /** Position of the most significant set bit. */
  function Msb(k: nat): nat
    requires k >= 1
  {
    if k == 1 then 0 else 1 + Msb(k / 2)
  }

  lemma {:induction false} MsbMeaning(k: nat)
    requires k >= 1
    ensures Pow2(Msb(k)) <= k < 2 * Pow2(Msb(k))
  {
    if k > 1 {
      MsbMeaning(k / 2);
    }
  }

  function Popcount(k: nat): nat {
    if k == 0 then 0 else k % 2 + Popcount(k / 2)
  }

  // ---------------------------------------------------------------------
  // The schedule, row by row
  // ---------------------------------------------------------------------

  function NextOp(k: nat, round: nat, op: nat): nat {
    if op == 0 then Bit(k, round) else 0
  }

  function RowsFrom(k: nat, round: nat, op: nat): seq<Row>
    requires op <= 1
    decreases 2 * round + 1 - op
  {
    var next := NextOp(k, round, op);
    var row := Row(round, op, next);
    if next == 1 then [row] + RowsFrom(k, round, 1)
    else if round == 0 then [row]
    else [row] + RowsFrom(k, round - 1, 0)
  }

  function Rows(k: nat): seq<Row>
    requires k >= 1
  {
    if Msb(k) == 0 then [] else RowsFrom(k, Msb(k) - 1, 0)
  }

  /** The loop of the source. Rounds are stored in a byte, so the scalar has at most 256 bits. */
  method BuildSchedule(k: nat) returns (sched: seq<Row>)
    requires k >= 1 && Msb(k) < 256
    ensures sched == Rows(k)
  {
    sched := [];
    var round: int := Msb(k);
    round := round - 1;
    var op: nat := 0;
    ghost var all := Rows(k);
    if round >= 0 {
      RowsOntoIsRowsFrom(k, round, 0, []);
    }
    while round >= 0
      invariant op <= 1 && round < 255
      invariant if round < 0 then sched == all else RowsOnto(k, round, op, sched) == all
      decreases 2 * round + 1 - op
    {
      var nextOp: nat := if op == 0 then Bit(k, round) else 0;
      var stored := round % 256;
      sched := sched + [Row(stored, op, nextOp)];
      var roundSent := round - (1 - nextOp);
      if roundSent < 0 {
        break;
      }
      round := roundSent;
      op := nextOp;
    }
  }

  /** The rows from (round, op) on, appended to those already scheduled. */
  function RowsOnto(k: nat, round: nat, op: nat, sched: seq<Row>): seq<Row>
    requires op <= 1
    decreases 2 * round + 1 - op
  {
    var next := NextOp(k, round, op);
    var sched' := sched + [Row(round, op, next)];
    if next == 1 then RowsOnto(k, round, 1, sched')
    else if round == 0 then sched'
    else RowsOnto(k, round - 1, 0, sched')
  }

  lemma {:induction false} RowsOntoIsRowsFrom(k: nat, round: nat, op: nat, sched: seq<Row>)
    requires op <= 1
    ensures RowsOnto(k, round, op, sched) == sched + RowsFrom(k, round, op)
    decreases 2 * round + 1 - op
  {
    var next := NextOp(k, round, op);
    var sched' := sched + [Row(round, op, next)];
    if next == 1 {
      RowsOntoIsRowsFrom(k, round, 1, sched');
    } else if round > 0 {
      RowsOntoIsRowsFrom(k, round - 1, 0, sched');
    }
  }

  lemma {:induction false} MsbBound(k: nat, n: nat)
    requires 1 <= k < Pow2(n)
    ensures Msb(k) < n
  {
    if k > 1 {
      MsbBound(k / 2, n - 1);
    }
  }

  // ---------------------------------------------------------------------
  // Folding the schedule gives the scalar
  // ---------------------------------------------------------------------

  function StepScalar(acc: nat, op: nat): nat {
    if op == 0 then 2 * acc else acc + 1
  }

  /** The accumulator after the first `n` rows, starting from 1. */
  function Accumulator(rows: seq<Row>, n: nat): nat
    requires n <= |rows|
  {
    if n == 0 then 1 else StepScalar(Accumulator(rows, n - 1), rows[n - 1].op)
  }

  function Fold(acc: nat, rows: seq<Row>): nat
    decreases rows
  {
    if rows == [] then acc else Fold(StepScalar(acc, rows[0].op), rows[1..])
  }

  /** The accumulator expected before the row (round, op): the bits of k above `round`, doubled for an add. */
  function Prefix(k: nat, round: nat, op: nat): nat {
    if op == 0 then Shr(k, round + 1) else 2 * Shr(k, round + 1)
  }

  lemma {:induction false} HalveQuotient(k: nat, round: nat)
    ensures Shr(k, round) == 2 * Shr(k, round + 1) + Bit(k, round)
  {
    if round > 0 {
      HalveQuotient(k / 2, round - 1);
    }
  }

  lemma {:induction false} RowsFromFold(k: nat, round: nat, op: nat)
    requires op <= 1 && (op == 1 ==> Bit(k, round) == 1)
    ensures Fold(Prefix(k, round, op), RowsFrom(k, round, op)) == k
    decreases 2 * round + 1 - op
  {
    var rows := RowsFrom(k, round, op);
    HalveQuotient(k, round);
    if NextOp(k, round, op) == 1 {
      RowsFromFold(k, round, 1);
      assert rows[1..] == RowsFrom(k, round, 1);
    } else if round == 0 {
      assert rows[1..] == [];
    } else {
      RowsFromFold(k, round - 1, 0);
      assert rows[1..] == RowsFrom(k, round - 1, 0);
    }
  }

  lemma {:induction false} ShrMeaning(k: nat, n: nat)
    ensures Shr(k, n) * Pow2(n) <= k < (Shr(k, n) + 1) * Pow2(n)
  {
    if n > 0 {
      ShrMeaning(k / 2, n - 1);
      HalfBounds(k, Shr(k, n), Pow2(n - 1));
    }
  }

  lemma {:induction false} HalfBounds(k: nat, s: nat, w: nat)
    requires s * w <= k / 2 < (s + 1) * w
    ensures s * (2 * w) <= k < (s + 1) * (2 * w)
  {
    Doubled(s, w);
    Doubled(s + 1, w);
  }

  lemma {:induction false} Doubled(s: nat, w: nat)
    ensures s * (2 * w) == 2 * (s * w)
  {}

  lemma {:induction false} ShrMsb(k: nat)
    requires k >= 1
    ensures Shr(k, Msb(k)) == 1
  {
    if k > 1 {
      ShrMsb(k / 2);
    }
  }

  /** Folding the schedule from 1 gives exactly the scalar, for every positive scalar. */
  lemma {:induction false} ScheduleComputesScalar(k: nat)
    requires k >= 1
    ensures Fold(1, Rows(k)) == k
  {
    var m := Msb(k);
    ShrMsb(k);
    if m > 0 {
      RowsFromFold(k, m - 1, 0);
    } else {
      assert k == 1;
    }
  }

  // ---------------------------------------------------------------------
  // Shape of the schedule
  // ---------------------------------------------------------------------

  /** Each row announces the op of its successor, and the last row announces a double that never runs. */
  predicate Chained(rows: seq<Row>) {
    && (forall i | 0 <= i < |rows| - 1 :: rows[i].nextOp == rows[i + 1].op)
    && (rows != [] ==> rows[|rows| - 1].nextOp == 0)
  }

  lemma {:induction false} RowsFromShape(k: nat, round: nat, op: nat)
    requires op <= 1 && (op == 1 ==> Bit(k, round) == 1)
    ensures var rows := RowsFrom(k, round, op);
            && rows != [] && rows[0].op == op && Chained(rows)
            && (forall i | 0 <= i < |rows| :: rows[i].op <= 1 && rows[i].round <= round)
            && |rows| == round + 1 - op + OnesBelow(k, round + 1)
    decreases 2 * round + 1 - op
  {
    var rows := RowsFrom(k, round, op);
    if NextOp(k, round, op) == 1 {
      RowsFromShape(k, round, 1);
      ChainedCons(rows[0], RowsFrom(k, round, 1));
    } else if round > 0 {
      RowsFromShape(k, round - 1, 0);
      ChainedCons(rows[0], RowsFrom(k, round - 1, 0));
    }
  }

  lemma {:induction false} ChainedCons(row: Row, rows: seq<Row>)
    requires rows != [] && Chained(rows) && row.nextOp == rows[0].op
    ensures Chained([row] + rows)
  {}

  /** The number of set bits among the lowest `n`. */
  function OnesBelow(k: nat, n: nat): nat {
    if n == 0 then 0 else OnesBelow(k, n - 1) + Bit(k, n - 1)
  }

  lemma {:induction false} OnesBelowHalf(k: nat, n: nat)
    ensures OnesBelow(k, n + 1) == k % 2 + OnesBelow(k / 2, n)
  {
    if n == 0 {
      assert OnesBelow(k, 1) == OnesBelow(k, 0) + Bit(k, 0);
    } else {
      OnesBelowHalf(k, n - 1);
    }
  }

  lemma {:induction false} OnesBelowMsb(k: nat)
    requires k >= 1
    ensures OnesBelow(k, Msb(k)) + 1 == Popcount(k)
  {
    if k == 1 {
      assert Popcount(1) == 1 + Popcount(0);
    } else {
      OnesBelowMsb(k / 2);
      OnesBelowHalf(k, Msb(k / 2));
    }
  }

  /** Length msb + popcount - 1, chained ops, every op a double or an add. */
  lemma {:induction false} ScheduleShape(k: nat)
    requires k >= 1
    ensures |Rows(k)| == Msb(k) + Popcount(k) - 1
    ensures Chained(Rows(k))
    ensures forall i | 0 <= i < |Rows(k)| :: Rows(k)[i].op <= 1
  {
    hide Msb, Popcount, RowsFrom, Bit;
    OnesBelowMsb(k);
    if Msb(k) > 0 {
      RowsFromShape(k, Msb(k) - 1, 0);
    }
  }

  // ---------------------------------------------------------------------
  // The scalars the accumulator takes
  // ---------------------------------------------------------------------

  lemma {:induction false} FoldMonotone(acc: nat, rows: seq<Row>)
    requires acc >= 1
    ensures Fold(acc, rows) >= acc
    decreases rows
  {
    if rows != [] {
      FoldMonotone(StepScalar(acc, rows[0].op), rows[1..]);
    }
  }

  lemma {:induction false} FoldSplit(rows: seq<Row>, n: nat)
    requires n <= |rows|
    ensures Fold(Accumulator(rows, n), rows[n..]) == Fold(1, rows)
  {
    if n == 0 {
      assert rows[0..] == rows;
    } else {
      FoldSplit(rows, n - 1);
      assert rows[n - 1..][1..] == rows[n..];
    }
  }

  lemma {:induction false} AddFollowsDouble(k: nat, round: nat, op: nat, i: nat)
    requires op <= 1 && (op == 1 ==> Bit(k, round) == 1)
    requires i < |RowsFrom(k, round, op)|
    ensures i > 0 && RowsFrom(k, round, op)[i].op == 1 ==> RowsFrom(k, round, op)[i - 1].op == 0
    ensures i == 0 ==> RowsFrom(k, round, op)[i].op == op
    decreases 2 * round + 1 - op
  {
    if i > 0 {
      if NextOp(k, round, op) == 1 {
        AddFollowsDouble(k, round, 1, i - 1);
      } else if round > 0 {
        AddFollowsDouble(k, round - 1, 0, i - 1);
      }
    }
  }

  lemma {:induction false} AccumulatorBelow(k: nat, i: nat)
    requires k >= 1 && i <= |Rows(k)|
    ensures Accumulator(Rows(k), i) <= k
  {
    var rows := Rows(k);
    ScheduleComputesScalar(k);
    FoldSplit(rows, i);
    AccumulatorPositive(rows, i);
    FoldMonotone(Accumulator(rows, i), rows[i..]);
  }

  /**
    Before row i the accumulator is positive; a doubled accumulator stays within
    the scalar, and an add meets an accumulator of at least 2 below the scalar.
   */
  lemma {:induction false} AccumulatorRange(k: nat, i: nat)
    requires k >= 1 && i < |Rows(k)|
    ensures var a := Accumulator(Rows(k), i);
            && a >= 1
            && (Rows(k)[i].op == 0 ==> 2 * a <= k)
            && (Rows(k)[i].op == 1 ==> 2 <= a < k)
  {
    AccumulatorBelow(k, i + 1);
    AccumulatorPositive(Rows(k), i);
    ScheduleShape(k);
    if Rows(k)[i].op == 1 {
      AccumulatorBeforeAdd(k, i);
    }
  }

  /**
    What a row's round is: the bits of the scalar above it are what the
    accumulator holds before a double, twice that before an add. A double
    announces the bit at its round, an add stands for a set bit.
   */
  predicate RowAt(k: nat, row: Row, acc: nat) {
    && (row.op == 0 ==> acc == Shr(k, row.round + 1) && row.nextOp == Bit(k, row.round))
    && (row.op == 1 ==> acc == 2 * Shr(k, row.round + 1) && row.nextOp == 0 && Bit(k, row.round) == 1)
  }

  lemma {:induction false} RowsFromRounds(k: nat, round: nat, op: nat, i: nat)
    requires op <= 1 && (op == 1 ==> Bit(k, round) == 1)
    requires i < |RowsFrom(k, round, op)|
    ensures var rows := RowsFrom(k, round, op);
            RowAt(k, rows[i], AccumulateFrom(Prefix(k, round, op), rows, i)) && rows[i].round <= round
    decreases 2 * round + 1 - op
  {
    hide Shr;
    var rows := RowsFrom(k, round, op);
    HalveQuotient(k, round);
    if i > 0 {
      if NextOp(k, round, op) == 1 {
        RowsFromRounds(k, round, 1, i - 1);
        assert rows[1..] == RowsFrom(k, round, 1);
        AccumulateShift(Prefix(k, round, op), rows, i);
      } else if round > 0 {
        RowsFromRounds(k, round - 1, 0, i - 1);
        assert rows[1..] == RowsFrom(k, round - 1, 0);
        AccumulateShift(Prefix(k, round, op), rows, i);
      }
    }
  }

  /** The accumulator after the first `n` rows, starting from `acc`. */
  function AccumulateFrom(acc: nat, rows: seq<Row>, n: nat): nat
    requires n <= |rows|
  {
    if n == 0 then acc else StepScalar(AccumulateFrom(acc, rows, n - 1), rows[n - 1].op)
  }

  lemma {:induction false} AccumulateShift(acc: nat, rows: seq<Row>, n: nat)
    requires 1 <= n <= |rows|
    ensures AccumulateFrom(acc, rows, n) == AccumulateFrom(StepScalar(acc, rows[0].op), rows[1..], n - 1)
  {
    if n > 1 {
      AccumulateShift(acc, rows, n - 1);
    }
  }

  lemma {:induction false} AccumulateFromOne(rows: seq<Row>, n: nat)
    requires n <= |rows|
    ensures AccumulateFrom(1, rows, n) == Accumulator(rows, n)
  {
    if n > 0 {
      AccumulateFromOne(rows, n - 1);
    }
  }

  /** Every row's round is the bit position it works on. */
  lemma {:induction false} ScheduleRounds(k: nat, i: nat)
    requires k >= 1 && i < |Rows(k)|
    ensures RowAt(k, Rows(k)[i], Accumulator(Rows(k), i)) && Rows(k)[i].op <= 1 && Rows(k)[i].round < Msb(k)
  {
    hide RowsFrom, RowAt, Bit;
    ScheduleShape(k);
    ShrMsb(k);
    RowsFromRounds(k, Msb(k) - 1, 0, i);
    AccumulateFromOne(Rows(k), i);
  }

  lemma {:induction false} AccumulatorBeforeAdd(k: nat, i: nat)
    requires k >= 1 && i < |Rows(k)| && Rows(k)[i].op == 1
    ensures Accumulator(Rows(k), i) >= 2
  {
    AddFollowsDouble(k, Msb(k) - 1, 0, i);
    AccumulatorPositive(Rows(k), i - 1);
    assert Accumulator(Rows(k), i) == StepScalar(Accumulator(Rows(k), i - 1), 0);
  }

  lemma {:induction false} AccumulatorPositive(rows: seq<Row>, n: nat)
    requires n <= |rows|
    ensures Accumulator(rows, n) >= 1
  {
    if n > 0 {
      AccumulatorPositive(rows, n - 1);
    }
  }
}
