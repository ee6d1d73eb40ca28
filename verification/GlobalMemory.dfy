/**
  The cross-epoch memory argument: a bus of (address, value, epoch) tokens, its
  ordering check, and the page set that decides which cells have a genesis and
  a final token.
 */
module GlobalMemory {
  import opened Outcomes

  const GENESIS_EPOCH: nat := 0
  const PAGE_SIZE: nat := 0x4_0000
  const MAX_EPOCHS: nat := 0x10_0000
  const GOLDILOCKS: nat := 0xFFFF_FFFF_0000_0001

  /** A cell's contents and the epoch that wrote them. */
  datatype Cell = Cell(value: int, epoch: nat)

  /** One touched cell of one epoch. */
  datatype Row = Row(addr: nat, init: Cell, fini: Cell)

  datatype Token = Token(addr: nat, cell: Cell)

  // ---------------------------------------------------------------------
  // The bus
  // ---------------------------------------------------------------------

  /** One token per cell of the page tables. */
  function CellTokens(cells: seq<nat>, m: map<nat, Cell>): multiset<Token>
    requires forall a | a in cells :: a in m
  {
    if cells == [] then multiset{}
    else
      assert forall a | a in cells[1..] :: a in cells;
      multiset{Token(cells[0], m[cells[0]])} + CellTokens(cells[1..], m)
  }

  function FiniTokens(rows: seq<Row>): multiset<Token> {
    if rows == [] then multiset{}
    else var r := rows[|rows| - 1]; FiniTokens(rows[..|rows| - 1]) + multiset{Token(r.addr, r.fini)}
  }

  function InitTokens(rows: seq<Row>): multiset<Token> {
    if rows == [] then multiset{}
    else var r := rows[|rows| - 1]; InitTokens(rows[..|rows| - 1]) + multiset{Token(r.addr, r.init)}
  }

  /** The genesis contents of the given cells. */
  function Genesis(cells: seq<nat>, g: nat -> int): map<nat, Cell> {
    map a | a in cells :: Cell(g(a), GENESIS_EPOCH)
  }

  ghost predicate Covers(fin: map<nat, Cell>, cells: seq<nat>) {
    forall a :: a in fin <==> a in cells
  }

  /** Sent tokens (genesis and fini) equal received tokens (init and final). */
  ghost predicate Balanced(cells: seq<nat>, g: nat -> int, rows: seq<Row>, fin: map<nat, Cell>)
    requires Covers(fin, cells)
  {
    CellTokens(cells, Genesis(cells, g)) + FiniTokens(rows) == InitTokens(rows) + CellTokens(cells, fin)
  }

  /** What the last toucher among the first `n` rows left at `a`, or genesis. */
  function Current(g: nat -> int, rows: seq<Row>, n: nat, a: nat): Cell
    requires n <= |rows|
  {
    if n == 0 then Cell(g(a), GENESIS_EPOCH)
    else if rows[n - 1].addr == a then rows[n - 1].fini
    else Current(g, rows, n - 1, a)
  }

  /** The rows' half of a chain. */
  ghost predicate Justified(cells: seq<nat>, g: nat -> int, rows: seq<Row>) {
    forall i | 0 <= i < |rows| :: rows[i].addr in cells && rows[i].init == Current(g, rows, i, rows[i].addr)
  }

  /** The final state's half. */
  ghost predicate Settled(cells: seq<nat>, g: nat -> int, rows: seq<Row>, fin: map<nat, Cell>)
    requires Covers(fin, cells)
  {
    forall a | a in cells :: fin[a] == Current(g, rows, |rows|, a)
  }

  /** Every row starts from what the previous toucher left, and the final state is what the last one left. */
  ghost predicate Chained(cells: seq<nat>, g: nat -> int, rows: seq<Row>, fin: map<nat, Cell>)
    requires Covers(fin, cells)
  {
    Justified(cells, g, rows) && Settled(cells, g, rows, fin)
  }

  /** Tables are enumerated in epoch order. */
  predicate Ordered(rows: seq<Row>) {
    forall i, j | 0 <= i < j < |rows| :: rows[i].fini.epoch <= rows[j].fini.epoch
  }

  /** The ordering constraint of every real row. */
  predicate Rising(rows: seq<Row>) {
    forall i | 0 <= i < |rows| :: rows[i].init.epoch < rows[i].fini.epoch
  }

  predicate Distinct(cells: seq<nat>) {
    forall i, j | 0 <= i < j < |cells| :: cells[i] != cells[j]
  }

  // ---------------------------------------------------------------------
  // A balanced bus is a chain
  // ---------------------------------------------------------------------

  lemma {:induction false} CellTokensMember(cells: seq<nat>, m: map<nat, Cell>, t: Token)
    requires forall a | a in cells :: a in m
    ensures t in CellTokens(cells, m) <==> t.addr in cells && m[t.addr] == t.cell
  {
    if cells != [] {
      CellTokensMember(cells[1..], m, t);
      assert t.addr in cells <==> t.addr == cells[0] || t.addr in cells[1..];
    }
  }

  lemma {:induction false} CellTokensFrame(cells: seq<nat>, m: map<nat, Cell>, m': map<nat, Cell>)
    requires forall a | a in cells :: a in m && a in m' && m[a] == m'[a]
    ensures CellTokens(cells, m) == CellTokens(cells, m')
  {
    if cells != [] {
      assert cells[0] in cells;
      CellTokensFrame(cells[1..], m, m');
    }
  }

  lemma {:induction false} CellTokensUpdate(cells: seq<nat>, m: map<nat, Cell>, a: nat, c: Cell)
    requires Distinct(cells) && a in cells && forall b | b in cells :: b in m
    ensures CellTokens(cells, m[a := c]) + multiset{Token(a, m[a])} == CellTokens(cells, m) + multiset{Token(a, c)}
  {
    assert forall b | b in cells[1..] :: b in cells;
    if cells[0] == a {
      CellTokensFrame(cells[1..], m, m[a := c]);
      ExchangeHead(CellTokens(cells[1..], m), Token(a, c), Token(a, m[a]));
    } else {
      CellTokensUpdate(cells[1..], m, a, c);
      ExtendBoth(Token(cells[0], m[cells[0]]), CellTokens(cells[1..], m[a := c]), CellTokens(cells[1..], m),
                 Token(a, m[a]), Token(a, c));
    }
  }

  lemma {:induction false} ExchangeHead(rest: multiset<Token>, t: Token, u: Token)
    ensures (multiset{t} + rest) + multiset{u} == (multiset{u} + rest) + multiset{t}
  {}

  lemma {:induction false} ExtendBoth(h: Token, l: multiset<Token>, r: multiset<Token>, t: Token, u: Token)
    requires l + multiset{t} == r + multiset{u}
    ensures (multiset{h} + l) + multiset{t} == (multiset{h} + r) + multiset{u}
  {
    assert (multiset{h} + l) + multiset{t} == multiset{h} + (l + multiset{t});
    assert (multiset{h} + r) + multiset{u} == multiset{h} + (r + multiset{u});
  }

  lemma {:induction false} InitTokensBelow(rows: seq<Row>, t: Token, e: nat)
    requires forall i | 0 <= i < |rows| :: rows[i].init.epoch < e
    ensures t in InitTokens(rows) ==> t.cell.epoch < e
  {
    if rows != [] {
      InitTokensBelow(rows[..|rows| - 1], t, e);
    }
  }

  /** The newest fini token can only be taken by the final state. */
  lemma {:induction false} NewestIsFinal(cells: seq<nat>, g: nat -> int, rows: seq<Row>, fin: map<nat, Cell>)
    requires rows != [] && Ordered(rows) && Rising(rows) && Covers(fin, cells) && Balanced(cells, g, rows, fin)
    ensures var r := rows[|rows| - 1]; r.addr in cells && fin[r.addr] == r.fini
  {
    var r := rows[|rows| - 1];
    var t := Token(r.addr, r.fini);
    assert t in FiniTokens(rows);
    assert t in InitTokens(rows) + CellTokens(cells, fin);
    InitTokensBelow(rows, t, r.fini.epoch);
    CellTokensMember(cells, fin, t);
  }

  /** Undoing the last row hands its init token to the final state. */
  lemma {:induction false} PeelRow(cells: seq<nat>, g: nat -> int, rows: seq<Row>, fin: map<nat, Cell>)
    requires rows != [] && Distinct(cells) && Covers(fin, cells)
    requires var r := rows[|rows| - 1]; r.addr in cells && fin[r.addr] == r.fini
    ensures var r := rows[|rows| - 1];
            var fin' := fin[r.addr := r.init];
            && Covers(fin', cells)
            && (Balanced(cells, g, rows, fin) <==> Balanced(cells, g, rows[..|rows| - 1], fin'))
  {
    var r := rows[|rows| - 1];
    var rest := rows[..|rows| - 1];
    var fin' := fin[r.addr := r.init];
    CellTokensUpdate(cells, fin, r.addr, r.init);
    TokenAlgebra(CellTokens(cells, Genesis(cells, g)), FiniTokens(rest), InitTokens(rest),
                 CellTokens(cells, fin), CellTokens(cells, fin'), Token(r.addr, r.fini), Token(r.addr, r.init));
  }

  lemma {:induction false} TokenAlgebra(genesis: multiset<Token>, finis: multiset<Token>, inits: multiset<Token>,
                     fin: multiset<Token>, fin': multiset<Token>, t: Token, u: Token)
    requires fin' + multiset{t} == fin + multiset{u}
    ensures genesis + (finis + multiset{t}) == (inits + multiset{u}) + fin <==> genesis + finis == inits + fin'
  {
    var l, r := genesis + finis, inits + fin';
    assert genesis + (finis + multiset{t}) == l + multiset{t};
    assert (inits + multiset{u}) + fin == inits + (fin + multiset{u});
    assert inits + (fin' + multiset{t}) == r + multiset{t};
    assert (l + multiset{t}) - multiset{t} == l;
    assert (r + multiset{t}) - multiset{t} == r;
  }

  lemma {:induction false} PeelCurrent(g: nat -> int, rows: seq<Row>, m: nat, n: nat, a: nat)
    requires n <= m <= |rows|
    ensures Current(g, rows[..m], n, a) == Current(g, rows, n, a)
  {
    if n > 0 {
      PeelCurrent(g, rows, m, n - 1, a);
    }
  }

  lemma {:induction false} PeelJustified(cells: seq<nat>, g: nat -> int, rows: seq<Row>)
    requires rows != []
    ensures var m: int := |rows| - 1;
            var r := rows[m];
            Justified(cells, g, rows)
            <==> Justified(cells, g, rows[..m]) && r.addr in cells && r.init == Current(g, rows[..m], m, r.addr)
  {
    var m: int := |rows| - 1;
    var rest := rows[..m];
    forall i: nat | i <= m
      ensures Current(g, rest, i, rows[i].addr) == Current(g, rows, i, rows[i].addr)
    {
      PeelCurrent(g, rows, m, i, rows[i].addr);
    }
    assert forall i | 0 <= i < m :: rest[i] == rows[i];
    if Justified(cells, g, rest) && rows[m].addr in cells && rows[m].init == Current(g, rest, m, rows[m].addr) {
      forall i | 0 <= i < |rows|
        ensures rows[i].addr in cells && rows[i].init == Current(g, rows, i, rows[i].addr)
      {
        assert i < m ==> rest[i] == rows[i];
      }
    }
  }

  lemma {:induction false} PeelSettled(cells: seq<nat>, g: nat -> int, rows: seq<Row>, fin: map<nat, Cell>)
    requires rows != [] && Covers(fin, cells)
    requires var r := rows[|rows| - 1]; r.addr in cells && fin[r.addr] == r.fini
    requires Covers(fin[rows[|rows| - 1].addr := rows[|rows| - 1].init], cells)
    ensures var m: int := |rows| - 1;
            var r := rows[m];
            Settled(cells, g, rows, fin) && r.init == Current(g, rows[..m], m, r.addr)
            <==> Settled(cells, g, rows[..m], fin[r.addr := r.init])
  {
    var m: int := |rows| - 1;
    forall a: nat
      ensures Current(g, rows[..m], m, a) == Current(g, rows, m, a)
    {
      PeelCurrent(g, rows, m, m, a);
    }
  }

  /** Chains peel the same way. */
  lemma {:induction false} PeelChain(cells: seq<nat>, g: nat -> int, rows: seq<Row>, fin: map<nat, Cell>)
    requires rows != [] && Covers(fin, cells)
    requires var r := rows[|rows| - 1]; r.addr in cells && fin[r.addr] == r.fini
    requires Covers(fin[rows[|rows| - 1].addr := rows[|rows| - 1].init], cells)
    ensures var r := rows[|rows| - 1];
            Chained(cells, g, rows, fin) <==> Chained(cells, g, rows[..|rows| - 1], fin[r.addr := r.init])
  {
    hide Justified, Settled, Current, Covers;
    PeelJustified(cells, g, rows);
    PeelSettled(cells, g, rows, fin);
  }

  lemma {:induction false} EmptyBus(cells: seq<nat>, g: nat -> int, fin: map<nat, Cell>)
    requires Covers(fin, cells)
    ensures Balanced(cells, g, [], fin) <==> Chained(cells, g, [], fin)
  {
    var start := Genesis(cells, g);
    if Balanced(cells, g, [], fin) {
      NothingAdded(CellTokens(cells, start), FiniTokens([]), InitTokens([]), CellTokens(cells, fin));
      SameTokens(cells, start, fin);
    }
    if Chained(cells, g, [], fin) {
      CellTokensFrame(cells, start, fin);
    }
  }

  lemma {:induction false} NothingAdded(l: multiset<Token>, e: multiset<Token>, e': multiset<Token>, r: multiset<Token>)
    requires e == e' == multiset{} && l + e == e' + r
    ensures l == r
  {
    assert l + e == l && e' + r == r;
  }

  lemma {:induction false} SameTokens(cells: seq<nat>, m: map<nat, Cell>, m': map<nat, Cell>)
    requires forall a | a in cells :: a in m && a in m'
    requires CellTokens(cells, m) == CellTokens(cells, m')
    ensures forall a | a in cells :: m[a] == m'[a]
  {
    forall a | a in cells
      ensures m[a] == m'[a]
    {
      CellTokensMember(cells, m, Token(a, m[a]));
      CellTokensMember(cells, m', Token(a, m[a]));
    }
  }

  /**
    The memory argument, both ways: with one genesis/final pair per cell, tables
    in epoch order and the ordering constraint on every row, the tokens balance
    exactly when the rows form one chain per address, from genesis to the final
    state, each init being the previous toucher's fini.
   */
  lemma {:induction false} BusIsChain(cells: seq<nat>, g: nat -> int, rows: seq<Row>, fin: map<nat, Cell>)
    requires Distinct(cells) && Covers(fin, cells) && Ordered(rows) && Rising(rows)
    ensures Balanced(cells, g, rows, fin) <==> Chained(cells, g, rows, fin)
    decreases |rows|
  {
    if rows == [] {
      EmptyBus(cells, g, fin);
    } else {
      var r := rows[|rows| - 1];
      if Balanced(cells, g, rows, fin) {
        NewestIsFinal(cells, g, rows, fin);
      }
      if r.addr in cells && fin[r.addr] == r.fini {
        PeelRow(cells, g, rows, fin);
        PeelChain(cells, g, rows, fin);
        BusIsChain(cells, g, rows[..|rows| - 1], fin[r.addr := r.init]);
      } else {
        assert !Chained(cells, g, rows, fin) by { LastLeavesFini(g, rows); }
      }
    }
  }

  lemma {:induction false} LastLeavesFini(g: nat -> int, rows: seq<Row>)
    requires rows != []
    ensures var r := rows[|rows| - 1]; Current(g, rows, |rows|, r.addr) == r.fini
  {}

  /** Without the ordering constraint a self-justifying row balances with any value. */
  lemma {:induction false} UnorderedBusBalances(a: nat, v: int)
    ensures var rows := [Row(a, Cell(v, 1), Cell(v, 1))];
            var fin := map[a := Cell(0, GENESIS_EPOCH)];
            Covers(fin, [a]) && Balanced([a], _ => 0, rows, fin) && !Chained([a], _ => 0, rows, fin)
  {
    var rows := [Row(a, Cell(v, 1), Cell(v, 1))];
    var fin := map[a := Cell(0, GENESIS_EPOCH)];
    assert Genesis([a], _ => 0) == fin;
    assert rows[..0] == [];
    assert InitTokens(rows) == FiniTokens(rows);
  }

  // ---------------------------------------------------------------------
  // The ordering constraint as the chip states it
  // ---------------------------------------------------------------------

  /** A 20-bit lookup on label - 1 - init, computed in the Goldilocks field. */
  predicate PassesB20(epoch: nat, initEpoch: nat) {
    (epoch - 1 - initEpoch) % GOLDILOCKS < MAX_EPOCHS
  }

  /** For a 32-bit init epoch the field lookup is exactly the integer ordering over the provable gap. */
  lemma {:induction false} OrderingCheck(epoch: nat, initEpoch: nat)
    requires 1 <= epoch <= MAX_EPOCHS && initEpoch < 0x1_0000_0000
    ensures PassesB20(epoch, initEpoch) <==> initEpoch < epoch
  {
    var d := epoch - 1 - initEpoch;
    if d < 0 {
      assert d % GOLDILOCKS == d + GOLDILOCKS;
    }
  }

  // ---------------------------------------------------------------------
  // Which cells have tokens
  // ---------------------------------------------------------------------

  function PageBase(a: nat): nat { a - a % PAGE_SIZE }

  predicate Aligned(b: nat) { b % PAGE_SIZE == 0 }

  predicate Ascending(s: seq<nat>) {
    forall i, j | 0 <= i < j < |s| :: s[i] < s[j]
  }

  /** Sorted insertion without duplicates. */
  function SetInsert(x: nat, s: seq<nat>): seq<nat> {
    if s == [] || x < s[0] then [x] + s
    else if x == s[0] then s
    else [s[0]] + SetInsert(x, s[1..])
  }

  /** Sorted and deduplicated. */
  function CanonicalPageBases(bases: seq<nat>): seq<nat> {
    if bases == [] then [] else SetInsert(bases[0], CanonicalPageBases(bases[1..]))
  }

  lemma {:induction false} SetInsertAdds(x: nat, s: seq<nat>)
    requires Ascending(s)
    ensures Ascending(SetInsert(x, s))
    ensures forall y :: y in SetInsert(x, s) <==> y == x || y in s
  {
    if s != [] && x > s[0] {
      SetInsertAdds(x, s[1..]);
      var t := SetInsert(x, s[1..]);
      forall i | 0 <= i < |t|
        ensures s[0] < t[i]
      {
        assert t[i] in t;
      }
      assert s == [s[0]] + s[1..];
    }
  }

  /** Canonicalization keeps the set and lists it in ascending order, once each. */
  lemma {:induction false} CanonicalIsSet(bases: seq<nat>)
    ensures Ascending(CanonicalPageBases(bases))
    ensures forall b :: b in CanonicalPageBases(bases) <==> b in bases
  {
    if bases != [] {
      CanonicalIsSet(bases[1..]);
      SetInsertAdds(bases[0], CanonicalPageBases(bases[1..]));
      assert bases == [bases[0]] + bases[1..];
    }
  }

  /** Wire order and repetitions of the page list do not matter. */
  lemma {:induction false} CanonicalDependsOnSet(bases: seq<nat>, others: seq<nat>)
    requires forall b :: b in bases <==> b in others
    ensures CanonicalPageBases(bases) == CanonicalPageBases(others)
  {
    CanonicalIsSet(bases);
    CanonicalIsSet(others);
    SameAscending(CanonicalPageBases(bases), CanonicalPageBases(others));
  }

  lemma {:induction false} SameAscending(s: seq<nat>, t: seq<nat>)
    requires Ascending(s) && Ascending(t) && forall b :: b in s <==> b in t
    ensures s == t
  {
    assert s != [] ==> s[0] in t;
    assert t != [] ==> t[0] in s;
    if s != [] {
      assert s[0] == t[0];
      forall b
        ensures b in s[1..] <==> b in t[1..]
      {
        assert b in s[1..] <==> b in s && b != s[0];
        assert b in t[1..] <==> b in t && b != t[0];
      }
      SameAscending(s[1..], t[1..]);
      assert s == [s[0]] + s[1..] && t == [t[0]] + t[1..];
    }
  }

  function PageCells(base: nat, n: nat): (s: seq<nat>)
    ensures |s| == n && forall i | 0 <= i < n :: s[i] == base + i
  {
    seq(n, i requires 0 <= i < n => base + i)
  }

  /** All cells of the given pages, page by page. */
  function Cells(bases: seq<nat>): seq<nat> {
    if bases == [] then [] else PageCells(bases[0], PAGE_SIZE) + Cells(bases[1..])
  }

  /** The verifier's page check: canonicalize, then refuse any unaligned base. */
  function CheckedCells(bases: seq<nat>): Option<seq<nat>> {
    var canonical := CanonicalPageBases(bases);
    if forall b | b in canonical :: b == PageBase(b) then Some(Cells(canonical)) else None
  }

  lemma {:induction false} CellsMember(bases: seq<nat>, a: nat)
    requires forall b | b in bases :: Aligned(b)
    ensures a in Cells(bases) <==> PageBase(a) in bases
  {
    if bases != [] {
      CellsMember(bases[1..], a);
      var page := PageCells(bases[0], PAGE_SIZE);
      assert a in page <==> bases[0] <= a < bases[0] + PAGE_SIZE by {
        if bases[0] <= a < bases[0] + PAGE_SIZE {
          assert page[a - bases[0]] == a;
        }
      }
      assert bases[0] in bases;
      InPage(a, bases[0]);
      assert bases == [bases[0]] + bases[1..];
    }
  }

  lemma {:induction false} InPage(a: nat, b: nat)
    requires Aligned(b)
    ensures b <= a < b + PAGE_SIZE <==> PageBase(a) == b
  {
    if b <= a < b + PAGE_SIZE {
      assert a == b + (a - b);
      assert a % PAGE_SIZE == (a - b) % PAGE_SIZE;
    }
  }

  lemma {:induction false} CellsDistinct(bases: seq<nat>)
    requires Ascending(bases) && forall b | b in bases :: Aligned(b)
    ensures Distinct(Cells(bases))
  {
    if bases != [] {
      var page, rest := PageCells(bases[0], PAGE_SIZE), Cells(bases[1..]);
      CellsDistinct(bases[1..]);
      forall i, j | 0 <= i < j < |page + rest|
        ensures (page + rest)[i] != (page + rest)[j]
      {
        if i < |page| && j >= |page| {
          var a := rest[j - |page|];
          assert a in rest;
          CellsMember(bases[1..], a);
          assert bases[0] in bases;
          InPage(page[i], bases[0]);
          assert bases[0] !in bases[1..];
        }
      }
    }
  }

  /** An accepted page list gives every cell of its pages exactly one genesis/final pair. */
  lemma {:induction false} CheckedCellsDistinct(bases: seq<nat>)
    ensures CheckedCells(bases).Some? <==> forall b | b in bases :: Aligned(b)
    ensures var c := CheckedCells(bases);
            c.Some? ==> Distinct(c.value) && forall a :: a in c.value <==> PageBase(a) in bases
  {
    var canonical := CanonicalPageBases(bases);
    CanonicalIsSet(bases);
    assert forall b :: b == PageBase(b) <==> Aligned(b);
    if forall b | b in canonical :: Aligned(b) {
      CellsDistinct(canonical);
      forall a: nat
        ensures a in Cells(canonical) <==> PageBase(a) in bases
      {
        CellsMember(canonical, a);
      }
    }
  }

  // ---------------------------------------------------------------------
  // What the verifier knows
  // ---------------------------------------------------------------------

  /** A real row of an untrusted boundary table; the init epoch comes as two halfwords. */
  datatype Claim = Claim(addr: nat, initValue: int, initLow: nat, initHigh: nat, finiValue: int)

  function InitEpoch(c: Claim): nat { c.initLow + 0x1_0000 * c.initHigh }

  /** The range checks and the ordering lookup of a row under the table's epoch label. */
  predicate Checked(c: Claim, epoch: nat) {
    c.initLow < 0x1_0000 && c.initHigh < 0x1_0000 && PassesB20(epoch, InitEpoch(c))
  }

  /** The verifier supplies the epoch label, so a row cannot choose its fini epoch. */
  function Labelled(table: seq<Claim>, epoch: nat): seq<Row> {
    seq(|table|, i requires 0 <= i < |table| =>
      Row(table[i].addr, Cell(table[i].initValue, InitEpoch(table[i])), Cell(table[i].finiValue, epoch)))
  }

  /** The rows of all tables; table i carries the label i + 1. */
  function ClaimedRows(tables: seq<seq<Claim>>): seq<Row> {
    if tables == [] then []
    else ClaimedRows(tables[..|tables| - 1]) + Labelled(tables[|tables| - 1], |tables|)
  }

  predicate AllChecked(tables: seq<seq<Claim>>) {
    forall e, i | 0 <= e < |tables| && 0 <= i < |tables[e]| :: Checked(tables[e][i], e + 1)
  }

  /** A row that passes its checks was last written in an earlier epoch, whatever the label. */
  lemma {:induction false} CheckedRises(c: Claim, epoch: nat)
    requires Checked(c, epoch)
    ensures InitEpoch(c) < epoch
  {
    PassingRises(epoch, InitEpoch(c));
  }

  lemma {:induction false} PassingRises(epoch: nat, initEpoch: nat)
    requires initEpoch < 0x1_0000_0000
    ensures PassesB20(epoch, initEpoch) ==> initEpoch < epoch
  {
    var d := epoch - 1 - initEpoch;
    if d < 0 {
      assert d % GOLDILOCKS == d + GOLDILOCKS;
    }
  }

  lemma {:induction false} ClaimedRowsShape(tables: seq<seq<Claim>>)
    requires AllChecked(tables)
    ensures var rows := ClaimedRows(tables); Ordered(rows) && Rising(rows) && LabelsUpTo(rows, |tables|)
  {
    if tables != [] {
      var n := |tables|;
      var rest, table := tables[..n - 1], tables[n - 1];
      forall e, i | 0 <= e < |rest| && 0 <= i < |rest[e]|
        ensures Checked(rest[e][i], e + 1)
      {
        assert rest[e] == tables[e];
      }
      ClaimedRowsShape(rest);
      forall i | 0 <= i < |table|
        ensures InitEpoch(table[i]) < n
      {
        assert Checked(tables[n - 1][i], n - 1 + 1);
        CheckedRises(table[i], n);
      }
      AppendTable(ClaimedRows(rest), Labelled(table, n), n);
    }
  }

  lemma {:induction false} AppendTable(rows: seq<Row>, more: seq<Row>, n: nat)
    requires Ordered(rows) && Rising(rows) && n > 0 && LabelsUpTo(rows, n - 1)
    requires Rising(more) && forall i | 0 <= i < |more| :: more[i].fini.epoch == n
    ensures Ordered(rows + more) && Rising(rows + more) && LabelsUpTo(rows + more, n)
  {}

  /**
    The verifier's memory argument: for page bases it accepts and untrusted
    tables whose every real row passes its lookups, the tokens balance exactly
    when the rows form one chain per address.
   */
  lemma {:induction false} AcceptedBusIsChain(bases: seq<nat>, g: nat -> int, tables: seq<seq<Claim>>,
                                              fin: map<nat, Cell>)
    requires CheckedCells(bases).Some? && AllChecked(tables) && Covers(fin, CheckedCells(bases).value)
    ensures var cells, rows := CheckedCells(bases).value, ClaimedRows(tables);
            Balanced(cells, g, rows, fin) <==> Chained(cells, g, rows, fin)
  {
    hide CheckedCells, AllChecked, ClaimedRows, Covers, Balanced, Chained;
    CheckedCellsDistinct(bases);
    ClaimedRowsShape(tables);
    BusIsChain(CheckedCells(bases).value, g, ClaimedRows(tables), fin);
  }

  // ---------------------------------------------------------------------
  // The honest prover
  // ---------------------------------------------------------------------

  /** A touched cell with its value at the end of the epoch. */
  datatype Touch = Touch(addr: nat, value: nat)

  /** The rows so far, followed by one epoch's rows. */
  function AppendTouches(g: nat -> int, rows: seq<Row>, epoch: nat, touched: seq<Touch>): seq<Row>
    decreases |touched|
  {
    if touched == [] then rows
    else
      var t := touched[0];
      var row := Row(t.addr, Current(g, rows, |rows|, t.addr), Cell(t.value, epoch));
      AppendTouches(g, rows + [row], epoch, touched[1..])
  }

  /** All rows of a run; epoch index i carries the label i + 1. */
  function RunRows(g: nat -> int, epochs: seq<seq<Touch>>): seq<Row> {
    if epochs == [] then []
    else
      var n := |epochs|;
      AppendTouches(g, RunRows(g, epochs[..n - 1]), n, epochs[n - 1])
  }

  function Look(provenance: map<nat, Cell>, a: nat): Cell {
    if a in provenance then provenance[a] else Cell(0, GENESIS_EPOCH)
  }

  /** `provenance` knows every cell's last writer. */
  ghost predicate Tracks(g: nat -> int, rows: seq<Row>, provenance: map<nat, Cell>) {
    forall a :: Look(provenance, a) == Current(g, rows, |rows|, a)
  }

  /** One epoch's boundary rows, from the running provenance, which is updated. */
  method EpochBoundary(provenance: map<nat, Cell>, epoch: nat, touched: seq<Touch>,
                       ghost g: nat -> int, ghost prior: seq<Row>)
      returns (rows: seq<Row>, provenance': map<nat, Cell>)
    requires Tracks(g, prior, provenance)
    ensures prior + rows == AppendTouches(g, prior, epoch, touched)
    ensures Tracks(g, prior + rows, provenance') && Records(rows, touched, epoch)
  {
    rows := [];
    provenance' := provenance;
    assert touched[0..] == touched && prior + [] == prior;
    for i := 0 to |touched|
      invariant AppendTouches(g, prior + rows, epoch, touched[i..]) == AppendTouches(g, prior, epoch, touched)
      invariant Tracks(g, prior + rows, provenance') && Records(rows, touched[..i], epoch)
    {
      var t := touched[i];
      var before := Look(provenance', t.addr);
      var row := Row(t.addr, before, Cell(t.value, epoch));
      AppendTracks(g, prior + rows, provenance', row);
      assert touched[i..][1..] == touched[i + 1..];
      assert prior + (rows + [row]) == (prior + rows) + [row];
      rows := rows + [row];
      provenance' := provenance'[t.addr := Cell(t.value, epoch)];
    }
  }

  /** One row per touch, in order, leaving the touch's value under the epoch's label. */
  predicate Records(rows: seq<Row>, touched: seq<Touch>, epoch: nat) {
    && |rows| == |touched|
    && forall i | 0 <= i < |rows| :: rows[i].addr == touched[i].addr && rows[i].fini == Cell(touched[i].value, epoch)
  }

  function GenesisValue(initial: map<nat, nat>): nat -> int {
    a => if a in initial then initial[a] else 0
  }

  function Flatten(tables: seq<seq<Row>>): seq<Row> {
    if tables == [] then [] else Flatten(tables[..|tables| - 1]) + tables[|tables| - 1]
  }

  /** The boundary tables of a whole run, one per epoch. */
  method EpochBoundaries(initial: map<nat, nat>, epochs: seq<seq<Touch>>) returns (tables: seq<seq<Row>>)
    ensures |tables| == |epochs|
    ensures Flatten(tables) == RunRows(GenesisValue(initial), epochs)
    ensures forall e | 0 <= e < |tables| :: Records(tables[e], epochs[e], e + 1)
  {
    ghost var g := GenesisValue(initial);
    var provenance := map a | a in initial :: Cell(initial[a], GENESIS_EPOCH);
    tables := [];
    for n := 0 to |epochs|
      invariant |tables| == n
      invariant Flatten(tables) == RunRows(g, epochs[..n])
      invariant Tracks(g, Flatten(tables), provenance)
      invariant forall e | 0 <= e < n :: Records(tables[e], epochs[e], e + 1)
    {
      ghost var prior := Flatten(tables);
      var rows;
      rows, provenance := EpochBoundary(provenance, n + 1, epochs[n], g, prior);
      assert epochs[..n + 1][..n] == epochs[..n];
      assert (tables + [rows])[..n] == tables;
      tables := tables + [rows];
    }
    assert epochs[..|epochs|] == epochs;
  }

  lemma {:induction false} AppendTracks(g: nat -> int, rows: seq<Row>, provenance: map<nat, Cell>, row: Row)
    requires Tracks(g, rows, provenance)
    ensures Tracks(g, rows + [row], provenance[row.addr := row.fini])
  {
    forall a: nat
      ensures Look(provenance[row.addr := row.fini], a) == Current(g, rows + [row], |rows + [row]|, a)
    {
      CurrentAppend(g, rows, row, a);
    }
  }

  lemma {:induction false} CurrentAppend(g: nat -> int, rows: seq<Row>, row: Row, a: nat)
    ensures Current(g, rows + [row], |rows| + 1, a) == if a == row.addr then row.fini else Current(g, rows, |rows|, a)
  {
    var all := rows + [row];
    PeelCurrent(g, all, |rows|, |rows|, a);
    assert all[..|rows|] == rows;
  }

  /** Every init is what the previous toucher left. */
  ghost predicate Inherits(g: nat -> int, rows: seq<Row>) {
    forall i | 0 <= i < |rows| :: rows[i].init == Current(g, rows, i, rows[i].addr)
  }

  lemma {:induction false} InheritsAppend(g: nat -> int, rows: seq<Row>, row: Row)
    requires Inherits(g, rows) && row.init == Current(g, rows, |rows|, row.addr)
    ensures Inherits(g, rows + [row])
  {
    var all := rows + [row];
    forall i | 0 <= i < |all|
      ensures all[i].init == Current(g, all, i, all[i].addr)
    {
      PeelCurrent(g, all, |rows|, i, all[i].addr);
      assert all[..|rows|] == rows;
    }
  }

  predicate LabelsUpTo(rows: seq<Row>, epoch: nat) {
    forall i | 0 <= i < |rows| :: rows[i].fini.epoch <= epoch
  }

  lemma {:induction false} LabelsWiden(rows: seq<Row>, epoch: nat)
    requires epoch > 0 && LabelsUpTo(rows, epoch - 1)
    ensures LabelsUpTo(rows, epoch)
  {}

  lemma {:induction false} CurrentEpoch(g: nat -> int, rows: seq<Row>, n: nat, a: nat, epoch: nat)
    requires n <= |rows| && LabelsUpTo(rows, epoch)
    ensures Current(g, rows, n, a).epoch <= epoch
  {
    if n > 0 {
      CurrentEpoch(g, rows, n - 1, a, epoch);
    }
  }

  /** The touched cells are distinct and none was written in this epoch before. */
  ghost predicate Fresh(g: nat -> int, rows: seq<Row>, epoch: nat, touched: seq<Touch>) {
    && (forall i, j | 0 <= i < j < |touched| :: touched[i].addr != touched[j].addr)
    && (forall i | 0 <= i < |touched| :: Current(g, rows, |rows|, touched[i].addr).epoch < epoch)
  }

  lemma {:induction false} AppendTouchesShape(g: nat -> int, rows: seq<Row>, epoch: nat, touched: seq<Touch>)
    requires Inherits(g, rows) && Ordered(rows) && LabelsUpTo(rows, epoch)
    ensures var all := AppendTouches(g, rows, epoch, touched);
            Inherits(g, all) && Ordered(all) && LabelsUpTo(all, epoch)
    ensures Rising(AppendTouches(g, rows, epoch, touched)) <==> Rising(rows) && Fresh(g, rows, epoch, touched)
    decreases |touched|
  {
    if touched != [] {
      var t := touched[0];
      var row := Row(t.addr, Current(g, rows, |rows|, t.addr), Cell(t.value, epoch));
      InheritsAppend(g, rows, row);
      AppendTouchesShape(g, rows + [row], epoch, touched[1..]);
      FreshStep(g, rows, epoch, touched, row);
      RisingAppend(rows, row);
    }
  }

  lemma {:induction false} RisingAppend(rows: seq<Row>, row: Row)
    ensures Rising(rows + [row]) <==> Rising(rows) && row.init.epoch < row.fini.epoch
  {
    var all := rows + [row];
    assert all[|rows|] == row;
    assert forall i | 0 <= i < |rows| :: all[i] == rows[i];
  }

  lemma {:induction false} FreshStep(g: nat -> int, rows: seq<Row>, epoch: nat, touched: seq<Touch>, row: Row)
    requires touched != [] && row.addr == touched[0].addr && row.fini.epoch == epoch
    requires row.init == Current(g, rows, |rows|, row.addr)
    ensures Fresh(g, rows, epoch, touched)
       <==> row.init.epoch < epoch && Fresh(g, rows + [row], epoch, touched[1..])
  {
    var rest := touched[1..];
    forall i | 0 <= i < |rest|
      ensures Current(g, rows + [row], |rows| + 1, rest[i].addr).epoch < epoch
         <==> rest[i].addr != row.addr && Current(g, rows, |rows|, touched[i + 1].addr).epoch < epoch
    {
      CurrentAppend(g, rows, row, rest[i].addr);
    }
    if row.init.epoch < epoch && Fresh(g, rows + [row], epoch, rest) {
      forall i, j | 0 <= i < j < |touched|
        ensures touched[i].addr != touched[j].addr
      {
        assert touched[j] == rest[j - 1];
        assert i > 0 ==> touched[i] == rest[i - 1];
      }
      forall i | 0 <= i < |touched|
        ensures Current(g, rows, |rows|, touched[i].addr).epoch < epoch
      {
        assert i > 0 ==> touched[i] == rest[i - 1];
      }
    }
  }

  predicate DistinctTouches(touched: seq<Touch>) {
    forall i, j | 0 <= i < j < |touched| :: touched[i].addr != touched[j].addr
  }

  /** No epoch lists a cell twice. */
  predicate NoRepeats(epochs: seq<seq<Touch>>) {
    forall e | 0 <= e < |epochs| :: DistinctTouches(epochs[e])
  }

  lemma {:induction false} NoRepeatsStep(epochs: seq<seq<Touch>>)
    requires epochs != []
    ensures NoRepeats(epochs) <==> NoRepeats(epochs[..|epochs| - 1]) && DistinctTouches(epochs[|epochs| - 1])
  {
    hide DistinctTouches;
    var rest := epochs[..|epochs| - 1];
    assert forall e | 0 <= e < |rest| :: rest[e] == epochs[e];
    assert NoRepeats(epochs) ==> forall e | 0 <= e < |rest| :: DistinctTouches(epochs[e]);
  }

  lemma {:induction false} FreshIffDistinct(g: nat -> int, rows: seq<Row>, n: nat, touched: seq<Touch>)
    requires n > 0 && LabelsUpTo(rows, n - 1)
    ensures Fresh(g, rows, n, touched) <==> DistinctTouches(touched)
  {
    forall a: nat
      ensures Current(g, rows, |rows|, a).epoch < n
    {
      CurrentEpoch(g, rows, |rows|, a, n - 1);
    }
  }

  /**
    An honest run inherits and is in epoch order; it satisfies the ordering
    constraint exactly when no epoch lists a cell twice.
   */
  lemma {:induction false} RunRowsShape(g: nat -> int, epochs: seq<seq<Touch>>)
    ensures var rows := RunRows(g, epochs);
            Inherits(g, rows) && Ordered(rows) && LabelsUpTo(rows, |epochs|)
    ensures Rising(RunRows(g, epochs)) <==> NoRepeats(epochs)
  {
    if epochs != [] {
      var n := |epochs|;
      var rest := epochs[..n - 1];
      hide AppendTouches, Inherits, Ordered, Rising, Fresh, DistinctTouches, LabelsUpTo, NoRepeats;
      RunRowsShape(g, rest);
      var rows := RunRows(g, rest);
      LabelsWiden(rows, n);
      AppendTouchesShape(g, rows, n, epochs[n - 1]);
      FreshIffDistinct(g, rows, n, epochs[n - 1]);
      NoRepeatsStep(epochs);
    }
  }

  /** The last fini of every touched cell wins; values are cut to a byte. */
  function FinalState(rows: seq<Row>): map<nat, Cell> {
    if rows == [] then map[]
    else
      var r := rows[|rows| - 1];
      FinalState(rows[..|rows| - 1])[r.addr := Cell(r.fini.value % 256, r.fini.epoch)]
  }

  method ComputeFinalState(rows: seq<Row>) returns (state: map<nat, Cell>)
    ensures state == FinalState(rows)
  {
    state := map[];
    for i := 0 to |rows|
      invariant state == FinalState(rows[..i])
    {
      state := state[rows[i].addr := Cell(rows[i].fini.value % 256, rows[i].fini.epoch)];
      assert rows[..i + 1][..i] == rows[..i];
    }
    assert rows[..|rows|] == rows;
  }

  /** The final columns of the page tables; an untouched cell keeps its genesis token. */
  function FinalCells(cells: seq<nat>, g: nat -> int, state: map<nat, Cell>): map<nat, Cell> {
    map a | a in cells :: if a in state then state[a] else Cell(g(a), GENESIS_EPOCH)
  }

  predicate Touched(rows: seq<Row>, a: nat) {
    exists i :: 0 <= i < |rows| && rows[i].addr == a
  }

  lemma {:induction false} FinalStateIsCurrent(g: nat -> int, rows: seq<Row>, a: nat)
    ensures a in FinalState(rows) <==> Touched(rows, a)
    ensures var c := Current(g, rows, |rows|, a);
            if Touched(rows, a) then FinalState(rows)[a] == Cell(c.value % 256, c.epoch)
            else c == Cell(g(a), GENESIS_EPOCH)
    decreases |rows|
  {
    if rows != [] {
      var m: int := |rows| - 1;
      FinalStateIsCurrent(g, rows[..m], a);
      PeelCurrent(g, rows, m, m, a);
      TouchedPeel(rows, a);
    }
  }

  lemma {:induction false} TouchedPeel(rows: seq<Row>, a: nat)
    requires rows != []
    ensures var m: int := |rows| - 1;
            Touched(rows, a) <==> rows[m].addr == a || Touched(rows[..m], a)
  {
    var m: int := |rows| - 1;
    if Touched(rows[..m], a) {
      var i :| 0 <= i < m && rows[..m][i].addr == a;
      assert rows[i].addr == a;
    }
    if Touched(rows, a) && rows[m].addr != a {
      var i :| 0 <= i < |rows| && rows[i].addr == a;
      assert rows[..m][i].addr == a;
    }
  }

  function TouchedPageBases(rows: seq<Row>): seq<nat> {
    CanonicalPageBases(seq(|rows|, i requires 0 <= i < |rows| => PageBase(rows[i].addr)))
  }

  /** Exactly the pages of the rows' cells. */
  lemma {:induction false} TouchedPagesExact(rows: seq<Row>, b: nat)
    ensures b in TouchedPageBases(rows) <==> exists i :: 0 <= i < |rows| && PageBase(rows[i].addr) == b
  {
    hide PageBase;
    var bases := seq(|rows|, i requires 0 <= i < |rows| => PageBase(rows[i].addr));
    CanonicalIsSet(bases);
    if i :| 0 <= i < |rows| && PageBase(rows[i].addr) == b {
      assert bases[i] == b;
    }
  }

  lemma {:induction false} TouchedPagesCover(rows: seq<Row>)
    ensures forall b | b in TouchedPageBases(rows) :: Aligned(b)
    ensures Distinct(Cells(TouchedPageBases(rows)))
    ensures forall i | 0 <= i < |rows| :: rows[i].addr in Cells(TouchedPageBases(rows))
  {
    var bases := seq(|rows|, i requires 0 <= i < |rows| => PageBase(rows[i].addr));
    CanonicalIsSet(bases);
    CellsDistinct(TouchedPageBases(rows));
    forall i | 0 <= i < |rows|
      ensures rows[i].addr in Cells(TouchedPageBases(rows))
    {
      assert bases[i] in bases;
      CellsMember(TouchedPageBases(rows), rows[i].addr);
    }
  }

  /**
    The honest bus. With the page set, rows and final state the prover derives,
    and no cell listed twice in an epoch, the tokens balance exactly when every
    touched cell ends up holding a byte.
   */
  lemma {:induction false} HonestBusBalances(g: nat -> int, epochs: seq<seq<Touch>>)
    requires NoRepeats(epochs)
    ensures var rows := RunRows(g, epochs);
            var cells := Cells(TouchedPageBases(rows));
            var fin := FinalCells(cells, g, FinalState(rows));
            && Covers(fin, cells)
            && (Balanced(cells, g, rows, fin)
                <==> forall a: nat :: ByteIfTouched(g, rows, a))
  {
    var rows := RunRows(g, epochs);
    var cells := Cells(TouchedPageBases(rows));
    var fin := FinalCells(cells, g, FinalState(rows));
    RunRowsShape(g, epochs);
    TouchedPagesCover(rows);
    HonestChain(g, rows, cells);
    BusIsChain(cells, g, rows, fin);
  }

  lemma {:induction false} HonestChain(g: nat -> int, rows: seq<Row>, cells: seq<nat>)
    requires Inherits(g, rows) && forall i | 0 <= i < |rows| :: rows[i].addr in cells
    ensures var fin := FinalCells(cells, g, FinalState(rows));
            && Covers(fin, cells)
            && (Chained(cells, g, rows, fin)
                <==> forall a: nat :: ByteIfTouched(g, rows, a))
  {
    var fin := FinalCells(cells, g, FinalState(rows));
    hide Current, FinalState, Touched;
    forall a: nat | a in cells
      ensures fin[a] == Current(g, rows, |rows|, a) <==> ByteIfTouched(g, rows, a)
    {
      FinalStateIsCurrent(g, rows, a);
    }
    if Chained(cells, g, rows, fin) {
      forall a: nat | Touched(rows, a)
        ensures ByteIfTouched(g, rows, a)
      {
        TouchedIn(rows, cells, a);
      }
    }
  }

  ghost predicate ByteIfTouched(g: nat -> int, rows: seq<Row>, a: nat) {
    Touched(rows, a) ==> 0 <= Current(g, rows, |rows|, a).value < 256
  }

  lemma {:induction false} TouchedIn(rows: seq<Row>, cells: seq<nat>, a: nat)
    requires Touched(rows, a) && forall i | 0 <= i < |rows| :: rows[i].addr in cells
    ensures a in cells
  {}

  predicate Untouched(rows: seq<Row>, from: nat, to: nat, a: nat)
    requires to <= |rows|
  {
    forall k | from <= k < to :: rows[k].addr != a
  }

  lemma {:induction false} CurrentUntouched(g: nat -> int, rows: seq<Row>, n: nat, a: nat)
    requires n <= |rows| && Untouched(rows, 0, n, a)
    ensures Current(g, rows, n, a) == Cell(g(a), GENESIS_EPOCH)
  {
    if n > 0 {
      CurrentUntouched(g, rows, n - 1, a);
    }
  }

  lemma {:induction false} CurrentTouched(g: nat -> int, rows: seq<Row>, n: nat, a: nat, j: nat)
    requires j < n <= |rows| && rows[j].addr == a && Untouched(rows, j + 1, n, a)
    ensures Current(g, rows, n, a) == rows[j].fini
  {
    if n - 1 > j {
      CurrentTouched(g, rows, n - 1, a, j);
    }
  }

  /**
    In an honest run the first touch of a cell finds the initial image, and
    every later one what the previous toucher left.
   */
  lemma {:induction false} InitIsLastWriter(initial: map<nat, nat>, epochs: seq<seq<Touch>>, i: nat)
    requires i < |RunRows(GenesisValue(initial), epochs)|
    ensures var rows := RunRows(GenesisValue(initial), epochs);
            var a := rows[i].addr;
            && (Untouched(rows, 0, i, a) ==>
                  rows[i].init == Cell(if a in initial then initial[a] else 0, GENESIS_EPOCH))
            && (forall j: nat | j < i && rows[j].addr == a && Untouched(rows, j + 1, i, a) ::
                  rows[i].init == rows[j].fini)
  {
    hide RunRows, Current, Untouched;
    var g := GenesisValue(initial);
    RunRowsShape(g, epochs);
    var rows := RunRows(g, epochs);
    var a := rows[i].addr;
    if Untouched(rows, 0, i, a) {
      CurrentUntouched(g, rows, i, a);
    }
    forall j: nat | j < i && rows[j].addr == a && Untouched(rows, j + 1, i, a)
      ensures rows[i].init == rows[j].fini
    {
      CurrentTouched(g, rows, i, a, j);
    }
  }

  // ---------------------------------------------------------------------
  // The honest prover is accepted
  // ---------------------------------------------------------------------

  /** The columns of an honest row; the fini epoch is not among them. */
  function ClaimOf(r: Row): Claim {
    Claim(r.addr, r.init.value, r.init.epoch % 0x1_0000, r.init.epoch / 0x1_0000, r.fini.value)
  }

  function ClaimTable(rows: seq<Row>): seq<Claim> {
    seq(|rows|, i requires 0 <= i < |rows| => ClaimOf(rows[i]))
  }

  function ClaimTables(tables: seq<seq<Row>>): seq<seq<Claim>> {
    seq(|tables|, e requires 0 <= e < |tables| => ClaimTable(tables[e]))
  }

  predicate Labels(rows: seq<Row>, epoch: nat) {
    forall i | 0 <= i < |rows| :: rows[i].fini.epoch == epoch
  }

  /** The halfwords spell the epoch. */
  lemma {:induction false} ClaimSpelled(r: Row, epoch: nat)
    requires r.init.epoch < epoch <= MAX_EPOCHS
    ensures InitEpoch(ClaimOf(r)) == r.init.epoch && Checked(ClaimOf(r), epoch)
  {
    var e := r.init.epoch;
    assert e == 0x1_0000 * (e / 0x1_0000) + e % 0x1_0000;
    OrderingCheck(epoch, e);
  }

  lemma {:induction false} TableLabelled(rows: seq<Row>, epoch: nat)
    requires Labels(rows, epoch) && Rising(rows) && epoch <= MAX_EPOCHS
    ensures Labelled(ClaimTable(rows), epoch) == rows
    ensures forall i | 0 <= i < |rows| :: Checked(ClaimTable(rows)[i], epoch)
  {
    forall i | 0 <= i < |rows|
      ensures InitEpoch(ClaimOf(rows[i])) == rows[i].init.epoch && Checked(ClaimOf(rows[i]), epoch)
    {
      ClaimSpelled(rows[i], epoch);
    }
  }

  lemma {:induction false} FlattenRises(tables: seq<seq<Row>>)
    requires tables != [] && Rising(Flatten(tables))
    ensures Rising(Flatten(tables[..|tables| - 1])) && Rising(tables[|tables| - 1])
  {
    var front, last := Flatten(tables[..|tables| - 1]), tables[|tables| - 1];
    assert forall i | 0 <= i < |front| :: (front + last)[i] == front[i];
    assert forall i | 0 <= i < |last| :: (front + last)[|front| + i] == last[i];
  }

  lemma {:induction false} ClaimsAccepted(tables: seq<seq<Row>>)
    requires Rising(Flatten(tables)) && |tables| <= MAX_EPOCHS
    requires forall e | 0 <= e < |tables| :: Labels(tables[e], e + 1)
    ensures AllChecked(ClaimTables(tables)) && ClaimedRows(ClaimTables(tables)) == Flatten(tables)
    decreases |tables|
  {
    if tables != [] {
      var n := |tables|;
      var front := tables[..n - 1];
      FlattenRises(tables);
      ClaimsAccepted(front);
      assert Labels(tables[n - 1], n - 1 + 1);
      TableLabelled(tables[n - 1], n);
      assert ClaimTables(tables)[..n - 1] == ClaimTables(front);
      hide Checked, ClaimTable;
      forall e, i | 0 <= e < n && 0 <= i < |ClaimTables(tables)[e]|
        ensures Checked(ClaimTables(tables)[e][i], e + 1)
      {
        assert e < n - 1 ==> ClaimTables(tables)[e] == ClaimTables(front)[e];
      }
    }
  }

  /**
    Completeness: the tables of an honest run of at most 2^20 epochs that lists
    no cell twice pass every lookup, and the verifier reads back exactly the
    run's rows from them.
   */
  lemma {:induction false} HonestClaimsAccepted(g: nat -> int, epochs: seq<seq<Touch>>, tables: seq<seq<Row>>)
    requires NoRepeats(epochs) && |tables| == |epochs| <= MAX_EPOCHS && Flatten(tables) == RunRows(g, epochs)
    requires forall e | 0 <= e < |tables| :: Records(tables[e], epochs[e], e + 1)
    ensures AllChecked(ClaimTables(tables)) && ClaimedRows(ClaimTables(tables)) == RunRows(g, epochs)
  {
    hide RunRows, AllChecked, ClaimTables, ClaimedRows, NoRepeats, Flatten;
    RunRowsShape(g, epochs);
    forall e | 0 <= e < |tables|
      ensures Labels(tables[e], e + 1)
    {
      assert Records(tables[e], epochs[e], e + 1);
    }
    ClaimsAccepted(tables);
  }
}
