/**
  The function symbol table: lookup by address and the address range that
  resolves to the same function. Duplicate addresses are allowed, so the binary
  search may return any of several matches.
 */
module Symbols {
  import opened Outcomes

  const U64_MAX: nat := 0xFFFF_FFFF_FFFF_FFFF
  const TWO_64: nat := 0x1_0000_0000_0000_0000

  datatype Symbol = Symbol(name: string, address: nat, size: nat)

  /** The outcome of a binary search: some exact match, or the insertion point. */
  datatype Position = Found(i: nat) | Missing(i: nat)

  predicate SortedByAddress(functions: seq<Symbol>) {
    forall i, j | 0 <= i < j < |functions| :: functions[i].address <= functions[j].address
  }

  predicate Bounded(functions: seq<Symbol>) {
    forall i | 0 <= i < |functions| :: functions[i].address < TWO_64 && functions[i].size < TWO_64
  }

  /** What a binary search promises on a sorted table. */
  predicate Locates(functions: seq<Symbol>, address: nat, p: Position) {
    match p
    case Found(i) => i < |functions| && functions[i].address == address
    case Missing(i) =>
      && i <= |functions|
      && (forall j | 0 <= j < i :: functions[j].address < address)
      && (forall j | i <= j < |functions| :: address < functions[j].address)
  }

  /** A sorted table with a binary search fixed once and for all. */
  datatype Table = Table(functions: seq<Symbol>, search: nat -> Position)

  ghost predicate ValidTable(t: Table) {
    && SortedByAddress(t.functions) && Bounded(t.functions)
    && forall a: nat :: Locates(t.functions, a, t.search(a))
  }

  /** The last symbol at or before the address, if any. */
  function Candidate(t: Table, address: nat): (r: Option<nat>)
    ensures r.Some? ==> r.value < |t.functions|
  {
    match t.search(address)
    case Found(i) => if i < |t.functions| then Some(i) else None
    case Missing(i) => if 0 < i <= |t.functions| then Some(i - 1) else None
  }

  /** address + size in 64-bit arithmetic. */
  function SizeEnd(f: Symbol): nat { (f.address + f.size) % TWO_64 }

  function Lookup(t: Table, address: nat): Option<Symbol>
  {
    var idx :- Candidate(t, address);
    var f := t.functions[idx];
    if f.size == 0 || address < SizeEnd(f) then Some(f) else None
  }

  function LookupRange(t: Table, address: nat): Option<(Symbol, nat)>
  {
    var idx :- Candidate(t, address);
    var f := t.functions[idx];
    var sizeEnd := if f.size == 0 then U64_MAX else SizeEnd(f);
    if address >= sizeEnd then None
    else
      var nextStart := if idx + 1 < |t.functions| then t.functions[idx + 1].address else U64_MAX;
      Some((f, if sizeEnd <= nextStart then sizeEnd else nextStart))
  }

  /** `f` is the last symbol at or before the address, up to duplicates of its address. */
  predicate Precedes(functions: seq<Symbol>, f: Symbol, address: nat) {
    && f in functions && f.address <= address
    && forall i | 0 <= i < |functions| :: functions[i].address <= f.address || address < functions[i].address
  }

  /**
    What a lookup finds. A sized symbol covers exactly its bytes, and none of
    them when they run past the last address; a sizeless one covers everything
    up to the next symbol.
   */
  lemma {:induction false} LookupMeaning(t: Table, address: nat)
    requires ValidTable(t) && address < TWO_64
    ensures Lookup(t, address).Some? ==>
              var f := Lookup(t, address).value;
              && Precedes(t.functions, f, address)
              && (f.size == 0 || (address < f.address + f.size && f.address + f.size < TWO_64))
    ensures Lookup(t, address).None? ==>
              || (forall i | 0 <= i < |t.functions| :: address < t.functions[i].address)
              || exists f :: Precedes(t.functions, f, address) && f.size > 0
                             && (f.address + f.size <= address || TWO_64 <= f.address + f.size)
  {
    assert Locates(t.functions, address, t.search(address));
    var c := Candidate(t, address);
    if c.Some? {
      var f := t.functions[c.value];
      CandidatePrecedes(t, address);
      SizeEndMeaning(f, address);
      hide SizeEnd, ValidTable, Candidate;
      assert Lookup(t, address).None? ==> Precedes(t.functions, f, address);
    }
  }

  lemma {:induction false} CandidatePrecedes(t: Table, address: nat)
    requires ValidTable(t) && Candidate(t, address).Some?
    ensures Precedes(t.functions, t.functions[Candidate(t, address).value], address)
  {
    assert Locates(t.functions, address, t.search(address));
  }

  lemma {:induction false} SizeEndMeaning(f: Symbol, address: nat)
    requires f.address < TWO_64 && f.size < TWO_64 && f.address <= address < TWO_64
    ensures address < SizeEnd(f) <==> address < f.address + f.size < TWO_64
  {
    if f.address + f.size >= TWO_64 {
      assert SizeEnd(f) == f.address + f.size - TWO_64;
    }
  }

  /** Both lookups agree on the function, except that a sizeless one does not reach the last address. */
  lemma {:induction false} LookupsAgree(t: Table, address: nat)
    requires ValidTable(t) && address < TWO_64
    ensures var r, l := LookupRange(t, address), Lookup(t, address);
            && (r.Some? ==> l == Some(r.value.0))
            && (address < U64_MAX ==> (r.Some? <==> l.Some?))
  {}

  /**
    Every address in the range returned for some address resolves to a symbol
    at the range's start or, past the start, to exactly the returned symbol,
    whichever duplicates the searches pick.
   */
  lemma {:induction false} RangeResolvesAlike(t: Table, address: nat, a: nat)
    requires ValidTable(t)
    requires LookupRange(t, address).Some?
    requires var (f, end) := LookupRange(t, address).value; f.address <= a < end
    ensures Candidate(t, a).Some?
    ensures var f := LookupRange(t, address).value.0;
            && t.functions[Candidate(t, a).value].address == f.address
            && (a > f.address ==> Lookup(t, a) == Some(f))
  {
    var idx := Candidate(t, address).value;
    assert idx + 1 < |t.functions| ==> a < t.functions[idx + 1].address;
    assert Locates(t.functions, a, t.search(a));
  }

  /** The same table under any valid binary search. */
  ghost predicate SameTable(t: Table, u: Table) {
    ValidTable(u) && u.functions == t.functions
  }

  /** Whichever duplicates the searches pick, `a` resolves to `f`. */
  ghost predicate AlwaysResolves(t: Table, a: nat, f: Symbol) {
    forall u | SameTable(t, u) :: Lookup(u, a) == Some(f)
  }

  /** The comment on `lookup_range`: the whole range resolves to the returned function. */
  ghost predicate RangeResolves(t: Table, f: Symbol, end: nat) {
    forall a | f.address <= a < end :: AlwaysResolves(t, a, f)
  }

  predicate OnlyAtItsAddress(functions: seq<Symbol>, f: Symbol) {
    forall i | 0 <= i < |functions| && functions[i].address == f.address :: functions[i] == f
  }

  /** Exactly when a non-empty range resolves to its function: no other symbol has the function's address. */
  lemma {:induction false} RangeResolvesIff(t: Table, address: nat)
    requires ValidTable(t) && LookupRange(t, address).Some?
    requires var (f, end) := LookupRange(t, address).value; f.address < end
    ensures var (f, end) := LookupRange(t, address).value;
            RangeResolves(t, f, end) <==> OnlyAtItsAddress(t.functions, f)
  {
    hide ValidTable, LookupRange, Lookup;
    var (f, end) := LookupRange(t, address).value;
    if OnlyAtItsAddress(t.functions, f) {
      forall a, u | f.address <= a < end && SameTable(t, u)
        ensures Lookup(u, a) == Some(f)
      {
        ResolvesEverywhere(t, u, address, a);
      }
    } else {
      var k: nat :| k < |t.functions| && t.functions[k].address == f.address && t.functions[k] != f;
      var u := PickAt(t, k);
      PickIsValid(t, k);
      assert SameTable(t, u) && Lookup(u, f.address) != Some(f);
      assert !AlwaysResolves(t, f.address, f);
    }
  }

  lemma {:induction false} ResolvesEverywhere(t: Table, u: Table, address: nat, a: nat)
    requires ValidTable(t) && SameTable(t, u) && LookupRange(t, address).Some?
    requires var (f, end) := LookupRange(t, address).value; f.address <= a < end && OnlyAtItsAddress(t.functions, f)
    ensures Lookup(u, a) == Some(LookupRange(t, address).value.0)
  {
    var idx := Candidate(t, address).value;
    assert idx + 1 < |t.functions| ==> a < t.functions[idx + 1].address;
    assert Locates(u.functions, a, u.search(a));
  }

  /** The search that finds symbol k at its address and is `t`'s elsewhere. */
  function PickAt(t: Table, k: nat): Table
    requires k < |t.functions|
  {
    Table(t.functions, (a: nat) => if a == t.functions[k].address then Found(k) else t.search(a))
  }

  lemma {:induction false} PickIsValid(t: Table, k: nat)
    requires ValidTable(t) && k < |t.functions|
    ensures ValidTable(PickAt(t, k))
    ensures var r := Lookup(PickAt(t, k), t.functions[k].address);
            r.Some? ==> r.value == t.functions[k]
  {}

  /** Only one entry has the function's address. */
  predicate SoleAtItsAddress(functions: seq<Symbol>, f: Symbol) {
    forall i, j | 0 <= i < |functions| && 0 <= j < |functions| ::
      functions[i].address == f.address && functions[j].address == f.address ==> i == j
  }

  /** The range is as long as it can be: no address past its end resolves to the function, the last one apart. */
  lemma {:induction false} RangeIsMaximal(t: Table, address: nat, a: nat)
    requires ValidTable(t) && LookupRange(t, address).Some? && a < TWO_64
    requires var (f, end) := LookupRange(t, address).value;
             SoleAtItsAddress(t.functions, f) && end <= a && (a < U64_MAX || end < U64_MAX)
    ensures Lookup(t, a) != Some(LookupRange(t, address).value.0)
  {
    var idx := Candidate(t, address).value;
    var f := t.functions[idx];
    assert Locates(t.functions, address, t.search(address));
    assert Locates(t.functions, a, t.search(a));
    assert Lookup(t, a) == Some(f) ==> Candidate(t, a) == Some(idx);
  }

  /** At a duplicated start the function itself need not be the same one. */
  lemma {:induction false} DuplicateStart()
    ensures var t := Table([Symbol("f", 16, 4), Symbol("g", 16, 8)],
                           a => if a == 16 then Found(0) else if a < 16 then Missing(0) else Missing(2));
            && ValidTable(t)
            && LookupRange(t, 17).Some? && LookupRange(t, 17).value.0.name == "g"
            && Lookup(t, 16).Some? && Lookup(t, 16).value.name == "f"
  {}
}
