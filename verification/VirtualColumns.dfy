/** Definitions of array-typed virtual columns: every scalar leaf is defined exactly once. */
module VirtualColumns {
  import opened ChipTypes

  /** Indices of one element, outermost first. */
  type Indices = seq<nat>

  /** One definition: a polynomial under nested iterators, outermost first. */
  datatype Def = Def(iters: seq<Iter>, poly: Expr)

  predicate Comparable(s: Indices, t: Indices) {
    s <= t || t <= s
  }

  /** No two visited elements overlap. */
  predicate Antichain(visited: seq<Indices>) {
    forall i, j | 0 <= i < j < |visited| :: !Comparable(visited[i], visited[j])
  }

  // ---------------------------------------------------------------------
  // What a definition visits
  // ---------------------------------------------------------------------

  /** The elements visited, and whether nothing but overlaps and gaps could be reported. */
  datatype Visit = Visit(visited: seq<Indices>, ok: bool)

  function Join(a: Visit, b: Visit): Visit { Visit(a.visited + b.visited, a.ok && b.ok) }

  predicate InRange(start: int, stop: int, expected: Type) {
    expected.Array? && 0 <= start <= stop < |expected.elems|
  }

  function Visits(iters: seq<Iter>, poly: Expr, env: Env, expected: Type, indices: Indices): Visit
    decreases |iters|, 0, 0
  {
    if iters == [] then
      var val := Typecheck(poly, env);
      Visit([indices], val.ok && StructureMatches(val.t, expected))
    else
      var a, b := Typecheck(iters[0].start, env), Typecheck(iters[0].stop, env);
      var start, stop := SumFrom(a), SumTo(a, b);
      if InRange(start, stop, expected) then
        Join(Visit([], SumSeed(a, b).ok), VisitsFrom(iters, poly, env, expected, indices, start, stop))
      else Visit([], false)
  }

  /** Elements start..stop of the current array. */
  function VisitsFrom(iters: seq<Iter>, poly: Expr, env: Env, expected: Type, indices: Indices, i: nat,
                      stop: nat): Visit
    requires iters != [] && expected.Array? && stop < |expected.elems|
    decreases |iters| - 1, 1, stop + 1 - i
  {
    if i > stop then Visit([], true)
    else Join(Visits(iters[1..], poly, WithVal(env, iters[0].name, i), expected.elems[i], indices + [i]),
              VisitsFrom(iters, poly, env, expected, indices, i + 1, stop))
  }

  function AllVisits(defs: seq<Def>, env: Env, t: Type): Visit {
    if defs == [] then Visit([], true)
    else
      var d := defs[|defs| - 1];
      Join(AllVisits(defs[..|defs| - 1], env, t), Visits(d.iters, d.poly, env, t, []))
  }

  /** One index per iterator, each within that iterator's bounds once the outer ones are fixed. */
  predicate Selected(iters: seq<Iter>, env: Env, s: Indices)
    decreases |iters|
  {
    && |s| == |iters|
    && (iters == [] ||
        (var a, b := Typecheck(iters[0].start, env), Typecheck(iters[0].stop, env);
         SumFrom(a) <= s[0] <= SumTo(a, b) && Selected(iters[1..], WithVal(env, iters[0].name, s[0]), s[1..])))
  }

  /** A definition without bad bounds visits exactly the elements its iterators select. */
  lemma {:induction false} VisitsMember(iters: seq<Iter>, poly: Expr, env: Env, expected: Type, indices: Indices,
                                        q: Indices)
    requires Visits(iters, poly, env, expected, indices).ok
    ensures q in Visits(iters, poly, env, expected, indices).visited
       <==> indices <= q && Selected(iters, env, q[|indices|..])
    decreases |iters|, 0, 0
  {
    hide Typecheck, WithVal, StructureMatches, VisitsFrom;
    if iters == [] {
      assert indices <= q && q[|indices|..] == [] ==> q == indices;
    } else {
      var a, b := Typecheck(iters[0].start, env), Typecheck(iters[0].stop, env);
      RangeMember(iters, poly, env, expected, indices, SumFrom(a), SumTo(a, b), q);
    }
  }

  lemma {:induction false} RangeMember(iters: seq<Iter>, poly: Expr, env: Env, expected: Type, indices: Indices,
                                       i: nat, stop: nat, q: Indices)
    requires iters != [] && expected.Array? && stop < |expected.elems|
    requires VisitsFrom(iters, poly, env, expected, indices, i, stop).ok
    ensures var n := |indices|;
            q in VisitsFrom(iters, poly, env, expected, indices, i, stop).visited
            <==> && indices <= q && |q| > n && i <= q[n] <= stop
                 && Selected(iters[1..], WithVal(env, iters[0].name, q[n]), q[n..][1..])
    decreases |iters| - 1, 1, stop + 1 - i
  {
    hide Visits, WithVal, Selected;
    if i <= stop {
      VisitsMember(iters[1..], poly, WithVal(env, iters[0].name, i), expected.elems[i], indices + [i], q);
      RangeMember(iters, poly, env, expected, indices, i + 1, stop, q);
      ExtendsBy(indices, i, q);
    }
  }

  lemma {:induction false} ExtendsBy(s: Indices, i: nat, q: Indices)
    ensures s + [i] <= q <==> s <= q && |q| > |s| && q[|s|] == i
    ensures s + [i] <= q ==> q[|s + [i]|..] == q[|s|..][1..]
  {}

  /** All definitions together visit exactly what some definition selects. */
  lemma {:induction false} AllVisitsMember(defs: seq<Def>, env: Env, t: Type, q: Indices)
    requires AllVisits(defs, env, t).ok
    ensures q in AllVisits(defs, env, t).visited
       <==> exists k :: 0 <= k < |defs| && Selected(defs[k].iters, env, q)
    decreases |defs|
  {
    hide Visits, Selected;
    if defs != [] {
      var m := |defs| - 1;
      AllVisitsMember(defs[..m], env, t, q);
      VisitsMember(defs[m].iters, defs[m].poly, env, t, [], q);
      assert q[0..] == q;
      if k :| 0 <= k < |defs| && Selected(defs[k].iters, env, q) {
        assert k < m ==> defs[..m][k] == defs[k];
      }
      if k :| 0 <= k < m && Selected(defs[..m][k].iters, env, q) {
        assert Selected(defs[k].iters, env, q);
      }
    }
  }

  // ---------------------------------------------------------------------
  // Coverage
  // ---------------------------------------------------------------------

  predicate IsCovered(visited: seq<Indices>, indices: Indices) {
    exists i :: 0 <= i < |visited| && visited[i] <= indices
  }

  predicate CheckCovered(t: Type, visited: seq<Indices>, indices: Indices)
    decreases t
  {
    match t
    case Scalar(_, _) => IsCovered(visited, indices)
    case Array(elems) => forall i | 0 <= i < |elems| :: CheckCovered(elems[i], visited, indices + [i])
  }

  /** `p` leads to a scalar of `t`. */
  predicate IsLeaf(t: Type, p: Indices)
    decreases |p|
  {
    if p == [] then t.Scalar? else t.Array? && p[0] < |t.elems| && IsLeaf(t.elems[p[0]], p[1..])
  }

  /** The recursive check covers exactly the scalar leaves. */
  lemma {:induction false} CheckCoveredLeaf(t: Type, visited: seq<Indices>, indices: Indices, p: Indices)
    requires CheckCovered(t, visited, indices) && IsLeaf(t, p)
    ensures IsCovered(visited, indices + p)
    decreases |p|
  {
    if p == [] {
      assert indices + p == indices;
    } else {
      CheckCoveredLeaf(t.elems[p[0]], visited, indices + [p[0]], p[1..]);
      assert (indices + [p[0]]) + p[1..] == indices + p;
    }
  }

  lemma {:induction false} LeavesCovered(t: Type, visited: seq<Indices>, indices: Indices)
    requires forall p | IsLeaf(t, p) :: IsCovered(visited, indices + p)
    ensures CheckCovered(t, visited, indices)
    decreases t
  {
    if t.Scalar? {
      assert IsLeaf(t, []);
      assert indices + [] == indices;
    } else {
      forall i | 0 <= i < |t.elems|
        ensures CheckCovered(t.elems[i], visited, indices + [i])
      {
        forall q | IsLeaf(t.elems[i], q)
          ensures IsCovered(visited, (indices + [i]) + q)
        {
          var p := [i] + q;
          assert p[1..] == q;
          assert IsLeaf(t, p);
          assert indices + p == (indices + [i]) + q;
        }
        LeavesCovered(t.elems[i], visited, indices + [i]);
      }
    }
  }

  // ---------------------------------------------------------------------
  // The checker
  // ---------------------------------------------------------------------

  /** Whether any element visited so far overlaps `indices`. */
  method Clashes(seen: seq<Indices>, indices: Indices) returns (clash: bool)
    ensures clash <==> exists i :: 0 <= i < |seen| && Comparable(seen[i], indices)
  {
    clash := false;
    for n := 0 to |seen|
      invariant !clash && forall i | 0 <= i < n :: !Comparable(seen[i], indices)
    {
      var s := seen[n];
      var ln := if |s| <= |indices| then |s| else |indices|;
      PrefixesCompare(s, indices);
      if s[..ln] == indices[..ln] {
        return true;
      }
    }
  }

  lemma {:induction false} PrefixesCompare(s: Indices, t: Indices)
    ensures var ln := if |s| <= |t| then |s| else |t|;
            s[..ln] == t[..ln] <==> Comparable(s, t)
  {}

  lemma {:induction false} AntichainAppend(seen: seq<Indices>, x: Indices)
    ensures Antichain(seen + [x])
       <==> Antichain(seen) && !(exists i :: 0 <= i < |seen| && Comparable(seen[i], x))
  {
    var all := seen + [x];
    assert all[|seen|] == x;
    assert forall i | 0 <= i < |seen| :: all[i] == seen[i];
    if Antichain(all) {
      forall i | 0 <= i < |seen|
        ensures !Comparable(seen[i], x)
      {
        assert !Comparable(all[i], all[|seen|]);
      }
    }
  }

  /** Visits one definition, recording its elements and reporting overlaps, bad bounds and bad structure. */
  method HandleIters(iters: seq<Iter>, poly: Expr, env: Env, expected: Type, indices: Indices,
                     seen: seq<Indices>, ok: bool, ghost fine: bool)
      returns (seen': seq<Indices>, ok': bool)
    requires ok <==> fine && Antichain(seen)
    ensures var v := Visits(iters, poly, env, expected, indices);
            seen' == seen + v.visited && (ok' <==> fine && v.ok && Antichain(seen'))
    decreases |iters|
  {
    hide Typecheck, StructureMatches, Antichain, SumFrom, SumTo, SumSeed, VisitsFrom, WithVal;
    if iters == [] {
      var clash := Clashes(seen, indices);
      AntichainAppend(seen, indices);
      var val := Typecheck(poly, env);
      seen', ok' := seen + [indices], ok && !clash && val.ok && StructureMatches(val.t, expected);
      return;
    }
    var start, stop := Typecheck(iters[0].start, env), Typecheck(iters[0].stop, env);
    ok' := ok && SumSeed(start, stop).ok;
    var from, to := SumFrom(start), SumTo(start, stop);
    if expected.Scalar? || !(0 <= from <= to < |expected.elems|) {
      assert seen + [] == seen;
      return seen, false;
    }
    seen' := seen;
    ghost var soFar := Visit([], SumSeed(start, stop).ok);
    ghost var all := Join(soFar, VisitsFrom(iters, poly, env, expected, indices, from, to));
    assert seen + [] == seen;
    for i := from to to + 1
      invariant seen' == seen + soFar.visited
      invariant ok' <==> fine && soFar.ok && Antichain(seen')
      invariant Join(soFar, VisitsFrom(iters, poly, env, expected, indices, i, to)) == all
    {
      ghost var v := Visits(iters[1..], poly, WithVal(env, iters[0].name, i), expected.elems[i], indices + [i]);
      VisitsFromStep(iters, poly, env, expected, indices, i, to);
      JoinAssociates(soFar, v, VisitsFrom(iters, poly, env, expected, indices, i + 1, to));
      seen', ok' := HandleIters(iters[1..], poly, WithVal(env, iters[0].name, i), expected.elems[i], indices + [i],
                                seen', ok', fine && soFar.ok);
      ghost var before := soFar.visited;
      soFar := Join(soFar, v);
      assert (seen + before) + v.visited == seen + (before + v.visited);
    }
    VisitsFromEnd(iters, poly, env, expected, indices, to);
    JoinNothing(soFar);
  }

  lemma {:induction false} VisitsFromStep(iters: seq<Iter>, poly: Expr, env: Env, expected: Type, indices: Indices,
                                          i: nat, stop: nat)
    requires iters != [] && expected.Array? && i <= stop < |expected.elems|
    ensures VisitsFrom(iters, poly, env, expected, indices, i, stop)
         == Join(Visits(iters[1..], poly, WithVal(env, iters[0].name, i), expected.elems[i], indices + [i]),
                 VisitsFrom(iters, poly, env, expected, indices, i + 1, stop))
  {
    hide Visits, WithVal;
  }

  lemma {:induction false} VisitsFromEnd(iters: seq<Iter>, poly: Expr, env: Env, expected: Type, indices: Indices,
                                         stop: nat)
    requires iters != [] && expected.Array? && stop < |expected.elems|
    ensures VisitsFrom(iters, poly, env, expected, indices, stop + 1, stop) == Visit([], true)
  {}

  lemma {:induction false} JoinAssociates(a: Visit, b: Visit, c: Visit)
    ensures Join(a, Join(b, c)) == Join(Join(a, b), c)
  {
    assert a.visited + (b.visited + c.visited) == (a.visited + b.visited) + c.visited;
  }

  lemma {:induction false} JoinNothing(a: Visit)
    ensures Join(a, Visit([], true)) == a && Join(Visit([], true), a) == a
  {
    assert a.visited + [] == a.visited && [] + a.visited == a.visited;
  }

  /**
    Accepts exactly when bounds and structure are right, no two visits overlap
    and every leaf is covered. Without empty arrays that is: every leaf is
    defined exactly once.
   */
  method TypecheckVirtual(t: Type, defs: seq<Def>, env: Env) returns (ok: bool)
    ensures var v := AllVisits(defs, env, t);
            && (ok <==> v.ok && Antichain(v.visited) && CheckCovered(t, v.visited, []))
            && (NoEmptyArray(t) ==> (ok <==> v.ok && AllDefinedOnce(t, v.visited)))
  {
    hide Visits, Antichain, CheckCovered, NoEmptyArray, AllDefinedOnce;
    if NoEmptyArray(t) {
      AcceptedIffOnce(t, defs, env);
    }
    if t.Scalar? {
      ScalarColumn(t, defs, env);
      if |defs| != 1 || defs[0].iters != [] {
        return false;
      }
      var val := Typecheck(defs[0].poly, env);
      return val.ok && val.t.Scalar?;
    }
    var seen: seq<Indices> := [];
    ok := true;
    assert defs[..0] == [];
    assert Antichain([]) by { NothingOverlaps(); }
    for n := 0 to |defs|
      invariant seen == AllVisits(defs[..n], env, t).visited
      invariant ok <==> AllVisits(defs[..n], env, t).ok && Antichain(seen)
    {
      assert defs[..n + 1][..n] == defs[..n];
      seen, ok := HandleIters(defs[n].iters, defs[n].poly, env, t, [], seen, ok, AllVisits(defs[..n], env, t).ok);
    }
    assert defs[..|defs|] == defs;
    var covered := CheckCovered(t, seen, []);
    ok := ok && covered;
  }

  lemma {:induction false} NothingOverlaps()
    ensures Antichain([])
  {}

  /** Definitions of a scalar without iterators each visit the whole column. */
  lemma {:induction false} PlainVisits(t: Type, defs: seq<Def>, env: Env)
    requires t.Scalar?
    ensures var v := AllVisits(defs, env, t);
            v.ok ==> |v.visited| == |defs| && forall k | 0 <= k < |defs| :: defs[k].iters == [] && v.visited[k] == []
  {
    if defs != [] {
      PlainVisits(t, defs[..|defs| - 1], env);
    }
  }

  /** The special case for scalars decides what the general check would. */
  lemma {:induction false} ScalarColumn(t: Type, defs: seq<Def>, env: Env)
    requires t.Scalar?
    ensures var v := AllVisits(defs, env, t);
            v.ok && Antichain(v.visited) && CheckCovered(t, v.visited, [])
            <==> |defs| == 1 && defs[0].iters == [] && Typecheck(defs[0].poly, env).ok
                 && Typecheck(defs[0].poly, env).t.Scalar?
  {
    hide Typecheck, StructureMatches, AllVisits;
    PlainVisits(t, defs, env);
    var v := AllVisits(defs, env, t);
    if v.ok && |defs| > 1 {
      assert Comparable(v.visited[0], v.visited[1]);
    }
    if |defs| == 1 {
      SoleVisit(t, defs[0], env);
      assert defs == [defs[0]];
    }
  }

  lemma {:induction false} SoleVisit(t: Type, d: Def, env: Env)
    requires t.Scalar?
    ensures var v := AllVisits([d], env, t);
            if d.iters == [] then v == Visit([[]], Typecheck(d.poly, env).ok && Typecheck(d.poly, env).t.Scalar?)
            else !v.ok
  {
    hide Typecheck;
    assert [d][..0] == [];
    JoinNothing(Visits(d.iters, d.poly, env, t, []));
  }

  /** Visited element `k` is the one that defines leaf `p`. */
  predicate Defines(visited: seq<Indices>, k: nat, p: Indices) {
    k < |visited| && visited[k] <= p
  }

  ghost predicate DefinedOnce(visited: seq<Indices>, p: Indices) {
    && (exists k: nat :: Defines(visited, k, p))
    && (forall j: nat, k: nat | Defines(visited, j, p) && Defines(visited, k, p) :: j == k)
  }

  /** The checker's conditions say that every scalar leaf is defined by exactly one visited element. */
  lemma {:induction false} ExactlyOnce(t: Type, visited: seq<Indices>, p: Indices)
    requires Antichain(visited) && CheckCovered(t, visited, []) && IsLeaf(t, p)
    ensures DefinedOnce(visited, p)
  {
    CheckCoveredLeaf(t, visited, [], p);
    assert [] + p == p;
    var i :| 0 <= i < |visited| && visited[i] <= p;
    assert Defines(visited, i, p);
    forall j: nat, k: nat | Defines(visited, j, p) && Defines(visited, k, p)
      ensures j == k
    {
      PrefixesOfOne(visited[j], visited[k], p);
    }
  }

  lemma {:induction false} PrefixesOfOne(s: Indices, t: Indices, p: Indices)
    requires s <= p && t <= p
    ensures Comparable(s, t)
  {}

  ghost predicate HasLeafBelow(t: Type, s: Indices) {
    exists p :: IsLeaf(t, p) && s <= p
  }

  /** Conversely, leaves defined exactly once pass, when every visited element has a leaf below it. */
  lemma {:induction false} ExactlyOncePasses(t: Type, visited: seq<Indices>)
    requires forall p | IsLeaf(t, p) :: DefinedOnce(visited, p)
    requires forall k | 0 <= k < |visited| :: HasLeafBelow(t, visited[k])
    ensures Antichain(visited) && CheckCovered(t, visited, [])
  {
    hide DefinedOnce, HasLeafBelow, IsLeaf, CheckCovered, IsCovered;
    forall p | IsLeaf(t, p)
      ensures IsCovered(visited, [] + p)
    {
      DefinedIsCovered(visited, p);
    }
    LeavesCovered(t, visited, []);
    OnceIsAntichain(t, visited);
  }

  lemma {:induction false} DefinedIsCovered(visited: seq<Indices>, p: Indices)
    requires DefinedOnce(visited, p)
    ensures IsCovered(visited, [] + p)
  {
    var k: nat :| Defines(visited, k, p);
    assert [] + p == p;
    assert visited[k] <= p;
  }

  lemma {:induction false} OnceIsAntichain(t: Type, visited: seq<Indices>)
    requires forall p | IsLeaf(t, p) :: DefinedOnce(visited, p)
    requires forall k | 0 <= k < |visited| :: HasLeafBelow(t, visited[k])
    ensures Antichain(visited)
  {
    hide DefinedOnce, HasLeafBelow, IsLeaf;
    forall i, j | 0 <= i < j < |visited|
      ensures !Comparable(visited[i], visited[j])
    {
      NotAbove(t, visited, i, j);
      NotAbove(t, visited, j, i);
    }
  }

  lemma {:induction false} NotAbove(t: Type, visited: seq<Indices>, i: nat, j: nat)
    requires i < |visited| && j < |visited| && i != j && HasLeafBelow(t, visited[j])
    requires forall p | IsLeaf(t, p) :: DefinedOnce(visited, p)
    ensures !(visited[i] <= visited[j])
  {
    var p :| IsLeaf(t, p) && visited[j] <= p;
    assert DefinedOnce(visited, p);
    assert Defines(visited, j, p);
    assert visited[i] <= visited[j] ==> Defines(visited, i, p);
  }

  // ---------------------------------------------------------------------
  // Every visited element has a leaf below it
  // ---------------------------------------------------------------------

  ghost predicate AllDefinedOnce(t: Type, visited: seq<Indices>) {
    forall p | IsLeaf(t, p) :: DefinedOnce(visited, p)
  }

  predicate NoEmptyArray(t: Type) {
    t.Scalar? || (t.elems != [] && forall i | 0 <= i < |t.elems| :: NoEmptyArray(t.elems[i]))
  }

  /** The indices `s` select `u` inside `t`. */
  predicate Selects(t: Type, s: Indices, u: Type)
    decreases |s|
  {
    if s == [] then t == u else t.Array? && s[0] < |t.elems| && Selects(t.elems[s[0]], s[1..], u)
  }

  lemma {:induction false} SelectsOne(t: Type, s: Indices, u: Type, i: nat)
    requires Selects(t, s, u) && u.Array? && i < |u.elems|
    ensures Selects(t, s + [i], u.elems[i])
    decreases |s|
  {
    if s == [] {
      assert (s + [i])[1..] == [];
    } else {
      SelectsOne(t.elems[s[0]], s[1..], u, i);
      assert (s + [i])[1..] == s[1..] + [i];
    }
  }

  lemma {:induction false} LeafInside(t: Type, s: Indices, u: Type, p: Indices)
    requires Selects(t, s, u) && IsLeaf(u, p)
    ensures IsLeaf(t, s + p)
    decreases |s|
  {
    if s == [] {
      assert s + p == p;
    } else {
      LeafInside(t.elems[s[0]], s[1..], u, p);
      assert (s + p)[1..] == s[1..] + p;
    }
  }

  lemma {:induction false} SomeLeaf(t: Type) returns (p: Indices)
    requires NoEmptyArray(t)
    ensures IsLeaf(t, p)
  {
    if t.Scalar? {
      p := [];
    } else {
      var q := SomeLeaf(t.elems[0]);
      p := [0] + q;
      assert p[1..] == q;
    }
  }

  ghost predicate AllHaveLeaves(t: Type, visited: seq<Indices>) {
    forall k | 0 <= k < |visited| :: HasLeafBelow(t, visited[k])
  }

  lemma {:induction false} VisitsHaveLeaves(t: Type, iters: seq<Iter>, poly: Expr, env: Env, expected: Type,
                                            indices: Indices)
    requires Selects(t, indices, expected) && NoEmptyArray(expected)
    ensures AllHaveLeaves(t, Visits(iters, poly, env, expected, indices).visited)
    decreases |iters|, 0, 0
  {
    hide Typecheck, WithVal, StructureMatches, VisitsFrom;
    if iters == [] {
      var p := SomeLeaf(expected);
      LeafInside(t, indices, expected, p);
      assert indices <= indices + p;
    } else {
      var a, b := Typecheck(iters[0].start, env), Typecheck(iters[0].stop, env);
      if InRange(SumFrom(a), SumTo(a, b), expected) {
        RangeHasLeaves(t, iters, poly, env, expected, indices, SumFrom(a), SumTo(a, b));
      }
    }
  }

  lemma {:induction false} RangeHasLeaves(t: Type, iters: seq<Iter>, poly: Expr, env: Env, expected: Type,
                                          indices: Indices, i: nat, stop: nat)
    requires iters != [] && expected.Array? && stop < |expected.elems|
    requires Selects(t, indices, expected) && NoEmptyArray(expected)
    ensures AllHaveLeaves(t, VisitsFrom(iters, poly, env, expected, indices, i, stop).visited)
    decreases |iters| - 1, 1, stop + 1 - i
  {
    hide Visits, WithVal, HasLeafBelow;
    if i <= stop {
      SelectsOne(t, indices, expected, i);
      VisitsHaveLeaves(t, iters[1..], poly, WithVal(env, iters[0].name, i), expected.elems[i], indices + [i]);
      RangeHasLeaves(t, iters, poly, env, expected, indices, i + 1, stop);
    }
  }

  lemma {:induction false} AllVisitsHaveLeaves(t: Type, defs: seq<Def>, env: Env)
    requires NoEmptyArray(t)
    ensures AllHaveLeaves(t, AllVisits(defs, env, t).visited)
    decreases |defs|
  {
    hide Visits, HasLeafBelow;
    if defs != [] {
      var d := defs[|defs| - 1];
      AllVisitsHaveLeaves(t, defs[..|defs| - 1], env);
      VisitsHaveLeaves(t, d.iters, d.poly, env, t, []);
    }
  }

  /** The checker's two conditions together say that every leaf is defined exactly once. */
  lemma {:induction false} AcceptedIffOnce(t: Type, defs: seq<Def>, env: Env)
    requires NoEmptyArray(t)
    ensures var visited := AllVisits(defs, env, t).visited;
            Antichain(visited) && CheckCovered(t, visited, []) <==> AllDefinedOnce(t, visited)
  {
    hide IsLeaf, DefinedOnce, Antichain, CheckCovered, AllVisits, HasLeafBelow;
    var visited := AllVisits(defs, env, t).visited;
    AllVisitsHaveLeaves(t, defs, env);
    if Antichain(visited) && CheckCovered(t, visited, []) {
      forall p | IsLeaf(t, p)
        ensures DefinedOnce(visited, p)
      {
        ExactlyOnce(t, visited, p);
      }
    }
    if AllDefinedOnce(t, visited) {
      ExactlyOncePasses(t, visited);
    }
  }
}
