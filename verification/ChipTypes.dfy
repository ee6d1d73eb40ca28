/**
  The interval type checker of the chip description language: ranges for
  expressions, against the integer values the expressions take.
 */
module ChipTypes {
  import opened Outcomes
  import opened Modular

  /** A scalar range or an array of types. */
  datatype Type = Scalar(low: int, high: int) | Array(elems: seq<Type>)

  datatype Value = Num(n: int) | Arr(vals: seq<Value>)

  datatype Expr =
    | Lit(lit: int)
    | Var(name: string)
    | ArrLit(elems: seq<Expr>)
    | Idx(base: Expr, idx: Expr)
    | Mul(factors: seq<Expr>)
    | Add(terms: seq<Expr>)
    | Sub(head: Expr, subs: seq<Expr>)
    | Mod(elt: Expr, modulus: Expr)
    | Pow(base: Expr, exp: Expr)
    | Sum(name: string, start: Expr, stop: Expr, body: Expr)
    | Not(inner: Expr)

  /** A computed type, and whether no error was reported on the way. */
  datatype Checked = Checked(t: Type, ok: bool)

  function Const(x: int): Type { Scalar(x, x) }

  const DEFAULT := Scalar(0, 0)

  predicate IsConst(t: Type) {
    t.Scalar? && t.low == t.high
  }

  predicate IsBool(t: Type) {
    t.Scalar? && t.low >= 0 && t.high <= 1
  }

  /** The value lies in the type. */
  predicate HasType(v: Value, t: Type) {
    match (v, t)
    case (Num(n), Scalar(low, high)) => low <= n <= high
    case (Arr(vals), Array(elems)) =>
      |vals| == |elems| && forall i | 0 <= i < |vals| :: HasType(vals[i], elems[i])
    case _ => false
  }

  // ---------------------------------------------------------------------
  // Combining types
  // ---------------------------------------------------------------------

  function Min(a: int, b: int): int { if a <= b then a else b }

  function Max(a: int, b: int): int { if a >= b then a else b }

  /** The extrema over the four corner products. */
  function MulRange(a: Type, b: Type): Type
    requires a.Scalar? && b.Scalar?
  {
    Scalar(Min(Min(a.low * b.low, a.low * b.high), Min(a.high * b.low, a.high * b.high)),
           Max(Max(a.low * b.low, a.low * b.high), Max(a.high * b.low, a.high * b.high)))
  }

  /** Every leaf multiplied by a scalar range. */
  function MulLeaves(a: Type, b: Type): Type
    requires b.Scalar?
    decreases a
  {
    match a
    case Scalar(_, _) => MulRange(a, b)
    case Array(elems) => Array(seq(|elems|, i requires 0 <= i < |elems| => MulLeaves(elems[i], b)))
  }

  function MulMatch(a: Type, b: Type): Checked {
    if a.Array? && b.Array? then Checked(DEFAULT, false)
    else if a.Array? then Checked(MulLeaves(a, b), true)
    else Checked(MulLeaves(b, a), true)
  }

  /** Addition of ranges, leaf by leaf; `sign` -1 subtracts. */
  function AddMatch(a: Type, b: Type, sign: int): Checked
    decreases a
  {
    match (a, b)
    case (Scalar(l, h), Scalar(l', h')) =>
      Checked(if sign == 1 then Scalar(l + l', h + h') else Scalar(l - h', h - l'), true)
    case (Array(xs), Array(ys)) =>
      if |xs| != |ys| then
        var n := if sign == 1 then |ys| else |xs|;
        Checked(Array(seq(n, _ => DEFAULT)), false)
      else
        Checked(Array(seq(|xs|, i requires 0 <= i < |xs| => AddMatch(xs[i], ys[i], sign).t)),
                forall i | 0 <= i < |xs| :: AddMatch(xs[i], ys[i], sign).ok)
    case _ => Checked(DEFAULT, false)
  }

  // ---------------------------------------------------------------------
  // Combining values
  // ---------------------------------------------------------------------

  predicate StructureMatches(a: Type, b: Type) {
    match (a, b)
    case (Scalar(_, _), Scalar(_, _)) => true
    case (Array(xs), Array(ys)) =>
      |xs| == |ys| && forall i | 0 <= i < |xs| :: StructureMatches(xs[i], ys[i])
    case _ => false
  }

  function Scaled(v: Value, k: int): Value {
    match v
    case Num(n) => Num(n * k)
    case Arr(vals) => Arr(seq(|vals|, i requires 0 <= i < |vals| => Scaled(vals[i], k)))
  }

  function MulValue(v: Value, w: Value): Option<Value> {
    if w.Num? then Some(Scaled(v, w.n))
    else if v.Num? then Some(Scaled(w, v.n))
    else None
  }

  function AddValue(v: Value, w: Value, sign: int): Option<Value>
    decreases v
  {
    match (v, w)
    case (Num(n), Num(m)) => Some(Num(n + sign * m))
    case (Arr(xs), Arr(ys)) =>
      if |xs| != |ys| then None
      else
        var rs := seq(|xs|, i requires 0 <= i < |xs| => AddValue(xs[i], ys[i], sign));
        if forall i | 0 <= i < |rs| :: rs[i].Some?
        then Some(Arr(seq(|rs|, i requires 0 <= i < |rs| => rs[i].value)))
        else None
    case _ => None
  }

  // ---------------------------------------------------------------------
  // Soundness of the combinations
  // ---------------------------------------------------------------------

  lemma {:induction false} Corner(x: int, a: int, b: int, y: int)
    requires a <= x <= b
    ensures Min(a * y, b * y) <= x * y <= Max(a * y, b * y)
  {
    if y >= 0 {
      assert (x - a) * y >= 0 && (b - x) * y >= 0;
    } else {
      assert (x - a) * -y >= 0 && (b - x) * -y >= 0;
    }
  }

  lemma {:induction false} MulRangeSound(x: int, a: Type, y: int, b: Type)
    requires a.Scalar? && b.Scalar? && a.low <= x <= a.high && b.low <= y <= b.high
    ensures MulRange(a, b).low <= x * y <= MulRange(a, b).high
  {
    Corner(x, a.low, a.high, y);
    Corner(y, b.low, b.high, a.low);
    Corner(y, b.low, b.high, a.high);
    Commute(y, a.low);
    Commute(y, a.high);
    Commute(b.low, a.low);
    Commute(b.high, a.low);
    Commute(b.low, a.high);
    Commute(b.high, a.high);
  }

  lemma {:induction false} Commute(x: int, y: int)
    ensures x * y == y * x
  {}

  lemma {:induction false} MulLeavesSound(v: Value, a: Type, y: int, b: Type)
    requires b.Scalar? && HasType(v, a) && b.low <= y <= b.high
    ensures HasType(Scaled(v, y), MulLeaves(a, b))
    decreases a
  {
    if a.Scalar? {
      MulRangeSound(v.n, a, y, b);
    } else {
      forall i | 0 <= i < |a.elems|
        ensures HasType(Scaled(v.vals[i], y), MulLeaves(a.elems[i], b))
      {
        MulLeavesSound(v.vals[i], a.elems[i], y, b);
      }
    }
  }

  lemma {:induction false} MulMatchSound(v: Value, a: Type, w: Value, b: Type)
    requires HasType(v, a) && HasType(w, b) && MulMatch(a, b).ok
    ensures MulValue(v, w).Some? && HasType(MulValue(v, w).value, MulMatch(a, b).t)
  {
    hide MulLeaves, Scaled;
    if a.Array? {
      MulLeavesSound(v, a, w.n, b);
    } else {
      MulLeavesSound(w, b, v.n, a);
      if w.Num? {
        ScaledCommutes(v.n, w.n);
      }
    }
  }

  lemma {:induction false} ScaledCommutes(x: int, y: int)
    ensures Scaled(Num(x), y) == Scaled(Num(y), x)
  {
    Commute(x, y);
  }

  lemma {:induction false} AddMatchSound(v: Value, a: Type, w: Value, b: Type, sign: int)
    requires HasType(v, a) && HasType(w, b) && AddMatch(a, b, sign).ok && (sign == 1 || sign == -1)
    ensures AddValue(v, w, sign).Some? && HasType(AddValue(v, w, sign).value, AddMatch(a, b, sign).t)
    decreases a
  {
    if a.Array? {
      forall i | 0 <= i < |a.elems|
        ensures AddValue(v.vals[i], w.vals[i], sign).Some?
        ensures HasType(AddValue(v.vals[i], w.vals[i], sign).value, AddMatch(a.elems[i], b.elems[i], sign).t)
      {
        AddMatchSound(v.vals[i], a.elems[i], w.vals[i], b.elems[i], sign);
      }
    }
  }

  // ---------------------------------------------------------------------
  // Expressions
  // ---------------------------------------------------------------------

  /** Iteration variables hold constants and shadow columns. */
  datatype Env = Env(prime: nat, valmap: map<string, int>, typemap: map<string, Type>)

  function WithVal(env: Env, name: string, i: int): Env {
    env.(valmap := env.valmap[name := i])
  }

  function PowNat(b: int, e: nat): int {
    if e == 0 then 1 else b * PowNat(b, e - 1)
  }

  /** The three-argument power: a negative exponent powers the inverse. */
  function PowMod(b: int, e: int, p: nat): int
    requires p >= 2
  {
    if e >= 0 then R(p, PowNat(b, e)) else R(p, PowNat(Inv(p, b), -e))
  }

  predicate Unit(b: int, p: nat)
    requires p >= 2
  {
    R(p, b * Inv(p, b)) == 1
  }

  /** Folds a combination over the remaining operands. */
  function FoldMul(t: Checked, cs: seq<Checked>): Checked
    decreases |cs|
  {
    if cs == [] then t
    else
      var m := MulMatch(t.t, cs[0].t);
      FoldMul(Checked(m.t, t.ok && cs[0].ok && m.ok), cs[1..])
  }

  function FoldAdd(t: Checked, cs: seq<Checked>, sign: int): Checked
    decreases |cs|
  {
    if cs == [] then t
    else
      var m := AddMatch(t.t, cs[0].t, sign);
      FoldAdd(Checked(m.t, t.ok && cs[0].ok && m.ok), cs[1..], sign)
  }

  function IndexType(base: Checked, idx: Checked): Checked {
    if !IsConst(idx.t) then Checked(Const(-1), false)
    else if base.t.Scalar? then Checked(DEFAULT, false)
    else if 0 <= idx.t.low < |base.t.elems| then Checked(base.t.elems[idx.t.low], base.ok && idx.ok)
    else Checked(if |base.t.elems| > 0 then base.t.elems[0] else DEFAULT, false)
  }

  function NegateType(t: Checked): Checked {
    if t.t.Scalar? then Checked(Scalar(-t.t.high, -t.t.low), t.ok) else Checked(t.t, false)
  }

  function ModType(elt: Checked, modulus: Checked): Checked {
    if !IsConst(modulus.t) || modulus.t.low <= 0 || elt.t.Array? then Checked(DEFAULT, false)
    else
      var m := modulus.t.low;
      Checked(if IsConst(elt.t) then Const(elt.t.low % m) else Scalar(0, m - 1), elt.ok && modulus.ok)
  }

  function PowType(base: Checked, exp: Checked, p: nat): Checked {
    if !IsConst(base.t) || !IsConst(exp.t) || p < 2 then Checked(DEFAULT, false)
    else if exp.t.low < 0 && !Unit(base.t.low, p) then Checked(DEFAULT, false)
    else Checked(Const(PowMod(base.t.low, exp.t.low, p)), base.ok && exp.ok)
  }

  function NotType(inner: Checked): Checked {
    if !IsBool(inner.t) then Checked(Scalar(0, 1), false)
    else Checked(Scalar(1 - inner.t.high, 1 - inner.t.low), inner.ok)
  }

  /** The iterations of start..stop, both included. */
  function Span(start: int, stop: int): nat {
    if stop >= start then stop - start + 1 else 0
  }

  /** Bounds that are not constant are reported and replaced. */
  function SumFrom(a: Checked): int { if IsConst(a.t) then a.t.low else 0 }

  function SumTo(a: Checked, b: Checked): int { if IsConst(b.t) then b.t.low else SumFrom(a) }

  function SumSeed(a: Checked, b: Checked): Checked {
    Checked(Const(0), a.ok && b.ok && IsConst(a.t) && IsConst(b.t))
  }

  function BodyChecks(body: Expr, env: Env, name: string, from: int, n: nat): seq<Checked>
    decreases body, 1
  {
    seq(n, i requires 0 <= i < n => Typecheck(body, WithVal(env, name, from + i)))
  }

  function Typecheck(e: Expr, env: Env): Checked
    decreases e, 0
  {
    match e
    case Lit(x) => Checked(Const(x), true)
    case Var(name) =>
      if name in env.valmap then Checked(Const(env.valmap[name]), true)
      else if name in env.typemap then Checked(env.typemap[name], true)
      else Checked(DEFAULT, false)
    case ArrLit(es) =>
      Checked(Array(seq(|es|, i requires 0 <= i < |es| => Typecheck(es[i], env).t)),
              es != [] && forall i | 0 <= i < |es| :: Typecheck(es[i], env).ok)
    case Idx(base, idx) => IndexType(Typecheck(base, env), Typecheck(idx, env))
    case Mul(es) =>
      FoldMul(Checked(Const(1), es != []), seq(|es|, i requires 0 <= i < |es| => Typecheck(es[i], env)))
    case Add(es) =>
      if es == [] then Checked(Const(0), false)
      else FoldAdd(Typecheck(es[0], env), seq(|es| - 1, i requires 0 <= i < |es| - 1 => Typecheck(es[i + 1], env)), 1)
    case Sub(head, es) =>
      var t := Typecheck(head, env);
      if es == [] then NegateType(t)
      else FoldAdd(t, seq(|es|, i requires 0 <= i < |es| => Typecheck(es[i], env)), -1)
    case Mod(elt, modulus) => ModType(Typecheck(elt, env), Typecheck(modulus, env))
    case Pow(base, exp) => PowType(Typecheck(base, env), Typecheck(exp, env), env.prime)
    case Sum(name, start, stop, body) =>
      var a, b := Typecheck(start, env), Typecheck(stop, env);
      FoldAdd(SumSeed(a, b), BodyChecks(body, env, name, SumFrom(a), Span(SumFrom(a), SumTo(a, b))), 1)
    case Not(inner) => NotType(Typecheck(inner, env))
  }

  // ---------------------------------------------------------------------
  // Evaluation over the integers
  // ---------------------------------------------------------------------

  /** Column values, and the constants of the iteration variables. */
  datatype Assignment = Assignment(prime: nat, vals: map<string, int>, cols: map<string, Value>)

  function Bind(asg: Assignment, name: string, i: int): Assignment {
    asg.(vals := asg.vals[name := i])
  }

  function FoldMulValue(v: Option<Value>, ws: seq<Option<Value>>): Option<Value>
    decreases |ws|
  {
    if ws == [] then v
    else if v.None? || ws[0].None? then None
    else FoldMulValue(MulValue(v.value, ws[0].value), ws[1..])
  }

  function FoldAddValue(v: Option<Value>, ws: seq<Option<Value>>, sign: int): Option<Value>
    decreases |ws|
  {
    if ws == [] then v
    else if v.None? || ws[0].None? then None
    else FoldAddValue(AddValue(v.value, ws[0].value, sign), ws[1..], sign)
  }

  function Number(v: Option<Value>): Option<int> {
    if v.Some? && v.value.Num? then Some(v.value.n) else None
  }

  /**
    What `^` denotes: the residue of the integer power, or for a negative
    exponent the residue whose product with the opposite power is one.
   */
  ghost predicate IsPower(r: int, b: int, e: int, p: nat)
    requires p >= 2
  {
    0 <= r < p && if e >= 0 then r == R(p, PowNat(b, e)) else R(p, r * PowNat(b, -e)) == 1
  }

  ghost function PowerOf(b: int, e: int, p: nat): Option<int>
    requires p >= 2
  {
    if exists r :: IsPower(r, b, e, p) then (var r :| IsPower(r, b, e, p); Some(r)) else None
  }

  function ModValue(v: Option<Value>, w: Option<Value>): Option<Value> {
    var n :- Number(v);
    var m :- Number(w);
    if m <= 0 then None else Some(Num(n % m))
  }

  ghost function PowValue(v: Option<Value>, w: Option<Value>, p: nat): Option<Value> {
    var b :- Number(v);
    var e :- Number(w);
    if p < 2 then None
    else
      var r :- PowerOf(b, e, p);
      Some(Num(r))
  }

  ghost function BodyValues(body: Expr, asg: Assignment, name: string, from: int, n: nat): seq<Option<Value>>
    decreases body, 1
  {
    seq(n, i requires 0 <= i < n => Eval(body, Bind(asg, name, from + i)))
  }

  ghost function Eval(e: Expr, asg: Assignment): Option<Value>
    decreases e, 0
  {
    match e
    case Lit(x) => Some(Num(x))
    case Var(name) =>
      if name in asg.vals then Some(Num(asg.vals[name]))
      else if name in asg.cols then Some(asg.cols[name])
      else None
    case ArrLit(es) =>
      if forall i | 0 <= i < |es| :: Eval(es[i], asg).Some?
      then Some(Arr(seq(|es|, i requires 0 <= i < |es| => Eval(es[i], asg).value)))
      else None
    case Idx(base, idx) =>
      var b :- Eval(base, asg);
      var i :- Number(Eval(idx, asg));
      if b.Arr? && 0 <= i < |b.vals| then Some(b.vals[i]) else None
    case Mul(es) => FoldMulValue(Some(Num(1)), seq(|es|, i requires 0 <= i < |es| => Eval(es[i], asg)))
    case Add(es) =>
      if es == [] then None
      else FoldAddValue(Eval(es[0], asg), seq(|es| - 1, i requires 0 <= i < |es| - 1 => Eval(es[i + 1], asg)), 1)
    case Sub(head, es) =>
      if es == [] then (var n :- Number(Eval(head, asg)); Some(Num(-n)))
      else FoldAddValue(Eval(head, asg), seq(|es|, i requires 0 <= i < |es| => Eval(es[i], asg)), -1)
    case Mod(elt, modulus) => ModValue(Eval(elt, asg), Eval(modulus, asg))
    case Pow(base, exp) => PowValue(Eval(base, asg), Eval(exp, asg), asg.prime)
    case Sum(name, start, stop, body) =>
      var from :- Number(Eval(start, asg));
      var to :- Number(Eval(stop, asg));
      FoldAddValue(Some(Num(0)), BodyValues(body, asg, name, from, Span(from, to)), 1)
    case Not(inner) =>
      var n :- Number(Eval(inner, asg));
      Some(Num(1 - n))
  }

  /** The assignment respects the environment: same iteration constants, every column within its type. */
  ghost predicate Respects(asg: Assignment, env: Env) {
    && asg.prime == env.prime && asg.vals == env.valmap && asg.cols.Keys == env.typemap.Keys
    && forall name | name in env.typemap :: HasType(asg.cols[name], env.typemap[name])
  }

  // ---------------------------------------------------------------------
  // Soundness
  // ---------------------------------------------------------------------

  /** A result without error has a value inside the computed type. */
  predicate Sound(v: Option<Value>, c: Checked) {
    c.ok ==> v.Some? && HasType(v.value, c.t)
  }

  lemma {:induction false} FoldMulOk(t: Checked, cs: seq<Checked>)
    requires FoldMul(t, cs).ok
    ensures t.ok
    decreases |cs|
  {
    if cs != [] {
      var m := MulMatch(t.t, cs[0].t);
      FoldMulOk(Checked(m.t, t.ok && cs[0].ok && m.ok), cs[1..]);
    }
  }

  lemma {:induction false} FoldMulSound(v: Option<Value>, t: Checked, ws: seq<Option<Value>>, cs: seq<Checked>)
    requires |ws| == |cs| && Sound(v, t) && forall i | 0 <= i < |cs| :: Sound(ws[i], cs[i])
    ensures Sound(FoldMulValue(v, ws), FoldMul(t, cs))
    decreases |cs|
  {
    hide MulMatch, MulValue, HasType;
    if cs != [] && FoldMul(t, cs).ok {
      var m := MulMatch(t.t, cs[0].t);
      var next := Checked(m.t, t.ok && cs[0].ok && m.ok);
      FoldMulOk(next, cs[1..]);
      MulMatchSound(v.value, t.t, ws[0].value, cs[0].t);
      FoldMulSound(MulValue(v.value, ws[0].value), next, ws[1..], cs[1..]);
    }
  }

  lemma {:induction false} FoldAddOk(t: Checked, cs: seq<Checked>, sign: int)
    requires FoldAdd(t, cs, sign).ok
    ensures t.ok
    decreases |cs|
  {
    if cs != [] {
      var m := AddMatch(t.t, cs[0].t, sign);
      FoldAddOk(Checked(m.t, t.ok && cs[0].ok && m.ok), cs[1..], sign);
    }
  }

  lemma {:induction false} FoldAddSound(v: Option<Value>, t: Checked, ws: seq<Option<Value>>, cs: seq<Checked>,
                                        sign: int)
    requires |ws| == |cs| && (sign == 1 || sign == -1)
    requires Sound(v, t) && forall i | 0 <= i < |cs| :: Sound(ws[i], cs[i])
    ensures Sound(FoldAddValue(v, ws, sign), FoldAdd(t, cs, sign))
    decreases |cs|
  {
    hide AddMatch, AddValue, HasType;
    if cs != [] && FoldAdd(t, cs, sign).ok {
      var m := AddMatch(t.t, cs[0].t, sign);
      var next := Checked(m.t, t.ok && cs[0].ok && m.ok);
      FoldAddOk(next, cs[1..], sign);
      AddMatchSound(v.value, t.t, ws[0].value, cs[0].t, sign);
      FoldAddSound(AddValue(v.value, ws[0].value, sign), next, ws[1..], cs[1..], sign);
    }
  }

  lemma {:induction false} BindRespects(asg: Assignment, env: Env, name: string, i: int)
    requires Respects(asg, env)
    ensures Respects(Bind(asg, name, i), WithVal(env, name, i))
  {}

  /**
    If the checker reports no error, every expression has an integer value
    within its computed range, for every assignment within the declared types.
    `^` denotes a residue (`IsPower`), every other operator the integer one.
   */
  lemma {:induction false} TypecheckSound(e: Expr, env: Env, asg: Assignment)
    requires Respects(asg, env)
    ensures Sound(Eval(e, asg), Typecheck(e, env))
    decreases e
  {
    match e {
      case Lit(_) =>
      case Var(_) =>
      case ArrLit(es) =>
        forall i | 0 <= i < |es|
          ensures Sound(Eval(es[i], asg), Typecheck(es[i], env))
        {
          TypecheckSound(es[i], env, asg);
        }
        ArrLitSound(es, env, asg);
      case Idx(base, idx) =>
        TypecheckSound(base, env, asg);
        TypecheckSound(idx, env, asg);
        IdxSound(base, idx, env, asg);
      case Mul(es) =>
        forall i | 0 <= i < |es|
          ensures Sound(Eval(es[i], asg), Typecheck(es[i], env))
        {
          TypecheckSound(es[i], env, asg);
        }
        MulSound(es, env, asg);
      case Add(es) =>
        forall i | 0 <= i < |es|
          ensures Sound(Eval(es[i], asg), Typecheck(es[i], env))
        {
          TypecheckSound(es[i], env, asg);
        }
        AddSound(es, env, asg);
      case Sub(head, es) =>
        TypecheckSound(head, env, asg);
        forall i | 0 <= i < |es|
          ensures Sound(Eval(es[i], asg), Typecheck(es[i], env))
        {
          TypecheckSound(es[i], env, asg);
        }
        SubSound(head, es, env, asg);
      case Mod(elt, modulus) =>
        TypecheckSound(elt, env, asg);
        TypecheckSound(modulus, env, asg);
        ModSound(elt, modulus, env, asg);
      case Pow(base, exp) =>
        TypecheckSound(base, env, asg);
        TypecheckSound(exp, env, asg);
        PowSound(base, exp, env, asg);
      case Sum(name, start, stop, body) =>
        TypecheckSound(start, env, asg);
        TypecheckSound(stop, env, asg);
        forall i: int
          ensures Sound(Eval(body, Bind(asg, name, i)), Typecheck(body, WithVal(env, name, i)))
        {
          BindRespects(asg, env, name, i);
          TypecheckSound(body, WithVal(env, name, i), Bind(asg, name, i));
        }
        SumSound(name, start, stop, body, env, asg);
      case Not(inner) =>
        TypecheckSound(inner, env, asg);
        NotSound(inner, env, asg);
    }
  }

  ghost predicate AllSound(es: seq<Expr>, env: Env, asg: Assignment) {
    forall i | 0 <= i < |es| :: Sound(Eval(es[i], asg), Typecheck(es[i], env))
  }

  lemma {:induction false} ArrLitSound(es: seq<Expr>, env: Env, asg: Assignment)
    requires AllSound(es, env, asg)
    ensures Sound(Eval(ArrLit(es), asg), Typecheck(ArrLit(es), env))
  {
    var c := Typecheck(ArrLit(es), env);
    if c.ok {
      forall i | 0 <= i < |es|
        ensures Eval(es[i], asg).Some? && HasType(Eval(es[i], asg).value, Typecheck(es[i], env).t)
      {
        assert Sound(Eval(es[i], asg), Typecheck(es[i], env));
      }
    }
  }

  lemma {:induction false} IdxSound(base: Expr, idx: Expr, env: Env, asg: Assignment)
    requires Sound(Eval(base, asg), Typecheck(base, env)) && Sound(Eval(idx, asg), Typecheck(idx, env))
    ensures Sound(Eval(Idx(base, idx), asg), Typecheck(Idx(base, idx), env))
  {}

  lemma {:induction false} MulSound(es: seq<Expr>, env: Env, asg: Assignment)
    requires AllSound(es, env, asg)
    ensures Sound(Eval(Mul(es), asg), Typecheck(Mul(es), env))
  {
    var ws := seq(|es|, i requires 0 <= i < |es| => Eval(es[i], asg));
    var cs := seq(|es|, i requires 0 <= i < |es| => Typecheck(es[i], env));
    FoldMulSound(Some(Num(1)), Checked(Const(1), es != []), ws, cs);
    assert Eval(Mul(es), asg) == FoldMulValue(Some(Num(1)), ws);
    assert Typecheck(Mul(es), env) == FoldMul(Checked(Const(1), es != []), cs);
  }

  lemma {:induction false} AddSound(es: seq<Expr>, env: Env, asg: Assignment)
    requires AllSound(es, env, asg)
    ensures Sound(Eval(Add(es), asg), Typecheck(Add(es), env))
  {
    if es != [] {
      var ws := seq(|es| - 1, i requires 0 <= i < |es| - 1 => Eval(es[i + 1], asg));
      var cs := seq(|es| - 1, i requires 0 <= i < |es| - 1 => Typecheck(es[i + 1], env));
      FoldAddSound(Eval(es[0], asg), Typecheck(es[0], env), ws, cs, 1);
      assert Eval(Add(es), asg) == FoldAddValue(Eval(es[0], asg), ws, 1);
      assert Typecheck(Add(es), env) == FoldAdd(Typecheck(es[0], env), cs, 1);
    }
  }

  lemma {:induction false} SubSound(head: Expr, es: seq<Expr>, env: Env, asg: Assignment)
    requires AllSound(es, env, asg) && Sound(Eval(head, asg), Typecheck(head, env))
    ensures Sound(Eval(Sub(head, es), asg), Typecheck(Sub(head, es), env))
  {
    if es != [] {
      var ws := seq(|es|, i requires 0 <= i < |es| => Eval(es[i], asg));
      var cs := seq(|es|, i requires 0 <= i < |es| => Typecheck(es[i], env));
      FoldAddSound(Eval(head, asg), Typecheck(head, env), ws, cs, -1);
      assert Eval(Sub(head, es), asg) == FoldAddValue(Eval(head, asg), ws, -1);
      assert Typecheck(Sub(head, es), env) == FoldAdd(Typecheck(head, env), cs, -1);
    }
  }

  lemma {:induction false} ModSound(elt: Expr, modulus: Expr, env: Env, asg: Assignment)
    requires Sound(Eval(elt, asg), Typecheck(elt, env)) && Sound(Eval(modulus, asg), Typecheck(modulus, env))
    ensures Sound(Eval(Mod(elt, modulus), asg), Typecheck(Mod(elt, modulus), env))
  {
    hide ModValue, ModType, Sound;
    ModTypeSound(Eval(elt, asg), Typecheck(elt, env), Eval(modulus, asg), Typecheck(modulus, env));
  }

  lemma {:induction false} ModTypeSound(v: Option<Value>, t: Checked, w: Option<Value>, m: Checked)
    requires Sound(v, t) && Sound(w, m)
    ensures Sound(ModValue(v, w), ModType(t, m))
  {}

  lemma {:induction false} PowSound(base: Expr, exp: Expr, env: Env, asg: Assignment)
    requires asg.prime == env.prime
    requires Sound(Eval(base, asg), Typecheck(base, env)) && Sound(Eval(exp, asg), Typecheck(exp, env))
    ensures Sound(Eval(Pow(base, exp), asg), Typecheck(Pow(base, exp), env))
  {
    hide PowValue, PowType, Sound;
    PowTypeSound(Eval(base, asg), Typecheck(base, env), Eval(exp, asg), Typecheck(exp, env), env.prime);
  }

  lemma {:induction false} PowTypeSound(v: Option<Value>, t: Checked, w: Option<Value>, x: Checked, p: nat)
    requires Sound(v, t) && Sound(w, x)
    ensures Sound(PowValue(v, w, p), PowType(t, x, p))
  {
    hide Unit, PowMod, PowerOf;
    if PowType(t, x, p).ok {
      PowModIsPower(t.t.low, x.t.low, p);
      PowerOfIs(PowMod(t.t.low, x.t.low, p), t.t.low, x.t.low, p);
    }
  }

  lemma {:induction false} PowNatProduct(x: int, y: int, n: nat)
    ensures PowNat(x, n) * PowNat(y, n) == PowNat(x * y, n)
  {
    if n > 0 {
      PowNatProduct(x, y, n - 1);
      var u, v := PowNat(x, n - 1), PowNat(y, n - 1);
      calc {
        (x * u) * (y * v);
        { MulAssoc(x * u, y, v); MulAssoc(x, u, y); }
        ((x * y) * u) * v;
        { MulAssoc(x * y, u, v); }
        (x * y) * (u * v);
      }
    }
  }

  lemma {:induction false} PowNatOfOne(p: nat, x: int, n: nat)
    requires p >= 2 && R(p, x) == 1
    ensures R(p, PowNat(x, n)) == 1
  {
    hide R;
    Small(p, 1);
    if n > 0 {
      PowNatOfOne(p, x, n - 1);
      CongMul(p, x, 1, PowNat(x, n - 1), 1);
    }
  }

  /** What the checker computes for `^` is what `^` denotes, for every modulus. */
  lemma {:induction false} PowModIsPower(b: int, e: int, p: nat)
    requires p >= 2 && (e >= 0 || Unit(b, p))
    ensures IsPower(PowMod(b, e, p), b, e, p)
  {
    hide R, Inv, PowNat;
    if e < 0 {
      var u, v := PowNat(Inv(p, b), -e), PowNat(b, -e);
      PowNatProduct(b, Inv(p, b), -e);
      PowNatOfOne(p, b * Inv(p, b), -e);
      Idempotent(p, u);
      CongMul(p, R(p, u), u, v, v);
      assert u * v == v * u;
    }
  }

  lemma {:induction false} PowerUnique(r: int, r': int, b: int, e: int, p: nat)
    requires p >= 2 && IsPower(r, b, e, p) && IsPower(r', b, e, p)
    ensures r == r'
  {
    hide R, PowNat;
    if e < 0 {
      var c := PowNat(b, -e);
      Small(p, 1);
      CongMul(p, r, r, r' * c, 1);
      CongMul(p, r', r', r * c, 1);
      MulAssoc(r, r', c);
      MulAssoc(r', r, c);
      assert r * r' == r' * r;
      Small(p, r);
      Small(p, r');
    }
  }

  lemma {:induction false} PowerOfIs(r: int, b: int, e: int, p: nat)
    requires p >= 2 && IsPower(r, b, e, p)
    ensures PowerOf(b, e, p) == Some(r)
  {
    hide IsPower;
    PowerUnique(r, PowerOf(b, e, p).value, b, e, p);
  }

  /** A power has no value exactly when the exponent is negative and the base has no inverse. */
  lemma {:induction false} PowerExistsIff(b: int, e: int, p: nat)
    requires p >= 2
    ensures PowerOf(b, e, p).Some? <==> e >= 0 || Unit(b, p)
  {
    hide R, Inv, PowNat, PowMod;
    if e >= 0 || Unit(b, p) {
      PowModIsPower(b, e, p);
    } else if PowerOf(b, e, p).Some? {
      var r := PowerOf(b, e, p).value;
      PowNatStep(b, -e);
      var c := PowNat(b, -e - 1);
      MulAssoc(r, b, c);
      MulAssoc(b, r, c);
      assert r * b == b * r;
      InvWhenever(p, b, r * c);
      assert false;
    }
  }

  lemma {:induction false} PowNatStep(b: int, n: nat)
    requires n > 0
    ensures PowNat(b, n) == b * PowNat(b, n - 1)
  {}

  /** `^` is the integer power exactly when that lies below the modulus. */
  lemma {:induction false} PowerIsIntegerIff(b: int, e: nat, p: nat)
    requires p >= 2
    ensures PowerOf(b, e, p) == Some(PowNat(b, e)) <==> 0 <= PowNat(b, e) < p
  {
    hide R, PowNat, PowerOf;
    var v := PowNat(b, e);
    PowerOfIs(R(p, v), b, e, p);
    if 0 <= v < p {
      Small(p, v);
    }
  }

  /** Modulo 5 the range of 2^3 is {3}, although the integer power is 8. */
  lemma {:induction false} PowerWraps()
    ensures Typecheck(Pow(Lit(2), Lit(3)), Env(5, map[], map[])) == Checked(Const(3), true)
    ensures PowNat(2, 3) == 8
  {
    assert PowNat(2, 3) == 2 * PowNat(2, 2) && PowNat(2, 2) == 2 * PowNat(2, 1);
  }

  lemma {:induction false} SumSound(name: string, start: Expr, stop: Expr, body: Expr, env: Env, asg: Assignment)
    requires Sound(Eval(start, asg), Typecheck(start, env)) && Sound(Eval(stop, asg), Typecheck(stop, env))
    requires forall i: int :: Sound(Eval(body, Bind(asg, name, i)), Typecheck(body, WithVal(env, name, i)))
    ensures Sound(Eval(Sum(name, start, stop, body), asg), Typecheck(Sum(name, start, stop, body), env))
  {
    assert HasType(Num(0), Const(0));
    hide HasType, FoldAdd, FoldAddValue, Span, Typecheck, Eval;
    var e := Sum(name, start, stop, body);
    var a, b := Typecheck(start, env), Typecheck(stop, env);
    var from, n := SumFrom(a), Span(SumFrom(a), SumTo(a, b));
    var cs, ws := BodyChecks(body, env, name, from, n), BodyValues(body, asg, name, from, n);
    SumTypecheck(name, start, stop, body, env);
    FoldAddSound(Some(Num(0)), SumSeed(a, b), ws, cs, 1);
    if Typecheck(e, env).ok {
      FoldAddOk(SumSeed(a, b), cs, 1);
      ConstValue(Eval(start, asg), a);
      ConstValue(Eval(stop, asg), b);
      SumEval(name, start, stop, body, asg, from, SumTo(a, b));
    }
  }

  lemma {:induction false} SumTypecheck(name: string, start: Expr, stop: Expr, body: Expr, env: Env)
    ensures var a, b := Typecheck(start, env), Typecheck(stop, env);
            Typecheck(Sum(name, start, stop, body), env)
            == FoldAdd(SumSeed(a, b), BodyChecks(body, env, name, SumFrom(a), Span(SumFrom(a), SumTo(a, b))), 1)
  {
    hide FoldAdd, BodyChecks, SumSeed, SumFrom, SumTo, Span;
  }

  lemma {:induction false} SumEval(name: string, start: Expr, stop: Expr, body: Expr, asg: Assignment, from: int,
                                   to: int)
    requires Eval(start, asg) == Some(Num(from)) && Eval(stop, asg) == Some(Num(to))
    ensures Eval(Sum(name, start, stop, body), asg)
         == FoldAddValue(Some(Num(0)), BodyValues(body, asg, name, from, Span(from, to)), 1)
  {
    hide FoldAddValue, BodyValues, Span;
  }

  lemma {:induction false} ConstValue(v: Option<Value>, c: Checked)
    requires Sound(v, c) && c.ok && IsConst(c.t)
    ensures v == Some(Num(c.t.low))
  {}

  lemma {:induction false} NotSound(inner: Expr, env: Env, asg: Assignment)
    requires Sound(Eval(inner, asg), Typecheck(inner, env))
    ensures Sound(Eval(Not(inner), asg), Typecheck(Not(inner), env))
  {}

  // ---------------------------------------------------------------------
  // The computed ranges are the smallest ones
  // ---------------------------------------------------------------------

  predicate InScalar(x: int, t: Type) {
    t.Scalar? && t.low <= x <= t.high
  }

  /** Both ends of a product's range are products. */
  lemma {:induction false} MulRangeTight(a: Type, b: Type)
    requires a.Scalar? && b.Scalar? && a.low <= a.high && b.low <= b.high
    ensures exists x, y :: InScalar(x, a) && InScalar(y, b) && x * y == MulRange(a, b).low
    ensures exists x, y :: InScalar(x, a) && InScalar(y, b) && x * y == MulRange(a, b).high
  {
    var r := MulRange(a, b);
    CornerOf(a.low * b.low, a.low * b.high, a.high * b.low, a.high * b.high);
    assert InScalar(a.low, a) && InScalar(a.high, a) && InScalar(b.low, b) && InScalar(b.high, b);
    PickCorner(a, b, r.low);
    PickCorner(a, b, r.high);
  }

  lemma {:induction false} CornerOf(w: int, x: int, y: int, z: int)
    ensures var lo, hi := Min(Min(w, x), Min(y, z)), Max(Max(w, x), Max(y, z));
            (lo == w || lo == x || lo == y || lo == z) && (hi == w || hi == x || hi == y || hi == z)
  {}

  lemma {:induction false} PickCorner(a: Type, b: Type, v: int)
    requires a.Scalar? && b.Scalar? && a.low <= a.high && b.low <= b.high
    requires v == a.low * b.low || v == a.low * b.high || v == a.high * b.low || v == a.high * b.high
    ensures exists x, y :: InScalar(x, a) && InScalar(y, b) && x * y == v
  {
    assert InScalar(a.low, a) && InScalar(a.high, a) && InScalar(b.low, b) && InScalar(b.high, b);
    hide InScalar;
  }

  /** Both ends of a sum's or a difference's range are attained. */
  lemma {:induction false} AddRangeTight(a: Type, b: Type, sign: int)
    requires a.Scalar? && b.Scalar? && a.low <= a.high && b.low <= b.high && (sign == 1 || sign == -1)
    ensures var t := AddMatch(a, b, sign).t;
            && t.Scalar?
            && (exists x, y :: InScalar(x, a) && InScalar(y, b) && x + sign * y == t.low)
            && (exists x, y :: InScalar(x, a) && InScalar(y, b) && x + sign * y == t.high)
  {
    var t := AddMatch(a, b, sign).t;
    var y, z := if sign == 1 then b.low else b.high, if sign == 1 then b.high else b.low;
    assert InScalar(a.low, a) && InScalar(y, b) && a.low + sign * y == t.low;
    assert InScalar(a.high, a) && InScalar(z, b) && a.high + sign * z == t.high;
  }

  /** Types of the same shape add up, and no others do. */
  lemma {:induction false} AddMatchOkIff(a: Type, b: Type, sign: int)
    ensures AddMatch(a, b, sign).ok <==> StructureMatches(a, b)
    decreases a
  {
    if a.Array? && b.Array? && |a.elems| == |b.elems| {
      forall i | 0 <= i < |a.elems|
        ensures AddMatch(a.elems[i], b.elems[i], sign).ok <==> StructureMatches(a.elems[i], b.elems[i])
      {
        AddMatchOkIff(a.elems[i], b.elems[i], sign);
      }
    }
  }

  /** Sums, differences and products over declared scalars and numbers. */
  predicate Polynomial(e: Expr, env: Env) {
    match e
    case Lit(_) => true
    case Var(name) => name in env.valmap || (name in env.typemap && env.typemap[name].Scalar?)
    case Mul(es) => es != [] && forall i | 0 <= i < |es| :: Polynomial(es[i], env)
    case Add(es) => es != [] && forall i | 0 <= i < |es| :: Polynomial(es[i], env)
    case Sub(head, es) => Polynomial(head, env) && forall i | 0 <= i < |es| :: Polynomial(es[i], env)
    case _ => false
  }

  predicate ScalarOk(c: Checked) { c.ok && c.t.Scalar? }

  /** Polynomials are never rejected. */
  lemma {:induction false} PolynomialsAccepted(e: Expr, env: Env)
    requires Polynomial(e, env)
    ensures ScalarOk(Typecheck(e, env))
    decreases e
  {
    match e {
      case Mul(es) =>
        var cs := seq(|es|, i requires 0 <= i < |es| => Typecheck(es[i], env));
        forall i | 0 <= i < |es|
          ensures ScalarOk(cs[i])
        {
          PolynomialsAccepted(es[i], env);
        }
        FoldMulAccepted(Checked(Const(1), true), cs);
      case Add(es) =>
        var cs := seq(|es| - 1, i requires 0 <= i < |es| - 1 => Typecheck(es[i + 1], env));
        PolynomialsAccepted(es[0], env);
        forall i | 0 <= i < |cs|
          ensures ScalarOk(cs[i])
        {
          PolynomialsAccepted(es[i + 1], env);
        }
        FoldAddAccepted(Typecheck(es[0], env), cs, 1);
      case Sub(head, es) =>
        var cs := seq(|es|, i requires 0 <= i < |es| => Typecheck(es[i], env));
        PolynomialsAccepted(head, env);
        forall i | 0 <= i < |es|
          ensures ScalarOk(cs[i])
        {
          PolynomialsAccepted(es[i], env);
        }
        FoldAddAccepted(Typecheck(head, env), cs, -1);
      case _ =>
    }
  }

  lemma {:induction false} FoldMulAccepted(t: Checked, cs: seq<Checked>)
    requires ScalarOk(t) && forall i | 0 <= i < |cs| :: ScalarOk(cs[i])
    ensures ScalarOk(FoldMul(t, cs))
    decreases |cs|
  {
    if cs != [] {
      assert ScalarOk(cs[0]);
      FoldMulAccepted(Checked(MulMatch(t.t, cs[0].t).t, true), cs[1..]);
    }
  }

  lemma {:induction false} FoldAddAccepted(t: Checked, cs: seq<Checked>, sign: int)
    requires ScalarOk(t) && forall i | 0 <= i < |cs| :: ScalarOk(cs[i])
    ensures ScalarOk(FoldAdd(t, cs, sign))
    decreases |cs|
  {
    if cs != [] {
      assert ScalarOk(cs[0]);
      FoldAddAccepted(Checked(AddMatch(t.t, cs[0].t, sign).t, true), cs[1..], sign);
    }
  }

  /** What the operators mean on numbers. */
  lemma {:induction false} ScalarMeaning(a: Expr, b: Expr, asg: Assignment, x: int, y: int)
    requires Eval(a, asg) == Some(Num(x)) && Eval(b, asg) == Some(Num(y))
    ensures Eval(Add([a, b]), asg) == Some(Num(x + y)) && Eval(Sub(a, [b]), asg) == Some(Num(x - y))
    ensures Eval(Mul([a, b]), asg) == Some(Num(x * y)) && Eval(Sub(a, []), asg) == Some(Num(-x))
    ensures Eval(Not(a), asg) == Some(Num(1 - x)) && Eval(Mod(a, b), asg) == if y > 0 then Some(Num(x % y)) else None
  {
    hide Eval;
    SumsOfTwo(a, b, asg, x, y);
    ProductOfTwo(a, b, asg, x, y);
    UnaryMeaning(a, b, asg, x, y);
  }

  lemma {:induction false} SumsOfTwo(a: Expr, b: Expr, asg: Assignment, x: int, y: int)
    requires Eval(a, asg) == Some(Num(x)) && Eval(b, asg) == Some(Num(y))
    ensures Eval(Add([a, b]), asg) == Some(Num(x + y)) && Eval(Sub(a, [b]), asg) == Some(Num(x - y))
  {
    FoldOne(x, y);
    ListOfTwo(a, b, asg);
    hide FoldAddValue;
  }

  lemma {:induction false} ProductOfTwo(a: Expr, b: Expr, asg: Assignment, x: int, y: int)
    requires Eval(a, asg) == Some(Num(x)) && Eval(b, asg) == Some(Num(y))
    ensures Eval(Mul([a, b]), asg) == Some(Num(x * y))
  {
    FoldTwo(x, y);
    ListOfTwo(a, b, asg);
    hide FoldMulValue;
  }

  lemma {:induction false} UnaryMeaning(a: Expr, b: Expr, asg: Assignment, x: int, y: int)
    requires Eval(a, asg) == Some(Num(x)) && Eval(b, asg) == Some(Num(y))
    ensures Eval(Sub(a, []), asg) == Some(Num(-x)) && Eval(Not(a), asg) == Some(Num(1 - x))
    ensures Eval(Mod(a, b), asg) == if y > 0 then Some(Num(x % y)) else None
  {}

  lemma {:induction false} ListOfTwo(a: Expr, b: Expr, asg: Assignment)
    ensures var es := [a, b];
            && seq(|es| - 1, i requires 0 <= i < |es| - 1 => Eval(es[i + 1], asg)) == [Eval(b, asg)]
            && seq(|es|, i requires 0 <= i < |es| => Eval(es[i], asg)) == [Eval(a, asg), Eval(b, asg)]
    ensures seq(|[b]|, i requires 0 <= i < |[b]| => Eval([b][i], asg)) == [Eval(b, asg)]
  {
    hide Eval;
  }

  lemma {:induction false} FoldOne(x: int, y: int)
    ensures FoldAddValue(Some(Num(x)), [Some(Num(y))], 1) == Some(Num(x + y))
    ensures FoldAddValue(Some(Num(x)), [Some(Num(y))], -1) == Some(Num(x - y))
  {
    assert [Some(Num(y))][1..] == [];
    assert x + -1 * y == x - y && x + 1 * y == x + y;
  }

  lemma {:induction false} FoldTwo(x: int, y: int)
    ensures FoldMulValue(Some(Num(1)), [Some(Num(x)), Some(Num(y))]) == Some(Num(x * y))
  {
    var ws := [Some(Num(x)), Some(Num(y))];
    assert ws[1..] == [Some(Num(y))] && ws[1..][1..] == [];
    assert MulValue(Num(1), Num(x)) == Some(Num(1 * x)) && 1 * x == x;
    assert MulValue(Num(x), Num(y)) == Some(Num(x * y));
    assert FoldMulValue(Some(Num(x * y)), ws[1..][1..]) == Some(Num(x * y));
    assert FoldMulValue(Some(Num(x)), ws[1..]) == Some(Num(x * y));
  }

  /** A sum over start..stop, both included, one iteration at a time. */
  lemma {:induction false} SumMeaning(name: string, start: int, stop: int, body: Expr, asg: Assignment, s: int, v: int)
    requires start <= stop
    requires Eval(Sum(name, Lit(start), Lit(stop - 1), body), asg) == Some(Num(s))
    requires Eval(body, Bind(asg, name, stop)) == Some(Num(v))
    ensures Eval(Sum(name, Lit(start), Lit(stop), body), asg) == Some(Num(s + v))
    ensures Eval(Sum(name, Lit(start), Lit(start - 1), body), asg) == Some(Num(0))
  {
    hide Eval, FoldAddValue, BodyValues;
    LitSum(name, start, stop - 1, body, asg);
    LitSum(name, start, stop, body, asg);
    LitSum(name, start, start - 1, body, asg);
    var n: nat := stop - start;
    LastIteration(body, asg, name, start, n);
    FoldAddLast(Some(Num(0)), BodyValues(body, asg, name, start, n), Some(Num(v)), s, v);
    NoIteration(body, asg, name, start);
  }

  lemma {:induction false} LitSum(name: string, start: int, stop: int, body: Expr, asg: Assignment)
    ensures Eval(Sum(name, Lit(start), Lit(stop), body), asg)
         == FoldAddValue(Some(Num(0)), BodyValues(body, asg, name, start, Span(start, stop)), 1)
  {
    SumEval(name, Lit(start), Lit(stop), body, asg, start, stop);
  }

  lemma {:induction false} LastIteration(body: Expr, asg: Assignment, name: string, from: int, n: nat)
    ensures BodyValues(body, asg, name, from, n + 1)
         == BodyValues(body, asg, name, from, n) + [Eval(body, Bind(asg, name, from + n))]
  {
    hide Eval, Bind;
  }

  lemma {:induction false} NoIteration(body: Expr, asg: Assignment, name: string, from: int)
    ensures FoldAddValue(Some(Num(0)), BodyValues(body, asg, name, from, 0), 1) == Some(Num(0))
  {}

  lemma {:induction false} FoldAddLast(acc: Option<Value>, ws: seq<Option<Value>>, w: Option<Value>, s: int, v: int)
    requires FoldAddValue(acc, ws, 1) == Some(Num(s)) && w == Some(Num(v))
    ensures FoldAddValue(acc, ws + [w], 1) == Some(Num(s + v))
    decreases |ws|
  {
    if ws == [] {
      assert ws + [w] == [w] && [w][1..] == [];
    } else {
      assert (ws + [w])[1..] == ws[1..] + [w] && (ws + [w])[0] == ws[0];
      FoldAddLast(AddValue(acc.value, ws[0].value, 1), ws[1..], w, s, v);
    }
  }

  // ---------------------------------------------------------------------
  // Arithmetic constraints
  // ---------------------------------------------------------------------

  /** The verdict on a polynomial constraint: a scalar range that contains zero. */
  predicate IncludesZero(t: Type) {
    t.Scalar? && t.low <= 0 <= t.high
  }

  /** A constraint flagged only because zero is out of range has no integer solution. */
  lemma {:induction false} FlaggedIsUnsatisfiable(poly: Expr, env: Env, asg: Assignment)
    requires Respects(asg, env) && Typecheck(poly, env).ok && !IncludesZero(Typecheck(poly, env).t)
    ensures Eval(poly, asg) != Some(Num(0))
  {
    TypecheckSound(poly, env, asg);
  }

  datatype Iter = Iter(name: string, start: Expr, stop: Expr)

  predicate InSpan(it: Iter, env: Env, i: int) {
    var a, b := Typecheck(it.start, env), Typecheck(it.stop, env);
    SumFrom(a) <= i <= SumTo(a, b)
  }

  /** (env', asg') is one iteration of the nested iterators, starting from (env, asg). */
  ghost predicate Iterates(iters: seq<Iter>, env: Env, asg: Assignment, env': Env, asg': Assignment)
    decreases |iters|
  {
    if iters == [] then env' == env && asg' == asg
    else exists i :: InSpan(iters[0], env, i)
                     && Iterates(iters[1..], WithVal(env, iters[0].name, i), Bind(asg, iters[0].name, i), env', asg')
  }

  lemma {:induction false} IteratesRespects(iters: seq<Iter>, env: Env, asg: Assignment, env': Env, asg': Assignment)
    requires Respects(asg, env) && Iterates(iters, env, asg, env', asg')
    ensures Respects(asg', env')
    decreases |iters|
  {
    if iters != [] {
      var i :| InSpan(iters[0], env, i)
               && Iterates(iters[1..], WithVal(env, iters[0].name, i), Bind(asg, iters[0].name, i), env', asg');
      BindRespects(asg, env, iters[0].name, i);
      IteratesRespects(iters[1..], WithVal(env, iters[0].name, i), Bind(asg, iters[0].name, i), env', asg');
    }
  }

  /** One flagged iteration is enough: no assignment within the types satisfies the constraint there. */
  lemma {:induction false} ConstraintUnsatisfiable(poly: Expr, iters: seq<Iter>, env: Env, asg: Assignment,
                                                   env': Env, asg': Assignment)
    requires Respects(asg, env) && Iterates(iters, env, asg, env', asg')
    requires Typecheck(poly, env').ok && !IncludesZero(Typecheck(poly, env').t)
    ensures Eval(poly, asg') != Some(Num(0))
  {
    IteratesRespects(iters, env, asg, env', asg');
    FlaggedIsUnsatisfiable(poly, env', asg');
  }

  /** The constraint holds in the field. */
  predicate Vanishes(v: Option<Value>, p: nat)
    requires p >= 2
  {
    v.Some? && v.value.Num? && v.value.n % p == 0
  }

  /** Some multiple of the prime lies between low and high. */
  predicate HasMultiple(t: Type, p: nat)
    requires p >= 2
  {
    t.Scalar? && (t.low - 1) / p < t.high / p
  }

  lemma {:induction false} HasMultipleMeaning(t: Type, p: nat)
    requires p >= 2 && t.Scalar?
    ensures HasMultiple(t, p) <==> exists n :: t.low <= n <= t.high && n % p == 0
  {
    if HasMultiple(t, p) {
      var q := t.high / p;
      var n := q * p;
      assert t.high == q * p + t.high % p;
      DivModUnique(n, p, q, 0);
      QuotientBelow(t.low - 1, q, p);
      assert t.low <= n <= t.high && n % p == 0;
    }
    forall n | t.low <= n <= t.high && n % p == 0
      ensures HasMultiple(t, p)
    {
      var q := n / p;
      assert n == q * p;
      QuotientBelow(t.low - 1, q, p);
      QuotientBelow(t.high, q, p);
    }
  }

  lemma {:induction false} QuotientBelow(x: int, q: int, p: nat)
    requires p >= 2
    ensures x / p < q <==> x < q * p
  {
    var d := x / p;
    assert x == d * p + x % p;
    if d < q {
      MulLe(d + 1, q, p);
      assert (d + 1) * p == d * p + p;
    } else {
      MulLe(q, d, p);
    }
  }

  lemma {:induction false} MulLe(a: int, b: int, p: nat)
    requires a <= b
    ensures a * p <= b * p
  {
    assert (b - a) * p >= 0;
  }

  /** In the field a range without a multiple of the prime is what rules solutions out. */
  lemma {:induction false} NoMultipleIsUnsatisfiable(poly: Expr, env: Env, asg: Assignment)
    requires env.prime >= 2 && Respects(asg, env) && Typecheck(poly, env).ok
    requires !HasMultiple(Typecheck(poly, env).t, env.prime) && Typecheck(poly, env).t.Scalar?
    ensures !Vanishes(Eval(poly, asg), env.prime)
  {
    TypecheckSound(poly, env, asg);
    HasMultipleMeaning(Typecheck(poly, env).t, env.prime);
  }

  function OneColumn(p: nat, n: int): Assignment { Assignment(p, map[], map["x" := Num(n)]) }

  /** For a single column the bound is tight: it can vanish exactly when its range has a multiple. */
  lemma {:induction false} ColumnVanishesIff(p: nat, low: int, high: int)
    requires p >= 2
    ensures HasMultiple(Scalar(low, high), p)
       <==> exists n :: Respects(OneColumn(p, n), Env(p, map[], map["x" := Scalar(low, high)]))
                        && Vanishes(Eval(Var("x"), OneColumn(p, n)), p)
  {
    var env := Env(p, map[], map["x" := Scalar(low, high)]);
    HasMultipleMeaning(Scalar(low, high), p);
    forall n: int
      ensures Respects(OneColumn(p, n), env) <==> low <= n <= high
      ensures Vanishes(Eval(Var("x"), OneColumn(p, n)), p) <==> n % p == 0
    {
      assert Respects(OneColumn(p, n), env) ==> HasType(OneColumn(p, n).cols["x"], env.typemap["x"]);
    }
    if HasMultiple(Scalar(low, high), p) {
      var n :| low <= n <= high && n % p == 0;
      assert Respects(OneColumn(p, n), env) && Vanishes(Eval(Var("x"), OneColumn(p, n)), p);
    }
  }

  /** Over the field the flag alone is not enough: x + 1 with x a field element is flagged and vanishes at p - 1. */
  lemma {:induction false} FlaggedButSatisfiable(p: nat)
    requires p >= 2
    ensures var env := Env(p, map[], map["x" := Scalar(0, p - 1)]);
            var asg := Assignment(p, map[], map["x" := Num(p - 1)]);
            var poly := Add([Var("x"), Lit(1)]);
            && Respects(asg, env) && Typecheck(poly, env).ok && !IncludesZero(Typecheck(poly, env).t)
            && Vanishes(Eval(poly, asg), p)
  {
    var env := Env(p, map[], map["x" := Scalar(0, p - 1)]);
    var asg := Assignment(p, map[], map["x" := Num(p - 1)]);
    var es := [Var("x"), Lit(1)];
    var cs := seq(|es| - 1, i requires 0 <= i < |es| - 1 => Typecheck(es[i + 1], env));
    assert cs == [Checked(Const(1), true)];
    var ws := seq(|es| - 1, i requires 0 <= i < |es| - 1 => Eval(es[i + 1], asg));
    assert ws == [Some(Num(1))];
    assert Typecheck(Add(es), env) == FoldAdd(Typecheck(es[0], env), cs, 1) == Checked(Scalar(1, p), true);
    assert Eval(Add(es), asg) == FoldAddValue(Eval(es[0], asg), ws, 1) == Some(Num(p));
    assert p % p == 0;
  }
}
