/**
  The flamegraph's call trie, with its cached function range, against a plain
  call stack.
 */
module Flamegraph {
  import opened Outcomes
  import opened Symbols

  datatype Instruction = Jal(dst: nat) | Jalr(dst: nat, base: nat) | Other

  datatype Log = Log(pc: nat, next: nat)

  // ---------------------------------------------------------------------
  // The plain call stack
  // ---------------------------------------------------------------------

  datatype Move = Push(addr: nat) | Pop | Switch(addr: nat) | Stay

  /** A jump that saves no return address is a tail call only across resolved functions. */
  function TailMove(t: Table, log: Log): Move {
    var from, to := LookupRange(t, log.pc), Lookup(t, log.next);
    if from.Some? && to.Some? && from.value.0.address != to.value.address then Switch(log.next) else Stay
  }

  function MoveOf(t: Table, log: Log, ins: Instruction): Move {
    match ins
    case Jal(dst) => if dst == 1 then Push(log.next) else if dst == 0 then TailMove(t, log) else Stay
    case Jalr(dst, base) =>
      if dst == 1 then Push(log.next)
      else if dst == 0 then (if base == 1 then Pop else TailMove(t, log))
      else Stay
    case Other => Stay
  }

  /** The entry-point frame is never popped. */
  function PopOf(stack: seq<nat>): seq<nat> {
    if |stack| > 1 then stack[..|stack| - 1] else stack
  }

  function Apply(stack: seq<nat>, m: Move): seq<nat> {
    match m
    case Push(a) => stack + [a]
    case Pop => PopOf(stack)
    case Switch(a) => PopOf(stack) + [a]
    case Stay => stack
  }

  datatype Run = Run(ok: bool, stack: seq<nat>, ran: multiset<seq<nat>>)

  /** Runs the logs on a plain stack; `ran` counts, per stack, the logs run with it. */
  function PlainRun(t: Table, code: map<nat, Instruction>, stack: seq<nat>, ran: multiset<seq<nat>>,
                    logs: seq<Log>): Run
    decreases |logs|
  {
    if logs == [] then Run(true, stack, ran)
    else
      var counted := ran + multiset{stack};
      if logs[0].pc !in code then Run(false, stack, counted)
      else PlainRun(t, code, Apply(stack, MoveOf(t, logs[0], code[logs[0].pc])), counted, logs[1..])
  }

  // ---------------------------------------------------------------------
  // Calls and returns nest
  // ---------------------------------------------------------------------

  /** What happens inside one activation, down to its last log. */
  datatype Trace =
    | Done
    | Then(log: Log, rest: Trace)
    | Calls(call: Log, body: Trace, ret: Log, rest: Trace)
    | Tail(jump: Log, rest: Trace)

  predicate Links(ins: Instruction) {
    (ins.Jal? || ins.Jalr?) && ins.dst == 1
  }

  predicate Returns(ins: Instruction) { ins == Jalr(0, 1) }

  predicate Jumps(ins: Instruction) {
    (ins.Jal? && ins.dst == 0) || (ins.Jalr? && ins.dst == 0 && ins.base != 1)
  }

  /** Both ends resolve, to functions at different addresses. */
  predicate Crosses(t: Table, log: Log) {
    var f, g := Lookup(t, log.pc), Lookup(t, log.next);
    f.Some? && g.Some? && f.value.address != g.value.address
  }

  predicate Known(code: map<nat, Instruction>, log: Log) {
    log.pc in code && log.pc < U64_MAX
  }

  /** Well nested: plain logs, a call with its body and its return, or a jump into another function. */
  predicate WellNested(t: Table, code: map<nat, Instruction>, tr: Trace) {
    match tr
    case Done => true
    case Then(log, rest) =>
      && Known(code, log) && !Links(code[log.pc]) && !Returns(code[log.pc])
      && (Jumps(code[log.pc]) ==> !Crosses(t, log)) && WellNested(t, code, rest)
    case Calls(call, body, ret, rest) =>
      && Known(code, call) && Links(code[call.pc]) && WellNested(t, code, body)
      && Known(code, ret) && Returns(code[ret.pc]) && WellNested(t, code, rest)
    case Tail(jump, rest) =>
      Known(code, jump) && Jumps(code[jump.pc]) && Crosses(t, jump) && WellNested(t, code, rest)
  }

  function Logs(tr: Trace): seq<Log> {
    match tr
    case Done => []
    case Then(log, rest) => [log] + Logs(rest)
    case Calls(call, body, ret, rest) => [call] + (Logs(body) + ([ret] + Logs(rest)))
    case Tail(jump, rest) => [jump] + Logs(rest)
  }

  /** The function that ends the activation: the one entered, or the last one jumped to. */
  function Last(top: nat, tr: Trace): nat
    decreases tr
  {
    match tr
    case Done => top
    case Then(_, rest) => Last(top, rest)
    case Calls(_, _, _, rest) => Last(top, rest)
    case Tail(jump, rest) => Last(jump.next, rest)
  }

  predicate Tailless(tr: Trace) {
    match tr
    case Done => true
    case Then(_, rest) => Tailless(rest)
    case Calls(_, _, _, rest) => Tailless(rest)
    case Tail(_, _) => false
  }

  /** `ran` with every log of the trace counted at its activation's frame above the callers' frames. */
  function Attributed(ran: multiset<seq<nat>>, callers: seq<nat>, top: nat, tr: Trace): multiset<seq<nat>>
    decreases tr
  {
    var here := callers + [top];
    match tr
    case Done => ran
    case Then(_, rest) => Attributed(ran + multiset{here}, callers, top, rest)
    case Calls(call, body, _, rest) =>
      var inside := Attributed(ran + multiset{here}, here, call.next, body);
      Attributed(inside + multiset{here + [Last(call.next, body)]}, callers, top, rest)
    case Tail(jump, rest) => Attributed(ran + multiset{here}, callers, jump.next, rest)
  }

  lemma {:induction false} PlainStep(t: Table, code: map<nat, Instruction>, stack: seq<nat>, ran: multiset<seq<nat>>,
                                     log: Log, rest: seq<Log>)
    requires log.pc in code
    ensures PlainRun(t, code, stack, ran, [log] + rest)
         == PlainRun(t, code, Apply(stack, MoveOf(t, log, code[log.pc])), ran + multiset{stack}, rest)
  {
    hide MoveOf, Apply;
    assert ([log] + rest)[1..] == rest;
  }

  lemma {:induction false} PlainAppend(t: Table, code: map<nat, Instruction>, stack: seq<nat>,
                                       ran: multiset<seq<nat>>, a: seq<Log>, b: seq<Log>)
    requires PlainRun(t, code, stack, ran, a).ok
    ensures var r := PlainRun(t, code, stack, ran, a);
            PlainRun(t, code, stack, ran, a + b) == PlainRun(t, code, r.stack, r.ran, b)
    decreases |a|
  {
    hide MoveOf, Apply;
    if a == [] {
      assert a + b == b;
    } else {
      assert a == [a[0]] + a[1..] && a + b == [a[0]] + (a[1..] + b);
      PlainStep(t, code, stack, ran, a[0], a[1..]);
      PlainStep(t, code, stack, ran, a[0], a[1..] + b);
      PlainAppend(t, code, Apply(stack, MoveOf(t, a[0], code[a[0].pc])), ran + multiset{stack}, a[1..], b);
    }
  }

  /** What each kind of log does to the stack. */
  lemma {:induction false} Moves(t: Table, code: map<nat, Instruction>, log: Log, callers: seq<nat>, top: nat)
    requires ValidTable(t) && Known(code, log)
    ensures var ins := code[log.pc];
            var after := Apply(callers + [top], MoveOf(t, log, ins));
            && (Links(ins) ==> after == (callers + [top]) + [log.next])
            && (Returns(ins) && callers != [] ==> after == callers)
            && (Jumps(ins) && Crosses(t, log) && callers != [] ==> after == callers + [log.next])
            && (!Links(ins) && !Returns(ins) && !(Jumps(ins) && Crosses(t, log)) ==> after == callers + [top])
  {
    LookupsAgree(t, log.pc);
    hide LookupRange, Lookup, ValidTable;
    assert (callers + [top])[..|callers|] == callers;
  }

  /**
    A well-nested trace ends on the stack it began with, apart from the
    activation's own frame, which names the last function jumped to; and every
    log is counted where `Attributed` says. The entry point's frame is never
    replaced, so its own activation must not leave by a tail call.
   */
  lemma {:induction false} NestedRun(t: Table, code: map<nat, Instruction>, callers: seq<nat>, top: nat,
                                     ran: multiset<seq<nat>>, tr: Trace)
    requires ValidTable(t) && WellNested(t, code, tr) && (callers != [] || Tailless(tr))
    ensures PlainRun(t, code, callers + [top], ran, Logs(tr))
         == Run(true, callers + [Last(top, tr)], Attributed(ran, callers, top, tr))
    decreases tr, 0
  {
    hide PlainRun, MoveOf, Apply, ValidTable, Links, Returns, Jumps, Crosses;
    var here := callers + [top];
    match tr {
      case Done =>
        NothingRun(t, code, here, ran);
      case Then(log, rest) =>
        Moves(t, code, log, callers, top);
        PlainStep(t, code, here, ran, log, Logs(rest));
        NestedRun(t, code, callers, top, ran + multiset{here}, rest);
      case Calls(call, body, ret, rest) =>
        CallReturns(t, code, callers, top, ran, call, body, ret, Logs(rest));
        NestedRun(t, code, callers, top,
                  Attributed(ran + multiset{here}, here, call.next, body) + multiset{here + [Last(call.next, body)]},
                  rest);
      case Tail(jump, rest) =>
        Moves(t, code, jump, callers, top);
        PlainStep(t, code, here, ran, jump, Logs(rest));
        TailIsNeither(code[jump.pc]);
        NestedRun(t, code, callers, jump.next, ran + multiset{here}, rest);
    }
  }

  /** Without a tail call of its own, an activation leaves the whole stack as it was. */
  lemma {:induction false} BalancedRun(t: Table, code: map<nat, Instruction>, callers: seq<nat>, top: nat,
                                       ran: multiset<seq<nat>>, tr: Trace)
    requires ValidTable(t) && WellNested(t, code, tr) && Tailless(tr)
    ensures var r := PlainRun(t, code, callers + [top], ran, Logs(tr));
            r.ok && r.stack == callers + [top]
  {
    hide PlainRun, ValidTable, WellNested;
    NestedRun(t, code, callers, top, ran, tr);
    TaillessKeepsTop(top, tr);
  }

  lemma {:induction false} TaillessKeepsTop(top: nat, tr: Trace)
    requires Tailless(tr)
    ensures Last(top, tr) == top
    decreases tr
  {
    if tr.Then? || tr.Calls? {
      TaillessKeepsTop(top, tr.rest);
    }
  }

  lemma {:induction false} TailIsNeither(ins: Instruction)
    ensures Jumps(ins) ==> !Links(ins) && !Returns(ins)
  {}

  lemma {:induction false} NothingRun(t: Table, code: map<nat, Instruction>, stack: seq<nat>, ran: multiset<seq<nat>>)
    ensures PlainRun(t, code, stack, ran, []) == Run(true, stack, ran)
  {}

  /**
    A call, a well-nested body and a return leave the caller's stack as it was,
    also when the body leaves by a tail call; the body runs above it.
   */
  lemma {:induction false} CallReturns(t: Table, code: map<nat, Instruction>, callers: seq<nat>, top: nat,
                                       ran: multiset<seq<nat>>, call: Log, body: Trace, ret: Log, more: seq<Log>)
    requires ValidTable(t) && WellNested(t, code, body)
    requires Known(code, call) && Links(code[call.pc]) && Known(code, ret) && Returns(code[ret.pc])
    ensures var here := callers + [top];
            var inside := Attributed(ran + multiset{here}, here, call.next, body);
            PlainRun(t, code, here, ran, [call] + (Logs(body) + ([ret] + more)))
            == PlainRun(t, code, here, inside + multiset{here + [Last(call.next, body)]}, more)
    decreases body, 1
  {
    hide PlainRun, MoveOf, Apply, ValidTable, Links, Returns, Jumps, Crosses;
    var here := callers + [top];
    var last := Last(call.next, body);
    var inside := Attributed(ran + multiset{here}, here, call.next, body);
    Moves(t, code, call, callers, top);
    PlainStep(t, code, here, ran, call, Logs(body) + ([ret] + more));
    NestedRun(t, code, here, call.next, ran + multiset{here}, body);
    PlainAppend(t, code, here + [call.next], ran + multiset{here}, Logs(body), [ret] + more);
    Moves(t, code, ret, here, last);
    PlainStep(t, code, here + [last], inside, ret, more);
  }

  /** Whatever a call's body counts lies above the callers; without tail calls, above the callee's own frame. */
  lemma {:induction false} BodyStacks(ran: multiset<seq<nat>>, callers: seq<nat>, top: nat, tr: Trace, q: seq<nat>)
    requires Attributed(ran, callers, top, tr)[q] != ran[q]
    ensures callers < q
    ensures Tailless(tr) ==> callers + [top] <= q
    decreases tr
  {
    var here := callers + [top];
    if q != here && tr.Calls? {
      var inside := Attributed(ran + multiset{here}, here, tr.call.next, tr.body);
      if inside[q] != (ran + multiset{here})[q] {
        BodyStacks(ran + multiset{here}, here, tr.call.next, tr.body, q);
      } else if q != here + [Last(tr.call.next, tr.body)] {
        BodyStacks(inside + multiset{here + [Last(tr.call.next, tr.body)]}, callers, top, tr.rest, q);
      }
    } else if q != here && tr.Then? {
      BodyStacks(ran + multiset{here}, callers, top, tr.rest, q);
    } else if q != here && tr.Tail? {
      BodyStacks(ran + multiset{here}, callers, tr.jump.next, tr.rest, q);
    }
  }

  // ---------------------------------------------------------------------
  // The trie
  // ---------------------------------------------------------------------

  const ROOT: nat := 0

  datatype Node = Node(parent: nat, addr: nat, count: nat, children: map<nat, nat>)

  /** Parents come before their children. */
  predicate Rooted(nodes: seq<Node>) {
    |nodes| > 0 && forall i | 0 < i < |nodes| :: nodes[i].parent < i
  }

  /** The root-to-node address chain. */
  function Path(nodes: seq<Node>, i: nat): (p: seq<nat>)
    requires Rooted(nodes) && i < |nodes|
    ensures p != [] && (|p| == 1 <==> i == ROOT) && p[|p| - 1] == nodes[i].addr
  {
    if i == ROOT then [nodes[i].addr] else Path(nodes, nodes[i].parent) + [nodes[i].addr]
  }

  predicate IsChild(nodes: seq<Node>, i: nat, a: nat, c: nat) {
    i < |nodes| && 0 < c < |nodes| && nodes[c].parent == i && nodes[c].addr == a
  }

  predicate ChildrenMatch(nodes: seq<Node>, i: nat)
    requires i < |nodes|
  {
    forall a | a in nodes[i].children :: IsChild(nodes, i, a, nodes[i].children[a])
  }

  predicate Linked(nodes: seq<Node>, c: nat)
    requires c < |nodes|
  {
    var n := nodes[c];
    n.parent < |nodes| && n.addr in nodes[n.parent].children && nodes[n.parent].children[n.addr] == c
  }

  /** Child maps and parent links mirror each other. */
  predicate Tree(nodes: seq<Node>) {
    && Rooted(nodes)
    && (forall i | 0 <= i < |nodes| :: ChildrenMatch(nodes, i))
    && (forall c | 0 < c < |nodes| :: Linked(nodes, c))
  }

  /** Distinct nodes have distinct paths. */
  lemma {:induction false} PathsDistinct(nodes: seq<Node>, i: nat, j: nat)
    requires Tree(nodes) && i < |nodes| && j < |nodes| && Path(nodes, i) == Path(nodes, j)
    ensures i == j
    decreases i
  {
    if i != ROOT {
      var p, q := Path(nodes, nodes[i].parent), Path(nodes, nodes[j].parent);
      assert Path(nodes, i) == p + [nodes[i].addr];
      assert Path(nodes, j) == q + [nodes[j].addr];
      assert Path(nodes, i)[..|p|] == p && Path(nodes, j)[..|q|] == q;
      PathsDistinct(nodes, nodes[i].parent, nodes[j].parent);
      assert Linked(nodes, i) && Linked(nodes, j);
    }
  }

  /** A path depends only on parents and addresses. */
  lemma {:induction false} PathFrame(nodes: seq<Node>, nodes': seq<Node>, i: nat)
    requires Rooted(nodes) && Rooted(nodes') && i < |nodes| && i < |nodes'|
    requires forall j | 0 <= j <= i :: nodes[j].parent == nodes'[j].parent && nodes[j].addr == nodes'[j].addr
    ensures Path(nodes, i) == Path(nodes', i)
  {
    if i != ROOT {
      PathFrame(nodes, nodes', nodes[i].parent);
    }
  }

  function SumCounts(nodes: seq<Node>): nat {
    if nodes == [] then 0 else SumCounts(nodes[..|nodes| - 1]) + nodes[|nodes| - 1].count
  }

  lemma {:induction false} SumCountsUpdate(nodes: seq<Node>, i: nat, n: Node)
    requires i < |nodes|
    ensures SumCounts(nodes[i := n]) + nodes[i].count == SumCounts(nodes) + n.count
  {
    var m: int := |nodes| - 1;
    if i == m {
      assert nodes[i := n][..m] == nodes[..m];
    } else {
      SumCountsUpdate(nodes[..m], i, n);
      assert nodes[i := n][..m] == nodes[..m][i := n];
    }
  }

  /** Each node counts the logs run with its path, and every stack that ran has a node. */
  ghost predicate Counts(nodes: seq<Node>, ran: multiset<seq<nat>>)
    requires Rooted(nodes)
  {
    && (forall i | 0 <= i < |nodes| :: nodes[i].count == ran[Path(nodes, i)])
    && (forall p | p in ran :: HasPath(nodes, p))
  }

  ghost predicate HasPath(nodes: seq<Node>, p: seq<nat>)
    requires Rooted(nodes)
  {
    exists i :: 0 <= i < |nodes| && Path(nodes, i) == p
  }

  // ---------------------------------------------------------------------
  // Steps of the trie
  // ---------------------------------------------------------------------

  function CountAt(nodes: seq<Node>, i: nat): seq<Node>
    requires i < |nodes|
  {
    nodes[i := nodes[i].(count := nodes[i].count + 1)]
  }

  function Grown(nodes: seq<Node>, i: nat, a: nat): seq<Node>
    requires i < |nodes|
  {
    var all := nodes + [Node(i, a, 0, map[])];
    all[i := all[i].(children := all[i].children[a := |nodes|])]
  }

  lemma {:induction false} CountKeeps(nodes: seq<Node>, ran: multiset<seq<nat>>, i: nat)
    requires Tree(nodes) && Counts(nodes, ran) && i < |nodes|
    ensures var after := CountAt(nodes, i);
            && Tree(after) && Path(after, i) == Path(nodes, i)
            && Counts(after, ran + multiset{Path(nodes, i)})
            && SumCounts(after) == SumCounts(nodes) + 1
  {
    var after := CountAt(nodes, i);
    CountKeepsTree(nodes, i);
    SumCountsUpdate(nodes, i, after[i]);
    forall j | 0 <= j < |nodes|
      ensures Path(after, j) == Path(nodes, j)
    {
      PathFrame(nodes, after, j);
    }
    CountKeepsCounts(nodes, ran, i);
  }

  lemma {:induction false} CountKeepsTree(nodes: seq<Node>, i: nat)
    requires Tree(nodes) && i < |nodes|
    ensures Tree(CountAt(nodes, i))
  {
    var after := CountAt(nodes, i);
    assert SameShape(nodes, after);
    hide ChildrenMatch, Linked;
    forall j | 0 <= j < |after|
      ensures ChildrenMatch(after, j)
    {
      assert ChildrenMatch(nodes, j);
      SameChildren(nodes, after, j);
    }
    forall c | 0 < c < |after|
      ensures Linked(after, c)
    {
      assert Linked(nodes, c);
      SameLink(nodes, after, c);
    }
  }

  predicate SameShape(nodes: seq<Node>, after: seq<Node>) {
    |after| == |nodes| && forall j | 0 <= j < |nodes| ::
      after[j].parent == nodes[j].parent && after[j].addr == nodes[j].addr && after[j].children == nodes[j].children
  }

  lemma {:induction false} SameChildren(nodes: seq<Node>, after: seq<Node>, j: nat)
    requires SameShape(nodes, after) && j < |nodes| && ChildrenMatch(nodes, j)
    ensures ChildrenMatch(after, j)
  {
    forall a | a in after[j].children
      ensures IsChild(after, j, a, after[j].children[a])
    {
      assert IsChild(nodes, j, a, nodes[j].children[a]);
    }
  }

  lemma {:induction false} SameLink(nodes: seq<Node>, after: seq<Node>, c: nat)
    requires SameShape(nodes, after) && c < |nodes| && Linked(nodes, c)
    ensures Linked(after, c)
  {}

  lemma {:induction false} CountKeepsCounts(nodes: seq<Node>, ran: multiset<seq<nat>>, i: nat)
    requires Tree(nodes) && Counts(nodes, ran) && i < |nodes|
    requires Rooted(CountAt(nodes, i))
    requires forall j | 0 <= j < |nodes| :: Path(CountAt(nodes, i), j) == Path(nodes, j)
    ensures Counts(CountAt(nodes, i), ran + multiset{Path(nodes, i)})
  {
    var after := CountAt(nodes, i);
    var p := Path(nodes, i);
    forall j | 0 <= j < |nodes|
      ensures after[j].count == (ran + multiset{p})[Path(after, j)]
    {
      if j != i && Path(nodes, j) == p {
        PathsDistinct(nodes, i, j);
      }
    }
    forall q | q in ran + multiset{p}
      ensures HasPath(after, q)
    {
      if q == p {
        assert Path(after, i) == p;
      } else {
        assert HasPath(nodes, q);
        var j :| 0 <= j < |nodes| && Path(nodes, j) == q;
        assert Path(after, j) == q;
      }
    }
  }

  /** No node has the path of a missing child. */
  lemma {:induction false} NewPathIsNew(nodes: seq<Node>, i: nat, a: nat, j: nat)
    requires Tree(nodes) && i < |nodes| && j < |nodes| && a !in nodes[i].children
    ensures Path(nodes, j) != Path(nodes, i) + [a]
  {
    assert j > 0 ==> Linked(nodes, j);
    if Path(nodes, j) == Path(nodes, i) + [a] {
      var p := Path(nodes, nodes[j].parent);
      assert Path(nodes, j) == p + [nodes[j].addr];
      assert (p + [nodes[j].addr])[..|p|] == p && (Path(nodes, i) + [a])[..|Path(nodes, i)|] == Path(nodes, i);
      PathsDistinct(nodes, nodes[j].parent, i);
      assert false;
    }
  }

  lemma {:induction false} GrownKeepsTree(nodes: seq<Node>, i: nat, a: nat)
    requires Tree(nodes) && i < |nodes| && a !in nodes[i].children
    ensures Tree(Grown(nodes, i, a))
  {
    var after := Grown(nodes, i, a);
    assert forall j | 0 <= j < |nodes| :: after[j].parent == nodes[j].parent && after[j].addr == nodes[j].addr;
    hide ChildrenMatch, Linked;
    forall j | 0 <= j < |after|
      ensures ChildrenMatch(after, j)
    {
      assert j < |nodes| ==> ChildrenMatch(nodes, j);
      GrownChildren(nodes, i, a, j);
    }
    forall c | 0 < c < |after|
      ensures Linked(after, c)
    {
      assert c < |nodes| ==> Linked(nodes, c);
      GrownLink(nodes, i, a, c);
    }
  }

  lemma {:induction false} GrownChildren(nodes: seq<Node>, i: nat, a: nat, j: nat)
    requires i < |nodes| && j <= |nodes| && (j < |nodes| ==> ChildrenMatch(nodes, j)) && a !in nodes[i].children
    ensures ChildrenMatch(Grown(nodes, i, a), j)
  {
    var after := Grown(nodes, i, a);
    forall b | b in after[j].children
      ensures IsChild(after, j, b, after[j].children[b])
    {
      if !(j == i && b == a) {
        assert IsChild(nodes, j, b, nodes[j].children[b]);
      }
    }
  }

  lemma {:induction false} GrownLink(nodes: seq<Node>, i: nat, a: nat, c: nat)
    requires i < |nodes| && 0 < c <= |nodes| && (c < |nodes| ==> Linked(nodes, c)) && a !in nodes[i].children
    ensures Linked(Grown(nodes, i, a), c)
  {}

  lemma {:induction false} GrownKeeps(nodes: seq<Node>, ran: multiset<seq<nat>>, i: nat, a: nat)
    requires Tree(nodes) && Counts(nodes, ran) && i < |nodes| && a !in nodes[i].children
    ensures var after := Grown(nodes, i, a);
            && Tree(after) && Path(after, |nodes|) == Path(nodes, i) + [a]
            && (forall j | 0 <= j < |nodes| :: Path(after, j) == Path(nodes, j))
            && Counts(after, ran) && SumCounts(after) == SumCounts(nodes)
  {
    var after := Grown(nodes, i, a);
    GrownKeepsTree(nodes, i, a);
    forall j | 0 <= j < |nodes|
      ensures Path(after, j) == Path(nodes, j)
    {
      PathFrame(nodes, after, j);
    }
    assert Path(after, |nodes|) == Path(after, i) + [a];
    GrownSum(nodes, i, a);
    GrownCounts(nodes, ran, i, a);
  }

  lemma {:induction false} GrownSum(nodes: seq<Node>, i: nat, a: nat)
    requires i < |nodes|
    ensures SumCounts(Grown(nodes, i, a)) == SumCounts(nodes)
  {
    var all := nodes + [Node(i, a, 0, map[])];
    assert all[..|all| - 1] == nodes;
    SumCountsUpdate(all, i, all[i].(children := all[i].children[a := |nodes|]));
  }

  lemma {:induction false} NewPathNotRun(nodes: seq<Node>, ran: multiset<seq<nat>>, i: nat, a: nat)
    requires Tree(nodes) && Counts(nodes, ran) && i < |nodes| && a !in nodes[i].children
    ensures Path(nodes, i) + [a] !in ran
  {
    hide ChildrenMatch, Linked, Path;
    var p := Path(nodes, i) + [a];
    if HasPath(nodes, p) {
      var j :| 0 <= j < |nodes| && Path(nodes, j) == p;
      NewPathIsNew(nodes, i, a, j);
    }
  }

  lemma {:induction false} GrownCounts(nodes: seq<Node>, ran: multiset<seq<nat>>, i: nat, a: nat)
    requires Tree(nodes) && Counts(nodes, ran) && i < |nodes| && a !in nodes[i].children
    requires var after := Grown(nodes, i, a);
             Rooted(after) && Path(after, |nodes|) == Path(nodes, i) + [a]
             && forall j | 0 <= j < |nodes| :: Path(after, j) == Path(nodes, j)
    ensures Counts(Grown(nodes, i, a), ran)
  {
    hide ChildrenMatch, Linked, Path, HasPath;
    var after := Grown(nodes, i, a);
    NewPathNotRun(nodes, ran, i, a);
    forall q | q in ran
      ensures HasPath(after, q)
    {
      StillHasPath(nodes, after, q);
    }
    forall j | 0 <= j < |after|
      ensures after[j].count == ran[Path(after, j)]
    {
      assert j < |nodes| ==> after[j].count == nodes[j].count;
    }
  }

  lemma {:induction false} StillHasPath(nodes: seq<Node>, after: seq<Node>, q: seq<nat>)
    requires Rooted(nodes) && Rooted(after) && |nodes| <= |after| && HasPath(nodes, q)
    requires forall j | 0 <= j < |nodes| :: Path(after, j) == Path(nodes, j)
    ensures HasPath(after, q)
  {
    hide Path;
    var j :| 0 <= j < |nodes| && Path(nodes, j) == q;
    assert Path(after, j) == q;
  }

  // ---------------------------------------------------------------------
  // The cached function range
  // ---------------------------------------------------------------------

  /** Every address in the cached range has its candidate symbol at the range's start. */
  ghost predicate CacheSound(t: Table, cached: Option<(nat, nat)>) {
    cached.Some? ==> forall a: nat | cached.value.0 <= a < cached.value.1 :: StartsAt(t, a, cached.value.0)
  }

  predicate StartsAt(t: Table, a: nat, start: nat) {
    var c := Candidate(t, a);
    c.Some? && t.functions[c.value].address == start
  }

  /** A jump inside the cached range never moves the stack. */
  lemma {:induction false} CacheIsTransparent(t: Table, cached: Option<(nat, nat)>, log: Log)
    requires CacheSound(t, cached) && cached.Some?
    requires cached.value.0 <= log.pc < cached.value.1 && cached.value.0 <= log.next < cached.value.1
    ensures TailMove(t, log) == Stay
  {
    assert StartsAt(t, log.pc, cached.value.0) && StartsAt(t, log.next, cached.value.0);
  }

  lemma {:induction false} RangeIsSound(t: Table, pc: nat)
    requires ValidTable(t) && LookupRange(t, pc).Some?
    ensures var (f, end) := LookupRange(t, pc).value; CacheSound(t, Some((f.address, end)))
  {
    var (f, end) := LookupRange(t, pc).value;
    forall a: nat | f.address <= a < end
      ensures StartsAt(t, a, f.address)
    {
      RangeResolvesAlike(t, pc, a);
    }
  }

  // ---------------------------------------------------------------------
  // The generator
  // ---------------------------------------------------------------------

  class Generator {
    const symbols: Table
    var nodes: seq<Node>
    var current: nat
    var totalCounted: nat
    var cachedFnRange: Option<(nat, nat)>
    /** The plain call stack, and the stacks the logs ran with. */
    ghost var stack: seq<nat>
    ghost var ran: multiset<seq<nat>>

    ghost predicate Valid()
      reads this
    {
      && ValidTable(symbols) && CacheSound(symbols, cachedFnRange)
      && Tree(nodes) && current < |nodes| && stack == Path(nodes, current)
      && Counts(nodes, ran) && totalCounted == SumCounts(nodes)
    }

    constructor (symbols: Table, entryPoint: nat)
      requires ValidTable(symbols)
      ensures Valid() && this.symbols == symbols && stack == [entryPoint] && ran == multiset{} && totalCounted == 0
    {
      this.symbols := symbols;
      nodes := [Node(ROOT, entryPoint, 0, map[])];
      current := ROOT;
      totalCounted := 0;
      cachedFnRange := None;
      stack := [entryPoint];
      ran := multiset{};
      new;
      assert nodes[..0] == [];
    }

    method PushFrame(addr: nat)
      requires Valid()
      modifies `nodes, `current, `stack
      ensures Valid() && stack == old(stack) + [addr]
    {
      hide Counts, SumCounts, Linked, ValidTable, CacheSound;
      if addr in nodes[current].children {
        assert ChildrenMatch(nodes, current);
        var child := nodes[current].children[addr];
        assert IsChild(nodes, current, addr, child);
        current := child;
      } else {
        GrownKeeps(nodes, ran, current, addr);
        var newIdx := |nodes|;
        var before := current;
        nodes := nodes + [Node(before, addr, 0, map[])];
        nodes := nodes[before := nodes[before].(children := nodes[before].children[addr := newIdx])];
        current := newIdx;
      }
      stack := stack + [addr];
    }

    method PopFrame()
      requires Valid()
      modifies `current, `stack
      ensures Valid() && stack == PopOf(old(stack))
    {
      if current != ROOT {
        ghost var parent := nodes[current].parent;
        assert Path(nodes, current) == Path(nodes, parent) + [nodes[current].addr];
        assert Path(nodes, current)[..|Path(nodes, parent)|] == Path(nodes, parent);
        current := nodes[current].parent;
      }
      stack := PopOf(stack);
    }

    method MaybeTailCall(log: Log)
      requires Valid()
      modifies `nodes, `current, `stack, `cachedFnRange
      ensures Valid() && stack == Apply(old(stack), TailMove(symbols, log))
    {
      hide Tree, Counts, SumCounts, ValidTable, CacheSound;
      if cachedFnRange.Some? && cachedFnRange.value.0 <= log.pc < cachedFnRange.value.1
         && cachedFnRange.value.0 <= log.next < cachedFnRange.value.1 {
        CacheIsTransparent(symbols, cachedFnRange, log);
        return;
      }
      var from := LookupRange(symbols, log.pc);
      if from.Some? {
        RangeIsSound(symbols, log.pc);
        cachedFnRange := Some((from.value.0.address, from.value.1));
      }
      var to := Lookup(symbols, log.next);
      if from.Some? && to.Some? && from.value.0.address != to.value.address {
        PopFrame();
        PushFrame(log.next);
      }
    }

    method UpdateStack(log: Log, ins: Instruction)
      requires Valid()
      modifies `nodes, `current, `stack, `cachedFnRange
      ensures Valid() && stack == Apply(old(stack), MoveOf(symbols, log, ins))
    {
      hide Tree, Counts, SumCounts, ValidTable, CacheSound, TailMove;
      match ins {
        case Jal(dst) =>
          if dst == 1 {
            PushFrame(log.next);
          } else if dst == 0 {
            MaybeTailCall(log);
          }
        case Jalr(dst, base) =>
          if dst == 1 {
            PushFrame(log.next);
          } else if base == 1 && dst == 0 {
            PopFrame();
          } else if dst == 0 {
            MaybeTailCall(log);
          }
        case Other =>
      }
    }

    method CountLog()
      requires Valid()
      modifies `nodes, `totalCounted, `ran
      ensures Valid() && stack == old(stack) && ran == old(ran) + multiset{stack}
    {
      hide Counts, SumCounts, Tree, ValidTable, CacheSound;
      CountKeeps(nodes, ran, current);
      nodes := nodes[current := nodes[current].(count := nodes[current].count + 1)];
      totalCounted := totalCounted + 1;
      ran := ran + multiset{stack};
    }

    /** The trie follows the plain stack log by log; a missing instruction stops after counting its log. */
    method ProcessLogs(logs: seq<Log>, code: map<nat, Instruction>) returns (ok: bool)
      requires Valid()
      modifies this
      ensures Valid()
      ensures Run(ok, stack, ran) == PlainRun(symbols, code, old(stack), old(ran), logs)
    {
      hide Counts, Tree, SumCounts, CacheSound;
      assert logs[0..] == logs;
      for i := 0 to |logs|
        invariant Valid()
        invariant PlainRun(symbols, code, stack, ran, logs[i..]) == PlainRun(symbols, code, old(stack), old(ran), logs)
      {
        var log := logs[i];
        assert logs[i..][1..] == logs[i + 1..] && logs[i..][0] == log;
        CountLog();
        if log.pc !in code {
          return false;
        }
        UpdateStack(log, code[log.pc]);
      }
      return true;
    }

    /** The root-to-node chain by walking parents and reversing. */
    method PathTo(idx: nat) returns (path: seq<nat>)
      requires Valid() && idx < |nodes|
      ensures path == Path(nodes, idx)
    {
      hide Counts, SumCounts, ChildrenMatch, Linked, ValidTable, CacheSound;
      path := [];
      var cur: nat := idx;
      assert Path(nodes, idx) + [] == Path(nodes, idx);
      while true
        invariant cur < |nodes|
        invariant Path(nodes, idx) == Path(nodes, cur) + Reverse(path)
        decreases cur
      {
        ReverseAppend(path, nodes[cur].addr);
        WalkUp(nodes, cur, Reverse(path));
        path := path + [nodes[cur].addr];
        if cur == ROOT {
          break;
        }
        cur := nodes[cur].parent;
      }
      path := Reverse(path);
    }

    /**
      The folded output: every rendered stack with the counts of its nodes, in
      ascending order; the counts add up to the logs processed.
     */
    method Fold(render: nat -> string) returns (entries: seq<Folded>)
      requires Valid()
      ensures Sorted(entries) && Total(entries) == totalCounted
      ensures forall key :: CountOf(entries, key) == CountRendered(nodes, |nodes|, render, key)
    {
      hide Counts, ChildrenMatch, Linked, ValidTable, CacheSound, AddTo, Sorted, Total, CountOf, Path;
      entries := [];
      NothingFolded();
      for idx := 0 to |nodes|
        invariant Sorted(entries) && Total(entries) == SumCounts(nodes[..idx])
        invariant forall key :: CountOf(entries, key) == CountRendered(nodes, idx, render, key)
      {
        assert nodes[..idx + 1][..idx] == nodes[..idx];
        if nodes[idx].count == 0 {
          continue;
        }
        var path := PathTo(idx);
        var rendered := Join(render, path);
        ghost var before := entries;
        entries := AddTo(entries, rendered, nodes[idx].count);
        AddToSorted(before, rendered, nodes[idx].count);
        AddToTotal(before, rendered, nodes[idx].count);
        forall key
          ensures CountOf(entries, key) == CountRendered(nodes, idx + 1, render, key)
        {
          AddToCount(before, rendered, nodes[idx].count, key);
        }
      }
      assert nodes[..|nodes|] == nodes;
    }
  }

  // ---------------------------------------------------------------------
  // Folding
  // ---------------------------------------------------------------------

  datatype Folded = Folded(stack: string, count: nat)

  /** Rendered frames joined by semicolons. */
  function Join(render: nat -> string, path: seq<nat>): string {
    if path == [] then ""
    else if |path| == 1 then render(path[0])
    else Join(render, path[..|path| - 1]) + ";" + render(path[|path| - 1])
  }

  /** The frames of a rendered stack, cut at the semicolons. */
  function Split(s: string): (r: seq<string>)
    ensures r != []
  {
    if s == "" then [""]
    else
      var rest := Split(s[..|s| - 1]);
      var n, c := |rest| - 1, s[|s| - 1];
      if c == ';' then rest + [""] else rest[n := rest[n] + [c]]
  }

  predicate Whole(s: string) { ';' !in s }

  lemma {:induction false} SplitMore(s: string, more: string)
    requires Whole(more)
    ensures var r := Split(s); Split(s + more) == r[|r| - 1 := r[|r| - 1] + more]
    decreases |more|
  {
    if more == "" {
      assert s + more == s;
      assert Split(s)[|Split(s)| - 1] + "" == Split(s)[|Split(s)| - 1];
    } else {
      var m := |more| - 1;
      SplitMore(s, more[..m]);
      assert more == more[..m] + [more[m]] && more[m] in more;
      assert (s + more)[..|s + more| - 1] == s + more[..m];
      var r := Split(s);
      assert (r[|r| - 1] + more[..m]) + [more[m]] == r[|r| - 1] + more;
    }
  }

  function Rendered(render: nat -> string, path: seq<nat>): seq<string> {
    seq(|path|, i requires 0 <= i < |path| => render(path[i]))
  }

  /** A rendered stack can be read back: its frames are the rendered addresses, root first. */
  lemma {:induction false} SplitJoin(render: nat -> string, path: seq<nat>)
    requires path != [] && forall a | a in path :: Whole(render(a))
    ensures Split(Join(render, path)) == Rendered(render, path)
  {
    var n: int := |path| - 1;
    var last := render(path[n]);
    if n == 0 {
      SplitMore("", last);
      assert "" + last == last;
      assert Rendered(render, path) == [last];
    } else {
      var front := path[..n];
      SplitJoin(render, front);
      var s := Join(render, front) + ";";
      assert s[..|s| - 1] == Join(render, front);
      SplitMore(s, last);
      assert Rendered(render, path) == Rendered(render, front) + [last];
      assert "" + last == last;
    }
  }

  predicate Less(a: string, b: string) {
    if b == "" then false
    else if a == "" then true
    else a[0] < b[0] || (a[0] == b[0] && Less(a[1..], b[1..]))
  }

  /** `a` and `b` agree on their first `n` characters, and there `a` ends or has the smaller one. */
  predicate FirstDifference(a: string, b: string, n: nat) {
    n <= |a| && n < |b| && a[..n] == b[..n] && (n == |a| || a[n] < b[n])
  }

  /** The order is the lexicographic one. */
  lemma {:induction false} LessMeaning(a: string, b: string)
    ensures Less(a, b) <==> exists n: nat :: FirstDifference(a, b, n)
  {
    if n: nat :| FirstDifference(a, b, n) {
      DifferenceIsLess(a, b, n);
    }
    if Less(a, b) {
      var n := LessDiffers(a, b);
    }
  }

  lemma {:induction false} DifferenceIsLess(a: string, b: string, n: nat)
    requires FirstDifference(a, b, n)
    ensures Less(a, b)
  {
    if n > 0 {
      assert a[0] == a[..n][0] == b[..n][0] == b[0];
      assert a[1..][..n - 1] == a[..n][1..] && b[1..][..n - 1] == b[..n][1..];
      DifferenceIsLess(a[1..], b[1..], n - 1);
    }
  }

  lemma {:induction false} LessDiffers(a: string, b: string) returns (n: nat)
    requires Less(a, b)
    ensures FirstDifference(a, b, n)
  {
    n := 0;
    if a != "" && a[0] == b[0] {
      var m := LessDiffers(a[1..], b[1..]);
      n := m + 1;
      assert a[..n] == [a[0]] + a[1..][..m] && b[..n] == [b[0]] + b[1..][..m];
    }
  }

  lemma {:induction false} LessTotal(a: string, b: string)
    ensures a == b || Less(a, b) || Less(b, a)
  {
    if a != "" && b != "" && a[0] == b[0] {
      LessTotal(a[1..], b[1..]);
      assert a == [a[0]] + a[1..] && b == [b[0]] + b[1..];
    }
  }

  predicate Sorted(entries: seq<Folded>) {
    forall i | 0 <= i && i + 1 < |entries| :: Less(entries[i].stack, entries[i + 1].stack)
  }

  function Total(entries: seq<Folded>): nat {
    if entries == [] then 0 else entries[0].count + Total(entries[1..])
  }

  function CountOf(entries: seq<Folded>, key: string): nat {
    if entries == [] then 0 else (if entries[0].stack == key then entries[0].count else 0) + CountOf(entries[1..], key)
  }

  /** Adds to the entry of `key`, inserting it in order when absent. */
  function AddTo(entries: seq<Folded>, key: string, count: nat): (r: seq<Folded>)
    ensures r != [] && (r[0].stack == key || (entries != [] && r[0].stack == entries[0].stack))
  {
    if entries == [] then [Folded(key, count)]
    else if entries[0].stack == key then [Folded(key, entries[0].count + count)] + entries[1..]
    else if Less(key, entries[0].stack) then [Folded(key, count)] + entries
    else [entries[0]] + AddTo(entries[1..], key, count)
  }

  lemma {:induction false} AddToSorted(entries: seq<Folded>, key: string, count: nat)
    requires Sorted(entries)
    ensures Sorted(AddTo(entries, key, count))
  {
    if entries != [] {
      var rest := entries[1..];
      assert forall i | 0 <= i < |rest| :: rest[i] == entries[i + 1];
      LessTotal(key, entries[0].stack);
      AddToSorted(rest, key, count);
      hide Less;
      assert rest != [] ==> Less(entries[0].stack, rest[0].stack) by {
        assert rest != [] ==> rest[0] == entries[0 + 1];
      }
    }
  }

  lemma {:induction false} AddToTotal(entries: seq<Folded>, key: string, count: nat)
    ensures Total(AddTo(entries, key, count)) == Total(entries) + count
  {
    if entries != [] && entries[0].stack != key && !Less(key, entries[0].stack) {
      AddToTotal(entries[1..], key, count);
    }
  }

  lemma {:induction false} AddToCount(entries: seq<Folded>, key: string, count: nat, other: string)
    ensures CountOf(AddTo(entries, key, count), other) == CountOf(entries, other) + (if other == key then count else 0)
  {
    if entries != [] && entries[0].stack != key && !Less(key, entries[0].stack) {
      AddToCount(entries[1..], key, count, other);
    }
  }

  lemma {:induction false} NothingFolded()
    ensures Sorted([]) && Total([]) == 0 && forall key :: CountOf([], key) == 0
  {}

  /** The counts of the first `n` nodes whose path renders to `key`. */
  function CountRendered(nodes: seq<Node>, n: nat, render: nat -> string, key: string): nat
    requires Rooted(nodes) && n <= |nodes|
  {
    if n == 0 then 0
    else (if Join(render, Path(nodes, n - 1)) == key then nodes[n - 1].count else 0)
         + CountRendered(nodes, n - 1, render, key)
  }

  function Reverse(s: seq<nat>): seq<nat> {
    if s == [] then [] else [s[|s| - 1]] + Reverse(s[..|s| - 1])
  }

  lemma {:induction false} WalkUp(nodes: seq<Node>, cur: nat, rest: seq<nat>)
    requires Rooted(nodes) && cur < |nodes|
    ensures var up := [nodes[cur].addr] + rest;
            if cur == ROOT then Path(nodes, cur) + rest == up
            else Path(nodes, cur) + rest == Path(nodes, nodes[cur].parent) + up
  {}

  lemma {:induction false} ReverseAppend(s: seq<nat>, x: nat)
    ensures Reverse(s + [x]) == [x] + Reverse(s)
  {
    assert (s + [x])[..|s|] == s;
  }
}
