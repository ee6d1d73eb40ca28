/**
  The continuation pipeline: a producer, K trace builders sharing one locked
  receiver, a prover and a global-prove thread, over bounded channels with a
  sticky first error. Each thread is a deterministic step function; a run is any
  interleaving of them.
 */
module Pipeline {
  import opened Outcomes

  const MAX_EPOCHS: nat := 0x10_0000

  // ---------------------------------------------------------------------
  // What the stages do
  // ---------------------------------------------------------------------

  /** Executing and collecting one epoch: nothing left to run, an error, or a chunk. */
  datatype Execution = NoLogs | Failed | Ran(isFinal: bool)

  /** The stages' behaviour, fixed but arbitrary. */
  datatype Plan = Plan(
    halted: bool,
    execute: nat -> Execution,
    buildFails: nat -> bool,
    proveFails: nat -> bool,
    globalFails: bool)

  datatype Fault = PrepareFailed(index: nat) | TooManyEpochs | BuildFailed(index: nat) | ProveFailed(index: nat)

  datatype Message = Job(index: nat) | Error(fault: Fault)

  // ---------------------------------------------------------------------
  // Thread states
  // ---------------------------------------------------------------------

  /** Sending states are parked in a bounded `send`. */
  datatype Producer = Deciding(index: nat) | Executing(index: nat) | Sending(index: nat, isFinal: bool)
                    | SendingFault(fault: Fault) | Stopped

  /** `Receiving` holds the receiver lock across `recv`. */
  datatype Builder = Idle | Receiving | Received(index: nat) | Building(index: nat) | Forwarding(msg: Message) | Exited

  datatype Prover = Waiting | Checking(index: nat) | Proving(index: nat) | Joined

  datatype GlobalThread = Draining | Inspecting | ProvingGlobal | Finished(result: Option<bool>)

  /**
    `published` counts the boundaries sent so far and `failures` lists the epoch
    stages that were executed and failed, in order.
   */
  datatype State = State(
    producer: Producer, published: nat,
    buildQueue: seq<Message>, builders: seq<Builder>, proveQueue: seq<Message>,
    prover: Prover, proved: seq<nat>, firstErr: Option<Fault>,
    boundaryQueue: seq<nat>, seen: seq<nat>, global: GlobalThread,
    failures: seq<Fault>)

  datatype Actor = TheProducer | ABuilder(b: nat) | TheProver | TheGlobal

  function Start(k: nat): State {
    State(Deciding(0), 0, [], seq(k, _ => Idle), [], Waiting, [], None, [], [], Draining, [])
  }

  predicate AllExited(builders: seq<Builder>) {
    forall b | 0 <= b < |builders| :: builders[b] == Exited
  }

  predicate LockFree(builders: seq<Builder>) {
    forall b | 0 <= b < |builders| :: builders[b] != Receiving
  }

  // ---------------------------------------------------------------------
  // Steps; None means the thread is blocked or has ended
  // ---------------------------------------------------------------------

  function ProducerStep(plan: Plan, s: State): Option<State> {
    match s.producer
    case Deciding(i) =>
      if i == 0 && plan.halted then Some(s.(producer := Stopped))
      else if s.firstErr.Some? then Some(s.(producer := Stopped))
      else if i >= MAX_EPOCHS then
        Some(s.(producer := SendingFault(TooManyEpochs), failures := s.failures + [TooManyEpochs]))
      else Some(s.(producer := Executing(i)))
    case Executing(i) =>
      (match plan.execute(i)
       case NoLogs => Some(s.(producer := Stopped))
       case Failed =>
         Some(s.(producer := SendingFault(PrepareFailed(i)), failures := s.failures + [PrepareFailed(i)]))
       case Ran(isFinal) =>
         Some(s.(producer := Sending(i, isFinal), published := s.published + 1,
                 boundaryQueue := s.boundaryQueue + [i])))
    case Sending(i, isFinal) =>
      if |s.buildQueue| >= 1 then None
      else Some(s.(buildQueue := s.buildQueue + [Job(i)], producer := if isFinal then Stopped else Deciding(i + 1)))
    case SendingFault(f) =>
      if |s.buildQueue| >= 1 then None
      else Some(s.(buildQueue := s.buildQueue + [Error(f)], producer := Stopped))
    case Stopped => None
  }

  function SetBuilder(s: State, b: nat, x: Builder): State
    requires b < |s.builders|
  {
    s.(builders := s.builders[b := x])
  }

  function BuilderStep(plan: Plan, s: State, b: nat): Option<State>
    requires b < |s.builders|
  {
    match s.builders[b]
    case Idle => if LockFree(s.builders) then Some(SetBuilder(s, b, Receiving)) else None
    case Receiving =>
      if s.buildQueue != [] then
        var next := match s.buildQueue[0]
          case Job(i) => Received(i)
          case Error(f) => Forwarding(Error(f));
        Some(SetBuilder(s, b, next).(buildQueue := s.buildQueue[1..]))
      else if s.producer == Stopped then Some(SetBuilder(s, b, Exited))
      else None
    case Received(i) =>
      Some(SetBuilder(s, b, if s.firstErr.Some? then Idle else Building(i)))
    case Building(i) =>
      if plan.buildFails(i) then
        Some(SetBuilder(s, b, Forwarding(Error(BuildFailed(i)))).(failures := s.failures + [BuildFailed(i)]))
      else Some(SetBuilder(s, b, Forwarding(Job(i))))
    case Forwarding(msg) =>
      if |s.proveQueue| >= 1 then None
      else Some(SetBuilder(s, b, Idle).(proveQueue := s.proveQueue + [msg]))
    case Exited => None
  }

  /** `get_or_insert` on the shared first error. */
  function Record(e: Option<Fault>, f: Fault): Option<Fault> {
    if e.Some? then e else Some(f)
  }

  function ProverStep(plan: Plan, s: State): Option<State> {
    match s.prover
    case Waiting =>
      if s.proveQueue != [] then
        var rest := s.(proveQueue := s.proveQueue[1..]);
        match s.proveQueue[0]
        case Job(i) => Some(rest.(prover := Checking(i)))
        case Error(f) => Some(rest.(firstErr := Record(s.firstErr, f)))
      else if AllExited(s.builders) then Some(s.(prover := Joined))
      else None
    case Checking(i) => Some(s.(prover := if s.firstErr.Some? then Waiting else Proving(i)))
    case Proving(i) =>
      if plan.proveFails(i) then
        Some(s.(prover := Waiting, firstErr := Record(s.firstErr, ProveFailed(i)),
                failures := s.failures + [ProveFailed(i)]))
      else Some(s.(prover := Waiting, proved := s.proved + [i]))
    case Joined => None
  }

  function GlobalStep(plan: Plan, s: State): Option<State> {
    match s.global
    case Draining =>
      if s.boundaryQueue != [] then
        Some(s.(boundaryQueue := s.boundaryQueue[1..], seen := s.seen + [s.boundaryQueue[0]]))
      else if s.producer == Stopped then Some(s.(global := Inspecting))
      else None
    case Inspecting => Some(s.(global := if s.firstErr.Some? then Finished(None) else ProvingGlobal))
    case ProvingGlobal => Some(s.(global := Finished(Some(!plan.globalFails))))
    case Finished(_) => None
  }

  function Next(plan: Plan, s: State, a: Actor): Option<State> {
    match a
    case TheProducer => ProducerStep(plan, s)
    case ABuilder(b) => if b < |s.builders| then BuilderStep(plan, s, b) else None
    case TheProver => ProverStep(plan, s)
    case TheGlobal => GlobalStep(plan, s)
  }

  /** The state after the threads in `schedule` moved in that order. */
  function Run(plan: Plan, s: State, schedule: seq<Actor>): Option<State>
    decreases |schedule|
  {
    if schedule == [] then Some(s)
    else
      var s' :- Next(plan, s, schedule[0]);
      Run(plan, s', schedule[1..])
  }

  predicate Final(s: State) {
    s.producer == Stopped && AllExited(s.builders) && s.prover == Joined && s.global.Finished?
  }

  // ---------------------------------------------------------------------
  // The result
  // ---------------------------------------------------------------------

  predicate Sorted(s: seq<nat>) {
    forall i, j | 0 <= i < j < |s| :: s[i] <= s[j]
  }

  function Insert(x: nat, s: seq<nat>): (r: seq<nat>)
    ensures multiset(r) == multiset(s) + multiset{x}
  {
    if s == [] || x <= s[0] then [x] + s
    else
      assert s == [s[0]] + s[1..];
      [s[0]] + Insert(x, s[1..])
  }

  lemma {:induction false} InsertKeepsSorted(x: nat, s: seq<nat>)
    requires Sorted(s)
    ensures Sorted(Insert(x, s))
  {
    if s != [] && x > s[0] {
      var t := Insert(x, s[1..]);
      InsertKeepsSorted(x, s[1..]);
      forall i | 0 <= i < |t|
        ensures s[0] <= t[i]
      {
        InsertMember(x, s[1..], t[i]);
      }
    }
  }

  lemma {:induction false} InsertMember(x: nat, s: seq<nat>, y: nat)
    requires y in Insert(x, s)
    ensures y == x || y in s
  {
    assert y in multiset(Insert(x, s));
  }

  /** The results ordered by epoch index. */
  function SortByIndex(s: seq<nat>): (r: seq<nat>)
    ensures multiset(r) == multiset(s)
  {
    if s == [] then []
    else
      assert s == [s[0]] + s[1..];
      Insert(s[0], SortByIndex(s[1..]))
  }

  lemma {:induction false} SortByIndexSorts(s: seq<nat>)
    ensures Sorted(SortByIndex(s))
  {
    if s != [] {
      SortByIndexSorts(s[1..]);
      InsertKeepsSorted(s[0], SortByIndex(s[1..]));
    }
  }

  datatype Failure = EpochFailure(fault: Fault) | GlobalFailure | NoGlobalResult

  datatype Outcome = Bundle(epochs: seq<nat>, boundaries: seq<nat>) | Err(failure: Failure)

  function Result(s: State): Outcome
    requires s.global.Finished?
  {
    if s.firstErr.Some? then Err(EpochFailure(s.firstErr.value))
    else match s.global.result
      case None => Err(NoGlobalResult)
      case Some(ok) => if ok then Bundle(SortByIndex(s.proved), s.seen) else Err(GlobalFailure)
  }

  // ---------------------------------------------------------------------
  // Which executions are possible, from the plan alone
  // ---------------------------------------------------------------------

  /** The producer can come to decide about epoch `i`. */
  predicate Reaches(plan: Plan, i: nat) {
    !plan.halted && i <= MAX_EPOCHS && forall j: nat | j < i :: plan.execute(j) == Ran(false)
  }

  predicate Runs(plan: Plan, i: nat) {
    Reaches(plan, i) && i < MAX_EPOCHS && plan.execute(i).Ran?
  }

  /** The guest stops after exactly `n` epochs. */
  predicate Halts(plan: Plan, n: nat) {
    if plan.halted then n == 0
    else if n > 0 && plan.execute(n - 1) == Ran(true) then Reaches(plan, n - 1) && n <= MAX_EPOCHS
    else Reaches(plan, n) && n < MAX_EPOCHS && plan.execute(n) == NoLogs
  }

  /** The guest stops after `n` epochs and every stage they need succeeds. */
  predicate Succeeds(plan: Plan, n: nat) {
    Halts(plan, n) && !plan.globalFails && forall i: nat | i < n :: !plan.buildFails(i) && !plan.proveFails(i)
  }

  predicate Genuine(plan: Plan, f: Fault) {
    match f
    case PrepareFailed(i) => Reaches(plan, i) && i < MAX_EPOCHS && plan.execute(i) == Failed
    case TooManyEpochs => Reaches(plan, MAX_EPOCHS)
    case BuildFailed(i) => Runs(plan, i) && plan.buildFails(i)
    case ProveFailed(i) => Runs(plan, i) && plan.proveFails(i)
  }

  predicate Warranted(plan: Plan, f: Failure) {
    match f
    case EpochFailure(fault) => Genuine(plan, fault)
    case GlobalFailure => plan.globalFails
    case NoGlobalResult => false
  }

  /**
    What a run may return: the epochs and boundaries of a plan that succeeds,
    or, for a plan that does not, a failure that the plan contains.
   */
  ghost predicate Delivers(plan: Plan, out: Outcome) {
    match out
    case Bundle(epochs, boundaries) => exists n :: Succeeds(plan, n) && epochs == boundaries == Upto(n)
    case Err(f) => Warranted(plan, f) && forall n :: !Succeeds(plan, n)
  }

  /** The guest is done before epoch `i`: it halted, its last chunk was final, or nothing is left to run. */
  predicate DoneBefore(plan: Plan, i: nat) {
    plan.halted || (i > 0 && plan.execute(i - 1) == Ran(true)) || plan.execute(i) == NoLogs
  }

  predicate GoesOn(plan: Plan, i: nat) {
    !DoneBefore(plan, i) && plan.execute(i).Ran?
  }

  /** `n` is the first point at which the guest is done, every epoch before it runs, and the limit allows them. */
  predicate FirstStop(plan: Plan, n: nat) {
    && DoneBefore(plan, n) && (forall i: nat | i < n :: GoesOn(plan, i))
    && n <= MAX_EPOCHS && (n == MAX_EPOCHS ==> plan.execute(n - 1) == Ran(true))
  }

  lemma {:induction false} HaltsAtFirstStop(plan: Plan, n: nat)
    ensures Halts(plan, n) <==> FirstStop(plan, n)
  {
    if Halts(plan, n) {
      forall i: nat | i < n
        ensures GoesOn(plan, i)
      {}
    }
    if FirstStop(plan, n) {
      StopIsHalt(plan, n);
    }
  }

  lemma {:induction false} StopIsHalt(plan: Plan, n: nat)
    requires FirstStop(plan, n)
    ensures Halts(plan, n)
  {
    if plan.halted {
      assert n > 0 ==> GoesOn(plan, 0);
    } else {
      forall i: nat | i + 1 < n
        ensures plan.execute(i) == Ran(false)
      {
        assert GoesOn(plan, i) && GoesOn(plan, i + 1);
      }
      assert n > 0 ==> GoesOn(plan, n - 1);
    }
  }

  lemma {:induction false} HaltsUnique(plan: Plan, m: nat, n: nat)
    requires Halts(plan, m) && Halts(plan, n)
    ensures m == n
  {}

  /** Success and its bundle depend on the plan alone. */
  lemma {:induction false} DeliveryUnique(plan: Plan, out: Outcome, other: Outcome)
    requires Delivers(plan, out) && Delivers(plan, other)
    ensures out.Bundle? <==> other.Bundle?
    ensures out.Bundle? ==> out == other
  {
    hide Halts, Upto;
    if out.Bundle? && other.Bundle? {
      var m: nat :| Succeeds(plan, m) && out.epochs == out.boundaries == Upto(m);
      var n: nat :| Succeeds(plan, n) && other.epochs == other.boundaries == Upto(n);
      HaltsUnique(plan, m, n);
    }
  }

  // ---------------------------------------------------------------------
  // Invariants
  // ---------------------------------------------------------------------

  function Upto(n: nat): seq<nat> {
    seq(n, i requires 0 <= i < n => i)
  }

  function One(b: bool): nat { if b then 1 else 0 }

  // How many copies of epoch `x` each place holds.

  function ByProducer(p: Producer, x: nat): nat { One(p.Sending? && p.index == x) }

  function ByMessage(m: Message, x: nat): nat { One(m == Job(x)) }

  function ByBuilder(b: Builder, x: nat): nat {
    match b
    case Received(i) => One(i == x)
    case Building(i) => One(i == x)
    case Forwarding(m) => ByMessage(m, x)
    case _ => 0
  }

  function ByProver(p: Prover, x: nat): nat { One((p.Checking? || p.Proving?) && p.index == x) }

  function ByQueue(q: seq<Message>, x: nat): nat {
    if q == [] then 0 else ByMessage(q[0], x) + ByQueue(q[1..], x)
  }

  function ByBuilders(bs: seq<Builder>, x: nat): nat {
    if bs == [] then 0 else ByBuilder(bs[0], x) + ByBuilders(bs[1..], x)
  }

  /** Copies of epoch `x` held anywhere from the producer's send to the finished proofs. */
  function Copies(s: State, x: nat): nat {
    ByProducer(s.producer, x) + ByQueue(s.buildQueue, x) + ByBuilders(s.builders, x) + ByQueue(s.proveQueue, x)
    + ByProver(s.prover, x) + multiset(s.proved)[x]
  }

  predicate Shape(s: State) {
    && |s.builders| >= 1 && |s.buildQueue| <= 1 && |s.proveQueue| <= 1
    && forall a, b | 0 <= a < b < |s.builders| :: s.builders[a] != Receiving || s.builders[b] != Receiving
  }

  predicate Closing(s: State) {
    && (forall b | 0 <= b < |s.builders| :: s.builders[b] == Exited ==> s.producer == Stopped && s.buildQueue == [])
    && (s.prover == Joined ==> AllExited(s.builders) && s.proveQueue == [])
    && (s.global != Draining ==> s.producer == Stopped && s.boundaryQueue == [])
    && (s.global == Finished(None) ==> s.firstErr.Some?)
  }

  predicate ProducerOnTrack(plan: Plan, s: State) {
    match s.producer
    case Deciding(i) => s.published == i && (i == 0 || Reaches(plan, i))
    case Executing(i) => s.published == i && Reaches(plan, i) && i < MAX_EPOCHS
    case Sending(i, isFinal) => s.published == i + 1 && Runs(plan, i) && plan.execute(i) == Ran(isFinal)
    case SendingFault(f) => f in s.failures
    case Stopped => s.failures == [] ==> Halts(plan, s.published)
  }

  predicate Epochs(plan: Plan, s: State) {
    && ProducerOnTrack(plan, s)
    && s.published <= MAX_EPOCHS
    && (forall i: nat | i < s.published :: Runs(plan, i))
    && s.seen + s.boundaryQueue == Upto(s.published)
  }

  predicate FaultsKnown(q: seq<Message>, failures: seq<Fault>) {
    forall i | 0 <= i < |q| :: q[i].Error? ==> q[i].fault in failures
  }

  predicate HasFault(q: seq<Message>) {
    exists i :: 0 <= i < |q| && q[i].Error?
  }

  predicate ForwardsFault(b: Builder) {
    b.Forwarding? && b.msg.Error?
  }

  predicate FaultPending(s: State) {
    || s.producer.SendingFault? || HasFault(s.buildQueue) || HasFault(s.proveQueue)
    || exists b :: 0 <= b < |s.builders| && ForwardsFault(s.builders[b])
  }

  /** Every fault in the pipeline is a stage that failed. */
  predicate Faults(plan: Plan, s: State) {
    && (forall f | f in s.failures :: Genuine(plan, f))
    && (s.firstErr.Some? ==> s.firstErr.value in s.failures)
    && FaultsKnown(s.buildQueue, s.failures) && FaultsKnown(s.proveQueue, s.failures)
    && (forall b | 0 <= b < |s.builders| :: ForwardsFault(s.builders[b]) ==> s.builders[b].msg.fault in s.failures)
  }

  /** A failed stage is never forgotten: its error is recorded or on its way. */
  predicate Remembered(s: State) {
    s.failures != [] ==> s.firstErr.Some? || FaultPending(s)
  }

  predicate MessageFits(plan: Plan, m: Message, published: nat) {
    m.Job? ==> m.index < published && !plan.buildFails(m.index)
  }

  predicate BuilderFits(plan: Plan, b: Builder, published: nat) {
    match b
    case Received(i) => i < published
    case Building(i) => i < published
    case Forwarding(m) => MessageFits(plan, m, published)
    case _ => true
  }

  /** Only published epochs move, built ones built without error and proved ones proved without error. */
  predicate Work(plan: Plan, s: State) {
    && (forall i | 0 <= i < |s.buildQueue| :: s.buildQueue[i].Job? ==> s.buildQueue[i].index < s.published)
    && (forall b | 0 <= b < |s.builders| :: BuilderFits(plan, s.builders[b], s.published))
    && (forall i | 0 <= i < |s.proveQueue| :: MessageFits(plan, s.proveQueue[i], s.published))
    && (s.prover.Checking? || s.prover.Proving? ==> s.prover.index < s.published && !plan.buildFails(s.prover.index))
    && (forall i | i in s.proved :: !plan.buildFails(i) && !plan.proveFails(i))
    && (s.global.Finished? && s.global.result.Some? ==> s.global.result.value == !plan.globalFails)
  }

  /** While nothing has failed, every published epoch is in exactly one place. */
  ghost predicate Conserved(s: State) {
    s.failures == [] ==> forall x: nat :: Copies(s, x) == One(x < s.published)
  }

  ghost predicate Inv(plan: Plan, s: State) {
    Shape(s) && Closing(s) && Epochs(plan, s) && Faults(plan, s) && Remembered(s) && Work(plan, s) && Conserved(s)
  }

  // ---------------------------------------------------------------------
  // Every step keeps the invariant
  // ---------------------------------------------------------------------

  lemma {:induction false} ByBuildersUpdate(bs: seq<Builder>, b: nat, y: Builder, x: nat)
    requires b < |bs|
    ensures ByBuilders(bs[b := y], x) + ByBuilder(bs[b], x) == ByBuilders(bs, x) + ByBuilder(y, x)
  {
    if b > 0 {
      ByBuildersUpdate(bs[1..], b - 1, y, x);
      assert bs[b := y][1..] == bs[1..][b - 1 := y];
    } else {
      assert bs[b := y][1..] == bs[1..];
    }
  }

  lemma {:induction false} QueuePush(q: seq<Message>, m: Message, x: nat)
    requires q == []
    ensures ByQueue(q + [m], x) == ByMessage(m, x) && ByQueue(q, x) == 0
  {
    assert (q + [m])[1..] == [];
  }

  lemma {:induction false} IdleHoldNothing(bs: seq<Builder>, x: nat)
    requires forall b | 0 <= b < |bs| :: bs[b] == Idle
    ensures ByBuilders(bs, x) == 0
  {
    if bs != [] {
      IdleHoldNothing(bs[1..], x);
    }
  }

  lemma {:induction false} StartInv(plan: Plan, k: nat)
    requires k >= 1
    ensures Inv(plan, Start(k))
  {
    forall x: nat
      ensures Copies(Start(k), x) == 0
    {
      IdleHoldNothing(seq(k, _ => Idle), x);
    }
    assert Upto(0) == [];
  }

  lemma {:induction false} ShapeKept(plan: Plan, s: State, a: Actor)
    requires Shape(s) && Next(plan, s, a).Some?
    ensures Shape(Next(plan, s, a).value)
  {}

  lemma {:induction false} ClosingKept(plan: Plan, s: State, a: Actor)
    requires Shape(s) && Closing(s) && Next(plan, s, a).Some?
    ensures Closing(Next(plan, s, a).value)
  {
    match a
    case TheProducer => ProducerKeepsClosing(plan, s);
    case ABuilder(b) => BuilderKeepsClosing(plan, s, b);
    case TheProver => ProverKeepsClosing(plan, s);
    case TheGlobal => GlobalKeepsClosing(plan, s);
  }

  lemma {:induction false} ProducerKeepsClosing(plan: Plan, s: State)
    requires Shape(s) && Closing(s) && ProducerStep(plan, s).Some?
    ensures Closing(ProducerStep(plan, s).value)
  {}

  lemma {:induction false} BuilderKeepsClosing(plan: Plan, s: State, b: nat)
    requires Closing(s) && b < |s.builders| && BuilderStep(plan, s, b).Some?
    ensures Closing(BuilderStep(plan, s, b).value)
  {
    var s' := BuilderStep(plan, s, b).value;
    assert forall c | 0 <= c < |s.builders| && c != b :: s'.builders[c] == s.builders[c];
    assert s.builders[b] != Exited && s.prover != Joined;
  }

  lemma {:induction false} ProverKeepsClosing(plan: Plan, s: State)
    requires Closing(s) && ProverStep(plan, s).Some?
    ensures Closing(ProverStep(plan, s).value)
  {}

  lemma {:induction false} GlobalKeepsClosing(plan: Plan, s: State)
    requires Closing(s) && GlobalStep(plan, s).Some?
    ensures Closing(GlobalStep(plan, s).value)
  {}

  lemma {:induction false} EpochsKept(plan: Plan, s: State, a: Actor)
    requires Epochs(plan, s) && Faults(plan, s) && Next(plan, s, a).Some?
    ensures Epochs(plan, Next(plan, s, a).value)
  {
    match a
    case TheProducer => ProducerKeepsEpochs(plan, s);
    case TheGlobal => GlobalKeepsEpochs(plan, s);
    case _ => OthersKeepEpochs(plan, s, a);
  }

  lemma {:induction false} ProducerKeepsEpochs(plan: Plan, s: State)
    requires Epochs(plan, s) && Faults(plan, s) && ProducerStep(plan, s).Some?
    ensures Epochs(plan, ProducerStep(plan, s).value)
  {
    var s' := ProducerStep(plan, s).value;
    if s.producer.Executing? && plan.execute(s.producer.index).Ran? {
      assert Upto(s.published) + [s.published] == Upto(s'.published);
      assert s'.seen + s'.boundaryQueue == (s.seen + s.boundaryQueue) + [s.published];
    }
  }

  lemma {:induction false} GlobalKeepsEpochs(plan: Plan, s: State)
    requires Epochs(plan, s) && GlobalStep(plan, s).Some?
    ensures Epochs(plan, GlobalStep(plan, s).value)
  {
    var s' := GlobalStep(plan, s).value;
    assert s'.seen + s'.boundaryQueue == s.seen + s.boundaryQueue;
  }

  lemma {:induction false} OthersKeepEpochs(plan: Plan, s: State, a: Actor)
    requires Epochs(plan, s) && Next(plan, s, a).Some? && (a.ABuilder? || a.TheProver?)
    ensures Epochs(plan, Next(plan, s, a).value)
  {
    var s' := Next(plan, s, a).value;
    assert s'.producer == s.producer && s'.published == s.published;
    assert s'.seen == s.seen && s'.boundaryQueue == s.boundaryQueue;
    hide Halts, Reaches, Runs, Upto;
  }

  lemma {:induction false} FaultsKept(plan: Plan, s: State, a: Actor)
    requires Epochs(plan, s) && Faults(plan, s) && Work(plan, s) && Next(plan, s, a).Some?
    ensures Faults(plan, Next(plan, s, a).value)
  {
    match a
    case TheProducer => ProducerKeepsFaults(plan, s);
    case ABuilder(b) => BuilderKeepsFaults(plan, s, b);
    case TheProver => ProverKeepsFaults(plan, s);
    case TheGlobal =>
  }

  lemma {:induction false} ProducerKeepsFaults(plan: Plan, s: State)
    requires Epochs(plan, s) && Faults(plan, s) && ProducerStep(plan, s).Some?
    ensures Faults(plan, ProducerStep(plan, s).value)
  {
    hide Halts, Upto;
  }

  lemma {:induction false} ProverKeepsFaults(plan: Plan, s: State)
    requires Epochs(plan, s) && Faults(plan, s) && Work(plan, s) && ProverStep(plan, s).Some?
    ensures Faults(plan, ProverStep(plan, s).value)
  {
    hide Halts, Upto, Reaches, ProducerOnTrack;
    if s.prover.Proving? {
      assert Runs(plan, s.prover.index);
    }
  }

  lemma {:induction false} BuilderKeepsFaults(plan: Plan, s: State, b: nat)
    requires Epochs(plan, s) && Faults(plan, s) && Work(plan, s) && b < |s.builders| && BuilderStep(plan, s, b).Some?
    ensures Faults(plan, BuilderStep(plan, s, b).value)
  {
    var s' := BuilderStep(plan, s, b).value;
    assert BuilderFits(plan, s.builders[b], s.published);
    assert forall c | 0 <= c < |s.builders| && c != b :: s'.builders[c] == s.builders[c];
    hide Reaches;
  }

  /** Where an error goes when its holder passes it on. */
  lemma {:induction false} RememberedKept(plan: Plan, s: State, a: Actor)
    requires Shape(s) && Remembered(s) && Next(plan, s, a).Some?
    ensures Remembered(Next(plan, s, a).value)
  {
    match a
    case TheProducer => ProducerRemembers(plan, s);
    case ABuilder(b) => BuilderRemembers(plan, s, b);
    case TheProver => ProverRemembers(plan, s);
    case TheGlobal =>
  }

  lemma {:induction false} ProducerRemembers(plan: Plan, s: State)
    requires Shape(s) && Remembered(s) && ProducerStep(plan, s).Some?
    ensures Remembered(ProducerStep(plan, s).value)
  {
    var s' := ProducerStep(plan, s).value;
    assert s'.builders == s.builders && s'.proveQueue == s.proveQueue;
    if s.producer.SendingFault? {
      assert s'.buildQueue[0].Error?;
    }
  }

  lemma {:induction false} BuilderRemembers(plan: Plan, s: State, b: nat)
    requires Shape(s) && Remembered(s) && b < |s.builders| && BuilderStep(plan, s, b).Some?
    ensures Remembered(BuilderStep(plan, s, b).value)
  {
    var s' := BuilderStep(plan, s, b).value;
    if s'.failures != [] && s'.firstErr.None? && !s.producer.SendingFault? {
      if s.builders[b].Building? && plan.buildFails(s.builders[b].index) {
        assert ForwardsFault(s'.builders[b]);
      } else if ForwardsFault(s.builders[b]) {
        assert s'.proveQueue[0].Error?;
      } else if c :| 0 <= c < |s.builders| && ForwardsFault(s.builders[c]) {
        assert s'.builders[c] == s.builders[c];
      } else if HasFault(s.proveQueue) {
        assert s'.proveQueue == s.proveQueue;
      } else {
        assert HasFault(s.buildQueue);
        assert s'.buildQueue == s.buildQueue || ForwardsFault(s'.builders[b]);
      }
    }
  }

  lemma {:induction false} ProverRemembers(plan: Plan, s: State)
    requires Shape(s) && Remembered(s) && ProverStep(plan, s).Some?
    ensures Remembered(ProverStep(plan, s).value)
  {
    var s' := ProverStep(plan, s).value;
    assert s'.builders == s.builders && s'.buildQueue == s.buildQueue && s'.producer == s.producer;
    if HasFault(s.proveQueue) {
      assert s'.proveQueue == s.proveQueue || s'.firstErr.Some?;
    }
  }

  lemma {:induction false} WorkKept(plan: Plan, s: State, a: Actor)
    requires Epochs(plan, s) && Work(plan, s) && Next(plan, s, a).Some?
    ensures Work(plan, Next(plan, s, a).value)
  {
    match a
    case TheProducer => ProducerKeepsWork(plan, s);
    case ABuilder(b) => BuilderKeepsWork(plan, s, b);
    case TheProver => ProverKeepsWork(plan, s);
    case TheGlobal =>
  }

  lemma {:induction false} ProducerKeepsWork(plan: Plan, s: State)
    requires Epochs(plan, s) && Work(plan, s) && ProducerStep(plan, s).Some?
    ensures Work(plan, ProducerStep(plan, s).value)
  {
    hide Halts, Reaches, Runs, Upto;
  }

  lemma {:induction false} BuilderKeepsWork(plan: Plan, s: State, b: nat)
    requires Work(plan, s) && b < |s.builders| && BuilderStep(plan, s, b).Some?
    ensures Work(plan, BuilderStep(plan, s, b).value)
  {
    var s' := BuilderStep(plan, s, b).value;
    assert forall c | 0 <= c < |s.builders| && c != b :: s'.builders[c] == s.builders[c];
    assert BuilderFits(plan, s.builders[b], s.published);
    assert BuilderFits(plan, s'.builders[b], s.published);
  }

  lemma {:induction false} ProverKeepsWork(plan: Plan, s: State)
    requires Work(plan, s) && ProverStep(plan, s).Some?
    ensures Work(plan, ProverStep(plan, s).value)
  {
    assert s.proveQueue != [] ==> MessageFits(plan, s.proveQueue[0], s.published);
  }

  lemma {:induction false} CopiesKept(plan: Plan, s: State, a: Actor, x: nat)
    requires Shape(s) && Epochs(plan, s) && Faults(plan, s) && Next(plan, s, a).Some?
    ensures var s' := Next(plan, s, a).value;
            s'.failures == [] ==> Copies(s', x) + One(x < s.published) == Copies(s, x) + One(x < s'.published)
  {
    assert s.firstErr.Some? ==> s.failures != [];
    hide Shape, Epochs, Faults, Copies, One;
    match a
    case TheProducer => ProducerKeepsCopies(plan, s, x);
    case ABuilder(b) => BuilderKeepsCopies(plan, s, b, x);
    case TheProver => ProverKeepsCopies(plan, s, x);
    case TheGlobal => GlobalKeepsCopies(plan, s, x);
  }

  lemma {:induction false} GlobalKeepsCopies(plan: Plan, s: State, x: nat)
    requires GlobalStep(plan, s).Some?
    ensures Copies(GlobalStep(plan, s).value, x) == Copies(s, x)
    ensures GlobalStep(plan, s).value.published == s.published
  {}

  lemma {:induction false} QueuePop(q: seq<Message>, x: nat)
    requires q != []
    ensures ByQueue(q, x) == ByMessage(q[0], x) + ByQueue(q[1..], x)
  {}

  lemma {:induction false} ProducerKeepsCopies(plan: Plan, s: State, x: nat)
    requires Shape(s) && Epochs(plan, s) && ProducerStep(plan, s).Some?
    ensures var s' := ProducerStep(plan, s).value;
            Copies(s', x) + One(x < s.published) == Copies(s, x) + One(x < s'.published)
  {
    hide Halts, Reaches, Runs, Upto, ByBuilders, ByProver, ByQueue, Shape;
    if s.producer.Sending? {
      QueuePush(s.buildQueue, Job(s.producer.index), x);
    } else if s.producer.SendingFault? {
      QueuePush(s.buildQueue, Error(s.producer.fault), x);
    }
  }

  lemma {:induction false} BuilderKeepsCopies(plan: Plan, s: State, b: nat, x: nat)
    requires Shape(s) && b < |s.builders| && BuilderStep(plan, s, b).Some?
    requires s.firstErr.Some? ==> s.failures != []
    ensures var s' := BuilderStep(plan, s, b).value;
            s'.published == s.published && (s'.failures == [] ==> Copies(s', x) == Copies(s, x))
  {
    var s' := BuilderStep(plan, s, b).value;
    BuilderMoveKeepsCopies(plan, s, b, x);
    ByBuildersUpdate(s.builders, b, s'.builders[b], x);
    hide BuilderStep, ByBuilders, ByBuilder, ByProducer, ByQueue, ByProver, Shape;
  }

  lemma {:induction false} BuilderMoveKeepsCopies(plan: Plan, s: State, b: nat, x: nat)
    requires Shape(s) && b < |s.builders| && BuilderStep(plan, s, b).Some?
    requires s.firstErr.Some? ==> s.failures != []
    ensures var s' := BuilderStep(plan, s, b).value;
            && |s'.builders| == |s.builders| && s'.builders == s.builders[b := s'.builders[b]]
            && s'.producer == s.producer && s'.prover == s.prover && s'.proved == s.proved
            && s'.published == s.published
            && (s'.failures == [] ==>
                  ByBuilder(s'.builders[b], x) + ByQueue(s'.buildQueue, x) + ByQueue(s'.proveQueue, x)
                  == ByBuilder(s.builders[b], x) + ByQueue(s.buildQueue, x) + ByQueue(s.proveQueue, x))
  {
    hide LockFree, ByQueue, Shape;
    if s.builders[b].Forwarding? {
      QueuePush(s.proveQueue, s.builders[b].msg, x);
    } else if s.builders[b] == Receiving && s.buildQueue != [] {
      QueuePop(s.buildQueue, x);
    }
  }

  lemma {:induction false} ProverKeepsCopies(plan: Plan, s: State, x: nat)
    requires Shape(s) && ProverStep(plan, s).Some?
    requires s.firstErr.Some? ==> s.failures != []
    ensures var s' := ProverStep(plan, s).value;
            s'.published == s.published && (s'.failures == [] ==> Copies(s', x) == Copies(s, x))
  {
    hide ByBuilders, ByProducer, ByQueue, AllExited, Shape;
    if s.prover == Waiting && s.proveQueue != [] {
      QueuePop(s.proveQueue, x);
    }
  }

  lemma {:induction false} StepKeepsInv(plan: Plan, s: State, a: Actor)
    requires Inv(plan, s) && Next(plan, s, a).Some?
    ensures Inv(plan, Next(plan, s, a).value)
  {
    hide Shape, Closing, Epochs, Faults, Remembered, Work, Copies;
    ShapeKept(plan, s, a);
    ClosingKept(plan, s, a);
    EpochsKept(plan, s, a);
    FaultsKept(plan, s, a);
    RememberedKept(plan, s, a);
    WorkKept(plan, s, a);
    ConservedKept(plan, s, a);
  }

  lemma {:induction false} FailuresGrow(plan: Plan, s: State, a: Actor)
    requires Next(plan, s, a).Some? && Next(plan, s, a).value.failures == []
    ensures s.failures == []
  {}

  lemma {:induction false} ConservedKept(plan: Plan, s: State, a: Actor)
    requires Shape(s) && Epochs(plan, s) && Faults(plan, s) && Conserved(s) && Next(plan, s, a).Some?
    ensures Conserved(Next(plan, s, a).value)
  {
    hide Shape, Epochs, Faults, Copies;
    var s' := Next(plan, s, a).value;
    if s'.failures == [] {
      FailuresGrow(plan, s, a);
      forall x: nat
        ensures Copies(s', x) == One(x < s'.published)
      {
        CopiesKept(plan, s, a, x);
      }
    }
  }

  /** Every state of every run satisfies the invariant. */
  lemma {:induction false} RunKeepsInv(plan: Plan, s: State, schedule: seq<Actor>)
    requires Inv(plan, s)
    ensures var r := Run(plan, s, schedule);
            r.Some? ==> Inv(plan, r.value)
    decreases |schedule|
  {
    hide Inv, Next;
    if schedule != [] {
      var s' := Next(plan, s, schedule[0]);
      if s'.Some? {
        StepKeepsInv(plan, s, schedule[0]);
        RunKeepsInv(plan, s'.value, schedule[1..]);
      }
    }
  }

  // ---------------------------------------------------------------------
  // No thread arrangement is stuck
  // ---------------------------------------------------------------------

  predicate Enabled(plan: Plan, s: State, a: Actor) {
    Next(plan, s, a).Some?
  }

  lemma {:induction false} FindReceiver(builders: seq<Builder>) returns (b: nat)
    requires !LockFree(builders)
    ensures b < |builders| && builders[b] == Receiving
  {
    b :| b < |builders| && builders[b] == Receiving;
  }

  /** A builder that holds an epoch or an error, or that can take one, is never all that blocks the pipeline. */
  lemma {:induction false} BuilderProgress(plan: Plan, s: State, b: nat)
    requires Shape(s) && b < |s.builders| && s.builders[b] != Exited
    requires s.prover == Waiting || s.prover == Joined
    requires s.proveQueue == []
    ensures exists a :: Enabled(plan, s, a)
  {
    if s.builders[b].Idle? && !LockFree(s.builders) {
      var r := FindReceiver(s.builders);
      ReceiverProgress(plan, s, r);
    } else if s.builders[b].Receiving? {
      ReceiverProgress(plan, s, b);
    } else {
      assert Enabled(plan, s, ABuilder(b));
    }
  }

  lemma {:induction false} ReceiverProgress(plan: Plan, s: State, b: nat)
    requires b < |s.builders| && s.builders[b] == Receiving
    ensures exists a :: Enabled(plan, s, a)
  {
    if s.buildQueue != [] || s.producer == Stopped {
      assert Enabled(plan, s, ABuilder(b));
    } else {
      assert Enabled(plan, s, TheProducer);
    }
  }

  /** In every reachable state that is not final some thread can move. */
  lemma {:induction false} NeverStuck(plan: Plan, s: State)
    requires Inv(plan, s) && !Final(s)
    ensures exists a :: Enabled(plan, s, a)
  {
    hide Epochs, Faults, Work, Conserved, Remembered;
    if s.prover == Joined {
      assert s.builders[0] == Exited;
      assert Enabled(plan, s, TheGlobal);
    } else if s.prover != Waiting || s.proveQueue != [] || AllExited(s.builders) {
      assert Enabled(plan, s, TheProver);
    } else {
      var b :| 0 <= b < |s.builders| && s.builders[b] != Exited;
      BuilderProgress(plan, s, b);
    }
  }

  // ---------------------------------------------------------------------
  // Every run ends
  // ---------------------------------------------------------------------

  function DecidingWeight(i: nat): nat {
    if i <= MAX_EPOCHS then 10 + 12 * (MAX_EPOCHS - i) else 10
  }

  function ProducerWeight(p: Producer): nat {
    match p
    case Deciding(i) => DecidingWeight(i)
    case Executing(i) => 11 + DecidingWeight(i + 1)
    case Sending(i, _) => 9 + DecidingWeight(i + 1)
    case SendingFault(_) => 9
    case Stopped => 0
  }

  function BuilderWeight(b: Builder): nat {
    match b
    case Idle => 2
    case Receiving => 1
    case Received(_) => 8
    case Building(_) => 7
    case Forwarding(_) => 6
    case Exited => 0
  }

  function BuildersWeight(bs: seq<Builder>): nat {
    if bs == [] then 0 else BuilderWeight(bs[0]) + BuildersWeight(bs[1..])
  }

  function ProverWeight(p: Prover): nat {
    match p
    case Waiting => 1
    case Checking(_) => 3
    case Proving(_) => 2
    case Joined => 0
  }

  function GlobalWeight(g: GlobalThread): nat {
    match g
    case Draining => 3
    case Inspecting => 2
    case ProvingGlobal => 1
    case Finished(_) => 0
  }

  /** Bounds the number of steps left. */
  function Measure(s: State): nat {
    ProducerWeight(s.producer) + 8 * |s.buildQueue| + BuildersWeight(s.builders) + 3 * |s.proveQueue|
    + ProverWeight(s.prover) + |s.boundaryQueue| + GlobalWeight(s.global)
  }

  lemma {:induction false} BuildersWeightUpdate(bs: seq<Builder>, b: nat, y: Builder)
    requires b < |bs|
    ensures BuildersWeight(bs[b := y]) + BuilderWeight(bs[b]) == BuildersWeight(bs) + BuilderWeight(y)
  {
    if b > 0 {
      BuildersWeightUpdate(bs[1..], b - 1, y);
      assert bs[b := y][1..] == bs[1..][b - 1 := y];
    } else {
      assert bs[b := y][1..] == bs[1..];
    }
  }

  lemma {:induction false} StepDecreases(plan: Plan, s: State, a: Actor)
    requires Inv(plan, s) && Next(plan, s, a).Some?
    ensures Measure(Next(plan, s, a).value) < Measure(s)
  {
    assert s.published <= MAX_EPOCHS && ProducerOnTrack(plan, s);
    hide Inv, ProducerStep, BuilderStep, ProverStep, GlobalStep, Measure, ProducerOnTrack;
    match a
    case TheProducer => ProducerStepDecreases(plan, s);
    case ABuilder(b) => BuilderStepDecreases(plan, s, b);
    case TheProver => ProverStepDecreases(plan, s);
    case TheGlobal => GlobalStepDecreases(plan, s);
  }

  lemma {:induction false} ProducerStepDecreases(plan: Plan, s: State)
    requires s.published <= MAX_EPOCHS && ProducerOnTrack(plan, s) && ProducerStep(plan, s).Some?
    ensures Measure(ProducerStep(plan, s).value) < Measure(s)
  {
    hide BuildersWeight, ProverWeight, GlobalWeight, Halts;
  }

  lemma {:induction false} ProverStepDecreases(plan: Plan, s: State)
    requires ProverStep(plan, s).Some?
    ensures Measure(ProverStep(plan, s).value) < Measure(s)
  {
    hide BuildersWeight, ProducerWeight, GlobalWeight, AllExited;
  }

  lemma {:induction false} GlobalStepDecreases(plan: Plan, s: State)
    requires GlobalStep(plan, s).Some?
    ensures Measure(GlobalStep(plan, s).value) < Measure(s)
  {
    hide BuildersWeight, ProducerWeight, ProverWeight;
  }

  lemma {:induction false} BuilderStepDecreases(plan: Plan, s: State, b: nat)
    requires b < |s.builders| && BuilderStep(plan, s, b).Some?
    ensures Measure(BuilderStep(plan, s, b).value) < Measure(s)
  {
    var s' := BuilderStep(plan, s, b).value;
    BuilderMoveDecreases(plan, s, b);
    BuildersWeightUpdate(s.builders, b, s'.builders[b]);
    hide BuildersWeight, ProducerWeight, ProverWeight, GlobalWeight, BuilderWeight, BuilderStep;
  }

  lemma {:induction false} BuilderMoveDecreases(plan: Plan, s: State, b: nat)
    requires b < |s.builders| && BuilderStep(plan, s, b).Some?
    ensures var s' := BuilderStep(plan, s, b).value;
            && |s'.builders| == |s.builders| && s'.builders == s.builders[b := s'.builders[b]]
            && s'.producer == s.producer && s'.prover == s.prover
            && s'.boundaryQueue == s.boundaryQueue && s'.global == s.global
            && BuilderWeight(s'.builders[b]) + 8 * |s'.buildQueue| + 3 * |s'.proveQueue|
               < BuilderWeight(s.builders[b]) + 8 * |s.buildQueue| + 3 * |s.proveQueue|
  {
    hide LockFree;
  }

  /** A run is never longer than the measure of its first state. */
  lemma {:induction false} RunIsBounded(plan: Plan, s: State, schedule: seq<Actor>)
    requires Inv(plan, s)
    ensures var r := Run(plan, s, schedule);
            r.Some? ==> |schedule| + Measure(r.value) <= Measure(s)
    decreases |schedule|
  {
    hide Inv, Next, Measure;
    if schedule != [] {
      var s' := Next(plan, s, schedule[0]);
      if s'.Some? {
        StepKeepsInv(plan, s, schedule[0]);
        StepDecreases(plan, s, schedule[0]);
        RunIsBounded(plan, s'.value, schedule[1..]);
      }
    }
  }

  // ---------------------------------------------------------------------
  // What a finished run returns
  // ---------------------------------------------------------------------

  function Range(n: nat): multiset<nat> {
    if n == 0 then multiset{} else Range(n - 1) + multiset{n - 1}
  }

  lemma {:induction false} RangeCount(n: nat, x: nat)
    ensures Range(n)[x] == One(x < n)
  {
    if n > 0 {
      RangeCount(n - 1, x);
    }
  }

  lemma {:induction false} LargestLast(s: seq<nat>, n: nat)
    requires Sorted(s) && multiset(s) == Range(n) && n > 0
    ensures s != [] && s[|s| - 1] == n - 1
  {
    RangeCount(n, n - 1);
    assert n - 1 in multiset(s);
    var m: int := |s| - 1;
    RangeCount(n, s[m]);
    assert s[m] in multiset(s);
  }

  predicate ListsRange(s: seq<nat>, n: nat) {
    Sorted(s) && multiset(s) == Range(n)
  }

  lemma {:induction false} EmptyRange(s: seq<nat>)
    requires ListsRange(s, 0)
    ensures s == []
  {
    assert |s| == |multiset(s)|;
  }

  lemma {:induction false} PeelLast(s: seq<nat>, n: nat)
    requires ListsRange(s, n) && n > 0
    ensures s != [] && s == s[..|s| - 1] + [n - 1] && ListsRange(s[..|s| - 1], n - 1)
  {
    LargestLast(s, n);
    var t := s[..|s| - 1];
    assert s == t + [n - 1];
    CancelOne(multiset(t), Range(n - 1), n - 1);
  }

  /** A sorted list of 0..n-1, once each, is 0..n-1 in order. */
  lemma {:induction false} SortedRange(s: seq<nat>, n: nat)
    requires ListsRange(s, n)
    ensures s == Upto(n)
    decreases n
  {
    hide ListsRange;
    if n == 0 {
      EmptyRange(s);
    } else {
      PeelLast(s, n);
      SortedRange(s[..|s| - 1], n - 1);
      assert Upto(n) == Upto(n - 1) + [n - 1];
    }
  }

  lemma {:induction false} CancelOne(a: multiset<nat>, b: multiset<nat>, x: nat)
    requires a + multiset{x} == b + multiset{x}
    ensures a == b
  {
    assert a == (a + multiset{x}) - multiset{x};
    assert b == (b + multiset{x}) - multiset{x};
  }

  lemma {:induction false} ExitedHoldNothing(bs: seq<Builder>, x: nat)
    requires AllExited(bs)
    ensures ByBuilders(bs, x) == 0
  {
    if bs != [] {
      ExitedHoldNothing(bs[1..], x);
    }
  }

  /** In a final state without failures the proofs are the published epochs, and sorting puts them in order. */
  lemma {:induction false} FinalProofs(plan: Plan, s: State)
    requires Inv(plan, s) && Final(s) && s.failures == []
    ensures SortByIndex(s.proved) == Upto(s.published)
    ensures forall i: nat | i < s.published :: i in s.proved
  {
    hide Epochs, Faults, Work, Remembered;
    assert s.builders[0] == Exited;
    forall x: nat
      ensures multiset(s.proved)[x] == Range(s.published)[x]
    {
      assert Copies(s, x) == One(x < s.published);
      ExitedHoldNothing(s.builders, x);
      RangeCount(s.published, x);
    }
    assert multiset(s.proved) == Range(s.published);
    SortByIndexSorts(s.proved);
    SortedRange(SortByIndex(s.proved), s.published);
    forall i: nat | i < s.published
      ensures i in s.proved
    {
      RangeCount(s.published, i);
      assert i in multiset(s.proved);
    }
  }

  /** A plan that succeeds has no failing stage that could be executed. */
  lemma {:induction false} NothingToFail(plan: Plan, n: nat, f: Fault)
    requires Succeeds(plan, n)
    ensures !Genuine(plan, f)
  {}

  /** In a final state the recorded error tells whether any executed epoch stage failed. */
  lemma {:induction false} FinalError(plan: Plan, s: State)
    requires Inv(plan, s) && Final(s)
    ensures s.firstErr.Some? <==> s.failures != []
    ensures s.firstErr.Some? ==> Genuine(plan, s.firstErr.value)
    ensures s.global.result.None? ==> s.firstErr.Some?
  {
    hide Epochs, Work, Conserved, Genuine;
    assert s.builders[0] == Exited;
  }

  /**
    The result of every finished run, whatever the interleaving: a bundle
    exactly when no executed stage failed, exactly when the plan succeeds; it
    then holds epochs 0..n-1 once each in order, and the global prove saw all
    their boundaries in order. An error names a stage that does fail.
   */
  lemma {:induction false} FinalResult(plan: Plan, s: State)
    requires Inv(plan, s) && Final(s)
    ensures Result(s).Bundle? <==> s.failures == [] && s.global.result == Some(true)
    ensures Delivers(plan, Result(s))
  {
    FinalError(plan, s);
    if Result(s).Bundle? {
      FinalProofs(plan, s);
      FinalSucceeds(plan, s);
      assert s.seen == Upto(s.published);
      assert Succeeds(plan, s.published) && Result(s) == Bundle(Upto(s.published), Upto(s.published));
    } else {
      FinalFails(plan, s);
    }
  }

  // ---------------------------------------------------------------------
  // The first error
  // ---------------------------------------------------------------------

  /** The faults the prover meets in this step: one taken from its queue, or one its own proving raises. */
  function Met(plan: Plan, s: State, a: Actor): seq<Fault> {
    if !a.TheProver? then []
    else if s.prover == Waiting && s.proveQueue != [] && s.proveQueue[0].Error? then [s.proveQueue[0].fault]
    else if s.prover.Proving? && plan.proveFails(s.prover.index) then [ProveFailed(s.prover.index)]
    else []
  }

  /** The faults met along a run, oldest first. */
  function MetAlong(plan: Plan, s: State, schedule: seq<Actor>): seq<Fault>
    decreases |schedule|
  {
    if schedule == [] then []
    else
      var s' := Next(plan, s, schedule[0]);
      Met(plan, s, schedule[0]) + if s'.None? then [] else MetAlong(plan, s'.value, schedule[1..])
  }

  function FirstOf(met: seq<Fault>): Option<Fault> { if met == [] then None else Some(met[0]) }

  /** A recorded error is never replaced; the first one recorded is the one met. */
  lemma {:induction false} ErrorIsSticky(plan: Plan, s: State, a: Actor)
    requires Next(plan, s, a).Some?
    ensures Next(plan, s, a).value.firstErr == if s.firstErr.Some? then s.firstErr else FirstOf(Met(plan, s, a))
  {}

  /** Along every run the recorded error is the first fault the prover met. */
  lemma {:induction false} FirstErrorReported(plan: Plan, s: State, schedule: seq<Actor>)
    ensures var r := Run(plan, s, schedule);
            r.Some? ==> r.value.firstErr
                        == if s.firstErr.Some? then s.firstErr else FirstOf(MetAlong(plan, s, schedule))
    decreases |schedule|
  {
    hide Next, Met;
    if schedule != [] {
      var s' := Next(plan, s, schedule[0]);
      if s'.Some? {
        ErrorIsSticky(plan, s, schedule[0]);
        FirstErrorReported(plan, s'.value, schedule[1..]);
      }
    }
  }

  /** No stage is under way in `s'` that was not under way in `s`. */
  predicate NothingStarted(s: State, s': State) {
    && |s'.builders| == |s.builders|
    && (s'.producer.Executing? ==> s'.producer == s.producer)
    && (forall b | 0 <= b < |s.builders| :: s'.builders[b].Building? ==> s'.builders[b] == s.builders[b])
    && (s'.prover.Proving? ==> s'.prover == s.prover)
    && (s'.global == ProvingGlobal ==> s.global == ProvingGlobal)
  }

  lemma {:induction false} NothingStartsOnce(plan: Plan, s: State, a: Actor)
    requires s.firstErr.Some? && Next(plan, s, a).Some?
    ensures NothingStarted(s, Next(plan, s, a).value)
  {
    match a
    case ABuilder(b) => BuilderStartsNothing(plan, s, b);
    case TheProducer => hide AllExited, LockFree, BuilderStep, ProverStep, GlobalStep;
    case TheProver => hide AllExited, LockFree, BuilderStep, ProducerStep, GlobalStep;
    case TheGlobal => hide AllExited, LockFree, BuilderStep, ProducerStep, ProverStep;
  }

  lemma {:induction false} BuilderStartsNothing(plan: Plan, s: State, b: nat)
    requires s.firstErr.Some? && b < |s.builders| && BuilderStep(plan, s, b).Some?
    ensures NothingStarted(s, BuilderStep(plan, s, b).value)
  {
    hide LockFree;
  }

  /** Once an error is recorded the pipeline only drains: no stage is started again. */
  lemma {:induction false} ErrorOnlyDrains(plan: Plan, s: State, schedule: seq<Actor>)
    requires s.firstErr.Some?
    ensures var r := Run(plan, s, schedule); r.Some? ==> NothingStarted(s, r.value)
    decreases |schedule|
  {
    hide Next;
    if schedule != [] {
      var s' := Next(plan, s, schedule[0]);
      if s'.Some? {
        ErrorIsSticky(plan, s, schedule[0]);
        NothingStartsOnce(plan, s, schedule[0]);
        ErrorOnlyDrains(plan, s'.value, schedule[1..]);
      }
    }
  }

  lemma {:induction false} FinalFails(plan: Plan, s: State)
    requires Inv(plan, s) && Final(s) && Result(s).Err?
    ensures Warranted(plan, Result(s).failure) && forall n :: !Succeeds(plan, n)
  {
    FinalError(plan, s);
    assert s.global.result == Some(false) ==> plan.globalFails;
    hide Epochs, Work, Remembered, Conserved, Genuine, Halts;
    forall n: nat
      ensures !Succeeds(plan, n)
    {
      if Succeeds(plan, n) && s.firstErr.Some? {
        NothingToFail(plan, n, s.firstErr.value);
        assert false;
      }
    }
  }

  lemma {:induction false} QueuesEmpty(s: State)
    requires Closing(s) && Final(s)
    ensures s.boundaryQueue == []
  {}

  lemma {:induction false} FinalSucceeds(plan: Plan, s: State)
    requires Inv(plan, s) && Final(s) && Result(s).Bundle?
    ensures Succeeds(plan, s.published) && s.seen == Upto(s.published)
  {
    hide Shape, Faults, Remembered, Conserved, Halts, Runs, Reaches, SortByIndex, Upto;
    FinalError(plan, s);
    FinalProofs(plan, s);
    QueuesEmpty(s);
    assert s.seen + [] == s.seen;
    assert ProducerOnTrack(plan, s);
  }

  /**
    The pipeline theorem. For every number of builders, every behaviour of the
    stages and every interleaving: a run of L steps leaves at most the initial
    measure minus L, so it cannot go on forever; short of a final state some
    thread can move; and a final state delivers what the plan allows, which
    `DeliveryUnique` pins down for a plan that succeeds; an epoch's error is
    reported before the global prove's, and of several the first the prover met.
   */
  lemma {:induction false} PipelineCorrect(plan: Plan, k: nat, schedule: seq<Actor>)
    requires k >= 1
    ensures var r := Run(plan, Start(k), schedule);
            r.Some? ==>
              && |schedule| <= Measure(Start(k))
              && (!Final(r.value) ==> exists a :: Enabled(plan, r.value, a))
              && (Final(r.value) ==> Delivers(plan, Result(r.value)))
              && (Final(r.value) ==>
                    var met := MetAlong(plan, Start(k), schedule);
                    if met != [] then Result(r.value) == Err(EpochFailure(met[0]))
                    else Result(r.value) == Err(GlobalFailure) || Result(r.value).Bundle?)
  {
    hide Inv, Next, Measure, Final, Result, Enabled, Start, Delivers;
    StartInv(plan, k);
    RunKeepsInv(plan, Start(k), schedule);
    RunIsBounded(plan, Start(k), schedule);
    var r := Run(plan, Start(k), schedule);
    if r.Some? {
      if Final(r.value) {
        FinalResult(plan, r.value);
        FirstErrorReported(plan, Start(k), schedule);
        ReportedFirst(plan, r.value, k);
      } else {
        NeverStuck(plan, r.value);
      }
    }
  }

  lemma {:induction false} ReportedFirst(plan: Plan, s: State, k: nat)
    requires Inv(plan, s) && Final(s)
    ensures Start(k).firstErr.None?
    ensures s.firstErr.Some? ==> Result(s) == Err(EpochFailure(s.firstErr.value))
    ensures s.firstErr.None? ==> Result(s) == Err(GlobalFailure) || Result(s).Bundle?
  {
    FinalError(plan, s);
  }

  // ---------------------------------------------------------------------
  // Peak memory
  // ---------------------------------------------------------------------

  function Holding(bs: seq<Builder>): nat {
    if bs == [] then 0
    else One(bs[0].Received? || bs[0].Building? || bs[0].Forwarding?) + Holding(bs[1..])
  }

  /** Epochs past the producer: queued, building, queued again and proving. */
  function Occupancy(s: State): nat {
    |s.buildQueue| + Holding(s.builders) + |s.proveQueue| + One(s.prover.Checking? || s.prover.Proving?)
  }

  lemma {:induction false} HoldingBound(bs: seq<Builder>)
    ensures Holding(bs) <= |bs|
  {
    if bs != [] {
      HoldingBound(bs[1..]);
    }
  }

  /** At most 1 + K + 1 + 1 epochs are ever past the producer. */
  lemma {:induction false} OccupancyBound(plan: Plan, k: nat, schedule: seq<Actor>)
    requires k >= 1
    ensures var r := Run(plan, Start(k), schedule);
            r.Some? ==> Occupancy(r.value) <= k + 3
  {
    hide Next, Epochs, Faults, Remembered, Work, Conserved, Closing;
    StartInv(plan, k);
    RunKeepsInv(plan, Start(k), schedule);
    SameBuilders(plan, Start(k), schedule);
    var r := Run(plan, Start(k), schedule);
    if r.Some? {
      HoldingBound(r.value.builders);
    }
  }

  lemma {:induction false} SameBuilders(plan: Plan, s: State, schedule: seq<Actor>)
    ensures var r := Run(plan, s, schedule);
            r.Some? ==> |r.value.builders| == |s.builders|
    decreases |schedule|
  {
    if schedule != [] {
      var s' := Next(plan, s, schedule[0]);
      if s'.Some? {
        SameBuilders(plan, s'.value, schedule[1..]);
      }
    }
  }
}
