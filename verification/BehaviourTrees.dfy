/**
 The behaviour-tree engine as a function from one tree state to the next.

 A `Tree` is the state of every node object: its status and the fields the node keeps between ticks.
 Everything a node reads from outside (leaf results, ports, the clock, conditions) is a function of an
 arbitrary world `W`, collected in `Env<W>`; the functions below therefore speak about every leaf,
 every blackboard and every clock.
 */
module BehaviourTrees {
  import opened Wrappers

  datatype Status = Invalid | Running | Success | Failure

  /** What a tick may end with. */
  type Ended = s: Status | s != Invalid witness Success

  /** One item of a Loop queue. */
  type Item = string

  datatype Condition = SkipIf | FailureIf | SuccessIf | While

  datatype Kind =
    | Leaf
    | Inverter
    | ForceSuccess
    | ForceFailure
    | SubTree
    | Conditional(conditions: set<Condition>)
    | Repeat
    | Retry
    | KeepRunning
    | Loop
    | Delay
    | Timeout
    | RunOnce
    | Precondition
    | SkipUnlessUpdated
    | WaitValueUpdate
    | Sequence(memory: bool)
    | Selector(memory: bool)
    | SequenceWithMemory
    | ParallelAll
    | CountingParallel(successCount: int, failureCount: int)
    | IfThenElse
    | WhileDoElse
    | Switch(cases: nat)

  /** The fields a node keeps between ticks; each kind uses the few it needs. */
  datatype Memory = Memory(
    count: nat,          // Repeat.done, RetryUntilSuccessful.failures
    limit: int,          // cycles, attempts, max_failures
    until: int,          // Delay.until, Timeout.deadline
    result: Option<Ended>, // RunOnce.result
    thenSkip: bool,      // RunOnce.then_skip
    allowed: bool,       // Precondition.allowed
    otherwise: Ended,    // Precondition.otherwise
    version: nat,        // SkipUnlessUpdated._seen, WaitValueUpdate.start_version
    proceed: bool,       // SkipUnlessUpdated.run_child, WaitValueUpdate.updated
    queue: seq<Item>,    // Loop.queue
    ifEmpty: Ended,      // Loop.if_empty
    started: bool,       // Loop.started
    index: nat           // current_child, SequenceWithMemory.index, IfThenElse.branch (0 is None),
                         // Switch.running_index plus one (0 is None)
  )

  const BLANK := Memory(0, 0, 0, None, false, false, Failure, 0, false, [], Success, false, 0)

  datatype Tree = Node(id: nat, kind: Kind, status: Status, mem: Memory, children: seq<Tree>)

  /** The part of a tree that no tick changes. */
  datatype Skel = Skel(id: nat, kind: Kind, children: seq<Skel>)

  ghost function Skeleton(t: Tree): Skel {
    Skel(t.id, t.kind, seq(|t.children|, i requires 0 <= i < |t.children| => Skeleton(t.children[i])))
  }

  /** How many children a kind needs, and how many it takes at most (None: no limit). */
  function Arity(kind: Kind): (nat, Option<nat>) {
    match kind
    case Leaf | Sequence(_) | Selector(_) | SequenceWithMemory | ParallelAll | CountingParallel(_, _) => (0, None)
    case IfThenElse | WhileDoElse => (2, Some(3))
    case Switch(cases) => (cases + 1, Some(cases + 1))
    case _ => (1, Some(1))
  }

  predicate ArityOk(kind: Kind, n: nat) {
    Arity(kind).0 <= n && n <= Arity(kind).1.GetOr(n)
  }

  /** The composites: everything with any number of children, and the branching controls. */
  predicate IsControl(kind: Kind) {
    match kind
    case Sequence(_) | Selector(_) | SequenceWithMemory | ParallelAll | CountingParallel(_, _) | IfThenElse
       | WhileDoElse | Switch(_) => true
    case _ => false
  }

  /** Every node has a number of children its kind can run with. */
  ghost predicate Fits(s: Skel) {
    ArityOk(s.kind, |s.children|) && forall i | 0 <= i < |s.children| :: Fits(s.children[i])
  }

  datatype Env<!W> = Env(
    initialise: (nat, W) -> W,
    update: (nat, W) -> (Ended, W),          // a leaf's tick
    terminate: (nat, Status, W) -> W,
    now: W -> int,
    number: (nat, W) -> Option<int>,         // a numeric port; None is a NodeConfigError
    items: (nat, W) -> Option<seq<Item>>,
    ifEmpty: (nat, W) -> Ended,
    write: (nat, Item, W) -> W,              // Loop's `value` output port
    holds: (nat, Condition, W) -> bool,      // an unreadable condition counts as false
    thenSkip: (nat, W) -> bool,
    otherwise: (nat, W) -> Option<Ended>,
    allowed: (nat, W) -> Option<bool>,
    version: (nat, W) -> nat,
    matches: (nat, nat, W) -> bool           // Switch: does case i + 1 match the variable?
  )

  datatype Run<+W> = Run(t: Tree, w: W)

  datatype Verdict = Again | End(status: Ended)

  datatype Step<+W> = Step(t: Tree, w: W, verdict: Verdict)

  const MAX_SYNC_ITERATIONS := 50

  /** A negative count means N + value + 1, so -1 is "all". */
  function CountFrom(value: int, n: nat): int {
    if value < 0 then n + value + 1 else value
  }

  function Max(a: int, b: int): int {
    if a < b then b else a
  }

  // ---------------------------------------------------------------- stopping

  /** `stop(s)`: INVALID halts every child that is not INVALID; a Parallel also halts RUNNING children. */
  function Stop<W>(env: Env<W>, t: Tree, s: Status, w: W): (r: Run<W>)
    ensures Skeleton(r.t) == Skeleton(t)
    ensures r.t.status == s
    decreases Skeleton(t), 2
  {
    var r := if t.kind.CountingParallel? then HaltKids(env, t, true, 0, w) else Run(t, w);
    var r := if s == Invalid then HaltKids(env, r.t, false, 0, r.w) else r;
    var mem := if t.kind.SequenceWithMemory? && s == Invalid then r.t.mem.(index := 0) else r.t.mem;
    Run(r.t.(status := s, mem := mem), env.terminate(t.id, s, r.w))
  }

  /** Halts the children from index i on that are RUNNING (or merely not INVALID). */
  function HaltKids<W>(env: Env<W>, t: Tree, onlyRunning: bool, i: nat, w: W): (r: Run<W>)
    ensures Skeleton(r.t) == Skeleton(t)
    ensures r.t == t.(children := r.t.children)
    decreases Skeleton(t), 1, |t.children| - i
  {
    if i >= |t.children| then Run(t, w)
    else
      var halt := if onlyRunning then t.children[i].status == Running else t.children[i].status != Invalid;
      var r := if halt then HaltChild(env, t, i, w) else Run(t, w);
      HaltKids(env, r.t, onlyRunning, i + 1, r.w)
  }

  function HaltChild<W>(env: Env<W>, t: Tree, i: nat, w: W): (r: Run<W>)
    requires i < |t.children|
    ensures Skeleton(r.t) == Skeleton(t)
    ensures r.t == t.(children := r.t.children) && |r.t.children| == |t.children|
    decreases Skeleton(t), 0
  {
    assert Skeleton(t).children[i] == Skeleton(t.children[i]);
    var r := Stop(env, t.children[i], Invalid, w);
    Run(t.(children := t.children[i := r.t]), r.w)
  }

  /** `_restart_child` */
  function RestartChild<W>(env: Env<W>, t: Tree, w: W): (r: Run<W>)
    requires |t.children| > 0
    ensures Skeleton(r.t) == Skeleton(t)
    ensures r.t == t.(children := r.t.children)
  {
    if t.children[0].status != Invalid then HaltChild(env, t, 0, w) else Run(t, w)
  }

  /** `_finish` */
  function Finish<W>(env: Env<W>, t: Tree, s: Ended, w: W): (r: Run<W>)
    ensures Skeleton(r.t) == Skeleton(t)
    ensures r.t.status == s
  {
    if s != Running then Stop(env, t, s, w) else Run(t.(status := Running), w)
  }

  function Begin<W>(env: Env<W>, t: Tree, w: W): W {
    if t.status != Running then env.initialise(t.id, w) else w
  }

  // ----------------------------------------------------------------- ticking

  /** One `tick()` of a node and of whatever it ticks below it. */
  function Tick<W>(env: Env<W>, t: Tree, w: W): (r: Run<W>)
    requires Fits(Skeleton(t))
    ensures Skeleton(r.t) == Skeleton(t)
    ensures r.t.status != Invalid
    decreases Skeleton(t), 9
  {
    match t.kind
    case Leaf => TickLeaf(env, t, w)
    case Inverter | ForceSuccess | ForceFailure | SubTree => TickPlain(env, t, w)
    case Conditional(_) => TickConditional(env, t, w)
    case Sequence(memory) => TickSequence(env, t, memory, w)
    case Selector(memory) => TickSelector(env, t, memory, w)
    case SequenceWithMemory => MemoryFrom(env, t, Begin(env, t, w))
    case ParallelAll => TickParallelAll(env, t, w)
    case CountingParallel(sc, fc) => TickCounting(env, t, sc, fc, w)
    case IfThenElse => TickIfThenElse(env, t, w)
    case WhileDoElse => TickWhileDoElse(env, t, w)
    case Switch(cases) => TickSwitch(env, t, cases, w)
    case _ => TickDecorator(env, t, MAX_SYNC_ITERATIONS, w)
  }

  /** Any leaf: its `update` is arbitrary, and so is what it does to the world. */
  function TickLeaf<W>(env: Env<W>, t: Tree, w: W): (r: Run<W>)
    ensures Skeleton(r.t) == Skeleton(t)
    ensures r.t.status != Invalid
  {
    var (s, w1) := env.update(t.id, Begin(env, t, w));
    Finish(env, t, s, w1)
  }

  function TickChild<W>(env: Env<W>, t: Tree, i: nat, w: W): (r: Run<W>)
    requires Fits(Skeleton(t)) && i < |t.children|
    ensures Skeleton(r.t) == Skeleton(t)
    ensures r.t == t.(children := r.t.children) && |r.t.children| == |t.children|
    ensures r.t.children[i].status != Invalid
    decreases Skeleton(t), 0
  {
    assert Skeleton(t).children[i] == Skeleton(t.children[i]);
    var r := Tick(env, t.children[i], w);
    Run(t.(children := t.children[i := r.t]), r.w)
  }

  // -------------------------------------------------------------- decorators

  function Mapped(kind: Kind, s: Ended): Ended {
    match (kind, s)
    case (Inverter, Success) => Failure
    case (Inverter, Failure) => Success
    case (ForceSuccess, Failure) => Success
    case (ForceFailure, Success) => Failure
    case _ => s
  }

  /** py_trees' own decorators: tick the child, translate its status. */
  function TickPlain<W>(env: Env<W>, t: Tree, w: W): (r: Run<W>)
    requires Fits(Skeleton(t)) && |t.children| == 1
    ensures Skeleton(r.t) == Skeleton(t)
    ensures r.t.status != Invalid
    decreases Skeleton(t), 1
  {
    var r := TickChild(env, t, 0, Begin(env, t, w));
    Finish(env, r.t, Mapped(t.kind, r.t.children[0].status), r.w)
  }

  /** The result the conditions force, in the order skip, failure, success, while. */
  function Forced<W>(env: Env<W>, t: Tree, w: W): Option<Ended>
    requires t.kind.Conditional?
  {
    var cs := t.kind.conditions;
    if SkipIf in cs && env.holds(t.id, SkipIf, w) then Some(Success)
    else if FailureIf in cs && env.holds(t.id, FailureIf, w) then Some(Failure)
    else if SuccessIf in cs && env.holds(t.id, SuccessIf, w) then Some(Success)
    else if While in cs && !env.holds(t.id, While, w) then Some(Failure)
    else None
  }

  function TickConditional<W>(env: Env<W>, t: Tree, w: W): (r: Run<W>)
    requires Fits(Skeleton(t)) && |t.children| == 1 && t.kind.Conditional?
    ensures Skeleton(r.t) == Skeleton(t)
    ensures r.t.status != Invalid
    decreases Skeleton(t), 2
  {
    match Forced(env, t, w)
    case Some(s) =>
      var r := RestartChild(env, t, w);
      Stop(env, r.t, s, r.w)
    case None => TickPlain(env, t, w)
  }

  /** `_Decorator.tick` with a given bound on synchronous rounds. */
  function TickDecorator<W>(env: Env<W>, t: Tree, rounds: nat, w: W): (r: Run<W>)
    requires Fits(Skeleton(t)) && |t.children| == 1
    ensures Skeleton(r.t) == Skeleton(t)
    ensures r.t.status != Invalid
    decreases Skeleton(t), 8
  {
    if t.status == Running then
      var s := DoStep(env, t, rounds, w);
      Finish(env, s.t, s.verdict.status, s.w)
    else
      var w1 := env.initialise(t.id, w);
      match Configure(env, t, w1)
      case None => Finish(env, t, Failure, w1)
      case Some(mem) =>
        var s := DoStep(env, t.(mem := mem), rounds, w1);
        Finish(env, s.t, s.verdict.status, s.w)
  }

  /** `configure`: reads the ports; None is a NodeConfigError. */
  function Configure<W>(env: Env<W>, t: Tree, w: W): Option<Memory> {
    match t.kind
    case Repeat | Retry =>
      (match env.number(t.id, w)
       case None => None
       case Some(n) => Some(t.mem.(limit := n, count := 0)))
    case Delay | Timeout =>
      (match env.number(t.id, w)
       case None => None
       case Some(ms) => Some(t.mem.(until := env.now(w) + Max(ms, 0))))
    case Loop =>
      (match env.items(t.id, w)
       case None => None
       case Some(q) => Some(t.mem.(queue := q, ifEmpty := env.ifEmpty(t.id, w), started := false)))
    case RunOnce => Some(t.mem.(thenSkip := env.thenSkip(t.id, w)))
    case Precondition =>
      (match (env.otherwise(t.id, w), env.allowed(t.id, w))
       case (Some(o), Some(a)) => Some(t.mem.(otherwise := o, allowed := a))
       case _ => None)
    case SkipUnlessUpdated =>
      var v := env.version(t.id, w);
      Some(t.mem.(proceed := v != t.mem.version, version := v))
    case WaitValueUpdate => Some(t.mem.(version := env.version(t.id, w), proceed := false))
    case _ => Some(t.mem)
  }

  /** `step` of each decorator. */
  function DoStep<W>(env: Env<W>, t: Tree, rounds: nat, w: W): (s: Step<W>)
    requires Fits(Skeleton(t)) && |t.children| == 1
    ensures Skeleton(s.t) == Skeleton(t)
    ensures s.verdict.End?
    decreases Skeleton(t), 7
  {
    match t.kind
    case Repeat | Retry | KeepRunning | Loop => Rounds(env, t, rounds, w)
    case Delay => if env.now(w) < t.mem.until then Step(t, w, End(Running)) else PassThrough(env, t, w)
    case Timeout =>
      var r := TickChild(env, t, 0, w);
      if r.t.children[0].status == Running && env.now(r.w) >= t.mem.until then
        var h := RestartChild(env, r.t, r.w);
        Step(h.t, h.w, End(Failure))
      else
        Step(r.t, r.w, End(r.t.children[0].status))
    case RunOnce =>
      if t.mem.result.Some? then
        Step(t, w, End(if t.mem.thenSkip then Success else t.mem.result.value))
      else
        var r := TickChild(env, t, 0, w);
        var s := r.t.children[0].status;
        if s != Running then Step(r.t.(mem := r.t.mem.(result := Some(s))), r.w, End(s))
        else Step(r.t, r.w, End(Running))
    case Precondition => if !t.mem.allowed then Step(t, w, End(t.mem.otherwise)) else PassThrough(env, t, w)
    case SkipUnlessUpdated => if !t.mem.proceed then Step(t, w, End(Success)) else PassThrough(env, t, w)
    case WaitValueUpdate =>
      if !t.mem.proceed && env.version(t.id, w) == t.mem.version then Step(t, w, End(Running))
      else PassThrough(env, t.(mem := t.mem.(proceed := true)), w)
    case _ => PassThrough(env, t, w)
  }

  function PassThrough<W>(env: Env<W>, t: Tree, w: W): (s: Step<W>)
    requires Fits(Skeleton(t)) && |t.children| == 1
    ensures Skeleton(s.t) == Skeleton(t)
    ensures s.verdict.End?
    decreases Skeleton(t), 1
  {
    var r := TickChild(env, t, 0, w);
    Step(r.t, r.w, End(r.t.children[0].status))
  }

  /** The synchronous loop: at most `rounds` rounds, then RUNNING. */
  function Rounds<W>(env: Env<W>, t: Tree, rounds: nat, w: W): (s: Step<W>)
    requires Fits(Skeleton(t)) && |t.children| == 1
    ensures Skeleton(s.t) == Skeleton(t)
    ensures s.verdict.End?
    decreases Skeleton(t), 6, rounds
  {
    if rounds == 0 then Step(t, w, End(Running))
    else
      var s := Round(env, t, w);
      if s.verdict == Again then Rounds(env, s.t, rounds - 1, s.w) else s
  }

  /** One round of Repeat, RetryUntilSuccessful, KeepRunningUntilFailure or Loop. */
  function Round<W>(env: Env<W>, t: Tree, w: W): (s: Step<W>)
    requires Fits(Skeleton(t)) && |t.children| == 1
    ensures Skeleton(s.t) == Skeleton(t)
    decreases Skeleton(t), 5
  {
    if t.kind.Loop? && t.children[0].status != Running && t.mem.queue == [] then
      Step(t, w, End(if t.mem.started then Success else t.mem.ifEmpty))
    else
      var p := if t.kind.Loop? && t.children[0].status != Running then NextItem(env, t, w) else Run(t, w);
      var r := TickChild(env, p.t, 0, p.w);
      AfterChild(env, r.t, r.w)
  }

  /** Loop takes the head of its queue, writes it out and restarts its child. */
  function NextItem<W>(env: Env<W>, t: Tree, w: W): (r: Run<W>)
    requires |t.children| == 1 && t.mem.queue != []
    ensures Skeleton(r.t) == Skeleton(t)
    ensures r.t == t.(mem := t.mem.(queue := t.mem.queue[1..], started := true), children := r.t.children)
  {
    var t1 := t.(mem := t.mem.(queue := t.mem.queue[1..], started := true));
    RestartChild(env, t1, env.write(t.id, t.mem.queue[0], w))
  }

  /** What a looping decorator does with its child's new status. */
  function AfterChild<W>(env: Env<W>, t: Tree, w: W): (s: Step<W>)
    requires |t.children| == 1 && t.children[0].status != Invalid
    ensures Skeleton(s.t) == Skeleton(t)
  {
    var child := t.children[0].status;
    var repeats := if t.kind.Retry? then Failure else Success;
    if child != repeats then Step(t, w, End(child))
    else if t.kind.Loop? then Step(t, w, Again)
    else
      var t1 := if t.kind.KeepRunning? then t else t.(mem := t.mem.(count := t.mem.count + 1));
      if !t.kind.KeepRunning? && 0 <= t1.mem.limit <= t1.mem.count then Step(t1, w, End(child))
      else
        var r := RestartChild(env, t1, w);
        Step(r.t, r.w, Again)
  }

  // ---------------------------------------------------------------- controls

  /** py_trees' Sequence. */
  function TickSequence<W>(env: Env<W>, t: Tree, memory: bool, w: W): (r: Run<W>)
    requires Fits(Skeleton(t))
    ensures Skeleton(r.t) == Skeleton(t)
    ensures r.t.status != Invalid
    decreases Skeleton(t), 8
  {
    if t.status == Running then
      SequenceFrom(env, if memory then t else t.(mem := t.mem.(index := 0)), memory, if memory then t.mem.index else 0, w)
    else
      var r := HaltKids(env, t.(mem := t.mem.(index := 0)), false, 0, w);
      SequenceFrom(env, r.t, memory, 0, env.initialise(t.id, r.w))
  }

  function SequenceFrom<W>(env: Env<W>, t: Tree, memory: bool, i: nat, w: W): (r: Run<W>)
    requires Fits(Skeleton(t))
    ensures Skeleton(r.t) == Skeleton(t)
    ensures r.t.status != Invalid
    decreases Skeleton(t), 6, |t.children| - i
  {
    if i >= |t.children| then Finish(env, t, Success, w)
    else
      var r := TickChild(env, t, i, w);
      var s := r.t.children[i].status;
      if s != Success then
        var h := if memory then r else HaltKids(env, r.t, false, i + 1, r.w);
        Run(h.t.(status := s), h.w)
      else
        var t1 := if i + 1 < |t.children| then r.t.(mem := r.t.mem.(index := i + 1)) else r.t;
        SequenceFrom(env, t1, memory, i + 1, r.w)
  }

  /** py_trees' Selector. */
  function TickSelector<W>(env: Env<W>, t: Tree, memory: bool, w: W): (r: Run<W>)
    requires Fits(Skeleton(t))
    ensures Skeleton(r.t) == Skeleton(t)
    ensures r.t.status != Invalid
    decreases Skeleton(t), 8
  {
    var t1 := if t.status != Running then t.(mem := t.mem.(index := 0)) else t;
    var w1 := Begin(env, t, w);
    if t.children == [] then Finish(env, t1, Failure, w1)
    else if memory then
      var r := StopBefore(env, t1, 0, w1);
      SelectorFrom(env, r.t, t1.mem.index, t1.mem.index, r.w)
    else
      SelectorFrom(env, t1, 0, t1.mem.index, w1)
  }

  /** Stops the children in front of the remembered one. */
  function StopBefore<W>(env: Env<W>, t: Tree, i: nat, w: W): (r: Run<W>)
    ensures Skeleton(r.t) == Skeleton(t)
    ensures r.t == t.(children := r.t.children) && |r.t.children| == |t.children|
    decreases |t.children| - i
  {
    if i >= |t.children| || i >= t.mem.index then Run(t, w)
    else
      var r := HaltChild(env, t, i, w);
      StopBefore(env, r.t, i + 1, r.w)
  }

  function SelectorFrom<W>(env: Env<W>, t: Tree, i: nat, previous: nat, w: W): (r: Run<W>)
    requires Fits(Skeleton(t)) && t.children != []
    ensures Skeleton(r.t) == Skeleton(t)
    ensures r.t.status != Invalid
    decreases Skeleton(t), 6, |t.children| - i
  {
    if i >= |t.children| then Run(t.(status := Failure, mem := t.mem.(index := |t.children| - 1)), w)
    else
      var r := TickChild(env, t, i, w);
      var s := r.t.children[i].status;
      if s == Running || s == Success then
        var t1 := r.t.(status := s, mem := r.t.mem.(index := i));
        if previous != i then HaltKids(env, t1, false, i + 1, r.w) else Run(t1, r.w)
      else
        SelectorFrom(env, r.t, i + 1, previous, r.w)
  }

  /** SequenceWithMemory from its remembered child on. */
  function MemoryFrom<W>(env: Env<W>, t: Tree, w: W): (r: Run<W>)
    requires Fits(Skeleton(t))
    ensures Skeleton(r.t) == Skeleton(t)
    ensures r.t.status != Invalid
    decreases Skeleton(t), 6, |t.children| - t.mem.index
  {
    var i := t.mem.index;
    if i >= |t.children| then Finish(env, t.(mem := t.mem.(index := 0)), Success, w)
    else
      var r := TickChild(env, t, i, w);
      var s := r.t.children[i].status;
      if s == Running then Run(r.t.(status := Running), r.w)
      else if s == Failure then Finish(env, r.t, Failure, r.w)
      else MemoryFrom(env, r.t.(mem := r.t.mem.(index := i + 1)), r.w)
  }

  /** SequenceWithMemory goes on with its next child when one succeeds. */
  lemma MemoryGoesOn<W>(env: Env<W>, t: Tree, w: W)
    requires Fits(Skeleton(t))
    ensures var i := t.mem.index;
            if i >= |t.children| then MemoryFrom(env, t, w) == Finish(env, t.(mem := t.mem.(index := 0)), Success, w)
            else
              var r := TickChild(env, t, i, w);
              var s := r.t.children[i].status;
              var t1 := r.t.(mem := r.t.mem.(index := i + 1));
              && (s == Running ==> MemoryFrom(env, t, w) == Run(r.t.(status := Running), r.w))
              && (s == Failure ==> MemoryFrom(env, t, w) == Finish(env, r.t, Failure, r.w))
              && (s == Success ==> Fits(Skeleton(t1)) && MemoryFrom(env, t, w) == MemoryFrom(env, t1, r.w))
  {
    hide Tick, TickChild, Finish, Fits;
  }

  /** Both parallels tick the children that have no final status yet. */
  function TickUnfinished<W>(env: Env<W>, t: Tree, i: nat, w: W): (r: Run<W>)
    requires Fits(Skeleton(t))
    ensures Skeleton(r.t) == Skeleton(t)
    ensures r.t == t.(children := r.t.children) && |r.t.children| == |t.children|
    decreases Skeleton(t), 6, |t.children| - i
  {
    if i >= |t.children| then Run(t, w)
    else
      var s := t.children[i].status;
      var r := if s == Success || s == Failure then Run(t, w) else TickChild(env, t, i, w);
      TickUnfinished(env, r.t, i + 1, r.w)
  }

  /** How many of the children have status s. */
  function Count(children: seq<Tree>, s: Status): (n: nat)
    ensures n <= |children|
  {
    if children == [] then 0 else (if children[0].status == s then 1 else 0) + Count(children[1..], s)
  }

  function TickParallelAll<W>(env: Env<W>, t: Tree, w: W): (r: Run<W>)
    requires Fits(Skeleton(t))
    ensures Skeleton(r.t) == Skeleton(t)
    ensures r.t.status != Invalid
    decreases Skeleton(t), 8
  {
    if t.status == Running then AllFrom(env, t, w)
    else
      var r := HaltKids(env, t, false, 0, env.initialise(t.id, w));
      match env.number(t.id, r.w)
      case None => Finish(env, r.t, Failure, r.w)
      case Some(v) => AllFrom(env, r.t.(mem := r.t.mem.(limit := CountFrom(v, |t.children|))), r.w)
  }

  function AllFrom<W>(env: Env<W>, t: Tree, w: W): (r: Run<W>)
    requires Fits(Skeleton(t))
    ensures Skeleton(r.t) == Skeleton(t)
    ensures r.t.status != Invalid
    decreases Skeleton(t), 7
  {
    var r := TickUnfinished(env, t, 0, w);
    if Count(r.t.children, Running) > 0 then Run(r.t.(status := Running), r.w)
    else Finish(env, r.t, if Count(r.t.children, Failure) >= Max(t.mem.limit, 1) then Failure else Success, r.w)
  }

  /** CountingParallel's status from how many of its n children succeeded and failed. */
  function CountingStatus(successes: nat, failures: nat, n: nat, sc: int, fc: int): Ended {
    if failures >= fc then Failure
    else if successes >= sc then Success
    else if successes + (n - successes - failures) < sc then Failure
    else Running
  }

  function TickCounting<W>(env: Env<W>, t: Tree, sc: int, fc: int, w: W): (r: Run<W>)
    requires Fits(Skeleton(t))
    ensures Skeleton(r.t) == Skeleton(t)
    ensures r.t.status != Invalid
    decreases Skeleton(t), 8
  {
    var h := if t.status == Running then Run(t, w) else HaltKids(env, t, false, 0, w);
    var w1 := Begin(env, t, h.w);
    if t.children == [] then Stop(env, h.t, Success, w1)
    else
      var r := TickUnfinished(env, h.t, 0, w1);
      Finish(env, r.t,
             CountingStatus(Count(r.t.children, Success), Count(r.t.children, Failure), |r.t.children|, sc, fc), r.w)
  }

  function TickIfThenElse<W>(env: Env<W>, t: Tree, w: W): (r: Run<W>)
    requires Fits(Skeleton(t)) && 2 <= |t.children| <= 3
    ensures Skeleton(r.t) == Skeleton(t)
    ensures r.t.status != Invalid
    decreases Skeleton(t), 8
  {
    var t1 := if t.status != Running then t.(mem := t.mem.(index := 0)) else t;
    var w1 := Begin(env, t, w);
    if 0 < t1.mem.index < |t.children| then RunBranch(env, t1, t1.mem.index, w1) else AskCondition(env, t1, w1)
  }

  /** Ticks the condition, and the branch it picks. */
  function AskCondition<W>(env: Env<W>, t: Tree, w: W): (r: Run<W>)
    requires Fits(Skeleton(t)) && 2 <= |t.children| <= 3
    ensures Skeleton(r.t) == Skeleton(t)
    ensures r.t.status != Invalid
    decreases Skeleton(t), 7
  {
    var r := TickChild(env, t, 0, w);
    var s := r.t.children[0].status;
    if s == Running then Run(r.t.(status := Running), r.w)
    else if s == Success then RunBranch(env, r.t.(mem := r.t.mem.(index := 1)), 1, r.w)
    else if |t.children| == 3 then RunBranch(env, r.t.(mem := r.t.mem.(index := 2)), 2, r.w)
    else Finish(env, r.t, Failure, r.w)
  }

  /** Ticks one branch and reports its status. */
  function RunBranch<W>(env: Env<W>, t: Tree, i: nat, w: W): (r: Run<W>)
    requires Fits(Skeleton(t)) && i < |t.children|
    ensures Skeleton(r.t) == Skeleton(t)
    ensures r.t.status != Invalid
    decreases Skeleton(t), 1
  {
    var r := TickChild(env, t, i, w);
    Finish(env, r.t, r.t.children[i].status, r.w)
  }

  /** `_halt` */
  function HaltIfRunning<W>(env: Env<W>, t: Tree, i: nat, w: W): (r: Run<W>)
    requires i < |t.children|
    ensures Skeleton(r.t) == Skeleton(t)
    ensures r.t == t.(children := r.t.children) && |r.t.children| == |t.children|
  {
    if t.children[i].status == Running then HaltChild(env, t, i, w) else Run(t, w)
  }

  function TickWhileDoElse<W>(env: Env<W>, t: Tree, w: W): (r: Run<W>)
    requires Fits(Skeleton(t)) && 2 <= |t.children| <= 3
    ensures Skeleton(r.t) == Skeleton(t)
    ensures r.t.status != Invalid
    decreases Skeleton(t), 8
  {
    var r := TickChild(env, t, 0, Begin(env, t, w));
    var s := r.t.children[0].status;
    if s == Running then Run(r.t.(status := Running), r.w)
    else if s == Success then
      var h := if |t.children| == 3 then HaltIfRunning(env, r.t, 2, r.w) else r;
      RunBranch(env, h.t, 1, h.w)
    else
      var h := HaltIfRunning(env, r.t, 1, r.w);
      if |t.children| == 3 then RunBranch(env, h.t, 2, h.w) else Finish(env, h.t, Failure, h.w)
  }

  /** The first case from i on that matches, else the default branch. */
  function MatchingCase<W>(env: Env<W>, id: nat, i: nat, cases: nat, w: W): (k: nat)
    requires i <= cases
    ensures i <= k <= cases
    ensures k < cases ==> env.matches(id, k, w)
    ensures forall j: nat | i <= j < k :: !env.matches(id, j, w)
    decreases cases - i
  {
    if i == cases || env.matches(id, i, w) then i else MatchingCase(env, id, i + 1, cases, w)
  }

  function TickSwitch<W>(env: Env<W>, t: Tree, cases: nat, w: W): (r: Run<W>)
    requires Fits(Skeleton(t)) && |t.children| == cases + 1
    ensures Skeleton(r.t) == Skeleton(t)
    ensures r.t.status != Invalid
    decreases Skeleton(t), 8
  {
    var last := if t.status == Running && t.mem.index <= |t.children| then t.mem.index else 0;
    var w1 := Begin(env, t, w);
    var i := MatchingCase(env, t.id, 0, cases, w1);
    SwitchTo(env, t, last, i, w1)
  }

  /** Leaves case last - 1 (0 is None) for case i. */
  function SwitchTo<W>(env: Env<W>, t: Tree, last: nat, i: nat, w: W): (r: Run<W>)
    requires Fits(Skeleton(t)) && i < |t.children| && last <= |t.children|
    ensures Skeleton(r.t) == Skeleton(t)
    ensures r.t.status != Invalid
    decreases Skeleton(t), 7
  {
    var h := if last != 0 && last - 1 != i then HaltIfRunning(env, t, last - 1, w) else Run(t, w);
    RunBranch(env, h.t.(mem := h.t.mem.(index := i + 1)), i, h.w)
  }
}
