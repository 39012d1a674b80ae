/**
 The whole-tree invariant: after every tick, a node that is not RUNNING has no RUNNING descendant.

 `Tidy` is the inductive form: each node also knows which of its children may still be RUNNING while it
 is RUNNING itself. `AncestorsRun` is the statement a reader wants, in terms of paths.
 */
module TreeInvariant {
  import opened Wrappers
  import opened BehaviourTrees

  ghost predicate Settled(children: seq<Tree>) {
    forall i | 0 <= i < |children| :: children[i].status != Running
  }

  ghost predicate OnlyAt(children: seq<Tree>, k: int) {
    forall i | 0 <= i < |children| && i != k :: children[i].status != Running
  }

  ghost predicate SettledAfter(children: seq<Tree>, k: int) {
    forall i | 0 <= i < |children| && i > k :: children[i].status != Running
  }

  /** Which children of a RUNNING node may be RUNNING. */
  ghost predicate Consistent(t: Tree) {
    match t.kind
    case Sequence(memory) => memory ==> OnlyAt(t.children, t.mem.index)
    case Leaf => Settled(t.children)
    case Selector(_) => t.mem.index < |t.children| && SettledAfter(t.children, t.mem.index)
    case SequenceWithMemory => OnlyAt(t.children, t.mem.index)
    case IfThenElse => t.mem.index < |t.children| && OnlyAt(t.children, t.mem.index)
    case WhileDoElse =>
      |t.children| == 3 ==> t.children[1].status != Running || t.children[2].status != Running
    case Switch(_) => t.mem.index <= |t.children| && OnlyAt(t.children, t.mem.index - 1)
    case RunOnce => t.mem.result.Some? ==> Settled(t.children)
    case Precondition => !t.mem.allowed ==> Settled(t.children)
    case SkipUnlessUpdated => !t.mem.proceed ==> Settled(t.children)
    case _ => true
  }

  ghost predicate AllTidy(children: seq<Tree>) {
    forall i | 0 <= i < |children| :: Tidy(children[i])
  }

  ghost predicate Tidy(t: Tree) {
    && (forall i | 0 <= i < |t.children| :: Tidy(t.children[i]))
    && (t.status != Running ==> Settled(t.children))
    && (t.status == Running ==> Consistent(t))
  }

  lemma KidsAreTidy(t: Tree)
    requires Tidy(t)
    ensures AllTidy(t.children)
  {
  }

  /** No node of the tree is RUNNING. */
  ghost predicate Quiet(t: Tree) {
    t.status != Running && forall i | 0 <= i < |t.children| :: Quiet(t.children[i])
  }

  // ------------------------------------------------------------ what halting keeps

  lemma {:induction false} StopIsTidy<W>(env: Env<W>, t: Tree, s: Status, w: W)
    requires AllTidy(t.children)
    requires s == Invalid || (s != Running && (t.kind.CountingParallel? || Settled(t.children)))
    ensures Tidy(Stop(env, t, s, w).t)
    decreases Skeleton(t), 2
  {
    var a := if t.kind.CountingParallel? then HaltKids(env, t, true, 0, w) else Run(t, w);
    if t.kind.CountingParallel? {
      HaltKidsIsTidy(env, t, true, 0, w);
    }
    if s == Invalid {
      HaltKidsIsTidy(env, a.t, false, 0, a.w);
    }
  }

  lemma {:induction false} HaltKidsIsTidy<W>(env: Env<W>, t: Tree, onlyRunning: bool, i: nat, w: W)
    requires AllTidy(t.children)
    ensures var r := HaltKids(env, t, onlyRunning, i, w).t.children;
            && |r| == |t.children| && AllTidy(r)
            && (forall j | 0 <= j < |r| && j < i :: r[j] == t.children[j])
            && (forall j | i <= j < |r| :: if onlyRunning then r[j].status != Running else r[j].status == Invalid)
            && (forall j | i <= j < |r| && onlyRunning && t.children[j].status != Running :: r[j] == t.children[j])
    decreases Skeleton(t), 1, |t.children| - i
  {
    if i >= |t.children| {
    } else {
      var halt := if onlyRunning then t.children[i].status == Running else t.children[i].status != Invalid;
      if halt {
        HaltChildIsTidy(env, t, i, w);
        var r := HaltChild(env, t, i, w);
        HaltKidsIsTidy(env, r.t, onlyRunning, i + 1, r.w);
      } else {
        HaltKidsIsTidy(env, t, onlyRunning, i + 1, w);
      }
    }
  }

  lemma {:induction false} HaltChildIsTidy<W>(env: Env<W>, t: Tree, i: nat, w: W)
    requires AllTidy(t.children) && i < |t.children|
    ensures var r := HaltChild(env, t, i, w).t.children;
            AllTidy(r) && r[i].status == Invalid && forall j | 0 <= j < |r| && j != i :: r[j] == t.children[j]
    decreases Skeleton(t), 0
  {
    assert Skeleton(t).children[i] == Skeleton(t.children[i]);
    StopIsTidy(env, t.children[i], Invalid, w);
  }

  lemma RestartIsTidy<W>(env: Env<W>, t: Tree, w: W)
    requires AllTidy(t.children) && |t.children| == 1
    ensures AllTidy(RestartChild(env, t, w).t.children) && Settled(RestartChild(env, t, w).t.children)
  {
    if t.children[0].status != Invalid {
      HaltChildIsTidy(env, t, 0, w);
    }
  }

  lemma FinishIsTidy<W>(env: Env<W>, t: Tree, s: Ended, w: W)
    requires AllTidy(t.children)
    requires if s == Running then Consistent(t) else t.kind.CountingParallel? || Settled(t.children)
    ensures Tidy(Finish(env, t, s, w).t)
  {
    if s != Running {
      StopIsTidy(env, t, s, w);
    }
  }

  // ------------------------------------------------------------- what ticking keeps

  /** The main theorem, one tick: the invariant is kept by every kind of node. */
  lemma {:induction false} TickIsTidy<W>(env: Env<W>, t: Tree, w: W)
    requires Fits(Skeleton(t)) && Tidy(t)
    ensures Tidy(Tick(env, t, w).t)
    decreases Skeleton(t), 9
  {
    match t.kind
    case Leaf => LeafIsTidy(env, t, w);
    case Inverter | ForceSuccess | ForceFailure | SubTree => PlainIsTidy(env, t, w);
    case Conditional(_) => ConditionalIsTidy(env, t, w);
    case Sequence(memory) => SequenceIsTidy(env, t, memory, w);
    case Selector(memory) => SelectorIsTidy(env, t, memory, w);
    case SequenceWithMemory => MemoryFromIsTidy(env, t, Begin(env, t, w));
    case ParallelAll => ParallelAllIsTidy(env, t, w);
    case CountingParallel(sc, fc) => CountingIsTidy(env, t, sc, fc, w);
    case IfThenElse => IfThenElseIsTidy(env, t, w);
    case WhileDoElse => WhileDoElseIsTidy(env, t, w);
    case Switch(cases) => SwitchIsTidy(env, t, cases, w);
    case _ => DecoratorIsTidy(env, t, MAX_SYNC_ITERATIONS, w);
  }

  lemma LeafIsTidy<W>(env: Env<W>, t: Tree, w: W)
    requires Tidy(t) && t.kind.Leaf?
    ensures Tidy(TickLeaf(env, t, w).t)
  {
    var (s, w1) := env.update(t.id, Begin(env, t, w));
    FinishIsTidy(env, t, s, w1);
  }

  lemma {:induction false} ChildIsTidy<W>(env: Env<W>, t: Tree, i: nat, w: W)
    requires Fits(Skeleton(t)) && AllTidy(t.children) && i < |t.children|
    ensures var r := TickChild(env, t, i, w).t.children;
            AllTidy(r) && forall j | 0 <= j < |r| && j != i :: r[j] == t.children[j]
    decreases Skeleton(t), 0
  {
    assert Skeleton(t).children[i] == Skeleton(t.children[i]);
    TickIsTidy(env, t.children[i], w);
  }

  lemma {:induction false} PlainIsTidy<W>(env: Env<W>, t: Tree, w: W)
    requires Fits(Skeleton(t)) && AllTidy(t.children) && |t.children| == 1
    requires t.kind.Conditional? || t.kind in {Inverter, ForceSuccess, ForceFailure, SubTree}
    ensures Tidy(TickPlain(env, t, w).t)
    decreases Skeleton(t), 1
  {
    hide Tick, TickChild;
    ChildIsTidy(env, t, 0, Begin(env, t, w));
    var r := TickChild(env, t, 0, Begin(env, t, w));
    FinishIsTidy(env, r.t, Mapped(t.kind, r.t.children[0].status), r.w);
  }

  lemma {:induction false} ConditionalIsTidy<W>(env: Env<W>, t: Tree, w: W)
    requires Fits(Skeleton(t)) && AllTidy(t.children) && |t.children| == 1 && t.kind.Conditional?
    ensures Tidy(TickConditional(env, t, w).t)
    decreases Skeleton(t), 2
  {
    hide Tick;
    match Forced(env, t, w)
    case Some(s) =>
      RestartIsTidy(env, t, w);
      StopIsTidy(env, RestartChild(env, t, w).t, s, RestartChild(env, t, w).w);
    case None => PlainIsTidy(env, t, w);
  }

  lemma {:induction false} DecoratorIsTidy<W>(env: Env<W>, t: Tree, rounds: nat, w: W)
    requires Fits(Skeleton(t)) && |t.children| == 1 && Tidy(t) && IsDecorator(t.kind)
    ensures Tidy(TickDecorator(env, t, rounds, w).t)
    decreases Skeleton(t), 8
  {
    hide Tick;
    if t.status == Running {
      DoStepIsTidy(env, t, rounds, w);
      var s := DoStep(env, t, rounds, w);
      FinishIsTidy(env, s.t, s.verdict.status, s.w);
    } else {
      var w1 := env.initialise(t.id, w);
      match Configure(env, t, w1)
      case None => FinishIsTidy(env, t, Failure, w1);
      case Some(mem) =>
        var t1 := t.(mem := mem);
        DoStepIsTidy(env, t1, rounds, w1);
        var s := DoStep(env, t1, rounds, w1);
        FinishIsTidy(env, s.t, s.verdict.status, s.w);
    }
  }

  predicate IsDecorator(kind: Kind) {
    kind in {Repeat, Retry, KeepRunning, Loop, Delay, Timeout, RunOnce, Precondition, SkipUnlessUpdated,
             WaitValueUpdate}
  }

  predicate IsLooping(kind: Kind) {
    kind in {Repeat, Retry, KeepRunning, Loop}
  }

  /** What a step must leave behind so that `_finish` keeps the invariant. */
  ghost predicate StepTidy<W>(t: Tree, s: Step<W>) {
    && AllTidy(s.t.children)
    && s.t.kind == t.kind
    && match s.verdict
       case End(status) => if status == Running then Consistent(s.t) else Settled(s.t.children)
       case Again => Settled(s.t.children)
  }

  lemma {:induction false} DoStepIsTidy<W>(env: Env<W>, t: Tree, rounds: nat, w: W)
    requires Fits(Skeleton(t)) && |t.children| == 1 && IsDecorator(t.kind) && AllTidy(t.children)
    requires Settled(t.children) || (Consistent(t) && t.status == Running)
    ensures StepTidy(t, DoStep(env, t, rounds, w))
    decreases Skeleton(t), 7
  {
    hide Tick, TickChild;
    if IsLooping(t.kind) {
      RoundsIsTidy(env, t, rounds, w);
    } else {
      ChildIsTidy(env, t, 0, w);
      var t1 := t.(mem := t.mem.(proceed := true));
      ChildIsTidy(env, t1, 0, w);
      var r := TickChild(env, t, 0, w);
      if t.kind.Timeout? {
        RestartIsTidy(env, r.t, r.w);
      }
    }
  }

  lemma {:induction false} RoundsIsTidy<W>(env: Env<W>, t: Tree, rounds: nat, w: W)
    requires Fits(Skeleton(t)) && |t.children| == 1 && IsLooping(t.kind) && AllTidy(t.children)
    ensures StepTidy(t, Rounds(env, t, rounds, w))
    decreases Skeleton(t), 6, rounds
  {
    hide Tick;
    if rounds == 0 {
    } else {
      RoundIsTidy(env, t, w);
      var s := Round(env, t, w);
      if s.verdict == Again {
        RoundsIsTidy(env, s.t, rounds - 1, s.w);
      }
    }
  }

  lemma {:induction false} RoundIsTidy<W>(env: Env<W>, t: Tree, w: W)
    requires Fits(Skeleton(t)) && |t.children| == 1 && IsLooping(t.kind) && AllTidy(t.children)
    ensures StepTidy(t, Round(env, t, w))
    decreases Skeleton(t), 5
  {
    hide Tick, TickChild;
    if t.kind.Loop? && t.children[0].status != Running && t.mem.queue == [] {
    } else {
      var p := if t.kind.Loop? && t.children[0].status != Running then NextItem(env, t, w) else Run(t, w);
      if t.kind.Loop? && t.children[0].status != Running {
        var t1 := t.(mem := t.mem.(queue := t.mem.queue[1..], started := true));
        RestartIsTidy(env, t1, env.write(t.id, t.mem.queue[0], w));
      }
      ChildIsTidy(env, p.t, 0, p.w);
      var r := TickChild(env, p.t, 0, p.w);
      AfterChildIsTidy(env, r.t, r.w);
    }
  }

  lemma AfterChildIsTidy<W>(env: Env<W>, t: Tree, w: W)
    requires |t.children| == 1 && IsLooping(t.kind) && AllTidy(t.children) && t.children[0].status != Invalid
    ensures StepTidy(t, AfterChild(env, t, w))
  {
    var t1 := if t.kind.KeepRunning? then t else t.(mem := t.mem.(count := t.mem.count + 1));
    RestartIsTidy(env, t1, w);
  }

  // ---------------------------------------------------------------- controls

  lemma {:induction false} SequenceIsTidy<W>(env: Env<W>, t: Tree, memory: bool, w: W)
    requires Fits(Skeleton(t)) && Tidy(t) && t.kind == Sequence(memory)
    ensures Tidy(TickSequence(env, t, memory, w).t)
    decreases Skeleton(t), 8
  {
    hide Tick;
    if t.status == Running {
      SequenceFromIsTidy(env, if memory then t else t.(mem := t.mem.(index := 0)), memory,
                         if memory then t.mem.index else 0, w);
    } else {
      var t1 := t.(mem := t.mem.(index := 0));
      HaltKidsIsTidy(env, t1, false, 0, w);
      var r := HaltKids(env, t1, false, 0, w);
      SequenceFromIsTidy(env, r.t, memory, 0, env.initialise(t.id, r.w));
    }
  }

  lemma {:induction false} SequenceFromIsTidy<W>(env: Env<W>, t: Tree, memory: bool, i: nat, w: W)
    requires Fits(Skeleton(t)) && AllTidy(t.children) && t.kind == Sequence(memory)
    requires forall j | 0 <= j < |t.children| && j < i :: t.children[j].status != Running
    requires memory && i < |t.children| ==> t.mem.index == i
    requires memory ==> OnlyAt(t.children, i)
    ensures Tidy(SequenceFrom(env, t, memory, i, w).t)
    decreases Skeleton(t), 6, |t.children| - i
  {
    hide Tick, TickChild, Finish, HaltKids, Fits;
    if i >= |t.children| {
      FinishIsTidy(env, t, Success, w);
    } else {
      ChildIsTidy(env, t, i, w);
      var r := TickChild(env, t, i, w);
      var s := r.t.children[i].status;
      if s != Success {
        if !memory {
          HaltKidsIsTidy(env, r.t, false, i + 1, r.w);
        }
      } else {
        var t1 := if i + 1 < |t.children| then r.t.(mem := r.t.mem.(index := i + 1)) else r.t;
        SequenceFromIsTidy(env, t1, memory, i + 1, r.w);
      }
    }
  }

  lemma {:induction false} SelectorIsTidy<W>(env: Env<W>, t: Tree, memory: bool, w: W)
    requires Fits(Skeleton(t)) && Tidy(t) && t.kind == Selector(memory)
    ensures Tidy(TickSelector(env, t, memory, w).t)
    decreases Skeleton(t), 8
  {
    hide Tick;
    var t1 := if t.status != Running then t.(mem := t.mem.(index := 0)) else t;
    var w1 := Begin(env, t, w);
    if t.children == [] {
      FinishIsTidy(env, t1, Failure, w1);
    } else {
      if memory {
        StopBeforeIsTidy(env, t1, 0, w1);
        var r := StopBefore(env, t1, 0, w1);
        SelectorFromIsTidy(env, r.t, t1.mem.index, t1.mem.index, r.w);
      } else {
        SelectorFromIsTidy(env, t1, 0, t1.mem.index, w1);
      }
    }
  }

  lemma {:induction false} StopBeforeIsTidy<W>(env: Env<W>, t: Tree, i: nat, w: W)
    requires AllTidy(t.children)
    ensures var r := StopBefore(env, t, i, w).t.children;
            && AllTidy(r)
            && (forall j | 0 <= j < |r| && (j < i || j >= t.mem.index) :: r[j] == t.children[j])
            && (forall j | i <= j < |r| && j < t.mem.index :: r[j].status == Invalid)
    decreases |t.children| - i
  {
    if i < |t.children| && i < t.mem.index {
      HaltChildIsTidy(env, t, i, w);
      var r := HaltChild(env, t, i, w);
      StopBeforeIsTidy(env, r.t, i + 1, r.w);
    }
  }

  lemma {:induction false} SelectorFromIsTidy<W>(env: Env<W>, t: Tree, i: nat, previous: nat, w: W)
    requires Fits(Skeleton(t)) && AllTidy(t.children) && t.children != [] && t.kind.Selector?
    requires forall j | 0 <= j < |t.children| && (j < i || j > previous) :: t.children[j].status != Running
    ensures Tidy(SelectorFrom(env, t, i, previous, w).t)
    decreases Skeleton(t), 6, |t.children| - i
  {
    hide Tick, TickChild, HaltKids, Fits;
    if i >= |t.children| {
    } else {
      ChildIsTidy(env, t, i, w);
      var r := TickChild(env, t, i, w);
      var s := r.t.children[i].status;
      if s == Running || s == Success {
        var t1 := r.t.(status := s, mem := r.t.mem.(index := i));
        if previous != i {
          HaltKidsIsTidy(env, t1, false, i + 1, r.w);
        }
      } else {
        SelectorFromIsTidy(env, r.t, i + 1, previous, r.w);
      }
    }
  }

  lemma {:induction false} MemoryFromIsTidy<W>(env: Env<W>, t: Tree, w: W)
    requires Fits(Skeleton(t)) && AllTidy(t.children) && t.kind == SequenceWithMemory
    requires OnlyAt(t.children, t.mem.index)
    ensures Tidy(MemoryFrom(env, t, w).t)
    decreases Skeleton(t), 6, |t.children| - t.mem.index
  {
    hide Tick, TickChild;
    var i := t.mem.index;
    if i >= |t.children| {
      FinishIsTidy(env, t.(mem := t.mem.(index := 0)), Success, w);
    } else {
      ChildIsTidy(env, t, i, w);
      var r := TickChild(env, t, i, w);
      if r.t.children[i].status == Failure {
        FinishIsTidy(env, r.t, Failure, r.w);
      } else if r.t.children[i].status == Success {
        MemoryFromIsTidy(env, r.t.(mem := r.t.mem.(index := i + 1)), r.w);
      }
    }
  }

  lemma {:induction false} UnfinishedIsTidy<W>(env: Env<W>, t: Tree, i: nat, w: W)
    requires Fits(Skeleton(t)) && AllTidy(t.children)
    ensures var r := TickUnfinished(env, t, i, w).t.children;
            && AllTidy(r)
            && (forall j | 0 <= j < |r| && j < i :: r[j] == t.children[j])
            && (forall j | i <= j < |r| :: r[j].status != Invalid)
            && (forall j | i <= j < |r| && t.children[j].status in {Success, Failure} :: r[j] == t.children[j])
    decreases Skeleton(t), 6, |t.children| - i
  {
    hide Tick, TickChild, Fits, Tidy;
    if i >= |t.children| {
    } else {
      var s := t.children[i].status;
      if s == Success || s == Failure {
        UnfinishedIsTidy(env, t, i + 1, w);
      } else {
        ChildIsTidy(env, t, i, w);
        var r := TickChild(env, t, i, w);
        UnfinishedIsTidy(env, r.t, i + 1, r.w);
      }
    }
  }

  lemma {:induction false} CountZero(children: seq<Tree>, s: Status)
    ensures Count(children, s) == 0 <==> forall i | 0 <= i < |children| :: children[i].status != s
  {
    if children == [] {
    } else {
      CountZero(children[1..], s);
      assert forall i | 1 <= i < |children| :: children[i] == children[1..][i - 1];
    }
  }

  lemma {:induction false} ParallelAllIsTidy<W>(env: Env<W>, t: Tree, w: W)
    requires Fits(Skeleton(t)) && Tidy(t) && t.kind == ParallelAll
    ensures Tidy(TickParallelAll(env, t, w).t)
    decreases Skeleton(t), 8
  {
    hide Tick;
    if t.status == Running {
      AllFromIsTidy(env, t, w);
    } else {
      HaltKidsIsTidy(env, t, false, 0, env.initialise(t.id, w));
      var r := HaltKids(env, t, false, 0, env.initialise(t.id, w));
      match env.number(t.id, r.w)
      case None => FinishIsTidy(env, r.t, Failure, r.w);
      case Some(v) => AllFromIsTidy(env, r.t.(mem := r.t.mem.(limit := CountFrom(v, |t.children|))), r.w);
    }
  }

  lemma {:induction false} AllFromIsTidy<W>(env: Env<W>, t: Tree, w: W)
    requires Fits(Skeleton(t)) && AllTidy(t.children) && t.kind == ParallelAll
    ensures Tidy(AllFrom(env, t, w).t)
    decreases Skeleton(t), 7
  {
    hide Tick;
    UnfinishedIsTidy(env, t, 0, w);
    var r := TickUnfinished(env, t, 0, w);
    CountZero(r.t.children, Running);
    if Count(r.t.children, Running) == 0 {
      FinishIsTidy(env, r.t, if Count(r.t.children, Failure) >= Max(t.mem.limit, 1) then Failure else Success, r.w);
    }
  }

  lemma {:induction false} CountingIsTidy<W>(env: Env<W>, t: Tree, sc: int, fc: int, w: W)
    requires Fits(Skeleton(t)) && Tidy(t) && t.kind == CountingParallel(sc, fc)
    ensures Tidy(TickCounting(env, t, sc, fc, w).t)
    decreases Skeleton(t), 8
  {
    hide Tick;
    HaltKidsIsTidy(env, t, false, 0, w);
    var h := if t.status == Running then Run(t, w) else HaltKids(env, t, false, 0, w);
    var w1 := Begin(env, t, h.w);
    if t.children == [] {
      StopIsTidy(env, h.t, Success, w1);
    } else {
      UnfinishedIsTidy(env, h.t, 0, w1);
      var r := TickUnfinished(env, h.t, 0, w1);
      FinishIsTidy(env, r.t,
                   CountingStatus(Count(r.t.children, Success), Count(r.t.children, Failure), |r.t.children|, sc, fc),
                   r.w);
    }
  }

  lemma {:induction false} BranchIsTidy<W>(env: Env<W>, t: Tree, i: nat, w: W)
    requires Fits(Skeleton(t)) && AllTidy(t.children) && i < |t.children| && OnlyAt(t.children, i)
    requires (t.kind.WhileDoElse? && i > 0) || (t.kind.IfThenElse? && t.mem.index == i) || (t.kind.Switch? && t.mem.index == i + 1)
    ensures Tidy(RunBranch(env, t, i, w).t)
    decreases Skeleton(t), 1
  {
    hide Tick, TickChild;
    ChildIsTidy(env, t, i, w);
    var r := TickChild(env, t, i, w);
    FinishIsTidy(env, r.t, r.t.children[i].status, r.w);
  }

  lemma {:induction false} IfThenElseIsTidy<W>(env: Env<W>, t: Tree, w: W)
    requires Fits(Skeleton(t)) && Tidy(t) && t.kind == IfThenElse
    ensures Tidy(TickIfThenElse(env, t, w).t)
    decreases Skeleton(t), 8
  {
    hide Tick, TickChild;
    var t1 := if t.status != Running then t.(mem := t.mem.(index := 0)) else t;
    var w1 := Begin(env, t, w);
    if 0 < t1.mem.index < |t.children| {
      BranchIsTidy(env, t1, t1.mem.index, w1);
    } else {
      ChildIsTidy(env, t1, 0, w1);
      var r := TickChild(env, t1, 0, w1);
      var s := r.t.children[0].status;
      if s == Success {
        BranchIsTidy(env, r.t.(mem := r.t.mem.(index := 1)), 1, r.w);
      } else if s != Running {
        if |t.children| == 3 {
          BranchIsTidy(env, r.t.(mem := r.t.mem.(index := 2)), 2, r.w);
        } else {
          FinishIsTidy(env, r.t, Failure, r.w);
        }
      }
    }
  }

  lemma HaltIfRunningIsTidy<W>(env: Env<W>, t: Tree, i: nat, w: W)
    requires AllTidy(t.children) && i < |t.children|
    ensures var r := HaltIfRunning(env, t, i, w).t.children;
            && AllTidy(r) && r[i].status != Running
            && forall j | 0 <= j < |r| && j != i :: r[j] == t.children[j]
  {
    HaltChildIsTidy(env, t, i, w);
  }

  lemma {:induction false} WhileDoElseIsTidy<W>(env: Env<W>, t: Tree, w: W)
    requires Fits(Skeleton(t)) && Tidy(t) && t.kind == WhileDoElse
    ensures Tidy(TickWhileDoElse(env, t, w).t)
    decreases Skeleton(t), 8
  {
    hide Tick, TickChild;
    ChildIsTidy(env, t, 0, Begin(env, t, w));
    var r := TickChild(env, t, 0, Begin(env, t, w));
    var s := r.t.children[0].status;
    if s == Success {
      if |t.children| == 3 {
        HaltIfRunningIsTidy(env, r.t, 2, r.w);
      }
      var h := if |t.children| == 3 then HaltIfRunning(env, r.t, 2, r.w) else r;
      BranchIsTidy(env, h.t, 1, h.w);
    } else if s != Running {
      HaltIfRunningIsTidy(env, r.t, 1, r.w);
      var h := HaltIfRunning(env, r.t, 1, r.w);
      if |t.children| == 3 {
        BranchIsTidy(env, h.t, 2, h.w);
      } else {
        FinishIsTidy(env, h.t, Failure, h.w);
      }
    }
  }

  lemma {:induction false} SwitchIsTidy<W>(env: Env<W>, t: Tree, cases: nat, w: W)
    requires Fits(Skeleton(t)) && Tidy(t) && t.kind == Switch(cases)
    ensures Tidy(TickSwitch(env, t, cases, w).t)
    decreases Skeleton(t), 8
  {
    hide Tick;
    var last := if t.status == Running && t.mem.index <= |t.children| then t.mem.index else 0;
    var w1 := Begin(env, t, w);
    SwitchToIsTidy(env, t, last, MatchingCase(env, t.id, 0, cases, w1), w1);
  }

  lemma {:induction false} SwitchToIsTidy<W>(env: Env<W>, t: Tree, last: nat, i: nat, w: W)
    requires Fits(Skeleton(t)) && AllTidy(t.children) && t.kind.Switch?
    requires i < |t.children| && last <= |t.children| && OnlyAt(t.children, last - 1)
    ensures Tidy(SwitchTo(env, t, last, i, w).t)
    decreases Skeleton(t), 7
  {
    hide Tick;
    if last != 0 && last - 1 != i {
      HaltIfRunningIsTidy(env, t, last - 1, w);
    }
    var h := if last != 0 && last - 1 != i then HaltIfRunning(env, t, last - 1, w) else Run(t, w);
    BranchIsTidy(env, h.t.(mem := h.t.mem.(index := i + 1)), i, h.w);
  }

  // --------------------------------------------------------- what the invariant means

  ghost predicate Reaches(t: Tree, path: seq<nat>)
    decreases |path|
  {
    path == [] || (path[0] < |t.children| && Reaches(t.children[path[0]], path[1..]))
  }

  ghost function At(t: Tree, path: seq<nat>): Tree
    requires Reaches(t, path)
    decreases |path|
  {
    if path == [] then t else At(t.children[path[0]], path[1..])
  }

  /** In a tidy tree every ancestor of a RUNNING node is RUNNING. */
  lemma {:induction false} AncestorsRun(t: Tree, path: seq<nat>, k: nat)
    requires Tidy(t) && Reaches(t, path) && k <= |path|
    requires At(t, path).status == Running
    ensures Reaches(t, path[..k]) && At(t, path[..k]).status == Running
    decreases |path|
  {
    if path == [] {
      assert path[..k] == path;
    } else {
      var child := t.children[path[0]];
      AncestorsRun(child, path[1..], 0);
      assert path[1..][..0] == [] && path[..0] == [];
      if k > 0 {
        AncestorsRun(child, path[1..], k - 1);
        assert path[..k][1..] == path[1..][..k - 1];
      }
    }
  }

  /** A tidy tree whose root is not RUNNING has no RUNNING node at all. */
  lemma {:induction false} TidyIsQuiet(t: Tree)
    requires Tidy(t) && t.status != Running
    ensures Quiet(t)
  {
    forall i | 0 <= i < |t.children|
      ensures Quiet(t.children[i])
    {
      TidyIsQuiet(t.children[i]);
    }
  }

  /** Halting is complete, although `stop` skips the subtrees whose root is already INVALID. */
  lemma StopHaltsEverything<W>(env: Env<W>, t: Tree, w: W)
    requires Tidy(t)
    ensures Quiet(Stop(env, t, Invalid, w).t)
  {
    StopIsTidy(env, t, Invalid, w);
    TidyIsQuiet(Stop(env, t, Invalid, w).t);
  }

  /** Below an INVALID child nothing is RUNNING, and so on below the others. */
  ghost predicate Orphanless(t: Tree)
    decreases t, 0
  {
    forall i | 0 <= i < |t.children| :: Reachable(t.children[i])
  }

  /** A stop of the parent gets at every RUNNING node of this child. */
  ghost predicate Reachable(c: Tree)
    decreases c, 1
  {
    if c.status == Invalid then Quiet(c) else Orphanless(c)
  }

  /** Exactly when a stop gets everything, for arbitrary trees: no RUNNING node is below an INVALID child. */
  lemma {:induction false} StopIsCompleteExactly<W>(env: Env<W>, t: Tree, w: W)
    ensures Quiet(Stop(env, t, Invalid, w).t) <==> Orphanless(t)
    decreases Skeleton(t), 1
  {
    var a := if t.kind.CountingParallel? then HaltKids(env, t, true, 0, w) else Run(t, w);
    if t.kind.CountingParallel? {
      HaltKidsStayReachable(env, t, true, 0, w);
    }
    HaltKidsStayReachable(env, a.t, false, 0, a.w);
    var b := HaltKids(env, a.t, false, 0, a.w).t;
    assert Stop(env, t, Invalid, w).t.children == b.children;
    assert forall i | 0 <= i < |b.children| :: Quiet(b.children[i]) == Reachable(b.children[i]);
  }

  lemma {:induction false} HaltKidsStayReachable<W>(env: Env<W>, t: Tree, onlyRunning: bool, i: nat, w: W)
    ensures var r := HaltKids(env, t, onlyRunning, i, w).t.children;
            && |r| == |t.children|
            && (forall j | 0 <= j < |r| :: Reachable(r[j]) <==> Reachable(t.children[j]))
            && (forall j | 0 <= j < |r| && j < i :: r[j] == t.children[j])
            && (!onlyRunning ==> forall j | i <= j < |r| :: r[j].status == Invalid)
    decreases Skeleton(t), 0, |t.children| - i
  {
    hide Quiet, Orphanless, Stop;
    if i >= |t.children| {
    } else {
      var halt := if onlyRunning then t.children[i].status == Running else t.children[i].status != Invalid;
      if halt {
        assert Skeleton(t).children[i] == Skeleton(t.children[i]);
        StopIsCompleteExactly(env, t.children[i], w);
        var r := HaltChild(env, t, i, w);
        HaltKidsStayReachable(env, r.t, onlyRunning, i + 1, r.w);
      } else {
        HaltKidsStayReachable(env, t, onlyRunning, i + 1, w);
      }
    }
  }

  const ORPHANED :=
    Node(0, Inverter, Running, BLANK, [Node(1, Inverter, Invalid, BLANK, [Node(2, Leaf, Running, BLANK, [])])])

  /** A tree that no run reaches: a RUNNING node under an INVALID one survives a stop. */
  lemma StopMissesOrphans<W>(env: Env<W>, w: W)
    ensures !Quiet(Stop(env, ORPHANED, Invalid, w).t)
  {
    var r := Stop(env, ORPHANED, Invalid, w).t;
    assert HaltKids(env, ORPHANED, false, 0, w).t == ORPHANED;
    assert r.children == ORPHANED.children;
    assert !Quiet(r.children[0].children[0]);
  }

  // --------------------------------------------------------------------- whole runs

  /** What happens to a tree between its construction and the end of its run, with any world each time. */
  datatype Event<!W> = TickBy(env: Env<W>, w: W) | HaltBy(env: Env<W>, w: W)

  ghost function After<W>(t: Tree, events: seq<Event<W>>): (t': Tree)
    requires Fits(Skeleton(t))
    ensures Skeleton(t') == Skeleton(t)
    decreases |events|
  {
    if events == [] then t
    else
      var e := events[|events| - 1];
      var before := After(t, events[..|events| - 1]);
      match e
      case TickBy(env, w) => Tick(env, before, w).t
      case HaltBy(env, w) => Stop(env, before, Invalid, w).t
  }

  /** A tree as it is built: every node INVALID. */
  ghost predicate Unstarted(t: Tree) {
    t.status == Invalid && forall i | 0 <= i < |t.children| :: Unstarted(t.children[i])
  }

  /** And with nothing remembered, as the constructors leave it. */
  ghost predicate AsBuilt(t: Tree) {
    t.status == Invalid && t.mem == BLANK && forall i | 0 <= i < |t.children| :: AsBuilt(t.children[i])
  }

  lemma {:induction false} BuiltIsUnstarted(t: Tree)
    requires AsBuilt(t)
    ensures Unstarted(t)
  {
    forall i | 0 <= i < |t.children|
      ensures Unstarted(t.children[i])
    {
      BuiltIsUnstarted(t.children[i]);
    }
  }

  lemma {:induction false} UnstartedIsTidy(t: Tree)
    requires Unstarted(t)
    ensures Tidy(t)
  {
    forall i | 0 <= i < |t.children|
      ensures Tidy(t.children[i])
    {
      UnstartedIsTidy(t.children[i]);
    }
  }

  /** The main theorem, whole runs: in every reachable state the ancestors of a RUNNING node are RUNNING. */
  lemma {:induction false} EveryRunIsTidy<W>(t: Tree, events: seq<Event<W>>)
    requires Fits(Skeleton(t)) && Unstarted(t)
    ensures Tidy(After(t, events))
    ensures After(t, events).status != Running ==> Quiet(After(t, events))
    decreases |events|
  {
    if events == [] {
      UnstartedIsTidy(t);
    } else {
      var before := After(t, events[..|events| - 1]);
      EveryRunIsTidy(t, events[..|events| - 1]);
      match events[|events| - 1]
      case TickBy(env, w) => TickIsTidy(env, before, w);
      case HaltBy(env, w) => StopIsTidy(env, before, Invalid, w);
    }
    if After(t, events).status != Running {
      TidyIsQuiet(After(t, events));
    }
  }
}
