/** What single kinds of node promise over their lifetime, beyond the whole-tree invariant. */
module NodeMeaning {
  import opened Wrappers
  import opened BehaviourTrees
  import opened TreeInvariant

  /** The children of which at most one may be RUNNING at a time. */
  predicate IsBranch(kind: Kind, i: nat) {
    match kind
    case IfThenElse | Switch(_) | Sequence(true) | SequenceWithMemory => true
    case WhileDoElse => i > 0
    case _ => false
  }

  /** Branches exclude each other in every reachable state. */
  lemma AtMostOneBranchRuns<W>(t: Tree, events: seq<Event<W>>, path: seq<nat>, i: nat, j: nat)
    requires Fits(Skeleton(t)) && Unstarted(t) && Reaches(After(t, events), path)
    requires var n := At(After(t, events), path);
             i < |n.children| && j < |n.children| && i != j && IsBranch(n.kind, i) && IsBranch(n.kind, j)
    ensures var n := At(After(t, events), path);
            n.children[i].status != Running || n.children[j].status != Running
  {
    EveryRunIsTidy(t, events);
    var u := After(t, events);
    assert Skeleton(u) == Skeleton(t);
    PartsFit(u, path);
    PartsAreTidy(u, path);
    assert Skeleton(At(u, path)).kind == At(u, path).kind;
  }

  lemma {:induction false} PartsAreTidy(t: Tree, path: seq<nat>)
    requires Tidy(t) && Reaches(t, path)
    ensures Tidy(At(t, path))
    decreases |path|
  {
    if path == [] {
    } else {
      PartsAreTidy(t.children[path[0]], path[1..]);
    }
  }

  lemma {:induction false} PartsFit(t: Tree, path: seq<nat>)
    requires Fits(Skeleton(t)) && Reaches(t, path)
    ensures ArityOk(At(t, path).kind, |At(t, path).children|)
    decreases |path|
  {
    if path == [] {
      assert |Skeleton(t).children| == |t.children|;
    } else {
      assert Skeleton(t).children[path[0]] == Skeleton(t.children[path[0]]);
      PartsFit(t.children[path[0]], path[1..]);
    }
  }

  /** A RunOnce without a result is transparent and keeps its child's first result; then it answers at once. */
  lemma RunOnceTick<W>(env: Env<W>, t: Tree, w: W)
    requires Fits(Skeleton(t)) && t.kind == RunOnce && |t.children| == 1
    requires t.mem.result.Some? ==> t.status != Running
    ensures var r := Tick(env, t, w).t;
            var w1 := Begin(env, t, w);
            match t.mem.result
            case None =>
              && LetsThrough(env, t, r, w1)
              && r.mem.result == if r.status == Running then None else Some(r.status)
            case Some(s) => r.mem.result == Some(s) && HoldsBack(t, r, if env.thenSkip(t.id, w1) then Success else s)
  {
    hide Tick, TickChild, Finish, Fits, Skeleton, DoStep;
    TickOfADecorator(env, t, w);
    var w1 := Begin(env, t, w);
    var u := if t.status == Running then t else t.(mem := t.mem.(thenSkip := env.thenSkip(t.id, w1)));
    ChildIgnoresMemory(env, t, u.mem, w1);
    assert u == t.(mem := u.mem);
    RunOnceStep(env, u, w1);
    var d := DoStep(env, u, MAX_SYNC_ITERATIONS, w1);
    EndingKeepsMemory(env, d.t, d.verdict.status, d.w);
  }

  lemma RunOnceStep<W>(env: Env<W>, t: Tree, w: W)
    requires Fits(Skeleton(t)) && t.kind == RunOnce && |t.children| == 1
    ensures var d := DoStep(env, t, MAX_SYNC_ITERATIONS, w);
            match t.mem.result
            case Some(s) => d == Step(t, w, End(if t.mem.thenSkip then Success else s))
            case None =>
              var c := TickChild(env, t, 0, w);
              var s := c.t.children[0].status;
              && d.t.kind == t.kind && d.t.children == c.t.children && d.verdict == End(s)
              && d.t.mem.result == if s == Running then None else Some(s)
  {
    hide Tick, TickChild, Fits, Skeleton, Rounds;
  }

  /** A Timeout is never RUNNING at or past its deadline: it has failed and halted its child instead. */
  lemma TimeoutFires<W>(env: Env<W>, t: Tree, w: W)
    requires Fits(Skeleton(t)) && t.kind == Timeout && t.status == Running
    requires AllTidy(t.children)
    ensures var c := TickChild(env, t, 0, w);
            var child := c.t.children[0];
            var r := Tick(env, t, w);
            && |r.t.children| == 1
            && (r.t.status == Running <==> child.status == Running && env.now(c.w) < t.mem.until)
            && (child.status == Running && env.now(c.w) >= t.mem.until ==>
                  r.t.status == Failure && Quiet(r.t.children[0]))
            && (child.status != Running ==> r.t.status == child.status)
            && (child.status != Running || env.now(c.w) < t.mem.until ==> r.t.children == [child])
  {
    assert Tick(env, t, w) == TickDecorator(env, t, MAX_SYNC_ITERATIONS, w);
    var c := TickChild(env, t, 0, w);
    var d := DoStep(env, t, MAX_SYNC_ITERATIONS, w);
    assert d.t.children == (if c.t.children[0].status == Running && env.now(c.w) >= t.mem.until
                            then RestartChild(env, c.t, c.w).t.children else c.t.children);
    ChildIsTidy(env, t, 0, w);
    StopHaltsEverything(env, c.t.children[0], c.w);
  }

  /** A condition that decides a node's result leaves nothing of the node running and does not tick it. */
  lemma ForcedResultHalts<W>(env: Env<W>, t: Tree, w: W)
    requires Fits(Skeleton(t)) && t.kind.Conditional? && Tidy(t)
    ensures match Forced(env, t, w)
            case Some(s) =>
              && Tick(env, t, w).t.status == s && s != Running && Quiet(Tick(env, t, w).t)
              && Tick(env, t, w).t.children == RestartChild(env, t, w).t.children
            case None => Tick(env, t, w) == TickPlain(env, t, w)
  {
    TickIsTidy(env, t, w);
    assert Tick(env, t, w) == TickConditional(env, t, w);
    if Forced(env, t, w).Some? {
      TidyIsQuiet(Tick(env, t, w).t);
    }
  }

  /** The order in which the conditions are looked at, and what each makes of the node. */
  const PRIORITY := [SkipIf, FailureIf, SuccessIf, While]

  predicate Decides<W>(env: Env<W>, t: Tree, c: Condition, w: W)
    requires t.kind.Conditional?
  {
    c in t.kind.conditions && (env.holds(t.id, c, w) <==> c != While)
  }

  function ResultOf(c: Condition): Ended {
    if c == SkipIf || c == SuccessIf then Success else Failure
  }

  /** The first condition that decides, whatever the later ones say, is the result, and the child does not run. */
  lemma ConditionPriority<W>(env: Env<W>, t: Tree, w: W, k: nat)
    requires Fits(Skeleton(t)) && t.kind.Conditional? && Tidy(t)
    requires k <= |PRIORITY| && forall j | 0 <= j < k :: !Decides(env, t, PRIORITY[j], w)
    ensures var r := Tick(env, t, w).t;
            && (k < |PRIORITY| && Decides(env, t, PRIORITY[k], w) ==> r.status == ResultOf(PRIORITY[k]) && Quiet(r))
            && (k == |PRIORITY| ==>
                  |t.children| == 1 && r.children == TickChild(env, t, 0, Begin(env, t, w)).t.children
                  && r.status == r.children[0].status)
  {
    hide Tick, TickChild;
    ForcedResultHalts(env, t, w);
    PartsFit(t, []);
    assert k > 0 ==> !Decides(env, t, PRIORITY[0], w);
    assert k > 1 ==> !Decides(env, t, PRIORITY[1], w);
    assert k > 2 ==> !Decides(env, t, PRIORITY[2], w);
    assert k > 3 ==> !Decides(env, t, PRIORITY[3], w);
    if Forced(env, t, w).None? {
      var d := TickChild(env, t, 0, Begin(env, t, w));
      EndingKeepsMemory(env, d.t, Mapped(t.kind, d.t.children[0].status), d.w);
    }
  }

  /** WhileDoElse asks its condition on every tick and halts the branch it does not take. */
  lemma WhileDoElseIsReactive<W>(env: Env<W>, t: Tree, w: W)
    requires Fits(Skeleton(t)) && t.kind == WhileDoElse && Tidy(t)
    ensures var condition := TickChild(env, t, 0, Begin(env, t, w)).t.children[0];
            var r := Tick(env, t, w).t;
            && |r.children| == |t.children|
            && r.children[0] == condition
            && (condition.status == Running ==> r.status == Running && r.children == t.children[0 := condition])
            && (condition.status == Success ==>
                  r.status == r.children[1].status && (|r.children| == 3 ==> Quiet(r.children[2])))
            && (condition.status == Failure ==>
                  Quiet(r.children[1]) && r.status == if |r.children| == 3 then r.children[2].status else Failure)
  {
    assert Tick(env, t, w) == TickWhileDoElse(env, t, w);
    ChildIsTidy(env, t, 0, Begin(env, t, w));
    var r := TickChild(env, t, 0, Begin(env, t, w));
    var s := r.t.children[0].status;
    if s == Success {
      var h := r;
      if |t.children| == 3 {
        HaltIfRunningIsTidy(env, r.t, 2, r.w);
        h := HaltIfRunning(env, r.t, 2, r.w);
        TidyIsQuiet(h.t.children[2]);
      }
      ChildIsTidy(env, h.t, 1, h.w);
      assert Tick(env, t, w) == RunBranch(env, h.t, 1, h.w);
    } else if s == Failure {
      HaltIfRunningIsTidy(env, r.t, 1, r.w);
      var h := HaltIfRunning(env, r.t, 1, r.w);
      TidyIsQuiet(h.t.children[1]);
      if |t.children| == 3 {
        ChildIsTidy(env, h.t, 2, h.w);
        assert Tick(env, t, w) == RunBranch(env, h.t, 2, h.w);
      }
    }
  }

  /** A decided IfThenElse resumes its branch alone. */
  lemma IfThenElseDecidesOnce<W>(env: Env<W>, t: Tree, w: W)
    requires Fits(Skeleton(t)) && t.kind == IfThenElse && Tidy(t) && t.status == Running && t.mem.index > 0
    ensures var r := Tick(env, t, w).t;
            && t.mem.index < |t.children| == |r.children|
            && r.children == TickChild(env, t, t.mem.index, w).t.children
            && r.status == r.children[t.mem.index].status && r.mem.index == t.mem.index
  {
    assert Tick(env, t, w) == TickIfThenElse(env, t, w) == RunBranch(env, t, t.mem.index, w);
    ChildIsTidy(env, t, t.mem.index, w);
  }

  /** An undecided IfThenElse ticks its condition, whose end picks the branch. */
  lemma ConditionPicksTheBranch<W>(env: Env<W>, t: Tree, w: W)
    requires Fits(Skeleton(t)) && t.kind == IfThenElse && Tidy(t) && (t.status == Running ==> t.mem.index == 0)
    ensures var condition := TickChild(env, t, 0, Begin(env, t, w)).t.children[0];
            var r := Tick(env, t, w).t;
            && |r.children| == |t.children| && |r.children| >= 2 && r.children[0] == condition
            && (condition.status == Running ==> r.status == Running && r.mem.index == 0)
            && (condition.status == Success ==> r.mem.index == 1 && r.status == r.children[1].status)
            && (condition.status == Failure ==>
                  if |r.children| == 3 then r.mem.index == 2 && r.status == r.children[2].status else r.status == Failure)
  {
    hide Tick, TickChild, Fits, AskCondition;
    PartsFit(t, []);
    assert Tick(env, t, w) == TickIfThenElse(env, t, w) by { IsIfThenElse(env, t, w); }
    var t1 := t.(mem := t.mem.(index := 0));
    ChildIgnoresMemory(env, t, t1.mem, Begin(env, t, w));
    assert t.status == Running ==> t1 == t;
    Asked(env, t1, Begin(env, t, w));
  }

  lemma IsIfThenElse<W>(env: Env<W>, t: Tree, w: W)
    requires Fits(Skeleton(t)) && t.kind == IfThenElse && 2 <= |t.children| <= 3
    ensures Tick(env, t, w) == TickIfThenElse(env, t, w)
  {
    hide TickIfThenElse;
  }

  lemma Asked<W>(env: Env<W>, t: Tree, w: W)
    requires Fits(Skeleton(t)) && t.kind == IfThenElse && AllTidy(t.children) && t.mem.index == 0
    requires 2 <= |t.children| <= 3
    ensures var condition := TickChild(env, t, 0, w).t.children[0];
            var r := AskCondition(env, t, w).t;
            && |r.children| == |t.children| && r.children[0] == condition
            && (condition.status == Running ==> r.status == Running && r.mem.index == 0)
            && (condition.status == Success ==> r.mem.index == 1 && r.status == r.children[1].status)
            && (condition.status == Failure ==>
                  if |r.children| == 3 then r.mem.index == 2 && r.status == r.children[2].status else r.status == Failure)
  {
    hide Tick, TickChild, Fits;
    ChildIsTidy(env, t, 0, w);
    var c := TickChild(env, t, 0, w);
    var s := c.t.children[0].status;
    var branch := if s == Success then 1 else 2;
    if s == Running {
    } else if branch < |t.children| {
      var b := c.t.(mem := c.t.mem.(index := branch));
      SameSkeleton(c.t, b);
      ChildIsTidy(env, b, branch, c.w);
      var e := TickChild(env, b, branch, c.w);
      EndingKeepsMemory(env, e.t, e.t.children[branch].status, e.w);
    } else {
      EndingKeepsMemory(env, c.t, Failure, c.w);
    }
  }

  /** Switch runs exactly the first matching case (or the default) and leaves no other child RUNNING. */
  lemma SwitchRunsOneCase<W>(env: Env<W>, t: Tree, cases: nat, w: W)
    requires Fits(Skeleton(t)) && t.kind == Switch(cases) && Tidy(t)
    ensures var r := Tick(env, t, w).t;
            var i := MatchingCase(env, t.id, 0, cases, Begin(env, t, w));
            && i < |r.children| == |t.children|
            && r.status == r.children[i].status
            && (forall j | 0 <= j < |r.children| && j != i :: Quiet(r.children[j]))
            && (i < cases ==> env.matches(t.id, i, Begin(env, t, w)))
            && (forall j: nat | j < i :: !env.matches(t.id, j, Begin(env, t, w)))
  {
    TickIsTidy(env, t, w);
    var w1 := Begin(env, t, w);
    var i := MatchingCase(env, t.id, 0, cases, w1);
    var last := if t.status == Running && t.mem.index <= |t.children| then t.mem.index else 0;
    assert Tick(env, t, w) == TickSwitch(env, t, cases, w) == SwitchTo(env, t, last, i, w1);
    SwitchBranch(env, t, last, i, w1);
    var r := Tick(env, t, w).t;
    forall j | 0 <= j < |r.children| && j != i
      ensures Quiet(r.children[j])
    {
      TidyIsQuiet(r.children[j]);
    }
  }

  lemma SwitchBranch<W>(env: Env<W>, t: Tree, last: nat, i: nat, w: W)
    requires Fits(Skeleton(t)) && AllTidy(t.children) && t.kind.Switch?
    requires i < |t.children| && last <= |t.children| && OnlyAt(t.children, last - 1)
    ensures var r := SwitchTo(env, t, last, i, w).t;
            && |r.children| == |t.children|
            && r.status == r.children[i].status
            && forall j | 0 <= j < |r.children| && j != i :: r.children[j].status != Running
  {
    hide Tick, TickChild, HaltIfRunning, Fits;
    if last != 0 && last - 1 != i {
      HaltIfRunningIsTidy(env, t, last - 1, w);
    }
    var h := if last != 0 && last - 1 != i then HaltIfRunning(env, t, last - 1, w) else Run(t, w);
    ChildIsTidy(env, h.t.(mem := h.t.mem.(index := i + 1)), i, h.w);
  }

  /** What a node that is waiting for something answers while it waits; None: it has what it waited for. */
  ghost function ClosedGate<W>(env: Env<W>, t: Tree, w: W): Option<Ended> {
    match t.kind
    case Delay => if env.now(w) < t.mem.until then Some(Running) else None
    case Precondition => if t.mem.allowed then None else Some(t.mem.otherwise)
    case SkipUnlessUpdated => if t.mem.proceed then None else Some(Success)
    case WaitValueUpdate =>
      if t.mem.proceed || env.version(t.id, w) != t.mem.version then None else Some(Running)
    case _ => None
  }

  predicate IsGate(kind: Kind) {
    kind.Delay? || kind.Precondition? || kind.SkipUnlessUpdated? || kind.WaitValueUpdate?
  }

  /** A closed gate does not touch its child; an open one is transparent, and WaitValueUpdate stays open. */
  lemma GatesAreClosedOrTransparent<W>(env: Env<W>, t: Tree, w: W)
    requires Fits(Skeleton(t)) && IsGate(t.kind) && t.status == Running && |t.children| == 1
    ensures var r := Tick(env, t, w).t;
            && r.mem == (if t.kind.WaitValueUpdate? && ClosedGate(env, t, w).None? then t.mem.(proceed := true) else t.mem)
            && match ClosedGate(env, t, w)
               case Some(s) => HoldsBack(t, r, s)
               case None => LetsThrough(env, t, r, w)
  {
    hide Tick, TickChild, Finish;
    TickOfADecorator(env, t, w);
    var after := if t.kind.WaitValueUpdate? then t.(mem := t.mem.(proceed := true)) else t;
    ChildIgnoresMemory(env, t, after.mem, w);
    var d := DoStep(env, t, MAX_SYNC_ITERATIONS, w);
    assert d == (match ClosedGate(env, t, w) case Some(s) => Step(t, w, End(s)) case None => PassThrough(env, after, w));
    EndingKeepsMemory(env, d.t, d.verdict.status, d.w);
  }

  lemma TickOfADecorator<W>(env: Env<W>, t: Tree, w: W)
    requires Fits(Skeleton(t)) && IsDecorator(t.kind)
    ensures |t.children| == 1 && Tick(env, t, w) == TickDecorator(env, t, MAX_SYNC_ITERATIONS, w)
  {
    hide TickDecorator;
    assert |Skeleton(t).children| == |t.children|;
  }

  /** The child was ticked in world w and its result is the node's. */
  ghost predicate LetsThrough<W>(env: Env<W>, t: Tree, r: Tree, w: W)
    requires Fits(Skeleton(t)) && |t.children| == 1
  {
    r.children == TickChild(env, t, 0, w).t.children && |r.children| == 1 && r.status == r.children[0].status
  }

  ghost predicate HoldsBack(t: Tree, r: Tree, s: Status) {
    r.status == s && r.children == t.children
  }

  lemma EndingKeepsMemory<W>(env: Env<W>, t: Tree, s: Ended, w: W)
    requires !t.kind.CountingParallel?
    ensures Finish(env, t, s, w).t == t.(status := s)
  {
  }

  lemma ChildIgnoresMemory<W>(env: Env<W>, t: Tree, mem: Memory, w: W)
    requires Fits(Skeleton(t)) && t.children != []
    ensures var u := t.(mem := mem);
            Skeleton(u) == Skeleton(t) && TickChild(env, u, 0, w).t == TickChild(env, t, 0, w).t.(mem := mem)
            && TickChild(env, u, 0, w).w == TickChild(env, t, 0, w).w
  {
    hide Tick;
  }

  /** The tick that starts an activation reads the ports and is then a tick of the running node. */
  lemma StartThenTick<W>(env: Env<W>, t: Tree, w: W)
    requires Fits(Skeleton(t)) && (IsGate(t.kind) || t.kind.Timeout?) && t.status != Running
    ensures var w1 := env.initialise(t.id, w);
            |t.children| == 1
            && match Configure(env, t, w1)
               case None => HoldsBack(t, Tick(env, t, w).t, Failure)
               case Some(mem) =>
                 var u := t.(mem := mem, status := Running);
                 Skeleton(u) == Skeleton(t) && Tick(env, t, w) == Tick(env, u, w1)
                 && TickChild(env, u, 0, w1).w == TickChild(env, t, 0, w1).w
                 && TickChild(env, u, 0, w1).t.children == TickChild(env, t, 0, w1).t.children
  {
    hide Tick, TickChild, DoStep, Finish, Fits;
    var w1 := env.initialise(t.id, w);
    TickOfADecorator(env, t, w);
    match Configure(env, t, w1)
    case None => EndingKeepsMemory(env, t, Failure, w1);
    case Some(mem) =>
      var u := t.(mem := mem, status := Running);
      ChildIgnoresMemory(env, t, mem, w1);
      StepIgnoresStatus(env, t.(mem := mem), w1);
      TickOfADecorator(env, u, w1);
      var d := DoStep(env, t.(mem := mem), MAX_SYNC_ITERATIONS, w1);
      FinishIgnoresStatus(env, d.t, d.verdict.status, d.w);
  }

  lemma StepIgnoresStatus<W>(env: Env<W>, t: Tree, w: W)
    requires Fits(Skeleton(t)) && (IsGate(t.kind) || t.kind.Timeout?) && |t.children| == 1
    ensures var u := t.(status := Running);
            var d := DoStep(env, t, MAX_SYNC_ITERATIONS, w);
            && Skeleton(u) == Skeleton(t)
            && DoStep(env, u, MAX_SYNC_ITERATIONS, w) == d.(t := d.t.(status := Running))
            && d.t.kind == t.kind
            && TickChild(env, u, 0, w) == TickChild(env, t, 0, w).(t := TickChild(env, t, 0, w).t.(status := Running))
  {
    hide Tick, TickChild, RestartChild;
    var u := t.(status := Running);
    assert Skeleton(u) == Skeleton(t);
    ChildIgnoresStatus(env, t, w);
    ChildIgnoresStatus(env, t.(mem := t.mem.(proceed := true)), w);
    var r := TickChild(env, t, 0, w);
    RestartIgnoresStatus(env, r.t, r.w);
  }

  lemma ChildIgnoresStatus<W>(env: Env<W>, t: Tree, w: W)
    requires Fits(Skeleton(t)) && t.children != []
    ensures var u := t.(status := Running);
            && Skeleton(u) == Skeleton(t)
            && TickChild(env, u, 0, w) == TickChild(env, t, 0, w).(t := TickChild(env, t, 0, w).t.(status := Running))
  {
    hide Tick;
    assert Skeleton(t.(status := Running)) == Skeleton(t);
  }

  lemma RestartIgnoresStatus<W>(env: Env<W>, t: Tree, w: W)
    requires t.children != []
    ensures var u := t.(status := Running);
            RestartChild(env, u, w) == RestartChild(env, t, w).(t := RestartChild(env, t, w).t.(status := Running))
  {
    hide Stop;
  }

  lemma FinishIgnoresStatus<W>(env: Env<W>, t: Tree, s: Ended, w: W)
    requires !t.kind.CountingParallel?
    ensures Finish(env, t.(status := Running), s, w) == Finish(env, t, s, w)
  {
  }

  predicate IsPlain(kind: Kind) {
    kind.Inverter? || kind.ForceSuccess? || kind.ForceFailure? || kind.SubTree?
  }

  /** Inverter swaps SUCCESS and FAILURE, the forcing decorators leave only one of them, SubTree leaves both. */
  predicate Translates(kind: Kind, child: Status, s: Status) {
    && child != Invalid && s != Invalid
    && (s == Running <==> child == Running)
    && (kind.Inverter? ==> (s == Success <==> child == Failure))
    && (kind.ForceSuccess? ==> s != Failure)
    && (kind.ForceFailure? ==> s != Success)
    && (kind.SubTree? ==> s == child)
  }

  lemma PlainTick<W>(env: Env<W>, t: Tree, w: W)
    requires Fits(Skeleton(t)) && IsPlain(t.kind) && |t.children| == 1
    ensures var r := Tick(env, t, w).t;
            && r.children == TickChild(env, t, 0, Begin(env, t, w)).t.children && |r.children| == 1
            && Translates(t.kind, r.children[0].status, r.status)
  {
    hide TickChild, Fits, Skeleton;
    assert Tick(env, t, w) == TickPlain(env, t, w);
    var c := TickChild(env, t, 0, Begin(env, t, w));
    EndingKeepsMemory(env, c.t, Mapped(t.kind, c.t.children[0].status), c.w);
  }

  // ------------------------------------------------------------ sequences and selectors

  /** The children from i on up to the one that decided, in the result r of a sequence. */
  ghost predicate SequenceResult(t: Tree, memory: bool, i: nat, r: Tree) {
    && |r.children| == |t.children|
    && (forall j | 0 <= j < |t.children| && j < i :: r.children[j] == t.children[j])
    && (r.status == Success ==> forall j | i <= j < |r.children| :: r.children[j].status == Success)
    && (r.status != Success ==> exists k :: i <= k < |r.children| && StoppedAt(t, memory, i, r, k))
  }

  ghost predicate StoppedAt(t: Tree, memory: bool, i: nat, r: Tree, k: nat) {
    && k < |r.children| == |t.children| && r.children[k].status == r.status
    && (t.mem.index == i ==> r.mem.index == k)
    && (forall j | i <= j < k :: r.children[j].status == Success)
    && (forall j | k < j < |r.children| :: if memory then r.children[j] == t.children[j] else r.children[j].status == Invalid)
  }

  /** From child i on: it succeeds when all have; otherwise it has the status of the first that did not. */
  lemma {:induction false} SequenceFromVerdict<W>(env: Env<W>, t: Tree, memory: bool, i: nat, w: W)
    requires Fits(Skeleton(t)) && AllTidy(t.children) && t.kind.Sequence?
    ensures SequenceResult(t, memory, i, SequenceFrom(env, t, memory, i, w).t)
    decreases |t.children| - i
  {
    hide Tick, TickChild, Fits, Skeleton;
    if i >= |t.children| {
    } else {
      ChildIsTidy(env, t, i, w);
      var r := TickChild(env, t, i, w);
      var s := r.t.children[i].status;
      if s == Success {
        var t1 := if i + 1 < |t.children| then r.t.(mem := r.t.mem.(index := i + 1)) else r.t;
        SameSkeleton(t, t1);
        SequenceFromVerdict(env, t1, memory, i + 1, r.w);
        var end := SequenceFrom(env, t1, memory, i + 1, r.w).t;
        if end.status != Success {
          var k :| i + 1 <= k < |end.children| && StoppedAt(t1, memory, i + 1, end, k);
          assert StoppedAt(t, memory, i, end, k);
        }
      } else {
        if !memory {
          HaltKidsIsTidy(env, r.t, false, i + 1, r.w);
        }
        assert StoppedAt(t, memory, i, SequenceFrom(env, t, memory, i, w).t, i);
      }
    }
  }

  lemma SameSkeleton(t: Tree, t1: Tree)
    requires t1 == t.(mem := t1.mem, children := t1.children) && |t1.children| == |t.children|
    ensures Skeleton(t1.(mem := t.mem)) == Skeleton(t1)
  {
  }

  /** Where a tick of a sequence begins: with memory, at the child it was RUNNING at. */
  function Resumes(t: Tree, memory: bool): nat {
    if t.status == Running && memory then t.mem.index else 0
  }

  /**
   A tick of a sequence that became r stopped at child k: all before succeeded, those before the resumed one without
   being ticked again; those behind are untouched if it resumed with memory, and halted otherwise. It resumes there.
   */
  ghost predicate StopsAt(t: Tree, memory: bool, r: Tree, k: nat) {
    var i := Resumes(t, memory);
    && i <= k < |r.children| == |t.children| && r.children[k].status == r.status && r.status != Success
    && (memory ==> r.mem.index == k)
    && (forall j | 0 <= j < i :: r.children[j] == t.children[j])
    && (forall j | i <= j < k :: r.children[j].status == Success)
    && (forall j | k < j < |r.children| ::
          if t.status == Running && memory then r.children[j] == t.children[j] else r.children[j].status == Invalid)
  }

  /** Every tick of a sequence: it succeeds when all its children from the resumed one on have, and stops at one otherwise. */
  lemma SequenceVerdict<W>(env: Env<W>, t: Tree, w: W)
    requires Fits(Skeleton(t)) && Tidy(t) && t.kind.Sequence?
    ensures var (r, memory) := (Tick(env, t, w).t, t.kind.memory);
            && |r.children| == |t.children|
            && (r.status == Success ==>
                  && (forall j | 0 <= j < |t.children| && j < Resumes(t, memory) :: r.children[j] == t.children[j])
                  && forall j | Resumes(t, memory) <= j < |r.children| :: r.children[j].status == Success)
            && (r.status != Success ==> exists k :: StopsAt(t, memory, r, k))
  {
    var memory := t.kind.memory;
    hide Tick, TickChild, Fits, Skeleton, SequenceFrom, HaltKids, Tidy, SequenceResult, StopsAt;
    IsSequence(env, t, w);
    KidsAreTidy(t);
    var t0 := t.(mem := t.mem.(index := 0));
    MemoryIsNoShape(t, t0.mem);
    var (u, i, w1) := (t, Resumes(t, memory), w);
    if t.status != Running {
      HaltKidsIsTidy(env, t0, false, 0, w);
      var h := HaltKids(env, t0, false, 0, w);
      u, w1 := h.t, env.initialise(t.id, h.w);
    } else if !memory {
      u := t0;
    }
    SequenceFromVerdict(env, u, memory, i, w1);
    ResultOfTick(t, u, memory, SequenceFrom(env, u, memory, i, w1).t);
  }

  lemma IsSequence<W>(env: Env<W>, t: Tree, w: W)
    requires Fits(Skeleton(t)) && t.kind.Sequence?
    ensures Tick(env, t, w) == TickSequence(env, t, t.kind.memory, w)
  {
    hide TickSequence;
  }

  /** What a sequence made of u, which is t when the tick has begun, is what it made of t. */
  lemma ResultOfTick(t: Tree, u: Tree, memory: bool, r: Tree)
    requires |u.children| == |t.children| && SequenceResult(u, memory, Resumes(t, memory), r)
    requires memory ==> u.mem.index == Resumes(t, memory)
    requires if t.status == Running then u.children == t.children
             else forall j | 0 <= j < |u.children| :: u.children[j].status == Invalid
    ensures r.status == Success ==>
              && (forall j | 0 <= j < |t.children| && j < Resumes(t, memory) :: r.children[j] == t.children[j])
              && forall j | Resumes(t, memory) <= j < |r.children| :: r.children[j].status == Success
    ensures r.status != Success ==> exists k :: StopsAt(t, memory, r, k)
    ensures |r.children| == |t.children|
  {
    if r.status != Success {
      var i := Resumes(t, memory);
      var k :| i <= k < |r.children| && StoppedAt(u, memory, i, r, k);
      assert StopsAt(t, memory, r, k);
    }
  }

  lemma MemoryIsNoShape(t: Tree, mem: Memory)
    ensures Skeleton(t.(mem := mem)) == Skeleton(t)
  {
  }

  /** The child that decided a selector from child i on, which was at child `previous` before. */
  ghost predicate ChosenAt(t: Tree, i: nat, previous: nat, r: Tree, k: nat) {
    && k < |r.children| == |t.children| && r.children[k].status == r.status && r.mem.index == k
    && (forall j | i <= j < k :: r.children[j].status == Failure)
    && (forall j | k < j < |r.children| ::
          if k == previous then r.children[j] == t.children[j] else r.children[j].status == Invalid)
  }

  /** From child i on: it has the status of the first child that did not fail, and fails when all have failed. */
  lemma {:induction false} SelectorFromVerdict<W>(env: Env<W>, t: Tree, i: nat, previous: nat, w: W)
    requires Fits(Skeleton(t)) && AllTidy(t.children) && t.children != []
    ensures var r := SelectorFrom(env, t, i, previous, w).t;
            && |r.children| == |t.children|
            && (forall j | 0 <= j < |t.children| && j < i :: r.children[j] == t.children[j])
            && (r.status == Failure ==> forall j | i <= j < |r.children| :: r.children[j].status == Failure)
            && (r.status != Failure ==> exists k :: i <= k < |r.children| && ChosenAt(t, i, previous, r, k))
    decreases |t.children| - i
  {
    hide Tick, TickChild, Fits, Skeleton, Tidy, HaltKids;
    if i >= |t.children| {
    } else {
      ChildIsTidy(env, t, i, w);
      var r := TickChild(env, t, i, w);
      var s := r.t.children[i].status;
      if s == Running || s == Success {
        var t1 := r.t.(status := s, mem := r.t.mem.(index := i));
        if previous != i {
          HaltKidsIsTidy(env, t1, false, i + 1, r.w);
        }
        assert ChosenAt(t, i, previous, SelectorFrom(env, t, i, previous, w).t, i);
      } else {
        SelectorFromVerdict(env, r.t, i + 1, previous, r.w);
        var end := SelectorFrom(env, r.t, i + 1, previous, r.w).t;
        if end.status != Failure {
          var k :| i + 1 <= k < |end.children| && ChosenAt(r.t, i + 1, previous, end, k);
          assert ChosenAt(t, i, previous, end, k);
        }
      }
    }
  }

  /** The child that a selector was at: with no activation under way, the first. */
  function WasAt(t: Tree): nat {
    if t.status == Running then t.mem.index else 0
  }

  /**
   A tick of a selector that became r chose child k: all from the first it ticked up to k failed, and k has its status;
   those behind are untouched if it was at k before, and halted if the choice changed.
   */
  ghost predicate Chooses(t: Tree, memory: bool, r: Tree, k: nat) {
    var i := if memory then WasAt(t) else 0;
    && i <= k < |r.children| == |t.children| && r.children[k].status == r.status && r.status != Failure
    && r.mem.index == k
    && (forall j | i <= j < k :: r.children[j].status == Failure)
    && (forall j | k < j < |r.children| ::
          if k == WasAt(t) then r.children[j] == t.children[j] else r.children[j].status == Invalid)
  }

  /** Every tick of a selector: it fails when every child it ticks has, and chooses one otherwise. */
  lemma SelectorVerdict<W>(env: Env<W>, t: Tree, w: W)
    requires Fits(Skeleton(t)) && Tidy(t) && t.kind.Selector?
    ensures var (r, memory) := (Tick(env, t, w).t, t.kind.memory);
            && |r.children| == |t.children|
            // with memory those in front of the one it was at are halted
            && (memory ==> forall j | 0 <= j < |r.children| && j < WasAt(t) :: r.children[j].status == Invalid)
            && (r.status == Failure ==>
                  forall j | (if memory then WasAt(t) else 0) <= j < |r.children| :: r.children[j].status == Failure)
            && (r.status != Failure ==> exists k :: Chooses(t, memory, r, k))
  {
    var memory := t.kind.memory;
    hide Tick, TickChild, Fits, Skeleton, SelectorFrom, StopBefore, Tidy, AllTidy, ChosenAt, Chooses, Finish;
    IsSelector(env, t, w);
    KidsAreTidy(t);
    var t1 := if t.status != Running then t.(mem := t.mem.(index := 0)) else t;
    MemoryIsNoShape(t, t1.mem);
    if t.children == [] {
      EndingKeepsMemory(env, t1, Failure, Begin(env, t, w));
      return;
    }
    var (u, i, w1) := (t1, 0, Begin(env, t, w));
    if memory {
      StopBeforeIsTidy(env, t1, 0, w1);
      var b := StopBefore(env, t1, 0, w1);
      u, i, w1 := b.t, WasAt(t), b.w;
    }
    var previous := WasAt(t);
    SelectorFromVerdict(env, u, i, previous, w1);
    var r := SelectorFrom(env, u, i, previous, w1).t;
    if r.status != Failure {
      ChoiceOfTick(t, u, memory, r, i);
    }
  }

  lemma IsSelector<W>(env: Env<W>, t: Tree, w: W)
    requires Fits(Skeleton(t)) && t.kind.Selector?
    ensures Tick(env, t, w) == TickSelector(env, t, t.kind.memory, w)
  {
    hide TickSelector;
  }

  lemma ChoiceOfTick(t: Tree, u: Tree, memory: bool, r: Tree, i: nat)
    requires |u.children| == |t.children| && r.status != Failure && i == if memory then WasAt(t) else 0
    requires forall j | i <= j < |t.children| :: u.children[j] == t.children[j]
    requires exists k :: i <= k < |r.children| && ChosenAt(u, i, WasAt(t), r, k)
    ensures exists k :: Chooses(t, memory, r, k)
  {
    var k :| i <= k < |r.children| && ChosenAt(u, i, WasAt(t), r, k);
    assert Chooses(t, memory, r, k);
  }
}
