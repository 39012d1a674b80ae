/**
 From document to verdict: what the node that the builder makes of an element answers when it is ticked, tag by tag, in
 terms of the element, its attributes and its children's results alone.
 */
module TagMeanings {
  import opened Wrappers
  import opened TreeDocuments
  import opened TreeChecking
  import opened TreeAgreement
  import BT = BehaviourTrees
  import TI = TreeInvariant
  import NM = NodeMeaning
  import PS = Parallels
  import LF = LoopFuel
  import LW = LoopWrites
  import NC = NodeCalls
  import NR = NodeRuns
  import TR = TreeReports

  // ----------------------------------------------------------------------- the node of an element

  /** The element carries one of the condition attributes. */
  predicate Gated(e: Element) {
    exists a | a in CONDITIONS :: Attr(e, a) != ""
  }

  /** The builder makes this subtree of the element, wherever it stands and whatever was built before it. */
  ghost predicate Made(site: Site, e: Element, root: BT.Tree) {
    exists above, stack, yard :: MadeAt(site, e, above, stack, yard, root)
  }

  ghost predicate MadeAt(site: Site, e: Element, above: string, stack: seq<string>, yard: Yard, root: BT.Tree) {
    var b := BuildNode(site, e, above, stack, yard);
    b.Built? && b.value == root
  }

  /** t is the element's own node in some state: below the wrapper if there is one. */
  ghost predicate OwnNode(e: Element, root: BT.Tree, t: BT.Tree) {
    if Gated(e) then |root.children| == 1 && BT.Skeleton(t) == BT.Skeleton(root.children[0])
    else BT.Skeleton(t) == BT.Skeleton(root)
  }

  /** And the state is one that runs keep to. */
  ghost predicate NodeOf(site: Site, e: Element, t: BT.Tree) {
    && BT.Fits(BT.Skeleton(t)) && TI.Tidy(t)
    && exists root :: Made(site, e, root) && OwnNode(e, root, t)
  }

  lemma GatedHasConditions(e: Element)
    ensures Gated(e) <==> ConditionsOf(e) != {}
  {
    assert CONDITIONS[0] in CONDITIONS && CONDITIONS[1] in CONDITIONS && CONDITIONS[2] in CONDITIONS
        && CONDITIONS[3] in CONDITIONS;
    if ConditionsOf(e) != {} {
      var c :| c in ConditionsOf(e);
    } else {
      assert BT.SkipIf !in ConditionsOf(e) && BT.FailureIf !in ConditionsOf(e) && BT.SuccessIf !in ConditionsOf(e)
          && BT.While !in ConditionsOf(e);
    }
  }

  lemma OwnNodeIsOfItsTag(site: Site, e: Element, above: string, stack: seq<string>, yard: Yard, root: BT.Tree, t: BT.Tree)
    requires MadeAt(site, e, above, stack, yard, root) && OwnNode(e, root, t) && e.tag != "SubTree"
    ensures |t.children| == |e.children| && KindOf(site, e) == Some(t.kind)
    ensures !ArityProblem(e.tag, |e.children|)
  {
    hide KindOf, ArityProblem, ConditionsOf, Registered, BuildAll, BT.Skeleton, Gated;
    GatedHasConditions(e);
    var path := Extend(above, e);
    var children := BuildAll(site, e.children, path, stack, yard).value;
    SameShape(t, if Gated(e) then root.children[0] else root);
  }

  lemma SameShape(a: BT.Tree, b: BT.Tree)
    requires BT.Skeleton(a) == BT.Skeleton(b)
    ensures |a.children| == |b.children| && a.kind == b.kind && a.id == b.id
  {
    LF.SkeletonIsShape(a, b);
  }

  lemma NodeIsOfItsTag(site: Site, e: Element, t: BT.Tree)
    requires NodeOf(site, e, t) && e.tag != "SubTree"
    ensures |t.children| == |e.children| && KindOf(site, e) == Some(t.kind)
    ensures !ArityProblem(e.tag, |e.children|)
    ensures BT.Fits(BT.Skeleton(t)) && TI.Tidy(t) && TI.AllTidy(t.children)
  {
    hide MadeAt, OwnNode, KindOf, ArityProblem, BT.Fits, BT.Skeleton;
    var root :| Made(site, e, root) && OwnNode(e, root, t);
    var above, stack, yard :| MadeAt(site, e, above, stack, yard, root);
    OwnNodeIsOfItsTag(site, e, above, stack, yard, root, t);
  }

  /** A tag of the table is none of the tags that are treated apart. */
  lemma FixedTags(site: Site, e: Element)
    ensures FixedKind(e.tag).Some? ==> KindOf(site, e) == FixedKind(e.tag)
  {
    TR.LeavesAreNotFixed(e.tag);
    TR.LoopsAreNotFixed(e.tag);
    hide FixedKind;
  }

  /**
   In any run of any tree that holds what was made of an element, at any path, its gate (if it has one) and its own node
   stay what the statements below speak of.
   */
  lemma RunsKeepNodes<W>(site: Site, e: Element, whole: BT.Tree, path: seq<nat>, events: seq<TI.Event<W>>)
    requires BT.Fits(BT.Skeleton(whole)) && TI.Unstarted(whole) && TI.Reaches(whole, path)
    requires Made(site, e, TI.At(whole, path))
    ensures var after := TI.After(whole, events);
            && TI.Reaches(after, path)
            && var r := TI.At(after, path);
               if Gated(e) then GateOf(site, e, r) && |r.children| == 1 && NodeOf(site, e, r.children[0])
               else NodeOf(site, e, r)
  {
    hide Made, Gated, BT.Fits, BT.Skeleton, TI.Unstarted, TI.Tidy, TI.After, TI.Reaches, TI.At;
    var after := TI.After(whole, events);
    NR.SameReach(whole, after, path);
    TI.EveryRunIsTidy(whole, events);
    NM.PartsAreTidy(after, path);
    var (root, r) := (TI.At(whole, path), TI.At(after, path));
    if Gated(e) {
      var above, stack, yard := Where(site, e, root);
      RootOf(site, e, above, stack, yard, root);
      SameChild(r, root);
      ChildFitsAndIsTidy(r);
      assert OwnNode(e, root, r.children[0]);
    } else {
      assert OwnNode(e, root, r);
    }
  }

  lemma ChildFitsAndIsTidy(t: BT.Tree)
    requires BT.Fits(BT.Skeleton(t)) && TI.Tidy(t) && |t.children| == 1
    ensures BT.Fits(BT.Skeleton(t.children[0])) && TI.Tidy(t.children[0])
  {
    assert BT.Skeleton(t).children[0] == BT.Skeleton(t.children[0]);
  }

  // ----------------------------------------------------------------------------------- parallels

  lemma {:induction false} SettledCounts(kids: seq<BT.Tree>, halted: seq<BT.Tree>)
    requires |kids| == |halted|
    requires forall i | 0 <= i < |kids| ::
               if kids[i].status == BT.Running then halted[i].status == BT.Invalid else halted[i] == kids[i]
    ensures BT.Count(kids, BT.Success) == BT.Count(halted, BT.Success)
    ensures BT.Count(kids, BT.Failure) == BT.Count(halted, BT.Failure)
  {
    if kids == [] {
    } else {
      SettledCounts(kids[1..], halted[1..]);
    }
  }

  /**
   A Parallel of n children: FAILURE once `failure_count` of them have failed, otherwise SUCCESS once `success_count`
   have succeeded, otherwise FAILURE if too few are left for that. A negative count is n + count + 1.
   */
  lemma ParallelMeans<W>(site: Site, e: Element, t: BT.Tree, env: BT.Env<W>, w: W)
    requires NodeOf(site, e, t) && e.tag == "Parallel"
    ensures site.count(e.attrs, "success_count").Some? && site.count(e.attrs, "failure_count").Some?
    ensures var n := |e.children|;
            var (s, f) := (site.count(e.attrs, "success_count").value, site.count(e.attrs, "failure_count").value);
            var (enough, tooMany) := (if s < 0 then n + s + 1 else s, if f < 0 then n + f + 1 else f);
            var r := BT.Tick(env, t, w).t;
            var (successes, failures) := (BT.Count(r.children, BT.Success), BT.Count(r.children, BT.Failure));
            && |r.children| == n
            && (n == 0 ==> r.status == BT.Success)
            && (n > 0 && failures >= tooMany ==> r.status == BT.Failure)
            && (n > 0 && failures < tooMany && successes >= enough ==> r.status == BT.Success)
            && (n > 0 && failures < tooMany && successes < enough ==>
                  r.status == if n - failures < enough then BT.Failure else BT.Running)
  {
    hide BT.Fits, BT.Skeleton, TI.Tidy, BT.Tick, NodeOf, BT.Count, FixedKind, ArityProblem;
    NodeIsOfItsTag(site, e, t);
    CountedTick(env, t, w);
  }

  /** A CountingParallel in terms of what is left of its children after the tick. */
  lemma CountedTick<W>(env: BT.Env<W>, t: BT.Tree, w: W)
    requires BT.Fits(BT.Skeleton(t)) && t.kind.CountingParallel? && TI.AllTidy(t.children)
    ensures var (enough, tooMany) := (t.kind.successCount, t.kind.failureCount);
            var r := BT.Tick(env, t, w).t;
            var (successes, failures) := (BT.Count(r.children, BT.Success), BT.Count(r.children, BT.Failure));
            && |r.children| == |t.children|
            && (t.children == [] ==> r.status == BT.Success)
            && (t.children != [] && failures >= tooMany ==> r.status == BT.Failure)
            && (t.children != [] && failures < tooMany && successes >= enough ==> r.status == BT.Success)
            && (t.children != [] && failures < tooMany && successes < enough ==>
                  r.status == if |t.children| - failures < enough then BT.Failure else BT.Running)
  {
    hide BT.Fits, BT.Skeleton, TI.Tidy, BT.Tick, BT.Count, PS.Decided, PS.Completes;
    PS.CountingVerdict(env, t, w);
    if t.children != [] {
      var kids := PS.Decided(env, t, w).t.children;
      PS.UnreachableIsExact(kids, t.kind.successCount);
      if BT.Tick(env, t, w).t.status != BT.Running {
        SettledCounts(kids, BT.Tick(env, t, w).t.children);
      }
    }
  }

  /**
   A ParallelAll of n children waits for all of them and fails when `max_failures` of them, and at least one, failed. The
   port is read when the activation begins; a negative limit v is n + v + 1.
   */
  lemma ParallelAllMeans<W>(site: Site, e: Element, t: BT.Tree, env: BT.Env<W>, w: W)
    requires NodeOf(site, e, t) && e.tag == "ParallelAll"
    requires t.status != BT.Running ==> PS.LimitPort(env, t, w).Some?
    ensures var n := |e.children|;
            var v := if t.status == BT.Running then t.mem.limit else PS.LimitPort(env, t, w).value;
            var limit := if t.status != BT.Running && v < 0 then n + v + 1 else v;
            var r := BT.Tick(env, t, w).t;
            && |r.children| == n && r.mem.limit == limit
            && (r.status == BT.Running <==> exists i :: 0 <= i < n && r.children[i].status == BT.Running)
            && (r.status == BT.Failure <==>
                  (forall i | 0 <= i < n :: PS.Finished(r.children[i].status))
                  && BT.Count(r.children, BT.Failure) >= BT.Max(limit, 1))
  {
    hide BT.Fits, BT.Skeleton, TI.Tidy, BT.Tick, NodeOf, BT.Count, KindOf, ArityProblem;
    NodeIsOfItsTag(site, e, t);
    FixedTags(site, e);
    PS.ParallelAllVerdict(env, t, w);
  }

  // ------------------------------------------------------------------------- sequences and fallbacks

  /** A sequence stops at the first child that has not succeeded; a ReactiveSequence asks all of them again every time. */
  lemma SequenceMeans<W>(site: Site, e: Element, t: BT.Tree, env: BT.Env<W>, w: W)
    requires NodeOf(site, e, t) && e.tag in {"Sequence", "AsyncSequence", "ReactiveSequence"}
    ensures var resumes := e.tag != "ReactiveSequence";
            var r := BT.Tick(env, t, w).t;
            var first := NM.Resumes(t, resumes);
            && |r.children| == |e.children|
            && (r.status == BT.Success ==>
                  && (forall j | 0 <= j < |r.children| && j < first :: r.children[j] == t.children[j])
                  && forall j | first <= j < |r.children| :: r.children[j].status == BT.Success)
            && (r.status != BT.Success ==> exists k :: NM.StopsAt(t, resumes, r, k))
  {
    hide BT.Fits, BT.Skeleton, TI.Tidy, BT.Tick, NodeOf, KindOf, ArityProblem, NM.StopsAt;
    NodeIsOfItsTag(site, e, t);
    FixedTags(site, e);
    assert t.kind == BT.Sequence(e.tag != "ReactiveSequence");
    NM.SequenceVerdict(env, t, w);
  }

  /** A fallback takes the first child that does not fail; a ReactiveFallback starts from the first every time. */
  lemma FallbackMeans<W>(site: Site, e: Element, t: BT.Tree, env: BT.Env<W>, w: W)
    requires NodeOf(site, e, t) && e.tag in {"Fallback", "Selector", "AsyncFallback", "ReactiveFallback"}
    ensures var resumes := e.tag != "ReactiveFallback";
            var r := BT.Tick(env, t, w).t;
            && |r.children| == |e.children|
            && (r.status == BT.Failure ==>
                  forall j | (if resumes then NM.WasAt(t) else 0) <= j < |r.children| :: r.children[j].status == BT.Failure)
            && (r.status != BT.Failure ==> exists k :: NM.Chooses(t, resumes, r, k))
  {
    hide BT.Fits, BT.Skeleton, TI.Tidy, BT.Tick, NodeOf, KindOf, ArityProblem, NM.Chooses;
    NodeIsOfItsTag(site, e, t);
    FixedTags(site, e);
    assert t.kind == BT.Selector(e.tag != "ReactiveFallback");
    NM.SelectorVerdict(env, t, w);
  }

  /** A SequenceWithMemory never ticks again what it has passed, not even after a failure. */
  lemma MemoryMeans<W>(site: Site, e: Element, t: BT.Tree, env: BT.Env<W>, w: W)
    requires NodeOf(site, e, t) && e.tag in {"SequenceWithMemory", "SequenceStar"} && t.mem.index <= |t.children|
    ensures var (r, at) := (BT.Tick(env, t, w).t, t.mem.index);
            && |r.children| == |e.children| == |t.children|
            && (forall j | 0 <= j < at :: r.children[j] == t.children[j])
            && (r.status == BT.Success ==> r.mem.index == 0)
            && (r.status != BT.Success ==>
                  && at <= r.mem.index < |r.children|
                  && r.children[r.mem.index].status == r.status
                  && (forall j | at <= j < r.mem.index :: r.children[j].status == BT.Success)
                  && (forall j | r.mem.index < j < |r.children| :: r.children[j] == t.children[j]))
  {
    hide BT.Fits, BT.Skeleton, TI.Tidy, NodeOf, KindOf, ArityProblem, BT.MemoryFrom;
    NodeIsOfItsTag(site, e, t);
    FixedTags(site, e);
    PS.MemoryKeepsPassed(env, t, BT.Begin(env, t, w));
  }

  // -------------------------------------------------------------------------------------- branches

  /** IfThenElse: the end of the condition picks the branch, for the whole activation. */
  lemma IfThenElseMeans<W>(site: Site, e: Element, t: BT.Tree, env: BT.Env<W>, w: W)
    requires NodeOf(site, e, t) && e.tag == "IfThenElse"
    ensures var (r, n) := (BT.Tick(env, t, w).t, |e.children|);
            && |r.children| == |t.children| == n && 2 <= n <= 3
            && (t.status == BT.Running && t.mem.index > 0 ==>
                  t.mem.index < n && r.mem.index == t.mem.index && r.status == r.children[t.mem.index].status
                  && r.children[0] == t.children[0])
            && (t.status != BT.Running || t.mem.index == 0 ==> Asked(r, n))
  {
    hide BT.Fits, BT.Skeleton, TI.Tidy, BT.Tick, NodeOf, KindOf, ArityProblem;
    NodeIsOfItsTag(site, e, t);
    FixedTags(site, e);
    NM.PartsFit(t, []);
    if t.status == BT.Running && t.mem.index > 0 {
      NM.IfThenElseDecidesOnce(env, t, w);
    } else {
      NM.ConditionPicksTheBranch(env, t, w);
    }
  }

  /** The condition was asked: its result decides. */
  ghost predicate Asked(r: BT.Tree, n: nat) {
    && |r.children| == n && 2 <= n <= 3
    && var condition := r.children[0].status;
       && (condition == BT.Running ==> r.status == BT.Running && r.mem.index == 0)
       && (condition == BT.Success ==> r.mem.index == 1 && r.status == r.children[1].status)
       && (condition == BT.Failure ==>
             if n == 3 then r.mem.index == 2 && r.status == r.children[2].status else r.status == BT.Failure)
  }

  /** WhileDoElse asks its condition in every tick, and halts the branch that it does not take. */
  lemma WhileDoElseMeans<W>(site: Site, e: Element, t: BT.Tree, env: BT.Env<W>, w: W)
    requires NodeOf(site, e, t) && e.tag == "WhileDoElse"
    ensures var (r, n) := (BT.Tick(env, t, w).t, |e.children|);
            && |r.children| == n && 2 <= n <= 3
            && var condition := r.children[0].status;
               && (condition == BT.Running ==> r.status == BT.Running)
               && (condition == BT.Success ==>
                     r.status == r.children[1].status && (n == 3 ==> TI.Quiet(r.children[2])))
               && (condition == BT.Failure ==>
                     TI.Quiet(r.children[1]) && r.status == if n == 3 then r.children[2].status else BT.Failure)
               && condition != BT.Invalid
  {
    hide BT.Fits, BT.Skeleton, TI.Tidy, BT.Tick, NodeOf, KindOf, ArityProblem, TI.Quiet;
    NodeIsOfItsTag(site, e, t);
    FixedTags(site, e);
    NM.PartsFit(t, []);
    NM.WhileDoElseIsReactive(env, t, w);
  }

  /** A SwitchN of N + 1 children runs the child of the first case that matches, or the last child. */
  lemma SwitchMeans<W>(site: Site, e: Element, t: BT.Tree, env: BT.Env<W>, w: W, n: nat)
    requires NodeOf(site, e, t) && 2 <= n <= 6 && e.tag == "Switch" + ["23456"[n - 2]]
    ensures var r := BT.Tick(env, t, w).t;
            var w1 := BT.Begin(env, t, w);
            && |r.children| == |e.children| == n + 1
            && exists i: nat :: i <= n && r.status == r.children[i].status
                 && (i < n ==> env.matches(t.id, i, w1)) && (forall j: nat | j < i :: !env.matches(t.id, j, w1))
                 && forall j | 0 <= j <= n && j != i :: TI.Quiet(r.children[j])
  {
    hide BT.Fits, BT.Skeleton, TI.Tidy, BT.Tick, NodeOf, KindOf, ArityProblem, TI.Quiet;
    SwitchTag(e.tag, n);
    NodeIsOfItsTag(site, e, t);
    FixedTags(site, e);
    NM.PartsFit(t, []);
    NM.SwitchRunsOneCase(env, t, n, w);
    var i := BT.MatchingCase(env, t.id, 0, n, BT.Begin(env, t, w));
  }

  // ------------------------------------------------------------------------------------ decorators

  /** The child as the tick leaves it, when the node ticks it first of all. */
  ghost function Child<W>(t: BT.Tree, env: BT.Env<W>, w: W): BT.Tree
    requires BT.Fits(BT.Skeleton(t)) && |t.children| == 1
  {
    BT.TickChild(env, t, 0, BT.Begin(env, t, w)).t.children[0]
  }

  /** Inverter, ForceSuccess and ForceFailure translate the result of their child and leave RUNNING alone. */
  lemma TranslatorsMean<W>(site: Site, e: Element, t: BT.Tree, env: BT.Env<W>, w: W)
    requires NodeOf(site, e, t) && e.tag in {"Inverter", "ForceSuccess", "ForceFailure"}
    ensures var r := BT.Tick(env, t, w).t;
            && |e.children| == |t.children| == 1 && r.children == [Child(t, env, w)]
            && match r.children[0].status
               case Running => r.status == BT.Running
               case Success => r.status == if e.tag == "ForceSuccess" then BT.Success else BT.Failure
               case Failure => r.status == if e.tag == "ForceFailure" then BT.Failure else BT.Success
               case Invalid => false
  {
    hide BT.Fits, BT.Skeleton, TI.Tidy, BT.Tick, NodeOf, KindOf, ArityProblem, BT.TickChild;
    NodeIsOfItsTag(site, e, t);
    FixedTags(site, e);
    NM.PartsFit(t, []);
    NM.PlainTick(env, t, w);
  }

  /** Timeout: a child that is still RUNNING when `msec` have passed since the start is halted, and that is a FAILURE. */
  lemma TimeoutMeans<W>(site: Site, e: Element, t: BT.Tree, env: BT.Env<W>, w: W)
    requires NodeOf(site, e, t) && e.tag == "Timeout"
    ensures |e.children| == |t.children| == 1
    ensures t.status != BT.Running && env.number(t.id, env.initialise(t.id, w)).Some? ==>
              var w1 := env.initialise(t.id, w);
              StopsLate(t, env, w, env.now(w1) + BT.Max(env.number(t.id, w1).value, 0))
    ensures t.status == BT.Running ==> StopsLate(t, env, w, t.mem.until)
  {
    hide BT.Fits, BT.Skeleton, TI.Tidy, BT.Tick, NodeOf, KindOf, ArityProblem, BT.TickChild;
    NodeIsOfItsTag(site, e, t);
    FixedTags(site, e);
    NM.PartsFit(t, []);
    if t.status == BT.Running {
      NM.TimeoutFires(env, t, w);
    } else if env.number(t.id, env.initialise(t.id, w)).Some? {
      NM.StartThenTick(env, t, w);
      var w1 := env.initialise(t.id, w);
      var u := t.(mem := BT.Configure(env, t, w1).value, status := BT.Running);
      NM.TimeoutFires(env, u, w1);
    }
  }

  /** The deadline is looked at after the child's tick; t remembers it while it is RUNNING. */
  ghost predicate StopsLate<W>(t: BT.Tree, env: BT.Env<W>, w: W, deadline: int)
    requires BT.Fits(BT.Skeleton(t)) && |t.children| == 1
  {
    var r := BT.Tick(env, t, w).t;
    var late := env.now(BT.TickChild(env, t, 0, BT.Begin(env, t, w)).w) >= deadline;
    var child := Child(t, env, w);
    && |r.children| == 1
    && if child.status == BT.Running && late then r.status == BT.Failure && TI.Quiet(r.children[0])
       else r.children == [child] && r.status == child.status
  }

  /** The node answers s without ticking its child. */
  ghost predicate Answers<W>(t: BT.Tree, env: BT.Env<W>, w: W, s: BT.Ended)
    requires BT.Fits(BT.Skeleton(t))
  {
    BT.Tick(env, t, w).t.status == s && BT.Tick(env, t, w).t.children == t.children
  }

  /** The node is its child. */
  ghost predicate IsItsChild<W>(t: BT.Tree, env: BT.Env<W>, w: W)
    requires BT.Fits(BT.Skeleton(t)) && |t.children| == 1
  {
    var r := BT.Tick(env, t, w).t;
    r.children == [Child(t, env, w)] && r.status == r.children[0].status
  }

  /** What Delay, Precondition, SkipUnlessUpdated and WaitValueUpdate do in the tick that starts them. */
  lemma GatesMean<W>(site: Site, e: Element, t: BT.Tree, env: BT.Env<W>, w: W)
    requires NodeOf(site, e, t) && t.status != BT.Running
    requires e.tag in {"Delay", "Precondition", "SkipUnlessUpdated", "WaitValueUpdate"}
    ensures |e.children| == |t.children| == 1
    ensures var w1 := env.initialise(t.id, w);
            match e.tag
            case "Delay" =>
              (match env.number(t.id, w1)
               case None => Answers(t, env, w, BT.Failure)
               case Some(ms) => if ms > 0 then Answers(t, env, w, BT.Running) else IsItsChild(t, env, w))
            case "Precondition" =>
              (match (env.otherwise(t.id, w1), env.allowed(t.id, w1))
               case (Some(otherwise), Some(allowed)) =>
                 if allowed then IsItsChild(t, env, w) else Answers(t, env, w, otherwise)
               case _ => Answers(t, env, w, BT.Failure))
            case "SkipUnlessUpdated" =>
              if env.version(t.id, w1) == t.mem.version then Answers(t, env, w, BT.Success) else IsItsChild(t, env, w)
            case _ => Answers(t, env, w, BT.Running)
  {
    hide BT.Fits, BT.Skeleton, TI.Tidy, BT.Tick, NodeOf, KindOf, ArityProblem, BT.TickChild;
    NodeIsOfItsTag(site, e, t);
    FixedTags(site, e);
    NM.PartsFit(t, []);
    NM.StartThenTick(env, t, w);
    var w1 := env.initialise(t.id, w);
    if BT.Configure(env, t, w1).Some? {
      var u := t.(mem := BT.Configure(env, t, w1).value, status := BT.Running);
      NM.GatesAreClosedOrTransparent(env, u, w1);
    }
  }

  /** RunOnce is its child until that has ended; from then on it gives that result, or SUCCESS if it is to skip. */
  lemma RunOnceMeans<W>(site: Site, e: Element, t: BT.Tree, env: BT.Env<W>, w: W)
    requires NodeOf(site, e, t) && e.tag == "RunOnce" && (t.mem.result.Some? ==> t.status != BT.Running)
    ensures |e.children| == |t.children| == 1
    ensures match t.mem.result
            case None =>
              && IsItsChild(t, env, w)
              && var r := BT.Tick(env, t, w).t;
                 r.mem.result == if r.status == BT.Running then None else Some(r.status)
            case Some(s) =>
              && Answers(t, env, w, if env.thenSkip(t.id, BT.Begin(env, t, w)) then BT.Success else s)
              && BT.Tick(env, t, w).t.mem.result == Some(s)
  {
    hide BT.Fits, BT.Skeleton, TI.Tidy, BT.Tick, NodeOf, KindOf, ArityProblem, BT.TickChild;
    NodeIsOfItsTag(site, e, t);
    FixedTags(site, e);
    NM.PartsFit(t, []);
    NM.RunOnceTick(env, t, w);
  }

  // ---------------------------------------------------------------------------------------- loops

  /**
   Repeat ends after max(1, num_cycles) successes of its child, RetryUntilSuccessful after max(1, num_attempts) failures,
   with that result; the first opposite result ends either, with the opposite. A negative number never ends them.
   */
  lemma CountersMean<W>(site: Site, e: Element, t: BT.Tree, env: BT.Env<W>, w: W, n: nat)
    requires NodeOf(site, e, t) && t.status != BT.Running && e.tag in {"Repeat", "RetryUntilSuccessful"}
    requires env.number(t.id, env.initialise(t.id, w)).Some?
    ensures var w1 := env.initialise(t.id, w);
            var limit := env.number(t.id, w1).value;
            var t1 := t.(mem := t.mem.(limit := limit, count := 0), status := BT.Running);
            var (counted, other) := if e.tag == "Repeat" then (BT.Success, BT.Failure) else (BT.Failure, BT.Success);
            && LF.CanLoop(t1) && BT.Tick(env, t, w) == BT.Tick(env, t1, w1)
            && var (s, o) := (LF.Unbounded(env, t1, n, w1).t.status, LF.Outcomes(env, t1, n, w1));
               && (s == counted ==> limit >= 0 && LF.CountOf(o, counted) == BT.Max(1, limit) && LF.CountOf(o, other) == 0)
               && (s == other ==> LF.CountOf(o, other) == 1 && o != [] && o[|o| - 1] == other
                                  && (limit >= 0 ==> LF.CountOf(o, counted) < BT.Max(1, limit)))
               && (s == BT.Running ==> LF.CountOf(o, other) == 0 && (limit >= 0 ==> LF.CountOf(o, counted) < BT.Max(1, limit)))
               && s != BT.Invalid
  {
    hide BT.Fits, BT.Skeleton, TI.Tidy, BT.Tick, NodeOf, KindOf, ArityProblem, BT.TickDecorator, LF.Unbounded, LF.Outcomes;
    NodeIsOfItsTag(site, e, t);
    FixedTags(site, e);
    NM.PartsFit(t, []);
    LF.RepeatCountsFromZero(env, t, BT.MAX_SYNC_ITERATIONS, n, w);
    NM.TickOfADecorator(env, t, w);
    var w1 := env.initialise(t.id, w);
    var t1 := t.(mem := t.mem.(limit := env.number(t.id, w1).value, count := 0), status := BT.Running);
    NM.TickOfADecorator(env, t1, w1);
  }

  /** KeepRunningUntilFailure goes on until its child has failed, and fails then. */
  lemma KeepRunningMeans<W>(site: Site, e: Element, t: BT.Tree, env: BT.Env<W>, w: W, n: nat)
    requires NodeOf(site, e, t) && t.status == BT.Running && e.tag == "KeepRunningUntilFailure"
    ensures LF.CanLoop(t)
    ensures var (s, o) := (LF.Unbounded(env, t, n, w).t.status, LF.Outcomes(env, t, n, w));
            s == if LF.CountOf(o, BT.Failure) > 0 then BT.Failure else BT.Running
  {
    hide BT.Fits, BT.Skeleton, TI.Tidy, NodeOf, KindOf, ArityProblem, LF.Unbounded, LF.Outcomes;
    NodeIsOfItsTag(site, e, t);
    FixedTags(site, e);
    NM.PartsFit(t, []);
    LF.KeepRunningLoop(env, t, n, w);
  }

  /**
   A LoopInt, LoopDouble, LoopBool or LoopString writes the items of its queue, from the first to the last, and succeeds
   only when it has written all of them; an empty queue gives its `if_empty` answer.
   */
  lemma LoopsMean<W(!new)>(site: Site, e: Element, t: BT.Tree, env: BT.Env<W>, record: W -> seq<(nat, BT.Item)>,
                           m: nat, w: W)
    requires NodeOf(site, e, t) && t.status != BT.Running && LW.Recorder(env, record)
    requires e.tag in {"LoopInt", "LoopDouble", "LoopBool", "LoopString"}
    requires env.items(t.id, env.initialise(t.id, w)).Some?
    ensures var w1 := env.initialise(t.id, w);
            var queue := env.items(t.id, w1).value;
            var first := BT.Tick(env, t, w);
            && LF.CanLoop(first.t)
            && var r := LF.Ticks(env, first.t, BT.MAX_SYNC_ITERATIONS, m, first.w);
               && LW.Written(record, t.id, r.w) + r.t.mem.queue == LW.Written(record, t.id, w) + queue
               && (r.t.status == BT.Success && queue != [] ==>
                     LW.Written(record, t.id, r.w) == LW.Written(record, t.id, w) + queue)
               && (queue == [] ==> first.t.status == env.ifEmpty(t.id, w1) && first.t.children == t.children)
  {
    hide BT.Fits, BT.Skeleton, TI.Tidy, NodeOf, KindOf, ArityProblem, LF.Ticks, BT.Tick, LW.Recorder, LW.Written, LW.Apart;
    NodeIsOfItsTag(site, e, t);
    LoopTags(site, e);
    NM.PartsFit(t, []);
    NodeIsApart(site, e, t);
    LW.ActivationWritesTheQueue(env, record, t, m, w);
    if env.items(t.id, env.initialise(t.id, w)).value == [] {
      LW.EmptyActivationAnswers(env, t, w);
    }
  }

  lemma LoopTags(site: Site, e: Element)
    requires e.tag in LOOPS
    ensures KindOf(site, e) == Some(BT.Loop) && e.tag != "SubTree"
  {
  }

  /** The builder gives no node the id of a node below it. */
  lemma NodeIsApart(site: Site, e: Element, t: BT.Tree)
    requires NodeOf(site, e, t) && |t.children| == 1 && e.tag != "SubTree"
    ensures LW.Apart(t)
  {
    hide MadeAt, BT.Fits, TI.Tidy, NumberedFrom, BuildNode, Size, NR.Has, Gated, TI.AsBuilt;
    var root :| Made(site, e, root) && OwnNode(e, root, t);
    var above, stack, yard :| MadeAt(site, e, above, stack, yard, root);
    RootIsNumbered(site, e, above, stack, yard, root);
    var own := if Gated(e) then root.children[0] else root;
    if Gated(e) {
      ChildIsNumbered(root, yard.next);
    }
    SameShape(t, own);
    ChildIsNumbered(own, yard.next);
    IdsAreInRange(own.children[0], yard.next);
    assert BT.Skeleton(t).children[0] == BT.Skeleton(t.children[0]);
    assert BT.Skeleton(own).children[0] == BT.Skeleton(own.children[0]);
  }

  lemma RootIsNumbered(site: Site, e: Element, above: string, stack: seq<string>, yard: Yard, root: BT.Tree)
    requires MadeAt(site, e, above, stack, yard, root)
    ensures NumberedFrom(root, yard.next)
  {
    hide BuildNode, NumberedFrom;
    BuiltIsReady(site, e, above, stack, yard);
  }

  lemma ChildIsNumbered(t: BT.Tree, lo: nat)
    requires NumberedFrom(t, lo) && |t.children| == 1
    ensures NumberedFrom(t.children[0], lo) && t.children[0].id < t.id
  {
    assert SizeAll(t.children[1..]) == 0;
  }

  lemma {:induction false} IdsAreInRange(t: BT.Tree, lo: nat)
    requires NumberedFrom(t, lo)
    ensures forall id: nat :: NR.Has(BT.Skeleton(t), id) ==> lo <= id <= t.id
    decreases t, 0
  {
    AllIdsAreInRange(t.children, lo);
    forall id: nat | NR.Has(BT.Skeleton(t), id)
      ensures lo <= id <= t.id
    {
      if id != t.id {
        var i :| 0 <= i < |BT.Skeleton(t).children| && NR.Has(BT.Skeleton(t).children[i], id);
        assert BT.Skeleton(t).children[i] == BT.Skeleton(t.children[i]);
      }
    }
  }

  lemma {:induction false} AllIdsAreInRange(ts: seq<BT.Tree>, lo: nat)
    requires AllNumberedFrom(ts, lo)
    ensures forall i, id: nat | 0 <= i < |ts| :: NR.Has(BT.Skeleton(ts[i]), id) ==> lo <= id < lo + SizeAll(ts)
    decreases ts, 1
  {
    hide NR.Has, BT.Skeleton;
    if ts == [] {
    } else {
      IdsAreInRange(ts[0], lo);
      AllIdsAreInRange(ts[1..], lo + Size(ts[0]));
      forall i, id: nat | 0 <= i < |ts| && NR.Has(BT.Skeleton(ts[i]), id)
        ensures lo <= id < lo + SizeAll(ts)
      {
        if i > 0 {
          assert ts[i] == ts[1..][i - 1];
        }
      }
    }
  }

  // --------------------------------------------------------------------------------------- leaves

  /** The tags of leaves take no children, and every tick of one ends with what its `update` answers. */
  lemma LeavesMean<W>(site: Site, e: Element, t: BT.Tree, events: seq<TI.Event<W>>, env: BT.Env<W>, w: W)
    requires NodeOf(site, e, t)
    requires e.tag in {"AlwaysSuccess", "AlwaysFailure", "SetBlackboard", "UnsetBlackboard", "Sleep", "ScriptCondition",
                        "WasEntryUpdated", "Script", "Wait", "ParamSet", "PlayAudio", "DockRobot", "CheckBatteryLevel",
                        "SpeakText", "NotifyPatient", "LoadNextDelivery", "NavigateTo"}
    ensures t.children == [] && e.children == []
    ensures BT.Tick(env, t, w).t.status == env.update(t.id, BT.Begin(env, t, w)).0
    ensures NC.Orderly(t.status == BT.Running, NC.CallsOver(t, events))
    ensures TI.After(t, events).status == BT.Running <==> NC.Active(t.status == BT.Running, NC.CallsOver(t, events))
  {
    hide BT.Fits, BT.Skeleton, TI.Tidy, NodeOf, KindOf, ArityProblem, NC.Orderly, NC.Active, NC.CallsOver, TI.After, BT.Tick;
    LeafTags(site, e);
    NodeIsOfItsTag(site, e, t);
    NC.LeafIsCalled(t, TI.TickBy(env, w));
    NC.LeafIsCalledInOrder(t, events);
  }

  lemma LeafTags(site: Site, e: Element)
    requires e.tag in LEAVES
    ensures KindOf(site, e) == Some(BT.Leaf) && e.tag != "SubTree"
    ensures !ArityProblem(e.tag, |e.children|) ==> e.children == []
  {
  }

  /** A tag that only a plugin knows is built unless its own builder raises, and acts as a leaf. */
  lemma PluginsMean<W>(site: Site, e: Element, t: BT.Tree, env: BT.Env<W>, w: W)
    requires NodeOf(site, e, t) && !BuiltIn(e.tag) && e.tag != "SubTree"
    ensures !site.raises(e.tag, e.attrs, |e.children|)
    ensures BT.Tick(env, t, w).t.status == env.update(t.id, BT.Begin(env, t, w)).0
  {
    hide BT.Fits, BT.Skeleton, TI.Tidy, NodeOf, ArityProblem;
    NodeIsOfItsTag(site, e, t);
  }

  // ------------------------------------------------------------------ conditions, children, subtrees

  /** The node that a condition attribute puts around the node of an element, in some state that runs keep to. */
  ghost predicate GateOf(site: Site, e: Element, t: BT.Tree) {
    && Gated(e) && BT.Fits(BT.Skeleton(t)) && TI.Tidy(t)
    && exists root :: Made(site, e, root) && BT.Skeleton(t) == BT.Skeleton(root)
  }

  /**
   The conditions of an element: `_skipIf` makes it succeed, then `_failureIf` fail, then `_successIf` succeed, then a
   `_while` that does not hold fail, and nothing of it is left RUNNING; otherwise it is what it is without them.
   */
  lemma ConditionsMean<W>(site: Site, e: Element, t: BT.Tree, env: BT.Env<W>, w: W)
    requires GateOf(site, e, t)
    ensures |t.children| == 1
    ensures var r := BT.Tick(env, t, w).t;
            if Attr(e, "_skipIf") != "" && env.holds(t.id, BT.SkipIf, w) then r.status == BT.Success && TI.Quiet(r)
            else if Attr(e, "_failureIf") != "" && env.holds(t.id, BT.FailureIf, w) then
              r.status == BT.Failure && TI.Quiet(r)
            else if Attr(e, "_successIf") != "" && env.holds(t.id, BT.SuccessIf, w) then
              r.status == BT.Success && TI.Quiet(r)
            else if Attr(e, "_while") != "" && !env.holds(t.id, BT.While, w) then r.status == BT.Failure && TI.Quiet(r)
            else IsItsChild(t, env, w)
  {
    hide BT.Fits, BT.Skeleton, TI.Tidy, BT.Tick, BT.TickChild, GateOf, Attr, TI.Quiet;
    GateIsConditional(site, e, t);
    NM.PartsFit(t, []);
    var P := NM.PRIORITY;
    if NM.Decides(env, t, P[0], w) {
      NM.ConditionPriority(env, t, w, 0);
    } else if NM.Decides(env, t, P[1], w) {
      NM.ConditionPriority(env, t, w, 1);
    } else if NM.Decides(env, t, P[2], w) {
      NM.ConditionPriority(env, t, w, 2);
    } else if NM.Decides(env, t, P[3], w) {
      NM.ConditionPriority(env, t, w, 3);
    } else {
      NM.ConditionPriority(env, t, w, 4);
    }
  }

  lemma GateIsConditional(site: Site, e: Element, t: BT.Tree)
    requires GateOf(site, e, t)
    ensures t.kind == BT.Conditional(ConditionsOf(e))
    ensures BT.Fits(BT.Skeleton(t)) && TI.Tidy(t)
  {
    hide MadeAt, BT.Fits, BT.Skeleton, TI.Tidy, Gated, ConditionsOf;
    var root :| Made(site, e, root) && BT.Skeleton(t) == BT.Skeleton(root);
    var above, stack, yard :| MadeAt(site, e, above, stack, yard, root);
    SameShape(t, root);
    RootOf(site, e, above, stack, yard, root);
  }

  /** What is made of an element is its own node, inside a wrapper if the element is gated. */
  lemma RootOf(site: Site, e: Element, above: string, stack: seq<string>, yard: Yard, root: BT.Tree)
    requires MadeAt(site, e, above, stack, yard, root)
    ensures Gated(e) ==> root.kind == BT.Conditional(ConditionsOf(e)) && |root.children| == 1
  {
    hide KindOf, ArityProblem, ConditionsOf, Registered, BuildAll, BT.Skeleton, Gated, SourceOf, Remembered;
    GatedHasConditions(e);
    if e.tag == "SubTree" {
      assert BuildNode(site, e, above, stack, yard) == BuildSubtree(site, e, Extend(above, e), stack, yard);
    }
  }

  /** The children of an element are the children of its node, one for one and in their order. */
  lemma ChildrenAreMade(site: Site, e: Element, root: BT.Tree)
    requires Made(site, e, root) && e.tag != "SubTree"
    ensures Gated(e) ==> |root.children| == 1
    ensures var own := if Gated(e) then root.children[0] else root;
            |own.children| == |e.children| && forall i | 0 <= i < |e.children| :: Made(site, e.children[i], own.children[i])
  {
    hide MadeAt, Gated, Made, BuildAll;
    var above, stack, yard := Where(site, e, root);
    OwnChildren(site, e, above, stack, yard, root);
    AllAreMade(site, e.children, Extend(above, e), stack, yard);
  }

  lemma OwnChildren(site: Site, e: Element, above: string, stack: seq<string>, yard: Yard, root: BT.Tree)
    requires MadeAt(site, e, above, stack, yard, root) && e.tag != "SubTree"
    ensures Gated(e) ==> |root.children| == 1
    ensures var kids := BuildAll(site, e.children, Extend(above, e), stack, yard);
            kids.Built? && (if Gated(e) then root.children[0] else root).children == kids.value
  {
    hide KindOf, ArityProblem, ConditionsOf, Registered, BuildAll, Gated;
    GatedHasConditions(e);
  }

  lemma Where(site: Site, e: Element, root: BT.Tree) returns (above: string, stack: seq<string>, yard: Yard)
    requires Made(site, e, root)
    ensures MadeAt(site, e, above, stack, yard, root)
  {
    hide MadeAt;
    above, stack, yard :| MadeAt(site, e, above, stack, yard, root);
  }

  lemma {:induction false} AllAreMade(site: Site, es: seq<Element>, path: string, stack: seq<string>, yard: Yard)
    ensures var b := BuildAll(site, es, path, stack, yard);
            b.Built? ==> |b.value| == |es| && forall i | 0 <= i < |es| :: Made(site, es[i], b.value[i])
    decreases |es|
  {
    hide BuildNode;
    if es == [] {
    } else {
      var first := BuildNode(site, es[0], path, stack, yard);
      if first.Built? {
        assert MadeAt(site, es[0], path, stack, yard, first.value);
        AllAreMade(site, es[1..], path, stack, first.yard);
      }
    }
  }

  /**
   A SubTree stands for the tree behind its ID, among the trees known at the time and the resolver's: its node has what is
   made of that tree for its one child, and gives its result.
   */
  lemma SubTreesMean<W>(site: Site, e: Element, above: string, stack: seq<string>, yard: Yard, root: BT.Tree, t: BT.Tree,
                        env: BT.Env<W>, w: W)
    requires MadeAt(site, e, above, stack, yard, root) && e.tag == "SubTree"
    requires OwnNode(e, root, t) && BT.Fits(BT.Skeleton(t))
    ensures |t.children| == 1 && IsItsChild(t, env, w)
    ensures exists id, child :: TR.Trims(Attr(e, "ID"), id) && BT.Skeleton(t.children[0]) == BT.Skeleton(child)
                                && MadeOf(site, TR.ElementOf(TR.Behind(site, yard.subtrees, id)), child)
  {
    hide BuildNode, ConditionsOf, FindSubtree, Gated, BT.Tick, BT.TickChild, Made, BT.Fits, BT.Skeleton, TR.Trims, MadeAt,
         Strip, TR.Behind, TR.ElementOf;
    var child, x := SubTreeIsMade(site, e, above, stack, yard, root);
    var own := if Gated(e) then root.children[0] else root;
    SameChild(t, own);
    TR.StripTrims(Attr(e, "ID"));
    TR.LookupLearns(site, yard.subtrees, SubtreeId(e));
    assert MadeOf(site, TR.ElementOf(TR.Behind(site, yard.subtrees, SubtreeId(e))), child);
    NM.PlainTick(env, t, w);
  }

  ghost predicate MadeOf(site: Site, x: Option<Element>, child: BT.Tree) {
    x.Some? && Made(site, x.value, child)
  }

  lemma SameChild(a: BT.Tree, b: BT.Tree)
    requires BT.Skeleton(a) == BT.Skeleton(b) && |b.children| == 1
    ensures |a.children| == 1 && a.kind == b.kind && BT.Skeleton(a.children[0]) == BT.Skeleton(b.children[0])
  {
    SameShape(a, b);
    assert BT.Skeleton(a).children[0] == BT.Skeleton(a.children[0]);
    assert BT.Skeleton(b).children[0] == BT.Skeleton(b.children[0]);
  }

  lemma SubTreeIsMade(site: Site, e: Element, above: string, stack: seq<string>, yard: Yard, root: BT.Tree)
    returns (child: BT.Tree, x: Element)
    requires MadeAt(site, e, above, stack, yard, root) && e.tag == "SubTree"
    ensures Gated(e) ==> |root.children| == 1
    ensures var own := if Gated(e) then root.children[0] else root;
            own.kind == BT.SubTree && own.children == [child]
    ensures FindSubtree(site, yard.subtrees, SubtreeId(e)) == Root(x) && Made(site, x, child)
  {
    hide KindOf, ArityProblem, ConditionsOf, Registered, BuildAll, BT.Skeleton, Gated, SourceOf, Remembered;
    GatedHasConditions(e);
    assert BuildNode(site, e, above, stack, yard) == BuildSubtree(site, e, Extend(above, e), stack, yard);
    x := FindSubtree(site, yard.subtrees, SubtreeId(e)).element;
    var learned := yard.(subtrees := Remembered(site, yard.subtrees, SubtreeId(e)));
    var inner := stack + [SubtreeId(e)];
    child := BuildNode(site, x, Extend(above, e), inner, learned).value;
    assert MadeAt(site, x, Extend(above, e), inner, learned, child);
  }

  lemma SwitchTag(tag: string, n: nat)
    requires 2 <= n <= 6 && tag == "Switch" + ["23456"[n - 2]]
    ensures FixedKind(tag) == Some(BT.Switch(n)) && tag != "SubTree"
  {
    assert tag[6] == "23456"[n - 2];
    assert tag == if n == 2 then "Switch2" else if n == 3 then "Switch3" else if n == 4 then "Switch4"
                  else if n == 5 then "Switch5" else "Switch6";
  }
}
