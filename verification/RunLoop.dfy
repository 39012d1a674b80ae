/**
 The run loop around a tree: ticks it until it ends, unless it is cancelled, out of time or out of ticks, and then
 halts it. The loop itself may go on for ever, so it is followed for any finite number of rounds.
 */
module RunLoop {
  import opened Wrappers
  import BT = BehaviourTrees
  import TI = TreeInvariant
  import NR = NodeRuns
  import opened RunTraces

  datatype Stop = Cancelled | TimedOut | TickLimit

  datatype Limits = Limits(deadline: Option<int>, maxTicks: Option<int>)

  /** What the loop meets in one round: what happened to the world meanwhile, and whether the run was cancelled. */
  datatype Poll<!W> = Poll(cancelled: bool, meanwhile: W -> W)

  /** The loop's variables. */
  datatype State<+W> = State(t: BT.Tree, w: W, trace: Trace, ticks: nat)

  datatype Result<+W> =
    | Going(state: State<W>)
    | Ended(state: State<W>, stop: Option<Stop>, status: BT.Status)

  /** Why the loop gives up before ticking, if it does; the first reason counts. */
  function Reason(limits: Limits, cancelled: bool, now: int, ticks: nat): Option<Stop> {
    if cancelled then Some(Cancelled)
    else if limits.deadline.Some? && now >= limits.deadline.value then Some(TimedOut)
    else if limits.maxTicks.Some? && ticks >= limits.maxTicks.value then Some(TickLimit)
    else None
  }

  /** After giving up: halts the tree and tells the listener, except at the tick limit. */
  function GiveUp<W>(env: BT.Env<W>, s: State<W>, stop: Stop): Result<W> {
    if stop == TickLimit then Ended(s, Some(stop), s.t.status)
    else
      var r := BT.Stop(env, s.t, BT.Invalid, s.w);
      Ended(s.(t := r.t, w := r.w, trace := PostTick(s.trace, r.t)), Some(stop), s.t.status)
  }

  /** One `tree.tick()` with its handlers. */
  function TreeTick<W>(env: BT.Env<W>, s: State<W>): (r: State<W>)
    requires BT.Fits(BT.Skeleton(s.t))
    ensures BT.Skeleton(r.t) == BT.Skeleton(s.t)
  {
    var r := BT.Tick(env, s.t, s.w);
    State(r.t, r.w, PostTick(s.trace, r.t), s.ticks + 1)
  }

  predicate Over(s: BT.Status) {
    s == BT.Success || s == BT.Failure
  }

  function Loop<W>(env: BT.Env<W>, limits: Limits, polls: seq<Poll<W>>, s: State<W>): Result<W>
    requires BT.Fits(BT.Skeleton(s.t))
    decreases |polls|
  {
    if polls == [] then Going(s)
    else
      var s1 := s.(w := polls[0].meanwhile(s.w));
      match Reason(limits, polls[0].cancelled, env.now(s1.w), s1.ticks)
      case Some(stop) => GiveUp(env, s1, stop)
      case None =>
        var s2 := TreeTick(env, s1);
        if Over(s2.t.status) then Ended(s2, None, s2.t.status)
        else Loop(env, limits, polls[1..], s2)
  }

  function Start<W>(t: BT.Tree, w: W): State<W> {
    State(t, w, EMPTY, 0)
  }

  // ------------------------------------------------------------------- one round

  /** The tree is tidy, and the listener knows the status of each of its nodes. */
  ghost predicate Good<W>(s: State<W>) {
    && BT.Fits(BT.Skeleton(s.t)) && TI.Tidy(s.t) && Distinct(Nodes(s.t))
    && Faithful(s.trace) && Right(s.trace.sent, Nodes(s.t))
  }

  lemma TellIsGood<W>(s: State<W>, r: State<W>)
    requires Good(s) && TI.Tidy(r.t) && BT.Skeleton(r.t) == BT.Skeleton(s.t)
    requires r.trace == PostTick(s.trace, r.t)
    ensures Good(r) && r.trace.sent == s.trace.sent + Differences(s.trace.sent, Nodes(r.t))
  {
    hide BT.Fits, BT.Skeleton, TI.Tidy, Faithful, Nodes, Distinct, Right, Differences, LookedAt;
    DistinctStays(s.t, r.t);
    LookSendsTheDifferences(s.trace, Nodes(r.t));
  }

  lemma TickIsGood<W>(env: BT.Env<W>, s: State<W>)
    requires Good(s)
    ensures Good(TreeTick(env, s))
  {
    hide BT.Fits, BT.Tick, BT.Skeleton, TI.Tidy, Faithful, Nodes, Distinct, Right, Differences, PostTick;
    TI.TickIsTidy(env, s.t, s.w);
    TellIsGood(s, TreeTick(env, s));
  }

  lemma HaltIsGood<W>(env: BT.Env<W>, s: State<W>, stop: Stop)
    requires Good(s) && stop != TickLimit
    ensures Good(GiveUp(env, s, stop).state) && TI.Quiet(GiveUp(env, s, stop).state.t)
  {
    hide BT.Fits, BT.Stop, BT.Skeleton, TI.Quiet, Faithful, Nodes, Distinct, Right, Differences, PostTick;
    assert TI.AllTidy(s.t.children);
    TI.StopIsTidy(env, s.t, BT.Invalid, s.w);
    TI.StopHaltsEverything(env, s.t, s.w);
    TellIsGood(s, GiveUp(env, s, stop).state);
  }

  // ------------------------------------------------------------------- whole runs

  lemma {:induction false} LoopIsGood<W>(env: BT.Env<W>, limits: Limits, polls: seq<Poll<W>>, s: State<W>)
    requires Good(s) && (s.t.status == if s.ticks == 0 then BT.Invalid else BT.Running)
    ensures var r := Loop(env, limits, polls, s);
            && Good(r.state)
            && (r.Ended? && r.stop != Some(TickLimit) ==> TI.Quiet(r.state.t))
            && (r.Going? || r.stop == Some(TickLimit) ==>
                  r.state.t.status == if r.state.ticks == 0 then BT.Invalid else BT.Running)
            && (r.Ended? && r.stop == None ==> Over(r.status) && r.status == r.state.t.status)
            && (r.Ended? && r.stop != None ==> r.status == if r.state.ticks == 0 then BT.Invalid else BT.Running)
    decreases |polls|
  {
    hide BT.Fits, BT.Tick, BT.Stop, TI.Tidy, Faithful, Nodes, Distinct, Right, PostTick, Reason;
    if polls == [] {
    } else {
      var s1 := s.(w := polls[0].meanwhile(s.w));
      match Reason(limits, polls[0].cancelled, env.now(s1.w), s1.ticks)
      case Some(stop) =>
        if stop != TickLimit {
          HaltIsGood(env, s1, stop);
        }
      case None =>
        TickIsGood(env, s1);
        var s2 := TreeTick(env, s1);
        if Over(s2.t.status) {
          TI.TidyIsQuiet(s2.t);
        } else {
          LoopIsGood(env, limits, polls[1..], s2);
        }
    }
  }

  lemma {:induction false} UnstartedNodes(t: BT.Tree)
    requires TI.Unstarted(t)
    ensures Right([], Nodes(t))
    decreases t, 0
  {
    UnstartedBelow(t.children);
  }

  lemma {:induction false} UnstartedBelow(ts: seq<BT.Tree>)
    requires forall i | 0 <= i < |ts| :: TI.Unstarted(ts[i])
    ensures Right([], NodesOf(ts))
    decreases ts, 1
  {
    if ts == [] {
    } else {
      UnstartedNodes(ts[0]);
      UnstartedBelow(ts[1..]);
    }
  }

  lemma StartIsGood<W>(t: BT.Tree, w: W)
    requires BT.Fits(BT.Skeleton(t)) && TI.Unstarted(t) && Distinct(Nodes(t))
    ensures Good(Start(t, w))
  {
    hide BT.Fits, BT.Skeleton, Nodes, Distinct, Faithful, TI.Tidy, TI.Unstarted, Right;
    TI.UnstartedIsTidy(t);
    UnstartedNodes(t);
    EmptyIsFaithful();
  }

  /** The live trace of every run: after every round the listener knows every node's status. */
  lemma TraceIsFaithful<W>(env: BT.Env<W>, limits: Limits, polls: seq<Poll<W>>, t: BT.Tree, w: W)
    requires BT.Fits(BT.Skeleton(t)) && TI.Unstarted(t) && Distinct(Nodes(t))
    ensures var s := Loop(env, limits, polls, Start(t, w)).state;
            && Right(s.trace.sent, Nodes(s.t)) && Genuine(s.trace.sent) && Kept(s.trace, Shown(s.trace.sent))
  {
    hide BT.Fits, BT.Skeleton, Nodes, Distinct, Right, Genuine, Kept, Loop, Shown, Believed;
    StartIsGood(t, w);
    LoopIsGood(env, limits, polls, Start(t, w));
  }

  /** No node is RUNNING after a run that ended by itself, by cancellation or by its time limit. */
  lemma EndedRunsAreQuiet<W>(env: BT.Env<W>, limits: Limits, polls: seq<Poll<W>>, t: BT.Tree, w: W)
    requires BT.Fits(BT.Skeleton(t)) && TI.Unstarted(t) && Distinct(Nodes(t))
    ensures var r := Loop(env, limits, polls, Start(t, w));
            r.Ended? ==> (TI.Quiet(r.state.t) <==> r.stop != Some(TickLimit) || r.state.ticks == 0)
  {
    hide BT.Fits, BT.Skeleton, Nodes, Distinct, Loop, Faithful, Right;
    StartIsGood(t, w);
    LoopIsGood(env, limits, polls, Start(t, w));
    var r := Loop(env, limits, polls, Start(t, w));
    if r.Ended? && r.stop == Some(TickLimit) && r.state.ticks == 0 {
      TI.TidyIsQuiet(r.state.t);
    }
  }

  /** A leaf that is never done. */
  const STUCK: BT.Env<bool> := BT.Env(
    (_, w) => w, (_, w) => (BT.Running, w), (_, _, w) => w, _ => 0, (_, _) => None, (_, _) => None, (_, _) => BT.Success,
    (_, _, w) => w, (_, _, _) => false, (_, _) => false, (_, _) => None, (_, _) => None, (_, _) => 0, (_, _, _) => false)

  const WAITING := BT.Node(0, BT.Leaf, BT.Invalid, BT.BLANK, [])

  /** And the tick limit does leave a node RUNNING: a run of one tick. */
  lemma TickLimitLeavesItRunning(w: bool)
    ensures var round: Poll<bool> := Poll(false, (x: bool) => x);
            var r := Loop(STUCK, Limits(None, Some(1)), [round, round], Start(WAITING, w));
            r.Ended? && r.stop == Some(TickLimit) && r.state.ticks == 1 && !TI.Quiet(r.state.t)
  {
    var round: Poll<bool> := Poll(false, (x: bool) => x);
    var s := Start(WAITING, w);
    var s1 := TreeTick(STUCK, s);
    assert BT.Skeleton(WAITING).children == [];
    assert BT.Tick(STUCK, WAITING, w) == BT.TickLeaf(STUCK, WAITING, w);
    assert s1.t == WAITING.(status := BT.Running) && s1.ticks == 1;
    assert [round, round][1..] == [round];
    assert Loop(STUCK, Limits(None, Some(1)), [round], s1) == Ended(s1, Some(TickLimit), BT.Running);
  }

  lemma {:induction false} QuietNodes(t: BT.Tree)
    requires TI.Quiet(t)
    ensures forall i | 0 <= i < |Nodes(t)| :: Nodes(t)[i].status != BT.Running
    decreases t, 0
  {
    QuietBelow(t.children);
  }

  lemma {:induction false} QuietBelow(ts: seq<BT.Tree>)
    requires forall i | 0 <= i < |ts| :: TI.Quiet(ts[i])
    ensures forall i | 0 <= i < |NodesOf(ts)| :: NodesOf(ts)[i].status != BT.Running
    decreases ts, 1
  {
    if ts == [] {
    } else {
      QuietNodes(ts[0]);
      QuietBelow(ts[1..]);
    }
  }

  /** So after a timeout or a cancellation nothing stays highlighted as RUNNING in the live view. */
  lemma NothingStaysHighlighted<W>(env: BT.Env<W>, limits: Limits, polls: seq<Poll<W>>, t: BT.Tree, w: W)
    requires BT.Fits(BT.Skeleton(t)) && TI.Unstarted(t) && Distinct(Nodes(t))
    ensures var r := Loop(env, limits, polls, Start(t, w));
            r.Ended? && r.stop != Some(TickLimit) ==>
              forall i | 0 <= i < |Nodes(r.state.t)| :: Believed(r.state.trace.sent, Nodes(r.state.t)[i].id) != BT.Running
  {
    hide BT.Fits, BT.Skeleton, Nodes, Distinct, Loop, Genuine, Kept, Shown, TI.Quiet, Believed;
    TraceIsFaithful(env, limits, polls, t, w);
    EndedRunsAreQuiet(env, limits, polls, t, w);
    var r := Loop(env, limits, polls, Start(t, w));
    if r.Ended? && r.stop != Some(TickLimit) {
      QuietNodes(r.state.t);
    }
  }

  /** The first `k` rounds of a run ticked the tree, each with nothing against it. */
  ghost predicate TickedThrough<W>(env: BT.Env<W>, limits: Limits, polls: seq<Poll<W>>, s: State<W>, k: nat)
    requires BT.Fits(BT.Skeleton(s.t)) && k <= |polls|
    decreases k
  {
    k == 0 ||
    var s1 := s.(w := polls[0].meanwhile(s.w));
    && !polls[0].cancelled && !PastDeadline(limits, env.now(s1.w))
    && (limits.maxTicks.Some? ==> s.ticks < limits.maxTicks.value)
    && (k > 1 ==> !Over(TreeTick(env, s1).t.status))
    && TickedThrough(env, limits, polls[1..], TreeTick(env, s1), k - 1)
  }

  /** The loop's variables after k rounds that ticked the tree. */
  ghost function Ticked<W>(env: BT.Env<W>, polls: seq<Poll<W>>, s: State<W>, k: nat): (r: State<W>)
    requires BT.Fits(BT.Skeleton(s.t)) && k <= |polls|
    ensures BT.Skeleton(r.t) == BT.Skeleton(s.t)
    decreases k
  {
    if k == 0 then s
    else Ticked(env, polls[1..], TreeTick(env, s.(w := polls[0].meanwhile(s.w))), k - 1)
  }

  /** What the clock shows in the round after those. */
  ghost function ClockAt<W>(env: BT.Env<W>, polls: seq<Poll<W>>, s: State<W>, k: nat): int
    requires BT.Fits(BT.Skeleton(s.t)) && k < |polls|
  {
    env.now(polls[k].meanwhile(Ticked(env, polls, s, k).w))
  }

  ghost predicate PastDeadline(limits: Limits, now: int) {
    limits.deadline.Some? && now >= limits.deadline.value
  }

  /** The number of ticks, and what was the matter in the round after them. */
  lemma {:induction false} StopsAtTheFirstReason<W>(env: BT.Env<W>, limits: Limits, polls: seq<Poll<W>>, s: State<W>)
    requires BT.Fits(BT.Skeleton(s.t))
    ensures var r := Loop(env, limits, polls, s);
            var k := r.state.ticks - s.ticks;
            && 0 <= k <= |polls| && TickedThrough(env, limits, polls, s, k)
            && (r.Going? ==> k == |polls|)
            && (r.Ended? && r.stop == None ==> k > 0 && Over(r.state.t.status))
            && (r.Ended? && r.stop == Some(Cancelled) ==> k < |polls| && polls[k].cancelled)
            && (r.Ended? && r.stop == Some(TimedOut) ==>
                  k < |polls| && !polls[k].cancelled && PastDeadline(limits, ClockAt(env, polls, s, k)))
            && (r.Ended? && r.stop == Some(TickLimit) ==>
                  k < |polls| && !polls[k].cancelled && !PastDeadline(limits, ClockAt(env, polls, s, k))
                  && limits.maxTicks.Some? && r.state.ticks >= limits.maxTicks.value)
            && (limits.maxTicks.Some? ==> r.state.ticks <= BT.Max(s.ticks, limits.maxTicks.value))
    decreases |polls|
  {
    hide BT.Fits, BT.Tick, BT.Stop, BT.Skeleton, PostTick;
    if polls == [] {
    } else {
      var s1 := s.(w := polls[0].meanwhile(s.w));
      if Reason(limits, polls[0].cancelled, env.now(s1.w), s1.ticks) == None {
        var s2 := TreeTick(env, s1);
        if !Over(s2.t.status) {
          StopsAtTheFirstReason(env, limits, polls[1..], s2);
        }
      }
    }
  }

  // ------------------------------------------------------------------- the tree's part in it

  /** What the loop does to the tree. */
  ghost function EventsOf<W>(env: BT.Env<W>, limits: Limits, polls: seq<Poll<W>>, s: State<W>): seq<TI.Event<W>>
    requires BT.Fits(BT.Skeleton(s.t))
    decreases |polls|
  {
    if polls == [] then []
    else
      var s1 := s.(w := polls[0].meanwhile(s.w));
      match Reason(limits, polls[0].cancelled, env.now(s1.w), s1.ticks)
      case Some(stop) => if stop == TickLimit then [] else [TI.HaltBy(env, s1.w)]
      case None =>
        var s2 := TreeTick(env, s1);
        [TI.TickBy(env, s1.w)] + if Over(s2.t.status) then [] else EventsOf(env, limits, polls[1..], s2)
  }

  /**
   The loop runs the tree: every event has its environment and begins in the world that the one before left, after what
   happened meanwhile; the tree it ends with is the one these events lead to.
   */
  ghost predicate IsRunOf<W>(env: BT.Env<W>, polls: seq<Poll<W>>, t: BT.Tree, w: W, events: seq<TI.Event<W>>, end: BT.Tree)
    requires BT.Fits(BT.Skeleton(t))
  {
    && |events| <= |polls| && end == TI.After(t, events)
    && forall j | 0 <= j < |events| ::
         events[j].env == env
         && events[j].w == polls[j].meanwhile(if j == 0 then w else NR.WorldAfter(t, events, j - 1))
  }

  lemma {:induction false} LoopIsARun<W>(env: BT.Env<W>, limits: Limits, polls: seq<Poll<W>>, s: State<W>)
    requires BT.Fits(BT.Skeleton(s.t))
    ensures IsRunOf(env, polls, s.t, s.w, EventsOf(env, limits, polls, s), Loop(env, limits, polls, s).state.t)
    decreases |polls|
  {
    hide BT.Fits, BT.Tick, BT.Stop, BT.Skeleton, PostTick, Reason;
    if polls == [] {
    } else {
      var s1 := s.(w := polls[0].meanwhile(s.w));
      var events := EventsOf(env, limits, polls, s);
      match Reason(limits, polls[0].cancelled, env.now(s1.w), s1.ticks)
      case Some(stop) =>
        if stop != TickLimit {
          NR.AfterOne(s.t, TI.HaltBy(env, s1.w));
        }
      case None =>
        var s2 := TreeTick(env, s1);
        var rest := if Over(s2.t.status) then [] else EventsOf(env, limits, polls[1..], s2);
        if !Over(s2.t.status) {
          LoopIsARun(env, limits, polls[1..], s2);
        }
        OneMoreTick(env, polls, s, rest, Loop(env, limits, polls, s).state.t);
    }
  }

  lemma OneMoreTick<W>(env: BT.Env<W>, polls: seq<Poll<W>>, s: State<W>, rest: seq<TI.Event<W>>, end: BT.Tree)
    requires BT.Fits(BT.Skeleton(s.t)) && polls != []
    requires var s2 := TreeTick(env, s.(w := polls[0].meanwhile(s.w))); IsRunOf(env, polls[1..], s2.t, s2.w, rest, end)
    ensures IsRunOf(env, polls, s.t, s.w, [TI.TickBy(env, polls[0].meanwhile(s.w))] + rest, end)
  {
    hide BT.Fits, BT.Tick, BT.Stop, BT.Skeleton, PostTick, TI.After, NR.WorldAfter;
    var e := TI.TickBy(env, polls[0].meanwhile(s.w));
    var s2 := TreeTick(env, s.(w := polls[0].meanwhile(s.w)));
    var events := [e] + rest;
    NR.AfterOne(s.t, e);
    NR.AfterBoth(s.t, [e], rest);
    forall j | 0 <= j < |events|
      ensures events[j].env == env
      ensures events[j].w == polls[j].meanwhile(if j == 0 then s.w else NR.WorldAfter(s.t, events, j - 1))
    {
      if j > 0 {
        NR.WorldAfterMore(s.t, e, rest, events, j - 1);
      }
    }
  }
}
