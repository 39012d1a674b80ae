/**
 Repeat, RetryUntilSuccessful, KeepRunningUntilFailure and Loop run a bounded number of rounds in one tick.
 The bound decides only where a tick ends: over a whole activation the child is ticked in the same states, the
 same items are written and the same status results as without any bound, whatever the bound is.
 */
module LoopFuel {
  import opened Wrappers
  import opened BehaviourTrees
  import opened TreeInvariant

  ghost predicate CanLoop(t: Tree) {
    Fits(Skeleton(t)) && |t.children| == 1 && IsLooping(t.kind)
  }

  /** n rounds with no bound on the rounds of a tick; the loop is over when the node is no longer RUNNING. */
  ghost function Unbounded<W>(env: Env<W>, t: Tree, n: nat, w: W): (r: Run<W>)
    requires CanLoop(t)
    ensures Skeleton(r.t) == Skeleton(t)
    decreases n
  {
    if n == 0 || t.status != Running then Run(t, w)
    else
      var r := NextRound(env, t, w);
      Unbounded(env, r.t, n - 1, r.w)
  }

  ghost function NextRound<W>(env: Env<W>, t: Tree, w: W): (r: Run<W>)
    requires CanLoop(t)
    ensures Skeleton(r.t) == Skeleton(t) && CanLoop(r.t)
  {
    var s := Round(env, t, w);
    SkeletonIsShape(s.t, t);
    if s.verdict == Again then Run(s.t, s.w)
    else
      var r := Finish(env, s.t, s.verdict.status, s.w);
      SkeletonIsShape(r.t, t);
      r
  }

  lemma SkeletonIsShape(a: Tree, b: Tree)
    requires Skeleton(a) == Skeleton(b)
    ensures |a.children| == |b.children| && a.kind == b.kind && a.id == b.id
  {
    assert |Skeleton(a).children| == |a.children| && |Skeleton(b).children| == |b.children|;
  }

  /** m ticks of the node, each with at most `rounds` rounds. */
  ghost function Ticks<W>(env: Env<W>, t: Tree, rounds: nat, m: nat, w: W): (r: Run<W>)
    requires CanLoop(t)
    ensures Skeleton(r.t) == Skeleton(t)
    decreases m
  {
    if m == 0 || t.status != Running then Run(t, w)
    else
      var r := TickDecorator(env, t, rounds, w);
      SkeletonIsShape(r.t, t);
      Ticks(env, r.t, rounds, m - 1, r.w)
  }

  /** A round that goes on leaves the node RUNNING. */
  lemma RoundKeepsStatus<W>(env: Env<W>, t: Tree, w: W)
    requires CanLoop(t)
    ensures Round(env, t, w).t.status == t.status && Round(env, t, w).t.kind == t.kind
  {
    SkeletonIsShape(Round(env, t, w).t, t);
  }

  lemma {:induction false} UnboundedAdds<W>(env: Env<W>, t: Tree, a: nat, b: nat, w: W)
    requires CanLoop(t)
    ensures var r := Unbounded(env, t, a, w);
            CanLoop(r.t) && Unbounded(env, t, a + b, w) == Unbounded(env, r.t, b, r.w)
    decreases a
  {
    hide Tick, NextRound, Fits, Skeleton;
    if a != 0 && t.status == Running {
      var r := NextRound(env, t, w);
      UnboundedAdds(env, r.t, a - 1, b, r.w);
    }
  }

  lemma UnboundedStep<W>(env: Env<W>, t: Tree, n: nat, w: W)
    requires CanLoop(t) && t.status == Running && n > 0
    ensures Unbounded(env, t, n, w) == Unbounded(env, NextRound(env, t, w).t, n - 1, NextRound(env, t, w).w)
  {
  }

  lemma LoopingStep<W>(env: Env<W>, t: Tree, rounds: nat, w: W)
    requires CanLoop(t)
    ensures DoStep(env, t, rounds, w) == Rounds(env, t, rounds, w)
  {
    hide Tick, Rounds;
  }

  /** The loop is over, its child goes on, or it is a Loop with nothing left to hand out. */
  ghost predicate Rests(t: Tree) {
    t.status != Running || |t.children| != 1 || t.children[0].status == Running || (t.kind.Loop? && t.mem.queue == [])
  }

  lemma RoundRests<W>(env: Env<W>, t: Tree, w: W)
    requires CanLoop(t) && Round(env, t, w).verdict.End?
    ensures var s := Round(env, t, w); Rests(Finish(env, s.t, s.verdict.status, s.w).t)
  {
    hide Tick, TickChild, Stop, RestartChild;
  }

  /** One tick with bound `rounds` is between one and `rounds` rounds of the unbounded loop. */
  lemma {:induction false} TickIsRounds<W>(env: Env<W>, t: Tree, rounds: nat, w: W) returns (k: nat)
    requires CanLoop(t) && t.status == Running && rounds >= 1
    ensures 1 <= k <= rounds
    ensures TickDecorator(env, t, rounds, w) == Unbounded(env, t, k, w)
    ensures k < rounds ==> Rests(TickDecorator(env, t, rounds, w).t)
    decreases rounds
  {
    hide Tick, DoStep, Round, Stop, Fits;
    var s := Round(env, t, w);
    RoundKeepsStatus(env, t, w);
    SkeletonIsShape(s.t, t);
    var d := DoStep(env, t, rounds, w);
    LoopingStep(env, t, rounds, w);
    if s.verdict == Again && rounds > 1 {
      LoopingStep(env, s.t, rounds - 1, s.w);
      var k' := TickIsRounds(env, s.t, rounds - 1, s.w);
      k := k' + 1;
    } else {
      k := 1;
      if s.verdict.End? {
        RoundRests(env, t, w);
      }
      if s.verdict == Again {
        assert d == Rounds(env, s.t, rounds - 1, s.w);
      }
    }
    UnboundedStep(env, t, k, w);
  }

  /** A tick of a running loop is one to fifty rounds; it stops short of fifty only where nothing is left to do at once. */
  lemma TickIsAtMostFiftyRounds<W>(env: Env<W>, t: Tree, w: W) returns (k: nat)
    requires CanLoop(t) && t.status == Running
    ensures 1 <= k <= 50 && Tick(env, t, w) == Unbounded(env, t, k, w)
    ensures k < 50 ==> Rests(Tick(env, t, w).t)
  {
    hide Tick, TickDecorator, Unbounded, Rests;
    k := TickIsRounds(env, t, MAX_SYNC_ITERATIONS, w);
    IsDecorated(env, t, w);
  }

  lemma IsDecorated<W>(env: Env<W>, t: Tree, w: W)
    requires CanLoop(t)
    ensures Tick(env, t, w) == TickDecorator(env, t, MAX_SYNC_ITERATIONS, w)
  {
    hide TickDecorator;
  }

  lemma {:induction false} TicksAreRounds<W>(env: Env<W>, t: Tree, rounds: nat, m: nat, w: W) returns (n: nat)
    requires CanLoop(t) && rounds >= 1
    ensures m <= n <= m * rounds
    ensures Ticks(env, t, rounds, m, w) == Unbounded(env, t, n, w)
    decreases m
  {
    hide Tick, TickDecorator, Fits, Skeleton, NextRound;
    if m == 0 || t.status != Running {
      n := m;
      assert m <= m * rounds by { MulGrows(m, rounds); }
    } else {
      var k := TickIsRounds(env, t, rounds, w);
      var r := TickDecorator(env, t, rounds, w);
      SkeletonIsShape(r.t, t);
      var n' := TicksAreRounds(env, r.t, rounds, m - 1, r.w);
      UnboundedAdds(env, t, k, n', w);
      n := k + n';
      assert (m - 1) * rounds + rounds == m * rounds;
    }
  }

  lemma MulGrows(m: nat, k: nat)
    requires k >= 1
    ensures m <= m * k
  {
  }

  lemma Settles<W>(env: Env<W>, t: Tree, n: nat, n': nat, w: W)
    requires CanLoop(t) && n <= n' && Unbounded(env, t, n, w).t.status != Running
    ensures Unbounded(env, t, n', w) == Unbounded(env, t, n, w)
  {
    hide NextRound;
    UnboundedAdds(env, t, n, n' - n, w);
  }

  /** The bound is transparent: a loop that ends in n unbounded rounds ends alike, in at most n ticks, under any bound. */
  lemma BoundIsTransparent<W>(env: Env<W>, t: Tree, rounds: nat, n: nat, w: W)
    requires CanLoop(t) && rounds >= 1
    ensures Unbounded(env, t, n, w).t.status != Running ==> Ticks(env, t, rounds, n, w) == Unbounded(env, t, n, w)
    ensures Ticks(env, t, rounds, n, w).t.status != Running ==>
              Unbounded(env, t, n * rounds, w) == Ticks(env, t, rounds, n, w)
  {
    var k := TicksAreRounds(env, t, rounds, n, w);
    if Unbounded(env, t, n, w).t.status != Running {
      Settles(env, t, n, k, w);
    }
    if Ticks(env, t, rounds, n, w).t.status != Running {
      Settles(env, t, k, n * rounds, w);
    }
  }

  /** Two bounds never disagree: what one ends with, the other ends with, node, child and world alike. */
  lemma BoundsAgree<W>(env: Env<W>, t: Tree, rounds: nat, rounds': nat, m: nat, w: W)
    requires CanLoop(t) && rounds >= 1 && rounds' >= 1
    requires Ticks(env, t, rounds, m, w).t.status != Running
    ensures Ticks(env, t, rounds', m * rounds, w) == Ticks(env, t, rounds, m, w)
  {
    hide Tick, TickDecorator, DoStep, CanLoop;
    BoundIsTransparent(env, t, rounds, m, w);
    BoundIsTransparent(env, t, rounds', m * rounds, w);
  }

  // ------------------------------------------------------- starting an activation

  /** The first tick configures the node and then ticks it like any other. */
  lemma StartThenLoop<W>(env: Env<W>, t: Tree, rounds: nat, w: W)
    requires CanLoop(t) && t.status != Running
    ensures var w1 := env.initialise(t.id, w);
            match Configure(env, t, w1)
            case None => TickDecorator(env, t, rounds, w).t.status == Failure
            case Some(mem) =>
              var t1 := t.(mem := mem, status := Running);
              Skeleton(t1) == Skeleton(t) && TickDecorator(env, t, rounds, w) == TickDecorator(env, t1, rounds, w1)
  {
    hide Tick;
    var w1 := env.initialise(t.id, w);
    match Configure(env, t, w1)
    case None =>
    case Some(mem) =>
      var t0 := t.(mem := mem);
      var t1 := t0.(status := Running);
      assert Skeleton(t1) == Skeleton(t0) == Skeleton(t);
      RoundsIgnoreStatus(env, t0, Running, rounds, w1);
  }

  lemma {:induction false} RoundsIgnoreStatus<W>(env: Env<W>, t: Tree, status: Status, rounds: nat, w: W)
    requires CanLoop(t)
    ensures var u := t.(status := status);
            Skeleton(u) == Skeleton(t) &&
            Rounds(env, u, rounds, w) == Rounds(env, t, rounds, w).(t := Rounds(env, t, rounds, w).t.(status := status))
    decreases rounds
  {
    hide Tick;
    var u := t.(status := status);
    assert Skeleton(u) == Skeleton(t);
    if rounds == 0 {
    } else {
      var s := Round(env, t, w);
      SkeletonIsShape(s.t, t);
      RoundIgnoresStatus(env, t, status, w);
      RoundsIgnoreStatus(env, s.t, status, rounds - 1, s.w);
    }
  }

  lemma RoundIgnoresStatus<W>(env: Env<W>, t: Tree, status: Status, w: W)
    requires CanLoop(t)
    ensures var u := t.(status := status);
            Skeleton(u) == Skeleton(t) &&
            Round(env, u, w) == Round(env, t, w).(t := Round(env, t, w).t.(status := status))
  {
    hide Tick;
    var u := t.(status := status);
    assert Skeleton(u) == Skeleton(t);
  }

  // ------------------------------------------- the status as a function of the child's outcomes

  /** What the child's tick in the next round ends with; None if the round ticks no child. */
  ghost function Outcome<W>(env: Env<W>, t: Tree, w: W): Option<Ended>
    requires CanLoop(t)
  {
    if t.kind.Loop? && t.children[0].status != Running && t.mem.queue == [] then None
    else
      var p := if t.kind.Loop? && t.children[0].status != Running then NextItem(env, t, w) else Run(t, w);
      Some(TickChild(env, p.t, 0, p.w).t.children[0].status)
  }

  /** The outcomes of the child's ticks in n rounds. */
  ghost function Outcomes<W>(env: Env<W>, t: Tree, n: nat, w: W): seq<Ended>
    requires CanLoop(t)
    decreases n
  {
    if n == 0 || t.status != Running then []
    else
      var r := NextRound(env, t, w);
      (match Outcome(env, t, w) case None => [] case Some(o) => [o]) + Outcomes(env, r.t, n - 1, r.w)
  }

  /** The items written in n rounds. */
  ghost function Items<W>(env: Env<W>, t: Tree, n: nat, w: W): seq<Item>
    requires CanLoop(t)
    decreases n
  {
    if n == 0 || t.status != Running then []
    else
      var r := NextRound(env, t, w);
      (if t.kind.Loop? && t.children[0].status != Running && t.mem.queue != [] then [t.mem.queue[0]] else [])
      + Items(env, r.t, n - 1, r.w)
  }

  function CountOf(s: seq<Ended>, x: Ended): (n: nat) {
    if s == [] then 0 else (if s[0] == x then 1 else 0) + CountOf(s[1..], x)
  }

  lemma {:induction false} CountOfPrefix(o: Ended, s: seq<Ended>, x: Ended)
    ensures CountOf([o] + s, x) == (if o == x then 1 else 0) + CountOf(s, x)
  {
    assert ([o] + s)[1..] == s;
  }

  /** The outcome that makes a counting decorator go round again. */
  function Counted(kind: Kind): Ended {
    if kind.Retry? then Failure else Success
  }

  function Opposite(kind: Kind): Ended {
    if kind.Retry? then Success else Failure
  }

  /** num_cycles or num_attempts outcomes end the loop; 0 acts like 1 and a negative number is "forever". */
  predicate Exhausted(limit: int, count: nat) {
    limit >= 0 && count >= Max(1, limit)
  }

  /** One round of Repeat or RetryUntilSuccessful in terms of the child's outcome. */
  lemma CountingRound<W>(env: Env<W>, t: Tree, w: W)
    requires CanLoop(t) && (t.kind.Repeat? || t.kind.Retry?) && t.status == Running
    ensures Outcome(env, t, w).Some?
    ensures var o := Outcome(env, t, w).value;
            var r := NextRound(env, t, w).t;
            && r.kind == t.kind
            && r.mem == t.mem.(count := t.mem.count + if o == Counted(t.kind) then 1 else 0)
            && r.status == (if o != Counted(t.kind) then o
                            else if 0 <= t.mem.limit <= t.mem.count + 1 then o else Running)
  {
    hide Tick;
    SkeletonIsShape(NextRound(env, t, w).t, t);
  }

  /** What a counting decorator that had counted `before` shows after the outcomes o. */
  ghost predicate CountedResult(kind: Kind, before: nat, limit: int, o: seq<Ended>, status: Status, count: nat) {
    && count == before + CountOf(o, Counted(kind))
    && status != Invalid
    && (status == Running ==> !Exhausted(limit, count) && CountOf(o, Opposite(kind)) == 0)
    && (status == Counted(kind) ==> limit >= 0 && count == Max(1, limit) && CountOf(o, Opposite(kind)) == 0)
    && (status == Opposite(kind) ==>
          !Exhausted(limit, count) && CountOf(o, Opposite(kind)) == 1 && o != [] && o[|o| - 1] == Opposite(kind))
  }

  lemma CountedGoesOn(kind: Kind, before: nat, limit: int, o: Ended, rest: seq<Ended>, status: Status, count: nat)
    requires o == Running || o == Counted(kind)
    requires CountedResult(kind, before + if o == Running then 0 else 1, limit, rest, status, count)
    ensures CountedResult(kind, before, limit, [o] + rest, status, count)
  {
    CountOfPrefix(o, rest, Counted(kind));
    CountOfPrefix(o, rest, Opposite(kind));
  }

  lemma CountedEnds(kind: Kind, before: nat, limit: int, o: Ended, rest: seq<Ended>)
    requires !Exhausted(limit, before) && rest == []
    requires o == Opposite(kind) || (o == Counted(kind) && 0 <= limit <= before + 1)
    ensures CountedResult(kind, before, limit, [o] + rest, o, before + if o == Counted(kind) then 1 else 0)
  {
    CountOfPrefix(o, rest, Counted(kind));
    CountOfPrefix(o, rest, Opposite(kind));
  }

  lemma OutcomesStep<W>(env: Env<W>, t: Tree, n: nat, w: W)
    requires CanLoop(t) && t.status == Running && n > 0
    ensures var r := NextRound(env, t, w);
            Outcomes(env, t, n, w)
            == (match Outcome(env, t, w) case None => [] case Some(o) => [o]) + Outcomes(env, r.t, n - 1, r.w)
  {
  }

  /**
   Repeat(N >= 0) succeeds after exactly max(1, N) child successes and RetryUntilSuccessful(N >= 0) fails after
   exactly max(1, N) child failures; otherwise the first opposite outcome decides, and until then they go on.
   */
  lemma {:induction false} CountedLoop<W>(env: Env<W>, t: Tree, n: nat, w: W)
    requires CanLoop(t) && (t.kind.Repeat? || t.kind.Retry?) && t.status == Running
    requires !Exhausted(t.mem.limit, t.mem.count)
    ensures var r := Unbounded(env, t, n, w).t;
            CountedResult(t.kind, t.mem.count, t.mem.limit, Outcomes(env, t, n, w), r.status, r.mem.count)
    decreases n
  {
    hide NextRound, Outcome;
    if n == 0 {
      assert Outcomes(env, t, n, w) == [];
    } else {
      UnboundedStep(env, t, n, w);
      OutcomesStep(env, t, n, w);
      CountingRound(env, t, w);
      var r := NextRound(env, t, w);
      var o := Outcome(env, t, w).value;
      var rest := Outcomes(env, r.t, n - 1, r.w);
      if r.t.status == Running {
        CountedLoop(env, r.t, n - 1, r.w);
        var final := Unbounded(env, r.t, n - 1, r.w).t;
        CountedGoesOn(t.kind, t.mem.count, t.mem.limit, o, rest, final.status, final.mem.count);
      } else {
        CountedEnds(t.kind, t.mem.count, t.mem.limit, o, rest);
      }
    }
  }

  /** KeepRunningUntilFailure never succeeds, and fails exactly when its child has failed. */
  lemma {:induction false} KeepRunningLoop<W>(env: Env<W>, t: Tree, n: nat, w: W)
    requires CanLoop(t) && t.kind.KeepRunning? && t.status == Running
    ensures var r := Unbounded(env, t, n, w).t;
            && (r.status == Failure || r.status == Running)
            && (r.status == Failure <==> CountOf(Outcomes(env, t, n, w), Failure) > 0)
    decreases n
  {
    hide Tick, TickChild, Fits, RestartChild;
    if n == 0 {
    } else {
      var r := NextRound(env, t, w);
      SkeletonIsShape(r.t, t);
      CountOfPrefix(Outcome(env, t, w).value, Outcomes(env, r.t, n - 1, r.w), Failure);
      if r.t.status == Running {
        KeepRunningLoop(env, r.t, n - 1, r.w);
      }
    }
  }

  ghost function Busy(t: Tree): nat
    requires |t.children| == 1
  {
    if t.children[0].status == Running then 1 else 0
  }

  /** One round of Loop from t, in which the child ended with o, leads to r. */
  ghost predicate LoopRound(t: Tree, o: Option<Ended>, r: Tree)
    requires |t.children| == 1
  {
    && |r.children| == 1 && r.kind == t.kind
    && (o.None? <==> t.children[0].status != Running && t.mem.queue == [])
    && (o.None? ==> r.mem == t.mem && Busy(r) == 0 && r.status == if t.mem.started then Success else t.mem.ifEmpty)
    && (o.Some? ==>
          && r.mem == (if Busy(t) == 1 then t.mem else t.mem.(queue := t.mem.queue[1..], started := true))
          && r.children[0].status == o.value
          && r.status == if o.value == Success then Running else o.value)
  }

  lemma LoopRoundHolds<W>(env: Env<W>, t: Tree, w: W)
    requires CanLoop(t) && t.kind.Loop? && t.status == Running
    ensures LoopRound(t, Outcome(env, t, w), NextRound(env, t, w).t)
  {
    hide Tick;
    SkeletonIsShape(NextRound(env, t, w).t, t);
  }

  /** What a Loop shows after the outcomes o and the items written, starting from `queue`. */
  ghost predicate LoopResult(started: bool, queue: seq<Item>, busy: nat, o: seq<Ended>, items: seq<Item>, r: Tree) {
    && |r.children| == 1
    && items + r.mem.queue == queue
    && CountOf(o, Success) + CountOf(o, Failure) + Busy(r) == |items| + busy
    && (r.status == Running ==> CountOf(o, Failure) == 0)
    && (r.status == Success && (started || queue != []) ==>
          r.mem.queue == [] && CountOf(o, Success) == |queue| + busy && CountOf(o, Failure) == 0)
    && (r.status == Failure && (started || queue != []) ==>
          CountOf(o, Failure) == 1 && o != [] && o[|o| - 1] == Failure)
  }

  /** Puts the first round in front of the rest. */
  lemma LoopPrepend(t: Tree, o: Option<Ended>, r: Tree, rest: seq<Ended>, items: seq<Item>, final: Tree)
    requires |t.children| == 1 && LoopRound(t, o, r) && (Busy(t) == 1 ==> t.mem.started)
    requires if r.status == Running then LoopResult(r.mem.started, r.mem.queue, Busy(r), rest, items, final)
             else rest == [] && items == [] && final == r
    ensures LoopResult(t.mem.started, t.mem.queue, Busy(t),
                       (match o case None => [] case Some(x) => [x]) + rest,
                       (if Busy(t) == 0 && t.mem.queue != [] then [t.mem.queue[0]] else []) + items, final)
  {
    match o
    case None =>
      assert [] + rest == rest && [] + items == items;
    case Some(x) =>
      CountOfPrefix(x, rest, Success);
      CountOfPrefix(x, rest, Failure);
      JoinHead(t.mem.queue, Busy(t), items, final.mem.queue);
  }

  lemma JoinHead(queue: seq<Item>, busy: nat, items: seq<Item>, left: seq<Item>)
    requires busy <= 1 && (busy == 0 ==> queue != [])
    requires items + left == if busy == 1 then queue else queue[1..]
    ensures ((if busy == 0 && queue != [] then [queue[0]] else []) + items) + left == queue
  {
    assert ((if busy == 0 && queue != [] then [queue[0]] else []) + items) + left
        == (if busy == 0 && queue != [] then [queue[0]] else []) + (items + left);
  }

  lemma ItemsStep<W>(env: Env<W>, t: Tree, n: nat, w: W)
    requires CanLoop(t) && t.kind.Loop? && t.status == Running && n > 0
    ensures var r := NextRound(env, t, w);
            Items(env, t, n, w)
            == (if Busy(t) == 0 && t.mem.queue != [] then [t.mem.queue[0]] else [])
               + Items(env, r.t, n - 1, r.w)
  {
  }

  /**
   Loop: the items written plus the items left are always the initial queue, in order, and (once it has started)
   it succeeds exactly when every item was written and its child succeeded.
   */
  lemma {:induction false} LoopConservesItems<W>(env: Env<W>, t: Tree, n: nat, w: W)
    requires CanLoop(t) && t.kind.Loop? && t.status == Running
    requires Busy(t) == 1 ==> t.mem.started
    ensures LoopResult(t.mem.started, t.mem.queue, Busy(t), Outcomes(env, t, n, w), Items(env, t, n, w),
                       Unbounded(env, t, n, w).t)
    decreases n
  {
    hide NextRound, Outcome;
    if n == 0 {
      assert Outcomes(env, t, n, w) == [] && Items(env, t, n, w) == [];
    } else {
      UnboundedStep(env, t, n, w);
      OutcomesStep(env, t, n, w);
      ItemsStep(env, t, n, w);
      LoopRoundHolds(env, t, w);
      var r := NextRound(env, t, w);
      if r.t.status == Running {
        LoopConservesItems(env, r.t, n - 1, r.w);
      }
      LoopPrepend(t, Outcome(env, t, w), r.t, Outcomes(env, r.t, n - 1, r.w), Items(env, r.t, n - 1, r.w),
                  Unbounded(env, r.t, n - 1, r.w).t);
    }
  }

  // ---------------------------------------------------------------- whole activations

  /** Repeat and RetryUntilSuccessful count from zero up to their port in every activation. */
  lemma RepeatCountsFromZero<W>(env: Env<W>, t: Tree, rounds: nat, n: nat, w: W)
    requires CanLoop(t) && (t.kind.Repeat? || t.kind.Retry?) && t.status != Running
    requires env.number(t.id, env.initialise(t.id, w)).Some?
    ensures var w1 := env.initialise(t.id, w);
            var limit := env.number(t.id, w1).value;
            var t1 := t.(mem := t.mem.(limit := limit, count := 0), status := Running);
            && CanLoop(t1) && TickDecorator(env, t, rounds, w) == TickDecorator(env, t1, rounds, w1)
            && var r := Unbounded(env, t1, n, w1).t;
               CountedResult(t.kind, 0, limit, Outcomes(env, t1, n, w1), r.status, r.mem.count)
  {
    hide Tick, TickDecorator, CountedResult, Unbounded, Outcomes;
    var w1 := env.initialise(t.id, w);
    StartThenLoop(env, t, rounds, w);
    CountedLoop(env, t.(mem := Configure(env, t, w1).value, status := Running), n, w1);
  }

  /** A Loop that begins with nothing to do gives its `if_empty` answer and does not touch its child. */
  lemma {:induction false} EmptyLoopAnswers<W>(env: Env<W>, t: Tree, n: nat, w: W)
    requires CanLoop(t) && t.kind.Loop? && t.status == Running && n > 0
    requires t.mem.queue == [] && !t.mem.started && t.children[0].status != Running
    ensures Unbounded(env, t, n, w).t == t.(status := t.mem.ifEmpty)
    decreases n
  {
    hide Tick, TickChild;
    var r := NextRound(env, t, w);
    assert r.t == t.(status := t.mem.ifEmpty);
    if t.mem.ifEmpty == Running && n > 1 {
      EmptyLoopAnswers(env, r.t, n - 1, r.w);
    }
  }

  /**
   Every activation of a Loop starts with the whole queue of its port and no item taken. If that queue is empty the
   answer is the port's `if_empty` and the child is as it was.
   */
  lemma LoopTakesTheWholeQueue<W>(env: Env<W>, t: Tree, rounds: nat, n: nat, w: W)
    requires CanLoop(t) && t.kind.Loop? && t.status != Running && Tidy(t)
    requires env.items(t.id, env.initialise(t.id, w)).Some?
    ensures var w1 := env.initialise(t.id, w);
            var queue := env.items(t.id, w1).value;
            var t1 := t.(mem := t.mem.(queue := queue, ifEmpty := env.ifEmpty(t.id, w1), started := false), status := Running);
            && CanLoop(t1) && TickDecorator(env, t, rounds, w) == TickDecorator(env, t1, rounds, w1)
            && LoopResult(false, queue, 0, Outcomes(env, t1, n, w1), Items(env, t1, n, w1), Unbounded(env, t1, n, w1).t)
            && (queue == [] && n > 0 ==>
                  Unbounded(env, t1, n, w1).t.status == env.ifEmpty(t.id, w1)
                  && Unbounded(env, t1, n, w1).t.children == t.children)
  {
    hide Tick, TickDecorator, LoopResult, Unbounded, Outcomes, Items;
    var w1 := env.initialise(t.id, w);
    StartThenLoop(env, t, rounds, w);
    var t1 := t.(mem := Configure(env, t, w1).value, status := Running);
    LoopConservesItems(env, t1, n, w1);
    if t1.mem.queue == [] && n > 0 {
      EmptyLoopAnswers(env, t1, n, w1);
    }
  }
}
